/**
 The logical content of the SASL plugin interface: return codes, the prompt
 array shared with the application and its allocator, callbacks, output
 buffers and output parameters.
 */
module SaslFfi {
  import opened Prelude
  import opened Utf8
  import opened Rfc7628

  const SASL_INTERACT: int := 2
  const SASL_CONTINUE: int := 1
  const SASL_OK: int := 0
  const SASL_FAIL: int := -1
  const SASL_NOMEM: int := -2
  const SASL_BADPROT: int := -5
  const SASL_BADPARAM: int := -7
  const SASL_BADAUTH: int := -13
  const SASL_TOOWEAK: int := -15
  const SASL_ENCRYPT: int := -16
  const SASL_NOUSER: int := -20

  const SASL_CB_LIST_END: nat := 0
  const SASL_CB_USER: nat := 0x4001
  const SASL_CB_PASS: nat := 0x4004

  const SASL_CU_AUTHID: nat := 1
  const SASL_CU_AUTHZID: nat := 2

  const U32_SIZE: nat := 0x1_0000_0000

  // ---------- prompts ----------

  /** One entry of a prompt array. result: what the application filled in, None while it is NULL. */
  datatype Interact = Interact(
    id: nat, challenge: string, prompt: string, defresult: Option<seq<Byte>>, result: Option<seq<Byte>>, len: nat)

  /** What the interface asks of an array: an end marker, and results as long as they claim to be. */
  predicate ValidEntries(entries: seq<Interact>) {
    && (exists e | e in entries :: e.id == SASL_CB_LIST_END)
    && forall e | e in entries && e.result.Some? :: e.len <= |e.result.value|
  }

  /** The first entry with this id before the end marker. */
  function FindEntry(entries: seq<Interact>, id: nat): (r: Option<Interact>)
    ensures r.Some? ==> r.value in entries && r.value.id == id && id != SASL_CB_LIST_END
  {
    if entries == [] || entries[0].id == SASL_CB_LIST_END then None
    else if entries[0].id == id then Some(entries[0])
    else FindEntry(entries[1..], id)
  }

  /** FindEntry by position. */
  lemma {:induction false} FindEntryAt(entries: seq<Interact>, id: nat, k: nat)
    requires k < |entries| && forall j | 0 <= j < k :: entries[j].id !in {SASL_CB_LIST_END, id}
    ensures entries[k].id == SASL_CB_LIST_END ==> FindEntry(entries, id) == None
    ensures entries[k].id == id != SASL_CB_LIST_END ==> FindEntry(entries, id) == Some(entries[k])
  {
    if k == 0 {
    } else {
      assert entries[0].id !in {SASL_CB_LIST_END, id};
      FindEntryAt(entries[1..], id, k - 1);
    }
  }

  function Wanted(id: nat, challenge: string, prompt: string): Interact {
    Interact(id, challenge, prompt, None, None, 0)
  }

  const WANT_USER: Interact := Wanted(SASL_CB_USER, "Authorization Name", "Please enter an authorization name")
  const WANT_PASS: Interact := Wanted(SASL_CB_PASS, "Access Token", "Please enter Access Token (as JWT)")
  const LIST_END: Interact := Wanted(SASL_CB_LIST_END, "", "")

  function RequestEntries(wantUser: bool, wantPass: bool): (entries: seq<Interact>)
    ensures forall id | id != SASL_CB_LIST_END ::
              FindEntry(entries, id).Some? <==> (id == SASL_CB_USER && wantUser) || (id == SASL_CB_PASS && wantPass)
    ensures ValidEntries(entries)
  {
    var entries := (if wantUser then [WANT_USER] else []) + (if wantPass then [WANT_PASS] else []) + [LIST_END];
    assert LIST_END in entries;
    entries
  }

  /** The allocator of the SASL library. Only a live array can be freed, so no array is freed twice. */
  class Allocator {
    var live: set<array<Interact>>

    constructor ()
      ensures live == {}
    {
      live := {};
    }

    method Malloc(count: nat, succeeds: bool) returns (ptr: array?<Interact>)
      modifies this`live
      ensures succeeds <==> ptr != null
      ensures ptr == null ==> live == old(live)
      ensures ptr != null ==> fresh(ptr) && ptr.Length == count && live == old(live) + {ptr}
    {
      if succeeds {
        ptr := new Interact[count];
        live := live + {ptr};
      } else {
        ptr := null;
      }
    }

    method Free(ptr: array<Interact>)
      requires ptr in live
      modifies this`live
      ensures live == old(live) - {ptr}
    {
      live := live - {ptr};
    }
  }

  class Prompts {
    const allocator: Allocator
    /** Whether the application passed a place for an array at all. */
    const present: bool
    var slot: array?<Interact>

    ghost predicate Valid()
      reads this, allocator, slot
    {
      slot != null ==> present && slot in allocator.live && ValidEntries(slot[..])
    }

    /** The array the application left, if any. */
    ghost function View(): (r: Option<seq<Interact>>)
      reads this, slot
    {
      if slot == null then None else Some(slot[..])
    }

    constructor (allocator: Allocator, present: bool)
      ensures this.allocator == allocator && this.present == present && slot == null
    {
      this.allocator := allocator;
      this.present := present;
      slot := null;
    }

    /** A pointer walking the array up to the end marker. */
    method Find(id: nat) returns (r: Option<nat>)
      requires Valid()
      ensures r.Some? ==> slot != null && r.value < slot.Length && FindEntry(slot[..], id) == Some(slot[r.value])
      ensures r.None? ==> slot == null || FindEntry(slot[..], id) == None
    {
      if !present || slot == null {
        return None;
      }
      ghost var end :| 0 <= end < slot.Length && slot[end].id == SASL_CB_LIST_END;
      var p := 0;
      while true
        invariant 0 <= p <= end
        invariant forall j | 0 <= j < p :: slot[j].id !in {SASL_CB_LIST_END, id}
        decreases end - p
      {
        if slot[p].id == SASL_CB_LIST_END {
          FindEntryAt(slot[..], id, p);
          return None;
        }
        if slot[p].id == id {
          FindEntryAt(slot[..], id, p);
          return Some(p);
        }
        p := p + 1;
      }
    }

    /** Without a free function the slot is emptied and the array leaks. */
    method Release(canFree: bool)
      requires Valid()
      modifies this`slot, allocator`live
      ensures Valid() && slot == null
      ensures allocator.live == if canFree && old(slot) != null then old(allocator.live) - {old(slot)}
                                else old(allocator.live)
    {
      if present && slot != null {
        if canFree {
          allocator.Free(slot);
        }
        slot := null;
      }
    }

    method Request(wantUser: bool, wantPass: bool, allocates: bool) returns (rc: int)
      requires Valid()
      modifies this`slot, allocator`live
      ensures Valid()
      ensures rc == RequestCode(present, allocates) == if !present then -1 else if !allocates then -2 else 2
      ensures rc != SASL_INTERACT ==> slot == old(slot) && allocator.live == old(allocator.live)
      ensures rc == SASL_INTERACT ==>
                && slot != null && fresh(slot) && allocator.live == old(allocator.live) + {slot}
                && slot[..] == RequestEntries(wantUser, wantPass)
                && slot.Length == (if wantUser then 1 else 0) + (if wantPass then 1 else 0) + 1
                && (wantUser ==> slot[0].id == 0x4001) && (wantPass ==> slot[slot.Length - 2].id == 0x4004)
                && slot[slot.Length - 1].id == 0
                && (forall i | 0 <= i < slot.Length :: slot[i].result == None && slot[i].len == 0)
    {
      if !present {
        return SASL_FAIL;
      }
      var count := (if wantUser then 1 else 0) + (if wantPass then 1 else 0) + 1;
      var arr := allocator.Malloc(count, allocates);
      if arr == null {
        return SASL_NOMEM;
      }
      var i := 0;
      if wantUser {
        arr[i] := WANT_USER;
        i := i + 1;
      }
      if wantPass {
        arr[i] := WANT_PASS;
        i := i + 1;
      }
      arr[i] := LIST_END;
      assert arr[..] == RequestEntries(wantUser, wantPass);
      slot := arr;
      return SASL_INTERACT;
    }

    /** SASL_CB_USER: a prompt result first, then the callback; a missing value is no failure. */
    method GetSimpleValue(id: nat, callback: Callback) returns (v: CbValue)
      requires Valid()
      ensures v == GetSimple(View(), id, callback)
    {
      var found := Find(id);
      if found.Some? {
        var entry := slot[found.value];
        if entry.result.None? {
          return Value(None);
        }
        assert entry in slot[..];
        return Value(Some(if entry.len > 0 then entry.result.value[..entry.len] else CStr(entry.result.value)));
      }
      match callback {
        case NoTable => return Fail(SASL_FAIL);
        case Registered(None) => return Fail(SASL_FAIL);
        case Registered(Some(answer)) =>
          if answer.rc != SASL_OK {
            return Fail(answer.rc);
          }
          if answer.value.None? {
            return Value(None);
          }
          return Value(Some(CStr(answer.value.value)));
        case NotRegistered(rc) =>
          return if rc == SASL_FAIL then Value(None) else if rc == SASL_INTERACT then NeedPrompt else Fail(rc);
      }
    }

    /** SASL_CB_PASS: the value is required. */
    method GetPasswordValue(callback: Callback) returns (v: CbValue)
      requires Valid()
      ensures v == GetPassword(View(), callback)
    {
      var found := Find(SASL_CB_PASS);
      if found.Some? {
        var entry := slot[found.value];
        if entry.result.None? {
          return Fail(SASL_BADPARAM);
        }
        assert entry in slot[..];
        return Value(Some(entry.result.value[..entry.len]));
      }
      match callback {
        case NoTable => return Fail(SASL_FAIL);
        case Registered(None) => return Fail(SASL_FAIL);
        case Registered(Some(answer)) => return if answer.rc != SASL_OK then Fail(answer.rc) else Value(answer.value);
        case NotRegistered(rc) => return if rc == SASL_INTERACT then NeedPrompt else Fail(rc);
      }
    }
  }

  function RequestCode(present: bool, allocates: bool): int {
    if !present then SASL_FAIL else if !allocates then SASL_NOMEM else SASL_INTERACT
  }

  // ---------- callbacks ----------

  type Failure = rc: int | rc != SASL_OK witness SASL_FAIL

  datatype CbValue = Value(value: Option<seq<Byte>>) | NeedPrompt | Fail(rc: Failure)

  datatype Answer = Answer(rc: int, value: Option<seq<Byte>>)

  /**
   What getcallback and the callback it finds answer for one id. NoTable: there
   is no getcallback. Registered(None): it succeeds without a callback.
   */
  datatype Callback = NoTable | Registered(proc: Option<Answer>) | NotRegistered(rc: Failure)

  /** A C string: the bytes up to the terminator. */
  function CStr(bytes: seq<Byte>): (r: seq<Byte>)
    ensures 0 !in r && r <= bytes
    ensures 0 !in bytes ==> r == bytes
  {
    match Position(bytes, 0) case None => bytes case Some(n) => bytes[..n]
  }

  function GetSimple(prompts: Option<seq<Interact>>, id: nat, callback: Callback): CbValue
    requires prompts.Some? ==> ValidEntries(prompts.value)
  {
    var entry := if prompts.None? then None else FindEntry(prompts.value, id);
    if entry.Some? then
      var result := entry.value.result;
      if result.None? then Value(None)
      else Value(Some(if entry.value.len > 0 then result.value[..entry.value.len] else CStr(result.value)))
    else
      match callback
      case NoTable => Fail(SASL_FAIL)
      case Registered(None) => Fail(SASL_FAIL)
      case Registered(Some(Answer(rc, value))) =>
        if rc != SASL_OK then Fail(rc)
        else if value.None? then Value(None)
        else Value(Some(CStr(value.value)))
      case NotRegistered(rc) =>
        if rc == SASL_FAIL then Value(None) else if rc == SASL_INTERACT then NeedPrompt else Fail(rc)
  }

  function GetPassword(prompts: Option<seq<Interact>>, callback: Callback): CbValue
    requires prompts.Some? ==> ValidEntries(prompts.value)
  {
    var entry := if prompts.None? then None else FindEntry(prompts.value, SASL_CB_PASS);
    if entry.Some? then
      var result := entry.value.result;
      if result.None? then Fail(SASL_BADPARAM) else Value(Some(result.value[..entry.value.len]))
    else
      match callback
      case NoTable => Fail(SASL_FAIL)
      case Registered(None) => Fail(SASL_FAIL)
      case Registered(Some(Answer(rc, value))) => if rc != SASL_OK then Fail(rc) else Value(value)
      case NotRegistered(rc) => if rc == SASL_INTERACT then NeedPrompt else Fail(rc)
  }

  // ---------- outputs ----------

  /** The output parameters of a mechanism; authid and user are written by canon_user only. */
  datatype Params = Params(
    doneflag: int, mechSsf: int, maxoutbuf: int, encodeContext: Option<int>, encode: Option<int>,
    decodeContext: Option<int>, decode: Option<int>, paramVersion: int,
    authid: Option<seq<Byte>>, user: Option<seq<Byte>>)

  /** Done, without a security layer; the names stay. */
  function Finished(p: Params): Params {
    Params(1, 0, 0, None, None, None, None, 0, p.authid, p.user)
  }

  /** canon_user of the framework: a name and flags give a code, and may write any output parameter. */
  type CanonUser = (seq<Byte>, nat, Params) -> (int, Params)

  class OutParams {
    var doneflag: int
    var mechSsf: int
    var maxoutbuf: int
    var encodeContext: Option<int>
    var encode: Option<int>
    var decodeContext: Option<int>
    var decode: Option<int>
    var paramVersion: int
    var authid: Option<seq<Byte>>
    var user: Option<seq<Byte>>

    function Value(): Params
      reads this
    {
      Params(doneflag, mechSsf, maxoutbuf, encodeContext, encode, decodeContext, decode, paramVersion, authid, user)
    }

    method Assign(p: Params)
      modifies this
      ensures Value() == p
    {
      doneflag, mechSsf, maxoutbuf := p.doneflag, p.mechSsf, p.maxoutbuf;
      encodeContext, encode, decodeContext, decode := p.encodeContext, p.encode, p.decodeContext, p.decode;
      paramVersion, authid, user := p.paramVersion, p.authid, p.user;
    }

    method Finish()
      modifies this
      ensures Value() == Finished(old(Value()))
      ensures doneflag == 1 && mechSsf == 0 && maxoutbuf == 0 && paramVersion == 0
      ensures encodeContext == None && encode == None && decodeContext == None && decode == None
      ensures authid == old(authid) && user == old(user)
    {
      doneflag := 1;
      mechSsf := 0;
      maxoutbuf := 0;
      encodeContext := None;
      encode := None;
      decodeContext := None;
      decode := None;
      paramVersion := 0;
    }

    method Apply(canon: CanonUser, name: seq<Byte>, flags: nat) returns (rc: int)
      modifies this
      ensures (rc, Value()) == canon(name, flags, old(Value()))
    {
      var result := canon(name, flags, Value());
      Assign(result.1);
      return result.0;
    }
  }

  /** The output a step publishes; len is an unsigned 32-bit integer. */
  datatype Published = Published(ptr: Option<seq<Byte>>, len: nat)

  const NOTHING: Published := Published(None, 0)

  function Publishing(data: seq<Byte>): Published {
    Published(Some(data), |data| % U32_SIZE)
  }

  class OutBuf {
    var ptr: Option<seq<Byte>>
    var len: nat

    function Value(): Published
      reads this
    {
      Published(ptr, len)
    }

    method Clear()
      modifies this
      ensures Value() == NOTHING
    {
      ptr := None;
      len := 0;
    }

    method Publish(data: seq<Byte>)
      modifies this
      ensures Value() == Publishing(data)
    {
      ptr := Some(data);
      len := |data| % U32_SIZE;
    }
  }
}
