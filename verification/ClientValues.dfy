/**
 What the application supplies to the client, in the fields of the prompt array
 and the answers of the callbacks: the identifiers, codes and lengths are those
 of the Cyrus SASL headers, written as numbers.
 */
module ClientValues {
  import opened Prelude
  import opened Utf8
  import opened SaslFfi
  import opened SaslClient

  // ---------- entries and strings ----------

  /** Entry k is the first one with this id, and no end marker comes before it. */
  predicate FirstEntry(entries: seq<Interact>, id: nat, k: nat) {
    && id != 0 && k < |entries| && entries[k].id == id
    && forall j | 0 <= j < k :: entries[j].id != id && entries[j].id != 0
  }

  /** The array, if there is one, has this entry first under its id. */
  ghost predicate Entered(prompts: Option<seq<Interact>>, id: nat, e: Interact) {
    prompts.Some? && exists k: nat :: FirstEntry(prompts.value, id, k) && prompts.value[k] == e
  }

  ghost predicate NotEntered(prompts: Option<seq<Interact>>, id: nat) {
    forall e :: !Entered(prompts, id, e)
  }

  /** s is the C string at the front of bytes: up to the first NUL, or all if there is none. */
  predicate UpToNul(bytes: seq<Byte>, s: seq<Byte>) {
    s <= bytes && 0 !in s && (|s| < |bytes| ==> bytes[|s|] == 0)
  }

  lemma CStrIs(bytes: seq<Byte>, s: seq<Byte>)
    ensures UpToNul(bytes, s) <==> s == CStr(bytes)
  {
    var c := CStr(bytes);
    assert |c| < |bytes| ==> bytes[|c|] == 0;
    assert forall j | 0 <= j < |c| :: c[j] == bytes[j];
    if UpToNul(bytes, s) {
      assert forall j | 0 <= j < |s| :: s[j] == bytes[j];
      assert s == bytes[..|s|];
    }
  }

  lemma {:induction false} FoundFirst(entries: seq<Interact>, id: nat) returns (k: nat)
    requires FindEntry(entries, id).Some?
    ensures FirstEntry(entries, id, k) && FindEntry(entries, id) == Some(entries[k])
  {
    k := 0;
    if entries[0].id != id {
      k := FoundFirst(entries[1..], id);
      k := k + 1;
      assert forall j | 0 < j < |entries| :: entries[1..][j - 1] == entries[j];
    }
  }

  lemma FindExactly(entries: seq<Interact>, id: nat)
    ensures forall e :: FindEntry(entries, id) == Some(e) <==> Entered(Some(entries), id, e)
    ensures FindEntry(entries, id) == None <==> NotEntered(Some(entries), id)
  {
    if FindEntry(entries, id).Some? {
      var k := FoundFirst(entries, id);
    }
    hide FindEntry;
    forall k: nat | FirstEntry(entries, id, k) ensures FindEntry(entries, id) == Some(entries[k]) {
      FindEntryAt(entries, id, k);
    }
  }

  /** The entry for an id, as the client looks it up. */
  function EntryFor(prompts: Option<seq<Interact>>, id: nat): Option<Interact> {
    if prompts.None? then None else FindEntry(prompts.value, id)
  }

  lemma EntryForIs(prompts: Option<seq<Interact>>, id: nat)
    ensures forall e :: EntryFor(prompts, id) == Some(e) <==> Entered(prompts, id, e)
    ensures EntryFor(prompts, id) == None <==> NotEntered(prompts, id)
  {
    if prompts.Some? {
      FindExactly(prompts.value, id);
    }
    hide FindEntry;
  }

  // ---------- what is given ----------

  /** The value of an entry for a name: NULL, its first len bytes, or its C string if len is 0. */
  predicate NameEntered(e: Interact, name: Option<seq<Byte>>) {
    match name
    case None => e.result.None?
    case Some(bytes) =>
      && e.result.Some?
      && if e.len > 0 then e.len <= |e.result.value| && bytes == e.result.value[..e.len]
         else UpToNul(e.result.value, bytes)
  }

  /** The answer of a callback for a name; none needs to be registered. */
  predicate NameAnswered(callback: Callback, name: Option<seq<Byte>>) {
    match name
    case None => callback == NotRegistered(-1) || callback == Registered(Some(Answer(0, None)))
    case Some(bytes) =>
      && callback.Registered? && callback.proc.Some? && callback.proc.value.rc == 0
      && callback.proc.value.value.Some? && UpToNul(callback.proc.value.value.value, bytes)
  }

  /** The name supplied under 0x4001: by the array if it has an entry for it, or else by the callback. */
  ghost predicate GivesName(prompts: Option<seq<Interact>>, callback: Callback, name: Option<seq<Byte>>) {
    || (exists e :: Entered(prompts, 0x4001, e) && NameEntered(e, name))
    || (NotEntered(prompts, 0x4001) && NameAnswered(callback, name))
  }

  /** The token supplied under 0x4004: the first len bytes of the entry, or else the secret of the callback. */
  ghost predicate GivesToken(prompts: Option<seq<Interact>>, callback: Callback, token: seq<Byte>) {
    || (exists e :: Entered(prompts, 0x4004, e) && e.result.Some? && e.len <= |e.result.value|
                    && token == e.result.value[..e.len])
    || (NotEntered(prompts, 0x4004) && callback == Registered(Some(Answer(0, Some(token)))))
  }

  /** The values are to be prompted for: no entry, and getcallback says so. */
  ghost predicate ToPrompt(prompts: Option<seq<Interact>>, id: nat, callback: Callback) {
    NotEntered(prompts, id) && callback == NotRegistered(2)
  }

  /** The code of a callback that cannot be asked, or fails; a name need not be registered, so that is no failure. */
  predicate CallbackFails(callback: Callback, optional: bool, rc: int) {
    match callback
    case NoTable => rc == -1
    case Registered(None) => rc == -1
    case Registered(Some(Answer(code, _))) => code != 0 && rc == code
    case NotRegistered(code) => code != 2 && !(optional && code == -1) && rc == code
  }

  ghost predicate NameFails(prompts: Option<seq<Interact>>, callback: Callback, rc: int) {
    NotEntered(prompts, 0x4001) && CallbackFails(callback, true, rc)
  }

  /** A token is required: NULL is a bad parameter. */
  ghost predicate TokenFails(prompts: Option<seq<Interact>>, callback: Callback, rc: int) {
    || ((exists e :: Entered(prompts, 0x4004, e) && e.result.None?) && rc == -7)
    || (NotEntered(prompts, 0x4004) && CallbackFails(callback, false, rc))
    || (NotEntered(prompts, 0x4004) && callback == Registered(Some(Answer(0, None))) && rc == -7)
  }

  // ---------- the look-ups of the client give exactly that ----------

  lemma EntryOrCallback(prompts: Option<seq<Interact>>, id: nat)
    ensures EntryFor(prompts, id).Some? ==>
              && Entered(prompts, id, EntryFor(prompts, id).value) && !NotEntered(prompts, id)
              && forall e | Entered(prompts, id, e) :: e == EntryFor(prompts, id).value
    ensures EntryFor(prompts, id).None? ==> NotEntered(prompts, id)
  {
    EntryForIs(prompts, id);
    hide EntryFor, Entered;
  }

  /** An optional value is given, to be prompted for, or fails; and only one of these. */
  lemma NameExactly(prompts: Option<seq<Interact>>, callback: Callback)
    requires prompts.Some? ==> ValidEntries(prompts.value)
    ensures var v := GetSimple(prompts, SASL_CB_USER, callback);
            && (forall name :: v == Value(name) <==> GivesName(prompts, callback, name))
            && (v == NeedPrompt <==> ToPrompt(prompts, 0x4001, callback))
            && (forall rc: int :: v.Fail? && v.rc == rc <==> NameFails(prompts, callback, rc))
  {
    EntryOrCallback(prompts, 0x4001);
    var entry := EntryFor(prompts, 0x4001);
    if entry.Some? && entry.value.result.Some? {
      forall s: seq<Byte> ensures UpToNul(entry.value.result.value, s) <==> s == CStr(entry.value.result.value) {
        CStrIs(entry.value.result.value, s);
      }
    }
    match callback {
      case Registered(Some(Answer(_, Some(bytes)))) =>
        forall s: seq<Byte> ensures UpToNul(bytes, s) <==> s == CStr(bytes) {
          CStrIs(bytes, s);
        }
      case _ =>
    }
    hide FindEntry, Entered, NotEntered, CStr, UpToNul;
  }

  /** The same for the token. */
  lemma TokenExactly(prompts: Option<seq<Interact>>, callback: Callback)
    requires prompts.Some? ==> ValidEntries(prompts.value)
    ensures var v := GetPassword(prompts, callback);
            && (forall token :: v == Value(Some(token)) <==> GivesToken(prompts, callback, token))
            && (v == NeedPrompt <==> ToPrompt(prompts, 0x4004, callback))
            && (forall rc: int :: (v.Fail? && v.rc == rc) || (v == Value(None) && rc == -7)
                  <==> TokenFails(prompts, callback, rc))
  {
    EntryOrCallback(prompts, 0x4004);
    hide FindEntry, Entered, NotEntered;
  }

  // ---------- what the client holds ----------

  /** The name supplied is this authzid; none, or an empty one, is no authzid. */
  predicate NamesAuthzid(name: Option<seq<Byte>>, authzid: Option<string>) {
    match authzid
    case None => name == None || name == Some([])
    case Some(a) => a != "" && name == Some(Encode(a))
  }

  /** The application has supplied an authzid and a token, both in UTF-8, and the connection is strong enough. */
  ghost predicate Holds(app: App, v: ClientView, authzid: Option<string>, token: string) {
    && !app.ssfTooWeak && app.canon.Some?
    && GivesToken(v.prompts, app.pass, Encode(token))
    && exists name :: GivesName(v.prompts, app.user, name) && NamesAuthzid(name, authzid)
  }

  /** The client's own checks give these two values. */
  predicate Collected(app: App, v: ClientView, authzid: Option<string>, token: string)
    requires v.Valid()
  {
    var user, pass := GetSimple(v.prompts, SASL_CB_USER, app.user), GetPassword(v.prompts, app.pass);
    !app.ssfTooWeak && !user.NeedPrompt? && !pass.NeedPrompt? && CheckValues(app, user, pass) == Ok((authzid, token))
  }

  lemma TextOf(bytes: seq<Byte>)
    ensures forall s: string :: bytes == Encode(s) <==> Decode(bytes) == Some(s)
  {
    hide Encode, Decode;
    forall s: string ensures bytes == Encode(s) <==> Decode(bytes) == Some(s) {
      DecodeEncode(s);
      if Decode(bytes) == Some(s) {
        EncodeDecode(bytes);
      }
    }
  }

  lemma AuthzidIs(name: Option<seq<Byte>>, authzid: Option<string>)
    ensures NamesAuthzid(name, authzid) <==>
              match NonEmpty(name)
              case None => authzid == None
              case Some(bytes) => authzid.Some? && Decode(bytes) == authzid
  {
    if name.Some? {
      TextOf(name.value);
      EncodeNothing(name.value);
    }
    hide Encode, Decode;
  }

  lemma EncodeNothing(bytes: seq<Byte>)
    ensures Decode(bytes) == Some("") <==> bytes == []
  {
    if Decode(bytes) == Some("") {
      EncodeDecode(bytes);
    }
  }

  /** The client collects exactly what the application supplied. */
  lemma HoldsExactly(app: App, v: ClientView, authzid: Option<string>, token: string)
    requires v.Valid()
    ensures Holds(app, v, authzid, token) <==> Collected(app, v, authzid, token)
  {
    NameExactly(v.prompts, app.user);
    TokenExactly(v.prompts, app.pass);
    hide GetSimple, GetPassword, GivesName, GivesToken, NameFails, TokenFails, ToPrompt, Decode, Encode;
    var user, pass := GetSimple(v.prompts, SASL_CB_USER, app.user), GetPassword(v.prompts, app.pass);
    if user.Value? {
      AuthzidIs(user.value, authzid);
      if pass.Value? && pass.value.Some? {
        TextOf(pass.value.value);
      }
    }
    hide NamesAuthzid;
  }
}
