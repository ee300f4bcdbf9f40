/**
 The cache as the objects the PAM module keeps: a map of entries, each owning a
 Config object, each Config owning the slot of its verifier. What the file
 system and the clock answer during a call is the argument `io`.
 */
module Cache {
  import opened Prelude
  import opened Utf8
  import opened Jwt
  import opened Pam
  import opened Plain
  import opened OptionTheorems
  import opened CacheModel

  datatype CacheError = Read | Build

  /** Answers of stat, of open with fstat, of reading to the end, and of the clock. None: the call failed. */
  datatype Io = Io(
    stat: Option<(Inode, File)>,
    open: Option<(Inode, File)>,
    contents: Option<seq<Byte>>,
    now: nat)

  /** What a call does with the level it is about. */
  datatype Decision<T> = Refuse(error: CacheError) | Reuse | Replace(stamp: Option<Stamp>, value: T)

  /** cached: the stamp of the entry for these arguments, if there is an entry. */
  function DecideConfig(raw: seq<string>, cached: Option<Option<Stamp>>, io: Io): Decision<PamArgs> {
    match ConfigPath(raw)
    case Err(_) => Refuse(Read)
    case Ok(None) =>
      if cached.Some? then Reuse
      else (match Inline(raw) case Err(_) => Refuse(Build) case Ok(args) => Replace(None, args))
    case Ok(Some(path)) =>
      if io.stat.None? then Refuse(Read)
      else if cached == Some(Some(StampOf(io.stat.value.0, io.stat.value.1))) then Reuse
      else if io.open.None? || !Readable(ConfigCall(raw), io.open.value.1) || io.contents.None? then Refuse(Read)
      else
        match ConfigFromText(io.contents.value)
        case Some(Arguments(args)) => Replace(Settled(io.open.value.0, io.open.value.1, io.now), args)
        case _ => Refuse(Build)
  }

  function DecideVerifier(lib: Library, args: PamArgs, cached: Option<Option<Stamp>>, io: Io): Decision<JwtVerifier> {
    if args.iss.None? || args.jwks.None? || io.stat.None? then Refuse(Read)
    else if cached == Some(Some(StampOf(io.stat.value.0, io.stat.value.1))) then Reuse
    else if io.open.None? || io.contents.None? || Decode(io.contents.value).None? then Refuse(Read)
    else
      match Load(lib, PolicyOf(args, args.iss.value), Decode(io.contents.value).value)
      case Err(_) => Refuse(Build)
      case Ok(verifier) => Replace(Settled(io.open.value.0, io.open.value.1, io.now), verifier)
  }

  function StampOfEntry<T>(entry: Option<(Option<Stamp>, T)>): Option<Option<Stamp>> {
    if entry.None? then None else Some(entry.value.0)
  }

  // ---------- the decisions, in the fields of what the system answers ----------

  /** The stamp tells device, number, length and both times of this file. */
  predicate IsStampOf(stamp: Stamp, at: (Inode, File)) {
    && stamp.dev == at.0.dev && stamp.ino == at.0.number
    && stamp.len == |at.1.contents| && stamp.mtime == at.1.mtime && stamp.ctime == at.1.ctime
  }

  /** There is an entry with the stamp of this file. */
  predicate Known(cached: Option<Option<Stamp>>, at: (Inode, File)) {
    cached.Some? && cached.value.Some? && IsStampOf(cached.value.value, at)
  }

  /** The stamp to keep: that of a file which had not changed for two seconds, or none. */
  predicate Keeps(stamp: Option<Stamp>, at: (Inode, File), now: nat) {
    if at.1.ctime.secs >= 0 && at.1.ctime.nsecs >= 0
       && at.1.ctime.secs * 1_000_000_000 + at.1.ctime.nsecs + 2_000_000_000 <= now
    then stamp.Some? && IsStampOf(stamp.value, at)
    else stamp.None?
  }

  lemma StampIs(stamp: Stamp, at: (Inode, File))
    ensures IsStampOf(stamp, at) <==> stamp == StampOf(at.0, at.1)
  {
  }

  lemma KeepsSettled(at: (Inode, File), now: nat)
    ensures Keeps(Settled(at.0, at.1, now), at, now)
  {
  }

  /** Inline arguments are parsed once. */
  lemma InlineDecided(raw: seq<string>, cached: Option<Option<Stamp>>, io: Io)
    requires NamesNoFile(raw)
    ensures DecideConfig(raw, cached, io) ==
              if cached.Some? then Reuse
              else match Inline(raw) case Err(_) => Refuse(Build) case Ok(args) => Replace(None, args)
  {
    hide ConfigPath, Inline;
    ConfigPathExactly(raw);
  }

  /**
   A configuration file that is known is not read again. Otherwise it must be
   regular, and writable by its owner only, and hold UTF-8 that can be parsed.
   */
  lemma ConfigDecided(path: string, cached: Option<Option<Stamp>>, io: Io)
    ensures var decision := DecideConfig(["config=" + path], cached, io);
            && (decision.Reuse? <==> io.stat.Some? && Known(cached, io.stat.value))
            && (decision.Replace? <==>
                  && io.stat.Some? && !Known(cached, io.stat.value)
                  && io.open.Some? && io.open.value.1.regular && !io.open.value.1.shared
                  && io.contents.Some?
                  && exists text: string :: io.contents.value == Encode(text) && Config(text).Ok?)
            && (decision.Replace? ==>
                  && Keeps(decision.stamp, io.open.value, io.now)
                  && exists text: string :: io.contents.value == Encode(text) && Config(text) == Ok(decision.value))
  {
    hide ConfigPath, Config, Decode, Encode, Settled, Keeps;
    ConfigPathExactly(["config=" + path]);
    Utf8Read(io.contents);
    if io.open.Some? {
      KeepsSettled(io.open.value, io.now);
    }
  }

  /** Bytes that are UTF-8 are the encoding of the one string they decode to. */
  lemma Utf8Read(contents: Option<seq<Byte>>)
    ensures contents.Some? && Decode(contents.value).Some? ==> contents.value == Encode(Decode(contents.value).value)
    ensures contents.Some? ==> forall text :: contents.value == Encode(text) ==> Decode(contents.value) == Some(text)
  {
    hide Decode, Encode;
    if contents.Some? {
      if Decode(contents.value).Some? {
        EncodeDecode(contents.value);
      }
      forall text | contents.value == Encode(text) ensures Decode(contents.value) == Some(text) {
        DecodeEncode(text);
      }
    }
  }

  /**
   A JWKS file may be of any type and writable by anybody; what counts is that
   it holds UTF-8 that loads under the policy of the arguments.
   */
  lemma VerifierDecided(lib: Library, args: PamArgs, cached: Option<Option<Stamp>>, io: Io)
    ensures var decision := DecideVerifier(lib, args, cached, io);
            && (decision.Reuse? <==> args.iss.Some? && args.jwks.Some? && io.stat.Some? && Known(cached, io.stat.value))
            && (decision.Replace? <==>
                  && args.iss.Some? && args.jwks.Some?
                  && io.stat.Some? && !Known(cached, io.stat.value) && io.open.Some? && io.contents.Some?
                  && exists text, policy ::
                       io.contents.value == Encode(text) && HasPolicyOf(args, policy) && Load(lib, policy, text).Ok?)
            && (decision.Replace? ==>
                  && Keeps(decision.stamp, io.open.value, io.now)
                  && HasPolicyOf(args, decision.value.policy)
                  && exists text: string ::
                       && io.contents.value == Encode(text)
                       && Load(lib, decision.value.policy, text) == Ok(decision.value))
  {
    hide Load, Decode, Encode, Settled, Keeps;
    Utf8Read(io.contents);
    if io.open.Some? {
      KeepsSettled(io.open.value, io.now);
    }
    if args.iss.Some? {
      ThePolicy(args);
      if io.contents.Some? && Decode(io.contents.value).Some? {
        LoadKeepsPolicy(lib, PolicyOf(args, args.iss.value), Decode(io.contents.value).value);
      }
    }
  }

  lemma ThePolicy(args: PamArgs)
    requires args.iss.Some?
    ensures forall policy :: HasPolicyOf(args, policy) <==> policy == PolicyOf(args, args.iss.value)
  {
  }

  // ---------- the objects ----------

  class ConfigObject {
    const args: PamArgs
    var slot: Option<(Option<Stamp>, JwtVerifier)>

    constructor (args: PamArgs)
      ensures this.args == args && slot == None
    {
      this.args := args;
      slot := None;
    }

    /** A refused call leaves the slot alone; a verifier handed out is the one in the slot. */
    method GetVerifier(lib: Library, io: Io) returns (r: Result<JwtVerifier, CacheError>)
      modifies this`slot
      ensures match DecideVerifier(lib, args, StampOfEntry(old(slot)), io)
              case Refuse(e) => r == Err(e) && slot == old(slot)
              case Reuse => slot == old(slot) && slot.Some? && r == Ok(slot.value.1)
              case Replace(stamp, verifier) => r == Ok(verifier) && slot == Some((stamp, verifier))
      ensures slot != old(slot) ==> slot.Some? && HasPolicyOf(args, slot.value.1.policy)
    {
      VerifierDecided(lib, args, StampOfEntry(slot), io);
      if args.iss.None? || args.jwks.None? {
        return Err(Read);
      }
      if io.stat.None? {
        return Err(Read);
      }
      var current := StampOf(io.stat.value.0, io.stat.value.1);
      if slot.Some? && slot.value.0 == Some(current) {
        return Ok(slot.value.1);
      }
      if io.open.None? || io.contents.None? {
        return Err(Read);
      }
      var text := Decode(io.contents.value);
      if text.None? {
        return Err(Read);
      }
      var verifier := FromJwksJson(lib, PolicyOf(args, args.iss.value), text.value);
      if verifier.Err? {
        return Err(Build);
      }
      slot := Some((Settled(io.open.value.0, io.open.value.1, io.now), verifier.value));
      return Ok(verifier.value);
    }
  }

  class ConfigCache {
    var entries: map<seq<string>, (Option<Stamp>, ConfigObject)>

    constructor ()
      ensures entries == map[]
    {
      entries := map[];
    }

    function EntryFor(raw: seq<string>): Option<(Option<Stamp>, ConfigObject)>
      reads this
    {
      if raw in entries then Some(entries[raw]) else None
    }

    /**
     A hit shares the cached Config; a fill installs a new one with an empty
     slot. Config objects handed out before are never touched.
     */
    method GetConfig(raw: seq<string>, io: Io) returns (r: Result<ConfigObject, CacheError>)
      modifies this`entries
      ensures match DecideConfig(raw, StampOfEntry(old(EntryFor(raw))), io)
              case Refuse(e) => r == Err(e) && entries == old(entries)
              case Reuse => entries == old(entries) && raw in entries && r == Ok(entries[raw].1)
              case Replace(stamp, args) =>
                && r.Ok? && fresh(r.value) && r.value.args == args && r.value.slot == None
                && entries == old(entries)[raw := (stamp, r.value)]
      ensures entries != old(entries) && !NamesNoFile(raw) ==>
                io.open.Some? && io.open.value.1.regular && !io.open.value.1.shared
    {
      ConfigPathExactly(raw);
      hide ConfigPath, Inline, ConfigFromText, NamesNoFile, Settled;
      var args: PamArgs;
      var stamp: Option<Stamp>;
      match ConfigPath(raw) {
        case Err(_) =>
          return Err(Read);
        case Ok(None) =>
          if raw in entries {
            return Ok(entries[raw].1);
          }
          match Inline(raw) {
            case Err(_) => return Err(Build);
            case Ok(parsed) => args, stamp := parsed, None;
          }
        case Ok(Some(path)) =>
          if io.stat.None? {
            return Err(Read);
          }
          var current := StampOf(io.stat.value.0, io.stat.value.1);
          if raw in entries && entries[raw].0 == Some(current) {
            return Ok(entries[raw].1);
          }
          if io.open.None? || !io.open.value.1.regular || io.open.value.1.shared || io.contents.None? {
            return Err(Read);
          }
          match ConfigFromText(io.contents.value) {
            case Some(Arguments(parsed)) => args, stamp := parsed, Settled(io.open.value.0, io.open.value.1, io.now);
            case _ => return Err(Build);
          }
      }
      var config := new ConfigObject(args);
      entries := entries[raw := (stamp, config)];
      return Ok(config);
    }
  }
}
