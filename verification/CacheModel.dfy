/**
 The two-level cache as a transition system: threads, the file system and the
 clock take turns. Between two turns of a thread anything may happen to the
 files. `hist` records every file-system state so far; it is what the theorems
 talk about and no step reads anything but its last element.
 */
module CacheModel {
  import opened Prelude
  import opened Utf8
  import opened Jwt
  import opened Pam

  // ---------- files, clock and stamps ----------

  const NANOS_PER_SEC: nat := 1_000_000_000
  const SETTLE_TIME: nat := 2 * NANOS_PER_SEC

  datatype Time = Time(secs: int, nsecs: int)

  function Nanos(t: Time): int {
    t.secs * NANOS_PER_SEC + t.nsecs
  }

  function TimeOf(nanos: nat): (t: Time)
    ensures Nanos(t) == nanos && t.secs >= 0 && t.nsecs >= 0
  {
    Time(nanos / NANOS_PER_SEC, nanos % NANOS_PER_SEC)
  }

  datatype Inode = Inode(dev: nat, number: nat)

  /** One version of a file. `shared` is write permission for group or others. */
  datatype File = File(contents: seq<Byte>, mtime: Time, ctime: Time, regular: bool, shared: bool)

  datatype Stamp = Stamp(dev: nat, ino: nat, len: nat, mtime: Time, ctime: Time)

  function StampOf(ino: Inode, file: File): Stamp {
    Stamp(ino.dev, ino.number, |file.contents|, file.mtime, file.ctime)
  }

  /** A file too young to be told apart from its next version gets no stamp, so that the next call reads it again. */
  function Settled(ino: Inode, file: File, now: nat): Option<Stamp> {
    if file.ctime.secs < 0 || file.ctime.nsecs < 0 then None
    else
      var changed := Nanos(file.ctime);
      if now < changed || now - changed < SETTLE_TIME then None else Some(StampOf(ino, file))
  }

  datatype Fs = Fs(clock: nat, files: map<Inode, File>, names: map<string, Inode>)

  /** tick: granularity of ctime. delay: bound on the time from fstat to the settle check. */
  datatype World = World(lib: Library, tick: nat, delay: nat)

  function Floor(w: World, clock: nat): (t: nat)
    requires w.tick > 0
    ensures clock - w.tick < t <= clock
  {
    clock - clock % w.tick
  }

  // ---------- what is computed from a file ----------

  datatype Built = Arguments(args: PamArgs) | Verifier(verifier: JwtVerifier)

  datatype Call = ConfigCall(raw: seq<string>) | VerifierCall(config: nat)

  function ConfigFromText(contents: seq<Byte>): Option<Built> {
    match Decode(contents)
    case None => None
    case Some(text) => match Config(text) case Err(_) => None case Ok(args) => Some(Arguments(args))
  }

  function VerifierFromText(w: World, args: PamArgs, contents: seq<Byte>): Option<Built> {
    match Decode(contents)
    case None => None
    case Some(text) =>
      if args.iss.None? then None
      else
        match Load(w.lib, PolicyOf(args, args.iss.value), text)
        case Err(_) => None
        case Ok(verifier) => Some(Verifier(verifier))
  }

  /** A configuration file must be regular and not writable by others; a JWKS file may be anything readable. */
  predicate Readable(call: Call, meta: File) {
    call.ConfigCall? ==> meta.regular && !meta.shared
  }

  function FromText(w: World, args: seq<PamArgs>, call: Call, contents: seq<Byte>): Option<Built>
    requires CallExists(args, call)
  {
    if call.ConfigCall? then ConfigFromText(contents) else VerifierFromText(w, args[call.config], contents)
  }

  /** What rereading this version of the file would give. */
  function Rebuild(w: World, args: seq<PamArgs>, call: Call, file: File): Option<Built>
    requires CallExists(args, call)
  {
    if Readable(call, file) then FromText(w, args, call, file.contents) else None
  }

  predicate CallExists(args: seq<PamArgs>, call: Call) {
    call.VerifierCall? ==> call.config < |args|
  }

  /** The file a call is about. Err: the call fails before touching a file. Ok(None): inline arguments. */
  function PathOf(args: seq<PamArgs>, call: Call): Result<Option<string>, ()>
    requires CallExists(args, call)
  {
    match call
    case ConfigCall(raw) => (match ConfigPath(raw) case Err(_) => Err(()) case Ok(path) => Ok(path))
    case VerifierCall(c) =>
      if args[c].iss.Some? && args[c].jwks.Some? then Ok(args[c].jwks) else Err(())
  }

  // ---------- states ----------

  /** Where a cached value came from: indices into the history of its fstat and of its read. */
  datatype Origin = FromInline | FromFile(ino: Inode, openAt: nat, readAt: nat)

  datatype CacheEntry = CacheEntry(stamp: Option<Stamp>, config: nat, origin: Origin)

  datatype Slot = Slot(stamp: Option<Stamp>, verifier: JwtVerifier, origin: Origin)

  datatype Outcome = Outcome(built: Built, origin: Origin, hit: bool)

  datatype Lock = CacheLock | SlotLock(config: nat)

  datatype Thread =
    | Idle
    | Called(call: Call)
    | Waiting(call: Call, statAt: nat, current: Option<Stamp>)
    | Filling(call: Call, statAt: nat)
    | Opened(call: Call, statAt: nat, ino: Inode, openAt: nat)
    | HasRead(call: Call, statAt: nat, ino: Inode, openAt: nat, readAt: nat)
    | Done(call: Call, statAt: nat, outcome: Option<Outcome>)

  /** args[c] are the arguments of Config object c, which never change; slots[c] is its verifier slot. */
  datatype Sys = Sys(
    hist: seq<Fs>,
    cache: map<seq<string>, CacheEntry>,
    args: seq<PamArgs>,
    slots: map<nat, Slot>,
    locks: map<Lock, nat>,
    threads: map<nat, Thread>)

  function Now(s: Sys): nat
    requires s.hist != []
  {
    |s.hist| - 1
  }

  function Current(s: Sys): Fs
    requires s.hist != []
  {
    s.hist[|s.hist| - 1]
  }

  function ThreadOf(s: Sys, t: nat): Thread {
    if t in s.threads then s.threads[t] else Idle
  }

  function LockOf(call: Call): Lock {
    if call.ConfigCall? then CacheLock else SlotLock(call.config)
  }

  predicate Initial(s: Sys) {
    |s.hist| == 1 && s.cache == map[] && s.args == [] && s.slots == map[] && s.locks == map[] && s.threads == map[]
  }

  // ---------- steps ----------

  datatype Step =
    | Advance(d: nat)
    | Change(ino: Inode, file: File)
    | Link(path: string, target: Inode)
    | Unlink(path: string)
    | Begin(t: nat, call: Call)
    | Stat(t: nat)
    | LockAndCompare(t: nat)
    | OpenAndFstat(t: nat)
    | ReadAll(t: nat)
    | SettleAndStore(t: nat)
    | Fail(t: nat)

  predicate IsFsStep(step: Step) {
    step.Advance? || step.Change? || step.Link? || step.Unlink?
  }

  /** Every change, creation included, sets ctime to the clock rounded down to a tick. */
  predicate FsEnabled(w: World, fs: Fs, step: Step)
    requires w.tick > 0
  {
    match step
    case Change(_, file) => file.ctime == TimeOf(Floor(w, fs.clock))
    case Link(_, target) => target in fs.files
    case _ => IsFsStep(step)
  }

  function FsApply(fs: Fs, step: Step): Fs {
    match step
    case Advance(d) => fs.(clock := fs.clock + d)
    case Change(ino, file) => fs.(files := fs.files[ino := file])
    case Link(path, target) => fs.(names := fs.names[path := target])
    case Unlink(path) => fs.(names := fs.names - {path})
    case _ => fs
  }

  predicate Resolves(fs: Fs, path: string) {
    path in fs.names && fs.names[path] in fs.files
  }

  function Resolve(fs: Fs, path: string): Inode
    requires Resolves(fs, path)
  {
    fs.names[path]
  }

  /** The value cached for a call, if there is an entry for it. */
  function CachedFor(s: Sys, call: Call): Option<(Option<Stamp>, Outcome)> {
    match call
    case ConfigCall(raw) =>
      if raw in s.cache && s.cache[raw].config < |s.args| then
        var e := s.cache[raw];
        Some((e.stamp, Outcome(Arguments(s.args[e.config]), e.origin, true)))
      else None
    case VerifierCall(c) =>
      if c in s.slots then
        var slot := s.slots[c];
        Some((slot.stamp, Outcome(Verifier(slot.verifier), slot.origin, true)))
      else None
  }

  /** Inline arguments are always fresh; a file is fresh if its stamp is the cached one. */
  function HitFor(s: Sys, call: Call, current: Option<Stamp>): Option<Outcome> {
    match CachedFor(s, call)
    case None => None
    case Some((stamp, outcome)) => if current.None? || stamp == current then Some(outcome) else None
  }

  predicate Enabled(w: World, s: Sys, step: Step)
    requires w.tick > 0 && s.hist != []
  {
    var fs := Current(s);
    if IsFsStep(step) then FsEnabled(w, fs, step)
    else
      var thread := ThreadOf(s, step.t);
      match step
      case Begin(_, call) => (thread.Idle? || thread.Done?) && CallExists(s.args, call)
      case Stat(_) =>
        thread.Called? && CallExists(s.args, thread.call) &&
        (match PathOf(s.args, thread.call)
         case Err(_) => false
         case Ok(None) => true
         case Ok(Some(path)) => Resolves(fs, path))
      case LockAndCompare(_) => thread.Waiting? && LockOf(thread.call) !in s.locks
      case OpenAndFstat(_) =>
        thread.Filling? && CallExists(s.args, thread.call) &&
        (match PathOf(s.args, thread.call)
         case Ok(Some(path)) => Resolves(fs, path) && Readable(thread.call, fs.files[Resolve(fs, path)])
         case _ => false)
      case ReadAll(_) => thread.Opened? && thread.ino in fs.files
      case SettleAndStore(_) => CanStore(w, s, thread)
      case Fail(_) => !thread.Idle? && !thread.Done? && !thread.Waiting?
  }

  /** A value was built, and the settle check happens in time. */
  predicate CanStore(w: World, s: Sys, thread: Thread)
    requires s.hist != []
  {
    match thread
    case Filling(call, _) => call.ConfigCall? && ConfigPath(call.raw) == Ok(None) && Inline(call.raw).Ok?
    case HasRead(call, _, ino, openAt, readAt) =>
      && CallExists(s.args, call)
      && openAt < |s.hist| && readAt < |s.hist| && ino in s.hist[openAt].files && ino in s.hist[readAt].files
      && FromText(w, s.args, call, s.hist[readAt].files[ino].contents).Some?
      && Current(s).clock <= s.hist[openAt].clock + w.delay
    case _ => false
  }

  function Put(s: Sys, t: nat, thread: Thread): Sys {
    s.(threads := s.threads[t := thread])
  }

  function Unlock(s: Sys, call: Call): Sys {
    s.(locks := s.locks - {LockOf(call)})
  }

  /** Writing a value and its stamp to the level the call is about. */
  function Store(s: Sys, call: Call, stamp: Option<Stamp>, built: Built, origin: Origin): Sys
    requires call.ConfigCall? <==> built.Arguments?
  {
    match call
    case ConfigCall(raw) =>
      s.(args := s.args + [built.args], cache := s.cache[raw := CacheEntry(stamp, |s.args|, origin)])
    case VerifierCall(c) =>
      s.(slots := s.slots[c := Slot(stamp, built.verifier, origin)])
  }

  function StoreAndReturn(w: World, s: Sys, t: nat, thread: Thread): Sys
    requires s.hist != [] && CanStore(w, s, thread)
  {
    match thread
    case Filling(call, statAt) =>
      var built := Arguments(Inline(call.raw).value);
      Put(Unlock(Store(s, call, None, built, FromInline), call), t,
          Done(call, statAt, Some(Outcome(built, FromInline, false))))
    case HasRead(call, statAt, ino, openAt, readAt) =>
      var built := FromText(w, s.args, call, s.hist[readAt].files[ino].contents).value;
      var stamp := Settled(ino, s.hist[openAt].files[ino], Current(s).clock);
      var origin := FromFile(ino, openAt, readAt);
      Put(Unlock(Store(s, call, stamp, built, origin), call), t,
          Done(call, statAt, Some(Outcome(built, origin, false))))
  }

  function Apply(w: World, s: Sys, step: Step): Sys
    requires w.tick > 0 && s.hist != [] && Enabled(w, s, step)
  {
    var fs := Current(s);
    if IsFsStep(step) then s.(hist := s.hist + [FsApply(fs, step)])
    else
      var t := step.t;
      var thread := ThreadOf(s, t);
      match step
      case Begin(_, call) => Put(s, t, Called(call))
      case Stat(_) =>
        var current :=
          match PathOf(s.args, thread.call)
          case Ok(Some(path)) => Some(StampOf(Resolve(fs, path), fs.files[Resolve(fs, path)]))
          case _ => None;
        Put(s, t, Waiting(thread.call, Now(s), current))
      case LockAndCompare(_) =>
        var hit := HitFor(s, thread.call, thread.current);
        if hit.Some? then Put(s, t, Done(thread.call, thread.statAt, hit))
        else Put(s.(locks := s.locks[LockOf(thread.call) := t]), t, Filling(thread.call, thread.statAt))
      case OpenAndFstat(_) =>
        var ino := Resolve(fs, PathOf(s.args, thread.call).value.value);
        Put(s, t, Opened(thread.call, thread.statAt, ino, Now(s)))
      case ReadAll(_) => Put(s, t, HasRead(thread.call, thread.statAt, thread.ino, thread.openAt, Now(s)))
      case SettleAndStore(_) => StoreAndReturn(w, s, t, thread)
      case Fail(_) =>
        var failed := Done(thread.call, if thread.Called? then Now(s) else thread.statAt, None);
        Put(if thread.Called? then s else Unlock(s, thread.call), t, failed)
  }

  function Execute(w: World, s: Sys, steps: seq<Step>): Option<Sys>
    requires w.tick > 0
    decreases |steps|
  {
    if steps == [] then Some(s)
    else if s.hist == [] || !Enabled(w, s, steps[0]) then None
    else Execute(w, Apply(w, s, steps[0]), steps[1..])
  }

  ghost predicate Reachable(w: World, s: Sys)
    requires w.tick > 0
  {
    exists init, steps :: Initial(init) && Execute(w, init, steps) == Some(s)
  }
}
