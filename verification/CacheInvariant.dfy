/**
 The invariant of the cache: what is cached under a stamp is what the file with
 that stamp holds, for as long as any file has it. That part needs the settle
 check to happen within SETTLE_TIME minus one tick of the fstat; the rest does not.
 */
module CacheInvariant {
  import opened Prelude
  import opened Utf8
  import opened Pam
  import opened CacheModel

  /** The settle check comes at least a tick before a change could go unnoticed. */
  predicate InTime(w: World) {
    w.delay + w.tick <= SETTLE_TIME
  }

  // ---------- one file over time ----------

  /** The history did not change, or one file-system step was appended. */
  ghost predicate Grows(w: World, hist: seq<Fs>, hist': seq<Fs>)
    requires w.tick > 0 && hist != []
  {
    var last := hist[|hist| - 1];
    hist' == hist || exists step :: IsFsStep(step) && FsEnabled(w, last, step) && hist' == hist + [FsApply(last, step)]
  }

  ghost predicate HistOk(hist: seq<Fs>) {
    hist != [] && forall k | 0 <= k < |hist| :: hist[k].clock <= hist[|hist| - 1].clock
  }

  ghost predicate SameAt(hist: seq<Fs>, ino: Inode, o: nat, k: nat) {
    o < |hist| && k < |hist| && ino in hist[o].files && ino in hist[k].files && hist[k].files[ino] == hist[o].files[ino]
  }

  /** At k the file has a ctime less than a tick before the clock at o, or later. */
  ghost predicate LateAt(w: World, hist: seq<Fs>, ino: Inode, o: nat, k: nat) {
    o < |hist| && k < |hist| && ino in hist[k].files && Nanos(hist[k].files[ino].ctime) > hist[o].clock - w.tick
  }

  /** Since o the file is the same, or its ctime is late from some point on. */
  ghost predicate Tracked(w: World, hist: seq<Fs>, ino: Inode, o: nat) {
    && o < |hist| && ino in hist[o].files
    && (forall k | o <= k < |hist| :: SameAt(hist, ino, o, k) || LateAt(w, hist, ino, o, k))
    && (forall j, k | o <= j <= k < |hist| && LateAt(w, hist, ino, o, j) :: LateAt(w, hist, ino, o, k))
  }

  lemma TrackedGrows(w: World, hist: seq<Fs>, hist': seq<Fs>, ino: Inode, o: nat)
    requires w.tick > 0 && HistOk(hist) && Grows(w, hist, hist') && Tracked(w, hist, ino, o)
    ensures Tracked(w, hist', ino, o)
  {
    if hist' != hist {
      var n := |hist|;
      assert forall k | 0 <= k < n :: hist'[k] == hist[k];
      forall k | o <= k < |hist'| ensures SameAt(hist', ino, o, k) || LateAt(w, hist', ino, o, k) {
        assert SameAt(hist, ino, o, n - 1) || LateAt(w, hist, ino, o, n - 1);
        assert k < n ==> SameAt(hist, ino, o, k) || LateAt(w, hist, ino, o, k);
      }
      forall j, k | o <= j <= k < |hist'| && LateAt(w, hist', ino, o, j) ensures LateAt(w, hist', ino, o, k) {
        if j < n {
          assert LateAt(w, hist, ino, o, j) && LateAt(w, hist, ino, o, n - 1);
          assert k < n ==> LateAt(w, hist, ino, o, k);
        }
      }
    }
  }

  lemma HistGrows(w: World, hist: seq<Fs>, hist': seq<Fs>)
    requires w.tick > 0 && HistOk(hist) && Grows(w, hist, hist')
    ensures HistOk(hist') && |hist| <= |hist'| && hist'[..|hist|] == hist
  {
    if hist' != hist {
      assert forall k | 0 <= k < |hist| :: hist'[k] == hist[k];
    }
  }

  /**
   The heart of the argument: a file whose stamp at k is the one it had at o
   has not changed in between, unless its ctime at o was already late.
   */
  lemma SameStampSameFile(w: World, hist: seq<Fs>, ino: Inode, o: nat, r: nat, k: nat)
    requires Tracked(w, hist, ino, o) && !LateAt(w, hist, ino, o, o)
    requires o <= r <= k < |hist| && ino in hist[k].files
    requires StampOf(ino, hist[k].files[ino]) == StampOf(ino, hist[o].files[ino])
    ensures SameAt(hist, ino, o, r) && SameAt(hist, ino, o, k)
  {
    assert !LateAt(w, hist, ino, o, k);
    assert !LateAt(w, hist, ino, o, r);
  }

  /** A settled stamp is not late, if the check came in time. */
  lemma SettledIsNotLate(w: World, hist: seq<Fs>, ino: Inode, o: nat)
    requires o < |hist| && ino in hist[o].files && hist != []
    requires hist[|hist| - 1].clock <= hist[o].clock + w.delay
    requires Settled(ino, hist[o].files[ino], hist[|hist| - 1].clock).Some?
    ensures Aged(hist, ino, o) && (InTime(w) ==> !LateAt(w, hist, ino, o, o))
    ensures Settled(ino, hist[o].files[ino], hist[|hist| - 1].clock) == Some(StampOf(ino, hist[o].files[ino]))
  {
  }

  /** The file seen at o had not changed for SETTLE_TIME by the end of the history. */
  ghost predicate Aged(hist: seq<Fs>, ino: Inode, o: nat) {
    && o < |hist| && ino in hist[o].files
    && Nanos(hist[o].files[ino].ctime) + SETTLE_TIME <= hist[|hist| - 1].clock
  }

  // ---------- cached values ----------

  ghost predicate NamedAt(hist: seq<Fs>, path: string, ino: Inode, k: nat) {
    k < |hist| && Resolves(hist[k], path) && Resolve(hist[k], path) == ino
  }

  /** Opened under its path at openAt, and read at readAt. */
  ghost predicate ReadFrom(w: World, hist: seq<Fs>, path: string, origin: Origin) {
    && origin.FromFile?
    && origin.openAt <= origin.readAt < |hist|
    && NamedAt(hist, path, origin.ino, origin.openAt)
    && Tracked(w, hist, origin.ino, origin.openAt)
  }

  ghost predicate StampSound(w: World, hist: seq<Fs>, stamp: Option<Stamp>, origin: Origin) {
    stamp.Some? ==>
      && origin.FromFile?
      && origin.openAt < |hist| && origin.ino in hist[origin.openAt].files
      && stamp == Some(StampOf(origin.ino, hist[origin.openAt].files[origin.ino]))
      && Aged(hist, origin.ino, origin.openAt)
      && (InTime(w) ==> !LateAt(w, hist, origin.ino, origin.openAt, origin.openAt))
  }

  /** built is what the call gives on what was read, whatever level it is cached at. */
  ghost predicate BuiltFrom(w: World, hist: seq<Fs>, args: seq<PamArgs>, call: Call, built: Built, origin: Origin) {
    && CallExists(args, call)
    && match origin
       case FromInline =>
         call.ConfigCall? && ConfigPath(call.raw) == Ok(None) && built.Arguments? && Inline(call.raw) == Ok(built.args)
       case FromFile(ino, o, r) =>
         match PathOf(args, call)
         case Ok(Some(path)) =>
           && ReadFrom(w, hist, path, origin)
           && Readable(call, hist[o].files[ino])
           && ino in hist[r].files
           && FromText(w, args, call, hist[r].files[ino].contents) == Some(built)
         case _ => false
  }

  ghost predicate CachedOk(w: World, hist: seq<Fs>, args: seq<PamArgs>, call: Call,
                           stamp: Option<Stamp>, built: Built, origin: Origin)
  {
    BuiltFrom(w, hist, args, call, built, origin) && StampSound(w, hist, stamp, origin)
  }

  lemma BuiltGrows(w: World, hist: seq<Fs>, hist': seq<Fs>, args: seq<PamArgs>, args': seq<PamArgs>,
                   call: Call, built: Built, origin: Origin)
    requires w.tick > 0 && HistOk(hist) && Grows(w, hist, hist') && args <= args'
    requires BuiltFrom(w, hist, args, call, built, origin)
    ensures BuiltFrom(w, hist', args', call, built, origin)
  {
    HistGrows(w, hist, hist');
    assert forall k | 0 <= k < |hist| :: hist'[k] == hist[k];
    assert PathOf(args', call) == PathOf(args, call);
    if origin.FromFile? {
      TrackedGrows(w, hist, hist', origin.ino, origin.openAt);
    }
  }

  lemma StampGrows(w: World, hist: seq<Fs>, hist': seq<Fs>, stamp: Option<Stamp>, origin: Origin)
    requires w.tick > 0 && HistOk(hist) && Grows(w, hist, hist') && StampSound(w, hist, stamp, origin)
    ensures StampSound(w, hist', stamp, origin)
  {
    HistGrows(w, hist, hist');
    assert forall k | 0 <= k < |hist| :: hist'[k] == hist[k];
  }

  // ---------- answers ----------

  /**
   What a successful call returned. A fill returns what it read, after its own
   stat. A hit returns what the fill read that stored the value: if that read
   came before this call's stat, the answer is what rebuilding from the file at
   the stat would give.
   */
  ghost predicate AnswerOk(w: World, hist: seq<Fs>, args: seq<PamArgs>, call: Call, statAt: nat, out: Outcome) {
    && BuiltFrom(w, hist, args, call, out.built, out.origin)
    && (out.origin.FromFile? ==>
          && (!out.hit ==> statAt <= out.origin.openAt)
          && (out.hit ==>
                && Aged(hist, out.origin.ino, out.origin.openAt)
                && NamedAt(hist, PathOf(args, call).value.value, out.origin.ino, statAt)
                && (InTime(w) && out.origin.readAt <= statAt ==>
                      && SameAt(hist, out.origin.ino, out.origin.openAt, out.origin.readAt)
                      && Rebuild(w, args, call, hist[statAt].files[out.origin.ino]) == Some(out.built))))
  }

  ghost predicate ThreadOk(w: World, hist: seq<Fs>, args: seq<PamArgs>, thread: Thread) {
    match thread
    case Idle => true
    case Called(call) => CallExists(args, call)
    case Waiting(call, statAt, current) =>
      CallExists(args, call) && statAt < |hist| &&
      (match PathOf(args, call)
       case Err(_) => false
       case Ok(None) => current.None?
       case Ok(Some(path)) =>
         Resolves(hist[statAt], path) &&
         var ino := Resolve(hist[statAt], path);
         current == Some(StampOf(ino, hist[statAt].files[ino])))
    case Filling(call, statAt) => CallExists(args, call) && statAt < |hist|
    case Opened(call, statAt, ino, o) => statAt <= o && OpenOk(w, hist, args, call, ino, o)
    case HasRead(call, statAt, ino, o, r) => statAt <= o <= r < |hist| && OpenOk(w, hist, args, call, ino, o)
    case Done(call, statAt, outcome) =>
      && CallExists(args, call)
      && statAt < |hist|
      && (outcome.Some? ==> AnswerOk(w, hist, args, call, statAt, outcome.value))
  }

  ghost predicate OpenOk(w: World, hist: seq<Fs>, args: seq<PamArgs>, call: Call, ino: Inode, o: nat) {
    && CallExists(args, call)
    && Tracked(w, hist, ino, o)
    && Readable(call, hist[o].files[ino])
    && match PathOf(args, call)
       case Ok(Some(path)) => NamedAt(hist, path, ino, o)
       case _ => false
  }

  lemma PathGrows(args: seq<PamArgs>, args': seq<PamArgs>, call: Call)
    requires args <= args' && CallExists(args, call)
    ensures PathOf(args', call) == PathOf(args, call)
  {
  }

  lemma OpenGrows(w: World, hist: seq<Fs>, hist': seq<Fs>, args: seq<PamArgs>, args': seq<PamArgs>,
                  call: Call, ino: Inode, o: nat)
    requires w.tick > 0 && HistOk(hist) && Grows(w, hist, hist') && args <= args' && OpenOk(w, hist, args, call, ino, o)
    ensures OpenOk(w, hist', args', call, ino, o)
  {
    hide ConfigPath;
    TrackedGrows(w, hist, hist', ino, o);
    PathGrows(args, args', call);
    assert hist'[o] == hist[o];
  }

  lemma AnswerGrows(w: World, hist: seq<Fs>, hist': seq<Fs>, args: seq<PamArgs>, args': seq<PamArgs>,
                    call: Call, statAt: nat, out: Outcome)
    requires w.tick > 0 && HistOk(hist) && Grows(w, hist, hist') && args <= args' && statAt < |hist|
    requires AnswerOk(w, hist, args, call, statAt, out)
    ensures AnswerOk(w, hist', args', call, statAt, out)
  {
    hide ConfigFromText, VerifierFromText, ConfigPath, Inline;
    HistGrows(w, hist, hist');
    BuiltGrows(w, hist, hist', args, args', call, out.built, out.origin);
    PathGrows(args, args', call);
    assert hist'[statAt] == hist[statAt];
    if out.origin.FromFile? {
      assert hist'[out.origin.openAt] == hist[out.origin.openAt];
      assert hist'[out.origin.readAt] == hist[out.origin.readAt];
    }
  }

  lemma ThreadGrows(w: World, hist: seq<Fs>, hist': seq<Fs>, args: seq<PamArgs>, args': seq<PamArgs>, thread: Thread)
    requires w.tick > 0 && HistOk(hist) && Grows(w, hist, hist') && args <= args'
    requires ThreadOk(w, hist, args, thread)
    ensures ThreadOk(w, hist', args', thread)
  {
    hide ConfigFromText, VerifierFromText, ConfigPath, Inline;
    HistGrows(w, hist, hist');
    match thread
    case Idle =>
    case Opened(call, _, ino, o) => OpenGrows(w, hist, hist', args, args', call, ino, o);
    case HasRead(call, _, ino, o, _) => OpenGrows(w, hist, hist', args, args', call, ino, o);
    case Done(call, statAt, outcome) =>
      if outcome.Some? {
        AnswerGrows(w, hist, hist', args, args', call, statAt, outcome.value);
      }
    case Called(call) => PathGrows(args, args', call);
    case Filling(call, _) => PathGrows(args, args', call);
    case Waiting(call, statAt, _) =>
      PathGrows(args, args', call);
      assert hist'[statAt] == hist[statAt];
  }

  // ---------- the invariant ----------

  ghost predicate EntriesOk(w: World, s: Sys) {
    forall raw | raw in s.cache :: EntryOk(w, s.hist, s.args, raw, s.cache[raw])
  }

  ghost predicate EntryOk(w: World, hist: seq<Fs>, args: seq<PamArgs>, raw: seq<string>, e: CacheEntry) {
    e.config < |args| && CachedOk(w, hist, args, ConfigCall(raw), e.stamp, Arguments(args[e.config]), e.origin)
  }

  ghost predicate SlotsOk(w: World, s: Sys) {
    forall c | c in s.slots :: SlotOk(w, s.hist, s.args, c, s.slots[c])
  }

  ghost predicate SlotOk(w: World, hist: seq<Fs>, args: seq<PamArgs>, c: nat, slot: Slot) {
    CachedOk(w, hist, args, VerifierCall(c), slot.stamp, Verifier(slot.verifier), slot.origin)
  }

  ghost predicate ThreadsOk(w: World, s: Sys) {
    forall t | t in s.threads :: ThreadOk(w, s.hist, s.args, s.threads[t])
  }

  /** Every Config object, in the map or not, has its arguments from some call. */
  ghost predicate ArgsOk(w: World, s: Sys) {
    forall c: nat | c < |s.args| :: Made(w, s.hist, s.args, c)
  }

  ghost predicate Made(w: World, hist: seq<Fs>, args: seq<PamArgs>, c: nat) {
    exists raw, origin :: MadeBy(w, hist, args, c, raw, origin)
  }

  ghost predicate MadeBy(w: World, hist: seq<Fs>, args: seq<PamArgs>, c: nat, raw: seq<string>, origin: Origin) {
    c < |args| && BuiltFrom(w, hist, args, ConfigCall(raw), Arguments(args[c]), origin)
  }

  ghost predicate Inv(w: World, s: Sys) {
    HistOk(s.hist) && EntriesOk(w, s) && SlotsOk(w, s) && ThreadsOk(w, s) && ArgsOk(w, s)
  }

  lemma MadeByGrows(w: World, s: Sys, s': Sys, c: nat)
    requires w.tick > 0 && HistOk(s.hist) && ArgsOk(w, s) && Grows(w, s.hist, s'.hist) && s.args <= s'.args
    requires c < |s.args|
    ensures Made(w, s'.hist, s'.args, c)
  {
    hide BuiltFrom;
    assert Made(w, s.hist, s.args, c);
    var raw, origin :| MadeBy(w, s.hist, s.args, c, raw, origin);
    BuiltGrows(w, s.hist, s'.hist, s.args, s'.args, ConfigCall(raw), Arguments(s.args[c]), origin);
    assert MadeBy(w, s'.hist, s'.args, c, raw, origin);
  }

  /** Growing the history, or the list of Config objects by ones that are in order, breaks nothing. */
  lemma InvGrows(w: World, s: Sys, s': Sys)
    requires w.tick > 0 && Inv(w, s) && Grows(w, s.hist, s'.hist) && s.args <= s'.args
    requires s'.cache == s.cache && s'.slots == s.slots && s'.threads == s.threads
    requires forall c: nat | |s.args| <= c < |s'.args| :: Made(w, s'.hist, s'.args, c)
    ensures Inv(w, s')
  {
    hide BuiltFrom, StampSound, ThreadOk;
    HistGrows(w, s.hist, s'.hist);
    forall raw | raw in s'.cache ensures EntryOk(w, s'.hist, s'.args, raw, s'.cache[raw]) {
      var e := s.cache[raw];
      assert EntryOk(w, s.hist, s.args, raw, e);
      BuiltGrows(w, s.hist, s'.hist, s.args, s'.args, ConfigCall(raw), Arguments(s.args[e.config]), e.origin);
      StampGrows(w, s.hist, s'.hist, e.stamp, e.origin);
    }
    forall c | c in s'.slots ensures SlotOk(w, s'.hist, s'.args, c, s'.slots[c]) {
      var slot := s.slots[c];
      assert SlotOk(w, s.hist, s.args, c, slot);
      BuiltGrows(w, s.hist, s'.hist, s.args, s'.args, VerifierCall(c), Verifier(slot.verifier), slot.origin);
      StampGrows(w, s.hist, s'.hist, slot.stamp, slot.origin);
    }
    forall t | t in s'.threads ensures ThreadOk(w, s'.hist, s'.args, s'.threads[t]) {
      ThreadGrows(w, s.hist, s'.hist, s.args, s'.args, s.threads[t]);
    }
    forall c: nat | c < |s'.args| ensures Made(w, s'.hist, s'.args, c) {
      if c < |s.args| {
        MadeByGrows(w, s, s', c);
      }
    }
  }

  /** A step that only moves one thread, to a state that is in order. */
  lemma InvPut(w: World, s: Sys, s': Sys, t: nat, thread: Thread)
    requires Inv(w, s) && ThreadOk(w, s.hist, s.args, thread)
    requires s' == s.(threads := s.threads[t := thread], locks := s'.locks)
    ensures Inv(w, s')
  {
    hide CachedOk, ThreadOk, BuiltFrom;
    forall raw | raw in s'.cache ensures EntryOk(w, s'.hist, s'.args, raw, s'.cache[raw]) {
      assert EntryOk(w, s.hist, s.args, raw, s.cache[raw]);
    }
    forall c | c in s'.slots ensures SlotOk(w, s'.hist, s'.args, c, s'.slots[c]) {
      assert SlotOk(w, s.hist, s.args, c, s.slots[c]);
    }
    forall u | u in s'.threads ensures ThreadOk(w, s'.hist, s'.args, s'.threads[u]) {
      assert u != t ==> ThreadOk(w, s.hist, s.args, s.threads[u]);
    }
    forall c: nat | c < |s'.args| ensures Made(w, s'.hist, s'.args, c) {
      assert Made(w, s.hist, s.args, c);
    }
  }

  lemma ThreadIsOk(w: World, s: Sys, t: nat)
    requires Inv(w, s)
    ensures ThreadOk(w, s.hist, s.args, ThreadOf(s, t))
  {
  }

  lemma TrackedNow(w: World, s: Sys, ino: Inode)
    requires s.hist != [] && ino in Current(s).files
    ensures Tracked(w, s.hist, ino, Now(s))
  {
  }

  lemma CachedForIsOk(w: World, s: Sys, call: Call)
    requires Inv(w, s) && CachedFor(s, call).Some?
    ensures var (stamp, out) := CachedFor(s, call).value;
            out.hit && CachedOk(w, s.hist, s.args, call, stamp, out.built, out.origin)
  {
    match call
    case ConfigCall(raw) => assert EntryOk(w, s.hist, s.args, raw, s.cache[raw]);
    case VerifierCall(c) => assert SlotOk(w, s.hist, s.args, c, s.slots[c]);
  }

  /** A hit is the answer it should be. */
  lemma HitIsAnswer(w: World, s: Sys, call: Call, statAt: nat, current: Option<Stamp>)
    requires Inv(w, s) && ThreadOk(w, s.hist, s.args, Waiting(call, statAt, current))
    requires HitFor(s, call, current).Some?
    ensures AnswerOk(w, s.hist, s.args, call, statAt, HitFor(s, call, current).value)
  {
    CachedForIsOk(w, s, call);
    var out := HitFor(s, call, current).value;
    if out.origin.FromFile? {
      var FromFile(ino, o, r) := out.origin;
      var path := PathOf(s.args, call).value.value;
      assert NamedAt(s.hist, path, ino, statAt);
      if InTime(w) && r <= statAt {
        SameStampSameFile(w, s.hist, ino, o, r, statAt);
      }
    }
  }

  lemma StepKeepsFs(w: World, s: Sys, step: Step)
    requires w.tick > 0 && Inv(w, s) && IsFsStep(step) && Enabled(w, s, step)
    ensures Inv(w, Apply(w, s, step))
  {
    var s' := Apply(w, s, step);
    assert Grows(w, s.hist, s'.hist);
    InvGrows(w, s, s');
  }

  lemma StepKeepsLock(w: World, s: Sys, t: nat)
    requires w.tick > 0 && Inv(w, s) && Enabled(w, s, LockAndCompare(t))
    ensures Inv(w, Apply(w, s, LockAndCompare(t)))
  {
    hide AnswerOk, CachedOk, BuiltFrom, PathOf;
    ThreadIsOk(w, s, t);
    var thread := ThreadOf(s, t);
    var s' := Apply(w, s, LockAndCompare(t));
    var hit := HitFor(s, thread.call, thread.current);
    if hit.Some? {
      HitIsAnswer(w, s, thread.call, thread.statAt, thread.current);
      InvPut(w, s, s', t, Done(thread.call, thread.statAt, hit));
    } else {
      InvPut(w, s, s', t, Filling(thread.call, thread.statAt));
    }
  }

  lemma StepKeepsOpen(w: World, s: Sys, t: nat)
    requires w.tick > 0 && Inv(w, s) && Enabled(w, s, OpenAndFstat(t))
    ensures Inv(w, Apply(w, s, OpenAndFstat(t)))
  {
    var thread := ThreadOf(s, t);
    var s' := Apply(w, s, OpenAndFstat(t));
    var path := PathOf(s.args, thread.call).value.value;
    var ino := Resolve(Current(s), path);
    ThreadIsOk(w, s, t);
    TrackedNow(w, s, ino);
    assert NamedAt(s.hist, path, ino, Now(s));
    InvPut(w, s, s', t, Opened(thread.call, thread.statAt, ino, Now(s)));
  }

  lemma StatIsOk(w: World, hist: seq<Fs>, args: seq<PamArgs>, call: Call, ino: Option<Inode>)
    requires hist != [] && CallExists(args, call)
    requires match PathOf(args, call)
             case Err(_) => false
             case Ok(None) => ino.None?
             case Ok(Some(path)) => Resolves(hist[|hist| - 1], path) && ino == Some(Resolve(hist[|hist| - 1], path))
    ensures var current := if ino.None? then None else Some(StampOf(ino.value, hist[|hist| - 1].files[ino.value]));
            ThreadOk(w, hist, args, Waiting(call, |hist| - 1, current))
  {
  }

  lemma StepKeepsStat(w: World, s: Sys, t: nat)
    requires w.tick > 0 && Inv(w, s) && Enabled(w, s, Stat(t))
    ensures Inv(w, Apply(w, s, Stat(t)))
  {
    var s' := Apply(w, s, Stat(t));
    var call := ThreadOf(s, t).call;
    match PathOf(s.args, call).value {
      case None =>
        StatIsOk(w, s.hist, s.args, call, None);
        InvPut(w, s, s', t, Waiting(call, Now(s), None));
      case Some(path) =>
        var ino := Resolve(Current(s), path);
        StatIsOk(w, s.hist, s.args, call, Some(ino));
        InvPut(w, s, s', t, Waiting(call, Now(s), Some(StampOf(ino, Current(s).files[ino]))));
    }
  }

  lemma StepKeepsRest(w: World, s: Sys, step: Step)
    requires w.tick > 0 && Inv(w, s) && Enabled(w, s, step)
    requires step.Begin? || step.ReadAll? || step.Fail?
    ensures Inv(w, Apply(w, s, step))
  {
    var t := step.t;
    var s' := Apply(w, s, step);
    ThreadIsOk(w, s, t);
    InvPut(w, s, s', t, s'.threads[t]);
  }

  lemma StoreMakes(w: World, s: Sys, call: Call, stamp: Option<Stamp>, built: Built, origin: Origin)
    requires w.tick > 0 && HistOk(s.hist) && (call.ConfigCall? <==> built.Arguments?)
    requires BuiltFrom(w, s.hist, s.args, call, built, origin)
    ensures var args := Store(s, call, stamp, built, origin).args;
            && s.args <= args && BuiltFrom(w, s.hist, args, call, built, origin)
            && forall c: nat | |s.args| <= c < |args| :: Made(w, s.hist, args, c)
  {
    hide BuiltFrom;
    var args := Store(s, call, stamp, built, origin).args;
    BuiltGrows(w, s.hist, s.hist, s.args, args, call, built, origin);
    if call.ConfigCall? {
      assert MadeBy(w, s.hist, args, |s.args|, call.raw, origin);
    }
  }

  /** Storing an entry or a slot that is in order. */
  lemma StoreKeeps(w: World, s: Sys, call: Call, stamp: Option<Stamp>, built: Built, origin: Origin)
    requires w.tick > 0 && Inv(w, s) && (call.ConfigCall? <==> built.Arguments?)
    requires CachedOk(w, s.hist, s.args, call, stamp, built, origin)
    ensures Inv(w, Store(s, call, stamp, built, origin))
    ensures s.args <= Store(s, call, stamp, built, origin).args
  {
    hide BuiltFrom, StampSound, ThreadOk;
    var s' := Store(s, call, stamp, built, origin);
    var grown := s.(args := s'.args);
    StoreMakes(w, s, call, stamp, built, origin);
    InvGrows(w, s, grown);
    forall raw | raw in s'.cache ensures EntryOk(w, s'.hist, s'.args, raw, s'.cache[raw]) {
      if s'.cache == s.cache || raw != call.raw {
        assert EntryOk(w, grown.hist, grown.args, raw, grown.cache[raw]);
      }
    }
    forall c | c in s'.slots ensures SlotOk(w, s'.hist, s'.args, c, s'.slots[c]) {
      if s'.slots == s.slots || c != call.config {
        assert SlotOk(w, grown.hist, grown.args, c, grown.slots[c]);
      }
    }
    forall t | t in s'.threads ensures ThreadOk(w, s'.hist, s'.args, s'.threads[t]) {
      assert ThreadOk(w, grown.hist, grown.args, grown.threads[t]);
    }
    forall c: nat | c < |s'.args| ensures Made(w, s'.hist, s'.args, c) {
      assert Made(w, grown.hist, grown.args, c);
    }
  }

  lemma BuiltKind(w: World, args: seq<PamArgs>, call: Call, contents: seq<Byte>)
    requires CallExists(args, call) && FromText(w, args, call, contents).Some?
    ensures call.ConfigCall? <==> FromText(w, args, call, contents).value.Arguments?
  {
  }

  lemma StepKeepsStoreFile(w: World, s: Sys, t: nat)
    requires w.tick > 0 && Inv(w, s) && Enabled(w, s, SettleAndStore(t)) && ThreadOf(s, t).HasRead?
    ensures Inv(w, Apply(w, s, SettleAndStore(t)))
  {
    hide ConfigFromText, VerifierFromText, ConfigPath, Inline, EntriesOk, SlotsOk, ArgsOk;
    var HasRead(call, statAt, ino, o, r) := ThreadOf(s, t);
    ThreadIsOk(w, s, t);
    var built := FromText(w, s.args, call, s.hist[r].files[ino].contents).value;
    var stamp := Settled(ino, s.hist[o].files[ino], Current(s).clock);
    var origin := FromFile(ino, o, r);
    if stamp.Some? {
      SettledIsNotLate(w, s.hist, ino, o);
    }
    BuiltKind(w, s.args, call, s.hist[r].files[ino].contents);
    assert BuiltFrom(w, s.hist, s.args, call, built, origin);
    StoreKeeps(w, s, call, stamp, built, origin);
    var stored := Store(s, call, stamp, built, origin);
    BuiltGrows(w, s.hist, s.hist, s.args, stored.args, call, built, origin);
    var done := Done(call, statAt, Some(Outcome(built, origin, false)));
    InvPut(w, stored, Apply(w, s, SettleAndStore(t)), t, done);
  }

  lemma StepKeepsStoreInline(w: World, s: Sys, t: nat)
    requires w.tick > 0 && Inv(w, s) && Enabled(w, s, SettleAndStore(t)) && ThreadOf(s, t).Filling?
    ensures Inv(w, Apply(w, s, SettleAndStore(t)))
  {
    var Filling(call, statAt) := ThreadOf(s, t);
    ThreadIsOk(w, s, t);
    var built := Arguments(Inline(call.raw).value);
    StoreKeeps(w, s, call, None, built, FromInline);
    var stored := Store(s, call, None, built, FromInline);
    var done := Done(call, statAt, Some(Outcome(built, FromInline, false)));
    InvPut(w, stored, Apply(w, s, SettleAndStore(t)), t, done);
  }

  lemma StepKeeps(w: World, s: Sys, step: Step)
    requires w.tick > 0 && Inv(w, s) && Enabled(w, s, step)
    ensures Inv(w, Apply(w, s, step))
  {
    if IsFsStep(step) {
      StepKeepsFs(w, s, step);
    } else {
      match step
      case Stat(t) => StepKeepsStat(w, s, t);
      case LockAndCompare(t) => StepKeepsLock(w, s, t);
      case OpenAndFstat(t) => StepKeepsOpen(w, s, t);
      case SettleAndStore(t) =>
        if ThreadOf(s, t).HasRead? {
          StepKeepsStoreFile(w, s, t);
        } else {
          StepKeepsStoreInline(w, s, t);
        }
      case _ => StepKeepsRest(w, s, step);
    }
  }

  lemma {:induction false} ExecuteKeeps(w: World, s: Sys, steps: seq<Step>)
    requires w.tick > 0 && Inv(w, s) && Execute(w, s, steps).Some?
    ensures Inv(w, Execute(w, s, steps).value)
    decreases |steps|
  {
    if steps == [] {
    } else {
      StepKeeps(w, s, steps[0]);
      ExecuteKeeps(w, Apply(w, s, steps[0]), steps[1..]);
    }
  }

  /** Every reachable state is in order, over every interleaving of threads, file changes and clock ticks. */
  lemma ReachableInv(w: World, s: Sys)
    requires w.tick > 0 && Reachable(w, s)
    ensures Inv(w, s)
  {
    var init, steps :| Initial(init) && Execute(w, init, steps) == Some(s);
    ExecuteKeeps(w, init, steps);
  }
}
