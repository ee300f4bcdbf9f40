/**
 Which calls the cache answers: a value stays until the next store for the same
 arguments or slot, and serves exactly the calls that find its file unchanged,
 provided the file was settled when the value was stored.
 */
module CacheHits {
  import opened Prelude
  import opened Pam
  import opened CacheModel
  import opened CacheInvariant
  import opened CacheTheorems
  import opened CacheInstants

  // ---------- how old a hit is ----------

  /** Whatever the bounds: the version the fill opened had not changed for SETTLE_TIME when the hit serves its value. */
  lemma HitsAreAged(w: World, s: Sys, t: nat)
    requires w.tick > 0 && Reachable(w, s) && t in s.threads && IsFileHit(s.threads[t])
    ensures Aged(s.hist, s.threads[t].outcome.value.origin.ino, s.threads[t].outcome.value.origin.openAt)
  {
    hide Reachable;
    ReachableInv(w, s);
    assert ThreadOk(w, s.hist, s.args, s.threads[t]);
  }

  /** In time, that is also the version whose contents are served, if they were read no later than the call's stat. */
  lemma SettledHitsAreAged(w: World, s: Sys, t: nat)
    requires w.tick > 0 && w.delay + w.tick <= SETTLE_TIME && Reachable(w, s)
    requires t in s.threads && IsSettledHit(s.threads[t])
    ensures Aged(s.hist, s.threads[t].outcome.value.origin.ino, s.threads[t].outcome.value.origin.readAt)
  {
    hide Reachable;
    ReachableInv(w, s);
    assert ThreadOk(w, s.hist, s.args, s.threads[t]);
  }

  /** An existing file never changes, neither its contents nor its metadata. */
  ghost predicate NoChange(hist: seq<Fs>) {
    forall j: nat, k, ino | j <= k < |hist| && ino in hist[j].files :: SameAt(hist, ino, j, k)
  }

  /** Every hit serves contents of a version that had not changed for SETTLE_TIME. */
  ghost predicate EveryHitServesAged(w: World, changes: bool)
    requires w.tick > 0
  {
    forall s, t | Reachable(w, s) && (changes || NoChange(s.hist)) && t in s.threads && IsFileHit(s.threads[t]) ::
      Aged(s.hist, s.threads[t].outcome.value.origin.ino, s.threads[t].outcome.value.origin.readAt)
  }

  /** A clock at which a change gets a ctime less than SETTLE_TIME ago, and files of the epoch are settled. */
  function YoungClock(w: World): (clock: nat)
    requires w.tick > 0
    ensures clock >= SETTLE_TIME && Floor(w, clock) + SETTLE_TIME > clock
  {
    if w.tick <= SETTLE_TIME then SETTLE_TIME + w.tick else w.tick
  }

  /** A file that is rewritten while a fill has it open: the hit serves contents as young as can be. */
  lemma YoungContentsServed(w: World) returns (s: Sys, out: Outcome)
    requires w.tick > 0
    ensures Reachable(w, s) && 2 in s.threads && s.threads[2] == Done(THE_CALL, 0, Some(out)) && IsFileHit(s.threads[2])
    ensures out.origin.readAt < |s.hist| && out.origin.ino in s.hist[out.origin.readAt].files
    ensures FromText(w, s.args, THE_CALL, s.hist[out.origin.readAt].files[out.origin.ino].contents) == Some(out.built)
    ensures !Aged(s.hist, out.origin.ino, out.origin.readAt)
  {
    hide Reachable, ConfigFromText;
    s, out := OverlappingHit(w, YoungClock(w));
  }

  /** All hits serve aged contents exactly where existing files never change. */
  lemma AgedIsExact(w: World, changes: bool)
    requires w.tick > 0
    ensures EveryHitServesAged(w, changes) <==> !changes
  {
    if changes {
      var s, out := YoungContentsServed(w);
    } else {
      forall s, t | Reachable(w, s) && NoChange(s.hist) && t in s.threads && IsFileHit(s.threads[t])
        ensures Aged(s.hist, s.threads[t].outcome.value.origin.ino, s.threads[t].outcome.value.origin.readAt)
      {
        HitUnchanged(w, s, t);
      }
    }
  }

  lemma HitUnchanged(w: World, s: Sys, t: nat)
    requires w.tick > 0 && Reachable(w, s) && NoChange(s.hist) && t in s.threads && IsFileHit(s.threads[t])
    ensures Aged(s.hist, s.threads[t].outcome.value.origin.ino, s.threads[t].outcome.value.origin.readAt)
  {
    hide Reachable, FromText;
    ReachableInv(w, s);
    assert ThreadOk(w, s.hist, s.args, s.threads[t]);
    var FromFile(ino, o, r) := s.threads[t].outcome.value.origin;
    assert SameAt(s.hist, ino, o, r);
  }

  // ---------- how long a value stays ----------

  predicate StoresFor(s: Sys, step: Step, call: Call) {
    && step.SettleAndStore?
    && var thread := ThreadOf(s, step.t);
       (thread.Filling? || thread.HasRead?) && thread.call == call
  }

  /** A run in which no step stores a value for this call. */
  predicate Quiet(w: World, s: Sys, steps: seq<Step>, call: Call)
    requires w.tick > 0
    decreases |steps|
  {
    steps == [] ||
    (s.hist != [] && Enabled(w, s, steps[0]) && !StoresFor(s, steps[0], call)
     && Quiet(w, Apply(w, s, steps[0]), steps[1..], call))
  }

  lemma StoreKeepsOthers(s: Sys, stored: Call, stamp: Option<Stamp>, built: Built, origin: Origin, call: Call)
    requires (stored.ConfigCall? <==> built.Arguments?) && call != stored && CachedFor(s, call).Some?
    ensures CachedFor(Store(s, stored, stamp, built, origin), call) == CachedFor(s, call)
  {
  }

  lemma StepKeepsCached(w: World, s: Sys, step: Step, call: Call)
    requires w.tick > 0 && s.hist != [] && Enabled(w, s, step) && !StoresFor(s, step, call) && CachedFor(s, call).Some?
    ensures CachedFor(Apply(w, s, step), call) == CachedFor(s, call)
  {
    hide ConfigFromText, VerifierFromText, ConfigPath, Inline;
    if step.SettleAndStore? {
      match ThreadOf(s, step.t)
      case Filling(other, _) =>
        StoreKeepsOthers(s, other, None, Arguments(Inline(other.raw).value), FromInline, call);
      case HasRead(other, _, ino, o, r) =>
        BuiltKind(w, s.args, other, s.hist[r].files[ino].contents);
        StoreKeepsOthers(s, other, Settled(ino, s.hist[o].files[ino], Current(s).clock),
                         FromText(w, s.args, other, s.hist[r].files[ino].contents).value, FromFile(ino, o, r), call);
    } else {
      OtherStepsKeepLevels(w, s, step);
    }
  }

  lemma {:induction false} QuietKeepsCached(w: World, s: Sys, steps: seq<Step>, call: Call)
    requires w.tick > 0 && Quiet(w, s, steps, call) && CachedFor(s, call).Some?
    ensures Execute(w, s, steps).Some? && CachedFor(Execute(w, s, steps).value, call) == CachedFor(s, call)
    decreases |steps|
  {
    hide CachedFor, StoresFor, Apply, Enabled;
    if steps == [] {
    } else {
      StepKeepsCached(w, s, steps[0], call);
      QuietKeepsCached(w, Apply(w, s, steps[0]), steps[1..], call);
    }
  }

  // ---------- which calls it answers ----------

  /** The settle check of the source, on the file as the fill saw it. */
  predicate SettledBy(file: File, clock: nat) {
    && file.ctime.secs >= 0 && file.ctime.nsecs >= 0
    && file.ctime.secs * 1_000_000_000 + file.ctime.nsecs + 2_000_000_000 <= clock
  }

  /** The same device, number, length and times. */
  predicate LooksTheSame(ino: Inode, file: File, ino': Inode, file': File) {
    && ino.dev == ino'.dev && ino.number == ino'.number
    && |file.contents| == |file'.contents| && file.mtime == file'.mtime && file.ctime == file'.ctime
  }

  lemma LooksTheSameIs(ino: Inode, file: File, ino': Inode, file': File)
    ensures LooksTheSame(ino, file, ino', file') <==> StampOf(ino, file) == StampOf(ino', file')
  {
  }

  lemma StoredFor(w: World, s: Sys, t: nat)
    requires w.tick > 0 && s.hist != [] && Enabled(w, s, SettleAndStore(t)) && ThreadOf(s, t).HasRead?
    ensures var HasRead(call, _, ino, o, r) := ThreadOf(s, t);
            var file := s.hist[o].files[ino];
            var built := FromText(w, s.args, call, s.hist[r].files[ino].contents).value;
            var stamp := if SettledBy(file, Current(s).clock) then Some(StampOf(ino, file)) else None;
            CachedFor(Apply(w, s, SettleAndStore(t)), call) == Some((stamp, Outcome(built, FromFile(ino, o, r), true)))
  {
    hide ConfigFromText, VerifierFromText, ConfigPath, Inline;
    var HasRead(call, _, ino, o, r) := ThreadOf(s, t);
    BuiltKind(w, s.args, call, s.hist[r].files[ino].contents);
  }

  /** The file a waiting call found at its stat. */
  predicate Found(s: Sys, thread: Thread, ino: Inode, file: File) {
    && thread.Waiting? && CallExists(s.args, thread.call) && thread.statAt < |s.hist|
    && match PathOf(s.args, thread.call)
       case Ok(Some(path)) =>
         && Resolves(s.hist[thread.statAt], path) && Resolve(s.hist[thread.statAt], path) == ino
         && s.hist[thread.statAt].files[ino] == file
       case _ => false
  }

  lemma {:induction false} ReachRun(w: World, s: Sys, steps: seq<Step>)
    requires w.tick > 0 && Reachable(w, s) && Execute(w, s, steps).Some?
    ensures Reachable(w, Execute(w, s, steps).value)
    decreases |steps|
  {
    hide Reachable, Apply, Enabled;
    if steps == [] {
    } else {
      ReachStep(w, s, steps[0]);
      ReachRun(w, Apply(w, s, steps[0]), steps[1..]);
    }
  }

  lemma WaitsWithStamp(w: World, s: Sys, u: nat, ino: Inode, file: File)
    requires w.tick > 0 && Reachable(w, s) && u in s.threads && Found(s, s.threads[u], ino, file)
    ensures s.threads[u].current == Some(StampOf(ino, file))
  {
    hide Reachable, ConfigPath;
    ReachableInv(w, s);
    assert ThreadOk(w, s.hist, s.args, s.threads[u]);
  }

  /** Comparing is all that decides between a hit and a fill. */
  lemma Compared(w: World, s: Sys, u: nat, stamp: Option<Stamp>, out: Outcome, current: Stamp)
    requires w.tick > 0 && s.hist != [] && Enabled(w, s, LockAndCompare(u)) && u in s.threads
    requires s.threads[u].current == Some(current) && CachedFor(s, s.threads[u].call) == Some((stamp, out))
    ensures ThreadOf(Apply(w, s, LockAndCompare(u)), u) ==
              if stamp == Some(current) then Done(s.threads[u].call, s.threads[u].statAt, Some(out))
              else Filling(s.threads[u].call, s.threads[u].statAt)
  {
    hide CachedFor;
  }

  /**
   After a fill, for as long as nothing else is stored for the same call: a
   call is answered from the cache exactly if the file, as the fill opened it,
   was settled at the settle check and the call finds the stamp it then had. The answer is
   the value the fill built.
   */
  lemma HitExactly(w: World, s: Sys, t: nat, steps: seq<Step>, s2: Sys, u: nat, found: Inode, file: File)
    requires w.tick > 0 && Reachable(w, s) && s.hist != [] && Enabled(w, s, SettleAndStore(t))
    requires ThreadOf(s, t).HasRead?
    requires Quiet(w, Apply(w, s, SettleAndStore(t)), steps, ThreadOf(s, t).call)
    requires Execute(w, Apply(w, s, SettleAndStore(t)), steps) == Some(s2)
    requires s2.hist != [] && u in s2.threads && Enabled(w, s2, LockAndCompare(u))
    requires s2.threads[u].call == ThreadOf(s, t).call && Found(s2, s2.threads[u], found, file)
    ensures var HasRead(call, _, ino, o, r) := ThreadOf(s, t);
            var built := FromText(w, s.args, call, s.hist[r].files[ino].contents).value;
            var next := ThreadOf(Apply(w, s2, LockAndCompare(u)), u);
            if SettledBy(s.hist[o].files[ino], Current(s).clock) && LooksTheSame(found, file, ino, s.hist[o].files[ino])
            then next == Done(call, s2.threads[u].statAt, Some(Outcome(built, FromFile(ino, o, r), true)))
            else next == Filling(call, s2.threads[u].statAt)
  {
    var HasRead(_, _, ino, o, _) := ThreadOf(s, t);
    LooksTheSameIs(found, file, ino, s.hist[o].files[ino]);
    hide Reachable, Apply, Execute, Quiet, Enabled, Found, CachedFor, FromText, LooksTheSame;
    var s1 := Apply(w, s, SettleAndStore(t));
    StoredFor(w, s, t);
    QuietKeepsCached(w, s1, steps, ThreadOf(s, t).call);
    ReachStep(w, s, SettleAndStore(t));
    ReachRun(w, s1, steps);
    WaitsWithStamp(w, s2, u, found, file);
    var (stamp, out) := CachedFor(s2, ThreadOf(s, t).call).value;
    Compared(w, s2, u, stamp, out, StampOf(found, file));
  }
}
