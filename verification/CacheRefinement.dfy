/**
 The cache objects against the transition system: what a call does when no
 other step comes between its own. Every such run ends as the object's method
 decides, or with a failed call, and one of them does end as decided.
 */
module CacheRefinement {
  import opened Prelude
  import opened Jwt
  import opened Pam
  import opened CacheModel
  import opened CacheInvariant
  import opened CacheTheorems
  import opened Cache

  // ---------- the effect of an uninterrupted call ----------

  datatype Effect = Fails | Hits(out: Outcome) | Fills(stamp: Option<Stamp>, built: Built, origin: Origin)

  /** The call gets past its stat. */
  predicate Ready(s: Sys, call: Call)
    requires s.hist != []
  {
    && CallExists(s.args, call) && PathOf(s.args, call).Ok?
    && (PathOf(s.args, call).value.Some? ==> Resolves(Current(s), PathOf(s.args, call).value.value))
  }

  function PathFor(s: Sys, call: Call): Option<string>
    requires s.hist != [] && Ready(s, call)
  {
    PathOf(s.args, call).value
  }

  function InodeFor(s: Sys, call: Call): Inode
    requires s.hist != [] && Ready(s, call) && PathFor(s, call).Some?
  {
    Resolve(Current(s), PathFor(s, call).value)
  }

  function FileFor(s: Sys, call: Call): File
    requires s.hist != [] && Ready(s, call) && PathFor(s, call).Some?
  {
    Current(s).files[InodeFor(s, call)]
  }

  /** What the call compares the cached stamp with. */
  function CurrentStamp(s: Sys, call: Call): Option<Stamp>
    requires s.hist != [] && Ready(s, call)
  {
    if PathFor(s, call).None? then None else Some(StampOf(InodeFor(s, call), FileFor(s, call)))
  }

  function FillEffect(w: World, s: Sys, call: Call): Effect
    requires s.hist != [] && Ready(s, call)
  {
    if PathFor(s, call).None? then
      if call.ConfigCall? && Inline(call.raw).Ok? then Fills(None, Arguments(Inline(call.raw).value), FromInline)
      else Fails
    else
      var ino, file := InodeFor(s, call), FileFor(s, call);
      var built := Rebuild(w, s.args, call, file);
      if built.None? then Fails
      else Fills(Settled(ino, file, Current(s).clock), built.value, FromFile(ino, Now(s), Now(s)))
  }

  function EffectOf(w: World, s: Sys, call: Call): Effect
    requires s.hist != []
  {
    if !Ready(s, call) then Fails
    else
      match HitFor(s, call, CurrentStamp(s, call))
      case Some(out) => Hits(out)
      case None => FillEffect(w, s, call)
  }

  /** From s to s', the call of thread t has had this effect on the levels and returned accordingly. */
  predicate HasEffect(s: Sys, s': Sys, t: nat, call: Call, e: Effect)
    requires s.hist != []
  {
    && t in s'.threads && s'.threads[t].Done? && s'.threads[t].call == call
    && match e
       case Fails => SameLevels(s, s') && s'.threads[t].outcome == None
       case Hits(out) => SameLevels(s, s') && s'.threads[t].outcome == Some(out)
       case Fills(stamp, built, origin) =>
         && (call.ConfigCall? <==> built.Arguments?)
         && SameLevels(Store(s, call, stamp, built, origin), s')
         && s'.threads[t].outcome == Some(Outcome(built, origin, false))
  }

  // ---------- the phases of an uninterrupted call ----------

  function Locked(s: Sys, t: nat, call: Call): Sys {
    s.(locks := s.locks[LockOf(call) := t])
  }

  predicate Missed(s: Sys, call: Call)
    requires s.hist != []
  {
    Ready(s, call) && HitFor(s, call, CurrentStamp(s, call)).None?
  }

  predicate MissedFile(s: Sys, call: Call)
    requires s.hist != []
  {
    Missed(s, call) && PathFor(s, call).Some? && Readable(call, FileFor(s, call))
  }

  /** How far thread t has come with its call since s0, alone. */
  predicate Phase(w: World, s0: Sys, s: Sys, t: nat, call: Call)
    requires s0.hist != []
  {
    && s.hist == s0.hist && t in s.threads
    && match s.threads[t]
       case Idle => false
       case Called(_) => s == s0 && s0.threads[t] == Called(call)
       case Waiting(_, _, _) => Ready(s0, call) && s == Put(s0, t, Waiting(call, Now(s0), CurrentStamp(s0, call)))
       case Filling(_, _) => Missed(s0, call) && s == Put(Locked(s0, t, call), t, Filling(call, Now(s0)))
       case Opened(_, _, _, _) =>
         MissedFile(s0, call) &&
         s == Put(Locked(s0, t, call), t, Opened(call, Now(s0), InodeFor(s0, call), Now(s0)))
       case HasRead(_, _, _, _, _) =>
         MissedFile(s0, call) &&
         s == Put(Locked(s0, t, call), t, HasRead(call, Now(s0), InodeFor(s0, call), Now(s0), Now(s0)))
       case Done(_, _, None) => HasEffect(s0, s, t, call, Fails)
       case Done(_, _, Some(_)) => HasEffect(s0, s, t, call, EffectOf(w, s0, call))
  }

  predicate Alone(step: Step, t: nat) {
    !IsFsStep(step) && !step.Begin? && step.t == t
  }

  lemma PutPut(s: Sys, t: nat, before: Thread, after: Thread)
    ensures Put(Put(s, t, before), t, after) == Put(s, t, after)
  {
    assert s.threads[t := before][t := after] == s.threads[t := after];
  }

  lemma PhaseStat(w: World, s0: Sys, s: Sys, t: nat, call: Call)
    requires w.tick > 0 && s0.hist != [] && Phase(w, s0, s, t, call) && Enabled(w, s, Stat(t))
    ensures Ready(s0, call) && Phase(w, s0, Apply(w, s, Stat(t)), t, call)
  {
    hide ConfigPath;
  }

  lemma PhaseCompare(w: World, s0: Sys, s: Sys, t: nat, call: Call)
    requires w.tick > 0 && s0.hist != [] && Phase(w, s0, s, t, call) && Enabled(w, s, LockAndCompare(t))
    ensures Phase(w, s0, Apply(w, s, LockAndCompare(t)), t, call)
  {
    hide PathOf, FillEffect, CurrentStamp;
    var current := CurrentStamp(s0, call);
    var waiting := Waiting(call, Now(s0), current);
    assert HitFor(s, call, current) == HitFor(s0, call, current);
    PutPut(s0, t, waiting, Done(call, Now(s0), HitFor(s0, call, current)));
    PutPut(Locked(s0, t, call), t, waiting, Filling(call, Now(s0)));
  }

  lemma PhaseOpen(w: World, s0: Sys, s: Sys, t: nat, call: Call)
    requires w.tick > 0 && s0.hist != [] && Phase(w, s0, s, t, call) && Enabled(w, s, OpenAndFstat(t))
    ensures Phase(w, s0, Apply(w, s, OpenAndFstat(t)), t, call)
  {
    hide PathOf, FillEffect, CurrentStamp, HitFor;
    PutPut(Locked(s0, t, call), t, Filling(call, Now(s0)), Opened(call, Now(s0), InodeFor(s0, call), Now(s0)));
  }

  lemma PhaseRead(w: World, s0: Sys, s: Sys, t: nat, call: Call)
    requires w.tick > 0 && s0.hist != [] && Phase(w, s0, s, t, call) && Enabled(w, s, ReadAll(t))
    ensures Phase(w, s0, Apply(w, s, ReadAll(t)), t, call)
  {
    hide PathOf, FillEffect, CurrentStamp, HitFor, MissedFile;
    assert MissedFile(s0, call);
    ReadInode(s0, call);
    var ino := InodeFor(s0, call);
    PutPut(Locked(s0, t, call), t, Opened(call, Now(s0), ino, Now(s0)), HasRead(call, Now(s0), ino, Now(s0), Now(s0)));
  }

  lemma ReadInode(s: Sys, call: Call)
    requires s.hist != [] && MissedFile(s, call)
    ensures Ready(s, call) && PathFor(s, call).Some?
  {
  }

  lemma StoreSame(s0: Sys, s: Sys, call: Call, stamp: Option<Stamp>, built: Built, origin: Origin)
    requires SameLevels(s0, s) && (call.ConfigCall? <==> built.Arguments?)
    ensures SameLevels(Store(s0, call, stamp, built, origin), Store(s, call, stamp, built, origin))
  {
  }

  /** A stored fill has its effect, whatever the locks and the threads were. */
  lemma StoredHasEffect(s0: Sys, s: Sys, t: nat, call: Call, stamp: Option<Stamp>, built: Built, origin: Origin)
    requires s0.hist != [] && SameLevels(s0, s) && (call.ConfigCall? <==> built.Arguments?)
    ensures HasEffect(s0, Put(Unlock(Store(s, call, stamp, built, origin), call), t,
                              Done(call, Now(s0), Some(Outcome(built, origin, false)))),
                      t, call, Fills(stamp, built, origin))
  {
    StoreSame(s0, s, call, stamp, built, origin);
  }

  lemma PhaseStoreInline(w: World, s0: Sys, s: Sys, t: nat, call: Call)
    requires w.tick > 0 && s0.hist != [] && Phase(w, s0, s, t, call) && Enabled(w, s, SettleAndStore(t))
    requires s.threads[t].Filling?
    ensures Phase(w, s0, Apply(w, s, SettleAndStore(t)), t, call)
  {
    hide ConfigPath, Inline, HitFor, HasEffect;
    StoredHasEffect(s0, s, t, call, None, Arguments(Inline(call.raw).value), FromInline);
  }

  /** The effect of a fill whose file was read. */
  lemma ReadEffect(w: World, s: Sys, call: Call)
    requires s.hist != [] && MissedFile(s, call) && FromText(w, s.args, call, FileFor(s, call).contents).Some?
    ensures EffectOf(w, s, call) ==
              Fills(Settled(InodeFor(s, call), FileFor(s, call), Current(s).clock),
                    FromText(w, s.args, call, FileFor(s, call).contents).value,
                    FromFile(InodeFor(s, call), Now(s), Now(s)))
  {
    hide FromText, Settled;
  }

  lemma PhaseStoreFile(w: World, s0: Sys, s: Sys, t: nat, call: Call)
    requires w.tick > 0 && s0.hist != [] && Phase(w, s0, s, t, call) && Enabled(w, s, SettleAndStore(t))
    requires s.threads[t].HasRead?
    ensures Phase(w, s0, Apply(w, s, SettleAndStore(t)), t, call)
  {
    hide PathOf, HitFor, HasEffect, EffectOf, Settled, ConfigFromText, VerifierFromText;
    var ino, file := InodeFor(s0, call), FileFor(s0, call);
    var built := FromText(w, s0.args, call, file.contents).value;
    BuiltKind(w, s0.args, call, file.contents);
    ReadEffect(w, s0, call);
    StoredHasEffect(s0, s, t, call, Settled(ino, file, Current(s0).clock), built, FromFile(ino, Now(s0), Now(s0)));
  }

  /** Storing what was read, or the inline arguments, is the effect of the fill. */
  lemma PhaseStore(w: World, s0: Sys, s: Sys, t: nat, call: Call)
    requires w.tick > 0 && s0.hist != [] && Phase(w, s0, s, t, call) && Enabled(w, s, SettleAndStore(t))
    ensures Phase(w, s0, Apply(w, s, SettleAndStore(t)), t, call)
  {
    hide Phase, Apply;
    if s.threads[t].Filling? {
      PhaseStoreInline(w, s0, s, t, call);
    } else {
      PhaseStoreFile(w, s0, s, t, call);
    }
  }

  lemma PhaseFail(w: World, s0: Sys, s: Sys, t: nat, call: Call)
    requires w.tick > 0 && s0.hist != [] && Phase(w, s0, s, t, call) && Enabled(w, s, Fail(t))
    ensures HasEffect(s0, Apply(w, s, Fail(t)), t, call, Fails) && Phase(w, s0, Apply(w, s, Fail(t)), t, call)
  {
    hide PathOf, FillEffect, CurrentStamp, HitFor, EffectOf, MissedFile, Missed, Ready;
  }

  lemma PhaseStep(w: World, s0: Sys, s: Sys, t: nat, call: Call, step: Step)
    requires w.tick > 0 && s0.hist != [] && Phase(w, s0, s, t, call) && s.hist != [] && Enabled(w, s, step)
    requires Alone(step, t)
    ensures Phase(w, s0, Apply(w, s, step), t, call)
  {
    hide Phase, Apply, Enabled;
    match step
    case Stat(_) => PhaseStat(w, s0, s, t, call);
    case LockAndCompare(_) => PhaseCompare(w, s0, s, t, call);
    case OpenAndFstat(_) => PhaseOpen(w, s0, s, t, call);
    case ReadAll(_) => PhaseRead(w, s0, s, t, call);
    case SettleAndStore(_) => PhaseStore(w, s0, s, t, call);
    case Fail(_) => PhaseFail(w, s0, s, t, call);
  }

  lemma {:induction false} PhaseRun(w: World, s0: Sys, s: Sys, t: nat, call: Call, steps: seq<Step>)
    requires w.tick > 0 && s0.hist != [] && Phase(w, s0, s, t, call)
    requires (forall step | step in steps :: Alone(step, t)) && Execute(w, s, steps).Some?
    ensures Phase(w, s0, Execute(w, s, steps).value, t, call)
    decreases |steps|
  {
    hide Phase, Apply, Enabled;
    if steps == [] {
    } else {
      PhaseStep(w, s0, s, t, call, steps[0]);
      PhaseRun(w, s0, Apply(w, s, steps[0]), t, call, steps[1..]);
    }
  }

  /** Every run of the thread alone in which the call returns has its effect, or is a failed call. */
  lemma EveryRunAlone(w: World, s: Sys, t: nat, call: Call, steps: seq<Step>)
    requires w.tick > 0 && s.hist != [] && t in s.threads && s.threads[t] == Called(call)
    requires (forall step | step in steps :: Alone(step, t)) && Execute(w, s, steps).Some?
    requires var s' := Execute(w, s, steps).value; t in s'.threads && s'.threads[t].Done?
    ensures var s' := Execute(w, s, steps).value;
            HasEffect(s, s', t, call, Fails) || HasEffect(s, s', t, call, EffectOf(w, s, call))
  {
    hide HasEffect, EffectOf, Apply, Enabled, Execute;
    PhaseRun(w, s, s, t, call, steps);
  }

  // ---------- a run that has the effect ----------

  function Remaining(thread: Thread): nat {
    match thread
    case Idle => 0
    case Called(_) => 5
    case Waiting(_, _, _) => 4
    case Filling(_, _) => 3
    case Opened(_, _, _, _) => 2
    case HasRead(_, _, _, _, _) => 1
    case Done(_, _, _) => 0
  }

  lemma NoPathIsConfig(s: Sys, call: Call)
    requires s.hist != [] && Ready(s, call) && PathFor(s, call).None?
    ensures call.ConfigCall? && ConfigPath(call.raw) == Ok(None)
  {
    hide ConfigPath;
  }

  lemma NextFilling(w: World, s0: Sys, s: Sys, t: nat, call: Call) returns (step: Step)
    requires w.tick > 0 && s0.hist != [] && Phase(w, s0, s, t, call) && s.threads[t].Filling?
    ensures Alone(step, t) && Enabled(w, s, step) && (step.OpenAndFstat? || step.SettleAndStore? || step.Fail?)
    ensures step.Fail? ==> EffectOf(w, s0, call) == Fails
  {
    hide ConfigFromText, VerifierFromText, ConfigPath, Inline, HitFor;
    if PathFor(s0, call).None? {
      NoPathIsConfig(s0, call);
      step := if Inline(call.raw).Ok? then SettleAndStore(t) else Fail(t);
    } else {
      step := if Readable(call, FileFor(s0, call)) then OpenAndFstat(t) else Fail(t);
    }
  }

  lemma NextReading(w: World, s0: Sys, s: Sys, t: nat, call: Call) returns (step: Step)
    requires w.tick > 0 && s0.hist != [] && Phase(w, s0, s, t, call) && (s.threads[t].Opened? || s.threads[t].HasRead?)
    ensures Alone(step, t) && Enabled(w, s, step)
    ensures if s.threads[t].Opened? then step.ReadAll? else step.SettleAndStore? || step.Fail?
    ensures step.Fail? ==> EffectOf(w, s0, call) == Fails
  {
    hide ConfigFromText, VerifierFromText, ConfigPath, Inline, HitFor, Settled;
    if s.threads[t].Opened? {
      step := ReadAll(t);
    } else {
      step := if FromText(w, s0.args, call, FileFor(s0, call).contents).Some? then SettleAndStore(t) else Fail(t);
    }
  }

  lemma NextStarting(w: World, s0: Sys, s: Sys, t: nat, call: Call) returns (step: Step)
    requires w.tick > 0 && s0.hist != [] && Phase(w, s0, s, t, call) && (s.threads[t].Called? || s.threads[t].Waiting?)
    requires LockOf(call) !in s0.locks && CallExists(s0.args, call)
    ensures Alone(step, t) && Enabled(w, s, step)
    ensures if s.threads[t].Waiting? then step.LockAndCompare? else step.Stat? || step.Fail?
    ensures step.Fail? ==> EffectOf(w, s0, call) == Fails
  {
    hide ConfigPath, HitFor;
    if s.threads[t].Waiting? {
      step := LockAndCompare(t);
    } else {
      step := if Ready(s0, call) then Stat(t) else Fail(t);
    }
  }

  /** Every step but a Begin brings the call nearer to its return. */
  lemma StepsAdvance(w: World, s: Sys, t: nat, step: Step)
    requires w.tick > 0 && s.hist != [] && t in s.threads && Alone(step, t) && Enabled(w, s, step)
    ensures Remaining(ThreadOf(Apply(w, s, step), t)) < Remaining(s.threads[t])
  {
    hide PathOf, HitFor, ConfigFromText, VerifierFromText, Inline, Settled;
  }

  /** From every phase there is a next step; it fails only if that is the effect. */
  lemma NextAlone(w: World, s0: Sys, s: Sys, t: nat, call: Call) returns (step: Step)
    requires w.tick > 0 && s0.hist != [] && Phase(w, s0, s, t, call) && !s.threads[t].Done?
    requires LockOf(call) !in s0.locks && CallExists(s0.args, call)
    ensures s.hist != [] && Alone(step, t) && Enabled(w, s, step)
    ensures Remaining(ThreadOf(Apply(w, s, step), t)) < Remaining(s.threads[t])
    ensures step.Fail? ==> EffectOf(w, s0, call) == Fails
  {
    hide Enabled, EffectOf, Apply;
    if s.threads[t].Called? || s.threads[t].Waiting? {
      step := NextStarting(w, s0, s, t, call);
    } else if s.threads[t].Filling? {
      step := NextFilling(w, s0, s, t, call);
    } else {
      step := NextReading(w, s0, s, t, call);
    }
    StepsAdvance(w, s, t, step);
  }

  lemma {:induction false} RunAloneFrom(w: World, s0: Sys, s: Sys, t: nat, call: Call) returns (steps: seq<Step>)
    requires w.tick > 0 && s0.hist != [] && Phase(w, s0, s, t, call)
    requires LockOf(call) !in s0.locks && CallExists(s0.args, call)
    requires s.threads[t].Done? ==> HasEffect(s0, s, t, call, EffectOf(w, s0, call))
    ensures (forall step | step in steps :: Alone(step, t)) && Execute(w, s, steps).Some?
    ensures HasEffect(s0, Execute(w, s, steps).value, t, call, EffectOf(w, s0, call))
    decreases Remaining(s.threads[t])
  {
    hide HasEffect, EffectOf, Enabled, Apply;
    if s.threads[t].Done? {
      steps := [];
    } else {
      var step := NextAlone(w, s0, s, t, call);
      PhaseStep(w, s0, s, t, call, step);
      var s1 := Apply(w, s, step);
      if step.Fail? {
        PhaseFail(w, s0, s, t, call);
      }
      DoneHasEffect(w, s0, s, s1, t, call, step);
      var rest := RunAloneFrom(w, s0, s1, t, call);
      steps := [step] + rest;
      assert steps[1..] == rest;
    }
  }

  lemma DoneHasEffect(w: World, s0: Sys, s: Sys, s1: Sys, t: nat, call: Call, step: Step)
    requires w.tick > 0 && s0.hist != [] && s.hist != [] && Alone(step, t) && Enabled(w, s, step)
    requires s1 == Apply(w, s, step)
    requires Phase(w, s0, s, t, call) && !s.threads[t].Done? && Phase(w, s0, s1, t, call)
    requires step.Fail? ==> EffectOf(w, s0, call) == Fails
    ensures s1.threads[t].Done? ==> HasEffect(s0, s1, t, call, EffectOf(w, s0, call))
  {
    hide HasEffect, EffectOf, PathOf, HitFor;
    if s1.threads[t].Done? && s1.threads[t].outcome.None? {
      assert step.Fail?;
    }
  }

  /** One of these runs has the effect. */
  lemma SomeRunAlone(w: World, s: Sys, t: nat, call: Call) returns (steps: seq<Step>)
    requires w.tick > 0 && s.hist != [] && t in s.threads && s.threads[t] == Called(call)
    requires LockOf(call) !in s.locks && CallExists(s.args, call)
    ensures (forall step | step in steps :: Alone(step, t)) && Execute(w, s, steps).Some?
    ensures HasEffect(s, Execute(w, s, steps).value, t, call, EffectOf(w, s, call))
  {
    hide HasEffect, EffectOf, Apply, Enabled, Execute;
    steps := RunAloneFrom(w, s, s, t, call);
  }

  // ---------- the decisions of the objects ----------

  /** What the current file system answers a call that nothing interrupts. */
  function IoOf(s: Sys, path: Option<string>): Io
    requires s.hist != []
  {
    var fs := Current(s);
    var found :=
      if path.Some? && Resolves(fs, path.value)
      then Some((Resolve(fs, path.value), fs.files[Resolve(fs, path.value)]))
      else None;
    Io(found, found, if found.None? then None else Some(found.value.1.contents), fs.clock)
  }

  function StampFor(s: Sys, call: Call): Option<Option<Stamp>> {
    StampOfEntry(CachedFor(s, call))
  }

  function VerifierDecision(w: World, s: Sys, c: nat): Decision<JwtVerifier>
    requires s.hist != [] && c < |s.args|
  {
    DecideVerifier(w.lib, s.args[c], StampFor(s, VerifierCall(c)), IoOf(s, s.args[c].jwks))
  }

  function ConfigDecision(s: Sys, raw: seq<string>): Decision<PamArgs>
    requires s.hist != []
  {
    var path := match ConfigPath(raw) case Ok(path) => path case Err(_) => None;
    DecideConfig(raw, StampFor(s, ConfigCall(raw)), IoOf(s, path))
  }

  /** What GetVerifier decides, as an effect on the slot. */
  lemma VerifierDecides(w: World, s: Sys, c: nat)
    requires s.hist != [] && c < |s.args|
    ensures match VerifierDecision(w, s, c)
            case Refuse(_) => EffectOf(w, s, VerifierCall(c)) == Fails
            case Reuse =>
              c in s.slots &&
              EffectOf(w, s, VerifierCall(c)) == Hits(Outcome(Verifier(s.slots[c].verifier), s.slots[c].origin, true))
            case Replace(stamp, verifier) =>
              var e := EffectOf(w, s, VerifierCall(c));
              e.Fills? && e.stamp == stamp && e.built == Verifier(verifier)
  {
    hide PolicyOf, Load;
  }

  /** What GetConfig decides, as an effect on the map. */
  lemma ConfigDecides(w: World, s: Sys, raw: seq<string>)
    requires s.hist != [] && (raw in s.cache ==> s.cache[raw].config < |s.args|)
    ensures match ConfigDecision(s, raw)
            case Refuse(_) => EffectOf(w, s, ConfigCall(raw)) == Fails
            case Reuse =>
              raw in s.cache &&
              EffectOf(w, s, ConfigCall(raw))
              == Hits(Outcome(Arguments(s.args[s.cache[raw].config]), s.cache[raw].origin, true))
            case Replace(stamp, args) =>
              var e := EffectOf(w, s, ConfigCall(raw));
              e.Fills? && e.stamp == stamp && e.built == Arguments(args)
  {
    hide ConfigFromText, ConfigPath, Inline;
    TextGivesArguments(s, raw);
  }

  lemma TextGivesArguments(s: Sys, raw: seq<string>)
    ensures forall contents :: ConfigFromText(contents).Some? ==> ConfigFromText(contents).value.Arguments?
  {
    hide Config;
  }

  /** The verifier level after a decision, and what thread t has got. */
  predicate VerifierDone(s: Sys, s': Sys, t: nat, c: nat, decision: Decision<JwtVerifier>) {
    match decision
    case Refuse(_) => SameLevels(s, s') && Failed(s', t, VerifierCall(c))
    case Reuse =>
      SameLevels(s, s') && c in s.slots && Returned(s', t, VerifierCall(c), Verifier(s.slots[c].verifier), true)
    case Replace(stamp, verifier) =>
      && s'.cache == s.cache && s'.args == s.args && c in s'.slots && s'.slots == s.slots[c := s'.slots[c]]
      && s'.slots[c].stamp == stamp && s'.slots[c].verifier == verifier
      && Returned(s', t, VerifierCall(c), Verifier(verifier), false)
  }

  predicate ConfigDone(s: Sys, s': Sys, t: nat, raw: seq<string>, decision: Decision<PamArgs>) {
    match decision
    case Refuse(_) => SameLevels(s, s') && Failed(s', t, ConfigCall(raw))
    case Reuse =>
      && SameLevels(s, s') && raw in s.cache && s.cache[raw].config < |s.args|
      && Returned(s', t, ConfigCall(raw), Arguments(s.args[s.cache[raw].config]), true)
    case Replace(stamp, args) =>
      && s'.slots == s.slots && s'.args == s.args + [args]
      && raw in s'.cache && s'.cache == s.cache[raw := s'.cache[raw]]
      && s'.cache[raw].stamp == stamp && s'.cache[raw].config == |s.args|
      && Returned(s', t, ConfigCall(raw), Arguments(args), false)
  }

  predicate Failed(s: Sys, t: nat, call: Call) {
    t in s.threads && s.threads[t].Done? && s.threads[t].call == call && s.threads[t].outcome == None
  }

  predicate Returned(s: Sys, t: nat, call: Call, built: Built, hit: bool) {
    && t in s.threads && s.threads[t].Done? && s.threads[t].call == call
    && s.threads[t].outcome.Some? && s.threads[t].outcome.value.built == built && s.threads[t].outcome.value.hit == hit
  }

  lemma VerifierEffect(w: World, s: Sys, s': Sys, t: nat, c: nat)
    requires s.hist != [] && c < |s.args| && HasEffect(s, s', t, VerifierCall(c), EffectOf(w, s, VerifierCall(c)))
    ensures VerifierDone(s, s', t, c, VerifierDecision(w, s, c))
  {
    hide VerifierDecision, EffectOf;
    VerifierDecides(w, s, c);
  }

  lemma ConfigEffect(w: World, s: Sys, s': Sys, t: nat, raw: seq<string>)
    requires s.hist != [] && HasEffect(s, s', t, ConfigCall(raw), EffectOf(w, s, ConfigCall(raw)))
    requires raw in s.cache ==> s.cache[raw].config < |s.args|
    ensures ConfigDone(s, s', t, raw, ConfigDecision(s, raw))
  {
    hide ConfigDecision, EffectOf;
    ConfigDecides(w, s, raw);
  }

  /**
   A call on a verifier slot that nothing interrupts: some run ends as
   GetVerifier decides, and every run in which the call returns ends so or is a
   failed call that leaves both levels alone.
   */
  lemma GetVerifierFollowsModel(w: World, s: Sys, t: nat, c: nat) returns (steps: seq<Step>)
    requires w.tick > 0 && s.hist != [] && t in s.threads && s.threads[t] == Called(VerifierCall(c))
    requires c < |s.args| && SlotLock(c) !in s.locks
    ensures (forall step | step in steps :: Alone(step, t)) && Execute(w, s, steps).Some?
    ensures VerifierDone(s, Execute(w, s, steps).value, t, c, VerifierDecision(w, s, c))
  {
    hide HasEffect, EffectOf, VerifierDecision, Execute;
    steps := SomeRunAlone(w, s, t, VerifierCall(c));
    VerifierEffect(w, s, Execute(w, s, steps).value, t, c);
  }

  lemma GetVerifierEveryRun(w: World, s: Sys, t: nat, c: nat, steps: seq<Step>)
    requires w.tick > 0 && s.hist != [] && t in s.threads && s.threads[t] == Called(VerifierCall(c)) && c < |s.args|
    requires (forall step | step in steps :: Alone(step, t)) && Execute(w, s, steps).Some?
    requires var s' := Execute(w, s, steps).value; t in s'.threads && s'.threads[t].Done?
    ensures var s' := Execute(w, s, steps).value;
            || VerifierDone(s, s', t, c, VerifierDecision(w, s, c))
            || (SameLevels(s, s') && Failed(s', t, VerifierCall(c)))
  {
    hide EffectOf, VerifierDecision, Execute;
    var s' := Execute(w, s, steps).value;
    EveryRunAlone(w, s, t, VerifierCall(c), steps);
    if HasEffect(s, s', t, VerifierCall(c), EffectOf(w, s, VerifierCall(c))) {
      VerifierEffect(w, s, s', t, c);
    }
  }

  /** The same for the entry of some arguments and GetConfig. */
  lemma GetConfigFollowsModel(w: World, s: Sys, t: nat, raw: seq<string>) returns (steps: seq<Step>)
    requires w.tick > 0 && s.hist != [] && t in s.threads && s.threads[t] == Called(ConfigCall(raw))
    requires CacheLock !in s.locks && (raw in s.cache ==> s.cache[raw].config < |s.args|)
    ensures (forall step | step in steps :: Alone(step, t)) && Execute(w, s, steps).Some?
    ensures ConfigDone(s, Execute(w, s, steps).value, t, raw, ConfigDecision(s, raw))
  {
    hide HasEffect, EffectOf, ConfigDecision, Execute;
    steps := SomeRunAlone(w, s, t, ConfigCall(raw));
    ConfigEffect(w, s, Execute(w, s, steps).value, t, raw);
  }

  lemma GetConfigEveryRun(w: World, s: Sys, t: nat, raw: seq<string>, steps: seq<Step>)
    requires w.tick > 0 && s.hist != [] && t in s.threads && s.threads[t] == Called(ConfigCall(raw))
    requires raw in s.cache ==> s.cache[raw].config < |s.args|
    requires (forall step | step in steps :: Alone(step, t)) && Execute(w, s, steps).Some?
    requires var s' := Execute(w, s, steps).value; t in s'.threads && s'.threads[t].Done?
    ensures var s' := Execute(w, s, steps).value;
            ConfigDone(s, s', t, raw, ConfigDecision(s, raw)) || (SameLevels(s, s') && Failed(s', t, ConfigCall(raw)))
  {
    hide EffectOf, ConfigDecision, Execute;
    var s' := Execute(w, s, steps).value;
    EveryRunAlone(w, s, t, ConfigCall(raw), steps);
    if HasEffect(s, s', t, ConfigCall(raw), EffectOf(w, s, ConfigCall(raw))) {
      ConfigEffect(w, s, s', t, raw);
    }
  }
}
