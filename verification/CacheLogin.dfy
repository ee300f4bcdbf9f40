/**
 One login of the PAM module over both levels: a thread gets its Config, and
 later the verifier of that Config, while anything else may happen around it.
 */
module CacheLogin {
  import opened Prelude
  import opened Utf8
  import opened Jwt
  import opened Pam
  import opened Plain
  import opened OptionTheorems
  import opened CacheModel
  import opened CacheInvariant
  import opened CacheTheorems

  /** The step from s to s1 gives thread t arguments from its call for raw. */
  predicate GetsConfig(w: World, s: Sys, step: Step, s1: Sys, t: nat, raw: seq<string>)
    requires w.tick > 0
  {
    && s.hist != [] && Enabled(w, s, step) && s1 == Apply(w, s, step)
    && !ThreadOf(s, t).Done? && Got(s1, t, ConfigCall(raw))
  }

  predicate Got(s: Sys, t: nat, call: Call) {
    t in s.threads && s.threads[t].Done? && s.threads[t].call == call && s.threads[t].outcome.Some?
  }

  function Value(s: Sys, t: nat, call: Call): Built
    requires Got(s, t, call)
  {
    s.threads[t].outcome.value.built
  }

  lemma GotByHitOrStore(w: World, s: Sys, step: Step, s1: Sys, t: nat, raw: seq<string>)
    requires w.tick > 0 && GetsConfig(w, s, step, s1, t, raw)
    ensures step == LockAndCompare(t) || step == SettleAndStore(t)
  {
    hide PathOf, HitFor, FsEnabled, FsApply, ConfigPath, ConfigFromText, VerifierFromText, Inline, Settled;
  }

  predicate FromMap(s: Sys, t: nat, raw: seq<string>) {
    && Got(s, t, ConfigCall(raw)) && raw in s.cache && s.cache[raw].config < |s.args|
    && Value(s, t, ConfigCall(raw)) == Arguments(s.args[s.cache[raw].config])
  }

  lemma GotByHit(w: World, s: Sys, s1: Sys, t: nat, raw: seq<string>)
    requires w.tick > 0 && GetsConfig(w, s, LockAndCompare(t), s1, t, raw)
    ensures FromMap(s1, t, raw)
  {
    hide PathOf, CanStore, FsEnabled, FsApply, StoreAndReturn;
  }

  lemma StoredInMap(s: Sys, t: nat, raw: seq<string>, built: Built, stamp: Option<Stamp>, origin: Origin, at: nat)
    requires built.Arguments?
    ensures FromMap(Put(Unlock(Store(s, ConfigCall(raw), stamp, built, origin), ConfigCall(raw)), t,
                        Done(ConfigCall(raw), at, Some(Outcome(built, origin, false)))),
                    t, raw)
  {
  }

  lemma GotByStore(w: World, s: Sys, s1: Sys, t: nat, raw: seq<string>)
    requires w.tick > 0 && GetsConfig(w, s, SettleAndStore(t), s1, t, raw)
    ensures FromMap(s1, t, raw)
  {
    hide ConfigFromText, VerifierFromText, ConfigPath, Inline, Settled, FromMap, Store;
    match ThreadOf(s, t) {
      case Filling(call, at) => StoredInMap(s, t, raw, Arguments(Inline(raw).value), None, FromInline, at);
      case HasRead(call, at, ino, o, r) =>
        var contents := s.hist[r].files[ino].contents;
        BuiltKind(w, s.args, call, contents);
        StoredInMap(s, t, raw, FromText(w, s.args, call, contents).value,
                    Settled(ino, s.hist[o].files[ino], Current(s).clock), FromFile(ino, o, r), at);
      case _ =>
    }
  }

  /** The Config object it gets is the one the map then has for raw, from a hit and from a fill alike. */
  lemma GotFromMap(w: World, s: Sys, step: Step, s1: Sys, t: nat, raw: seq<string>)
    requires w.tick > 0 && GetsConfig(w, s, step, s1, t, raw)
    ensures FromMap(s1, t, raw)
  {
    hide GetsConfig, FromMap;
    GotByHitOrStore(w, s, step, s1, t, raw);
    if step.LockAndCompare? {
      GotByHit(w, s, s1, t, raw);
    } else {
      GotByStore(w, s, s1, t, raw);
    }
  }

  // ---------- what holds from then on ----------

  lemma StepKeepsArgs(w: World, s: Sys, step: Step)
    requires w.tick > 0 && s.hist != [] && Enabled(w, s, step)
    ensures s.args <= Apply(w, s, step).args
    ensures |s.hist| <= |Apply(w, s, step).hist|
  {
    hide ConfigFromText, VerifierFromText, ConfigPath, Inline;
  }

  /** The thread is still where the call for raw left it, or every later stat of it was at n or after. */
  predicate Later(thread: Thread, raw: seq<string>, n: nat) {
    match thread
    case Idle => true
    case Called(_) => true
    case Waiting(_, statAt, _) => n <= statAt
    case Filling(_, statAt) => n <= statAt
    case Opened(_, statAt, _, _) => n <= statAt
    case HasRead(_, statAt, _, _, _) => n <= statAt
    case Done(call, statAt, _) => call == ConfigCall(raw) || n <= statAt
  }

  lemma StepKeepsLater(w: World, s: Sys, step: Step, t: nat, raw: seq<string>, n: nat)
    requires w.tick > 0 && s.hist != [] && Enabled(w, s, step) && n < |s.hist| && Later(ThreadOf(s, t), raw, n)
    ensures Later(ThreadOf(Apply(w, s, step), t), raw, n)
  {
    hide ConfigFromText, VerifierFromText, ConfigPath, Inline, HitFor;
    OthersStay(w, s, step);
  }

  /** A step moves no thread but its own. */
  lemma OthersStay(w: World, s: Sys, step: Step)
    requires w.tick > 0 && s.hist != [] && Enabled(w, s, step)
    ensures forall u: nat | IsFsStep(step) || u != step.t :: ThreadOf(Apply(w, s, step), u) == ThreadOf(s, u)
  {
    hide ConfigFromText, VerifierFromText, ConfigPath, Inline, HitFor;
  }

  lemma {:induction false} RunKeepsLater(w: World, s: Sys, steps: seq<Step>, t: nat, raw: seq<string>, n: nat)
    requires w.tick > 0 && Reachable(w, s) && n < |s.hist| && Later(ThreadOf(s, t), raw, n)
    requires Execute(w, s, steps).Some?
    ensures var s' := Execute(w, s, steps).value;
            Reachable(w, s') && s.args <= s'.args && n < |s'.hist| && Later(ThreadOf(s', t), raw, n)
    decreases |steps|
  {
    hide Reachable, Enabled, Apply, Later;
    if steps == [] {
    } else {
      ReachStep(w, s, steps[0]);
      StepKeepsArgs(w, s, steps[0]);
      StepKeepsLater(w, s, steps[0], t, raw, n);
      RunKeepsLater(w, Apply(w, s, steps[0]), steps[1..], t, raw, n);
    }
  }

  // ---------- the login ----------

  /** A path that names a file at one instant, and the contents of that file at another, not earlier. */
  datatype Sight = Sight(path: string, ino: Inode, namedAt: nat, asOf: nat)

  predicate Sees(hist: seq<Fs>, from: nat, sight: Sight) {
    && from <= sight.namedAt <= sight.asOf < |hist|
    && Resolves(hist[sight.namedAt], sight.path) && Resolve(hist[sight.namedAt], sight.path) == sight.ino
    && sight.ino in hist[sight.asOf].files
  }

  function Contents(hist: seq<Fs>, from: nat, sight: Sight): seq<Byte>
    requires Sees(hist, from, sight)
  {
    hist[sight.asOf].files[sight.ino].contents
  }

  /** The arguments a thread got come from its raw arguments, or from the file as it was during its call. */
  ghost predicate ArgumentsSeen(s: Sys, thread: Thread, raw: seq<string>, args: PamArgs, sight: Option<Sight>)
    requires thread.Done?
  {
    match sight
    case None => NamesNoFile(raw) && Inline(raw) == Ok(args)
    case Some(at) =>
      && raw == ["config=" + at.path] && Sees(s.hist, thread.statAt, at)
      && exists text: string :: Contents(s.hist, thread.statAt, at) == Encode(text) && Config(text) == Ok(args)
  }

  /** The verifier was loaded from the JWKS file the arguments name, as it was at an instant from n on. */
  ghost predicate VerifierSeen(w: World, s: Sys, n: nat, args: PamArgs, verifier: JwtVerifier, at: Sight) {
    && HasPolicyOf(args, verifier.policy) && args.jwks == Some(at.path) && Sees(s.hist, n, at)
    && exists text: string ::
         Contents(s.hist, n, at) == Encode(text) && Load(w.lib, verifier.policy, text) == Ok(verifier)
  }

  lemma ConfigSeen(w: World, s: Sys, t: nat, raw: seq<string>) returns (sight: Option<Sight>)
    requires w.tick > 0 && w.delay + w.tick <= SETTLE_TIME && Reachable(w, s)
    requires Got(s, t, ConfigCall(raw))
    ensures Value(s, t, ConfigCall(raw)).Arguments?
    ensures ArgumentsSeen(s, s.threads[t], raw, Value(s, t, ConfigCall(raw)).args, sight)
  {
    hide Reachable, Inline, Config, ConfigPath;
    ConfigPathExactly(raw);
    ReachableInv(w, s);
    assert ThreadOk(w, s.hist, s.args, s.threads[t]);
    var out := s.threads[t].outcome.value;
    if out.origin.FromInline? {
      sight := None;
    } else {
      BuiltKind(w, s.args, ConfigCall(raw), s.hist[out.origin.readAt].files[out.origin.ino].contents);
      var path, namedAt, asOf := Linearizable(w, s, t);
      sight := Some(Sight(path, out.origin.ino, namedAt, asOf));
      EncodeDecode(s.hist[asOf].files[out.origin.ino].contents);
    }
  }

  lemma JwksSeen(w: World, s: Sys, t: nat, c: nat) returns (at: Sight)
    requires w.tick > 0 && w.delay + w.tick <= SETTLE_TIME && Reachable(w, s)
    requires Got(s, t, VerifierCall(c))
    ensures c < |s.args| && Value(s, t, VerifierCall(c)).Verifier?
    ensures VerifierSeen(w, s, s.threads[t].statAt, s.args[c], Value(s, t, VerifierCall(c)).verifier, at)
  {
    hide Reachable, Load;
    ReachableInv(w, s);
    assert ThreadOk(w, s.hist, s.args, s.threads[t]);
    var out := s.threads[t].outcome.value;
    var path, namedAt, asOf := Linearizable(w, s, t);
    at := Sight(path, out.origin.ino, namedAt, asOf);
    LoadKeepsPolicy(w.lib, PolicyOf(s.args[c], s.args[c].iss.value), Decode(Contents(s.hist, namedAt, at)).value);
    EncodeDecode(Contents(s.hist, namedAt, at));
  }

  /**
   A thread gets a Config c, and later a verifier of it: the verifier is what
   the JWKS gave at an instant of the second call, under the policy that the
   arguments, or the configuration file at an instant of the first call, gave.
   */
  lemma OneLogin(w: World, s: Sys, step: Step, s1: Sys, t: nat, raw: seq<string>, steps: seq<Step>, s2: Sys, c: nat)
    returns (config: Option<Sight>, jwks: Sight)
    requires w.tick > 0 && w.delay + w.tick <= SETTLE_TIME && Reachable(w, s)
    requires GetsConfig(w, s, step, s1, t, raw) && raw in s1.cache && s1.cache[raw].config == c
    requires Execute(w, s1, steps) == Some(s2) && Got(s2, t, VerifierCall(c))
    ensures c < |s1.args| && Value(s1, t, ConfigCall(raw)) == Arguments(s1.args[c])
    ensures ArgumentsSeen(s1, s1.threads[t], raw, s1.args[c], config)
    ensures s2.threads[t].statAt >= |s1.hist| - 1 && Value(s2, t, VerifierCall(c)).Verifier?
    ensures VerifierSeen(w, s2, s2.threads[t].statAt, s1.args[c], Value(s2, t, VerifierCall(c)).verifier, jwks)
  {
    hide Reachable, Execute, ArgumentsSeen, VerifierSeen, Apply, Enabled;
    GotFromMap(w, s, step, s1, t, raw);
    ReachStep(w, s, step);
    config := ConfigSeen(w, s1, t, raw);
    StepKeepsArgs(w, s, step);
    RunKeepsLater(w, s1, steps, t, raw, |s1.hist| - 1);
    jwks := JwksSeen(w, s2, t, c);
  }
}
