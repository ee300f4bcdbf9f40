/**
 When a call on a file behaves as if it had happened at one instant: the path,
 the file it names and its contents all taken from one state of the file system.
 */
module CacheInstants {
  import opened Prelude
  import opened Utf8
  import opened Pam
  import opened CacheModel
  import opened CacheInvariant
  import opened CacheTheorems

  /** At instant k the path of the call names a file whose contents give built. */
  ghost predicate AnsweredAt(w: World, s: Sys, call: Call, built: Built, k: nat) {
    && CallExists(s.args, call) && k < |s.hist|
    && match PathOf(s.args, call)
       case Ok(Some(path)) =>
         Resolves(s.hist[k], path) &&
         FromText(w, s.args, call, s.hist[k].files[Resolve(s.hist[k], path)].contents) == Some(built)
       case _ => false
  }

  predicate IsFileAnswer(thread: Thread) {
    thread.Done? && thread.outcome.Some? && thread.outcome.value.origin.FromFile?
  }

  /** Some instant from the call's stat on answers it. */
  ghost predicate AtOneInstant(w: World, s: Sys, thread: Thread)
    requires IsFileAnswer(thread)
  {
    exists k :: thread.statAt <= k && AnsweredAt(w, s, thread.call, thread.outcome.value.built, k)
  }

  // ---------- what may happen to files ----------

  /** rewrites: contents of existing files may change. repoints: existing names may be removed or name another file. */
  datatype Discipline = Discipline(rewrites: bool, repoints: bool)

  ghost predicate NoRewrite(hist: seq<Fs>) {
    forall j, k, ino | 0 <= j <= k < |hist| && ino in hist[j].files :: SameContents(hist, ino, j, k)
  }

  ghost predicate NoRepoint(hist: seq<Fs>) {
    forall j, k, path | 0 <= j <= k < |hist| && path in hist[j].names ::
      path in hist[k].names && hist[k].names[path] == hist[j].names[path]
  }

  ghost predicate Follows(d: Discipline, hist: seq<Fs>) {
    && (!d.rewrites ==> NoRewrite(hist))
    && (!d.repoints ==> NoRepoint(hist))
  }

  /** Every file-backed answer of every run that follows the discipline is one of a single instant of its call. */
  ghost predicate EveryAnswerAtOneInstant(w: World, d: Discipline)
    requires w.tick > 0
  {
    forall s, t | Reachable(w, s) && Follows(d, s.hist) && t in s.threads && IsFileAnswer(s.threads[t]) ::
      AtOneInstant(w, s, s.threads[t])
  }

  /** Files that are only ever replaced whole, by a new file under the old name. */
  lemma WithoutRewrites(w: World, s: Sys, t: nat)
    requires w.tick > 0 && Reachable(w, s) && NoRewrite(s.hist) && t in s.threads && IsFileAnswer(s.threads[t])
    ensures AtOneInstant(w, s, s.threads[t])
  {
    hide Reachable, ConfigFromText, VerifierFromText, ConfigPath, Inline;
    ReachableInv(w, s);
    assert ThreadOk(w, s.hist, s.args, s.threads[t]);
    var Done(call, statAt, Some(out)) := s.threads[t];
    var FromFile(ino, o, r) := out.origin;
    var k := if out.hit then statAt else o;
    assert SameContents(s.hist, ino, k, r) || SameContents(s.hist, ino, r, k);
    assert AnsweredAt(w, s, call, out.built, k);
  }

  /** Files that keep their names, and are rewritten in place. */
  lemma WithoutRepoints(w: World, s: Sys, t: nat)
    requires w.tick > 0 && Reachable(w, s) && NoRepoint(s.hist) && t in s.threads && IsFileAnswer(s.threads[t])
    requires w.delay + w.tick <= SETTLE_TIME
    ensures AtOneInstant(w, s, s.threads[t])
  {
    hide Reachable, ConfigFromText, VerifierFromText, ConfigPath, Inline;
    ReachableInv(w, s);
    assert ThreadOk(w, s.hist, s.args, s.threads[t]);
    var Done(call, statAt, Some(out)) := s.threads[t];
    var FromFile(ino, o, r) := out.origin;
    var path := PathOf(s.args, call).value.value;
    var k := if r <= statAt then statAt else r;
    assert path in s.hist[o].names && NamedAt(s.hist, path, ino, k);
    assert AnsweredAt(w, s, call, out.built, k);
  }

  // ---------- the runs outside ----------

  const OTHER_INODE := Inode(1, 2)

  /** Another file of the same contents, and the configuration path moved to it. */
  lemma DoRepoint(w: World, s: Sys, x: seq<Byte>) returns (s': Sys)
    requires w.tick > 0 && Reachable(w, s) && |s.hist| == 1 && InPlace(s) && s.hist[0].files[CONFIG_INODE].contents == x
    ensures Reachable(w, s') && s' == s.(hist := s'.hist)
    ensures |s'.hist| == 3 && s'.hist[0] == s.hist[0] && Current(s').clock == s.hist[0].clock
    ensures forall k | 0 <= k < 3 ::
              Resolves(s'.hist[k], CONFIG_FILE) && s'.hist[k].files[Resolve(s'.hist[k], CONFIG_FILE)].contents == x
    ensures Resolves(Current(s'), CONFIG_FILE) && Resolve(Current(s'), CONFIG_FILE) == OTHER_INODE
    ensures CONFIG_INODE in Current(s').files
  {
    hide Reachable, ConfigFromText, ConfigPath;
    var made := DoFs(w, s, Change(OTHER_INODE, Version(x, Floor(w, s.hist[0].clock))));
    assert OTHER_INODE in Current(made).files && Current(made).files[CONFIG_INODE] == s.hist[0].files[CONFIG_INODE];
    s' := DoFs(w, made, Link(CONFIG_FILE, OTHER_INODE));
    assert Resolves(Current(s'), CONFIG_FILE) && Resolve(Current(s'), CONFIG_FILE) == OTHER_INODE;
    assert s'.hist[0] == s.hist[0] && s'.hist[1] == Current(made) && s'.hist[2] == Current(s');
  }

  /** Thread 1 has the file open; the path moves away from it, and then it is rewritten and read. */
  lemma RewrittenBehindPath(w: World, x: seq<Byte>, y: seq<Byte>) returns (s: Sys)
    requires w.tick > 0
    ensures Reachable(w, s) && |s.hist| == 4
    ensures CONFIG_INODE in s.hist[3].files && s.hist[3].files[CONFIG_INODE].contents == y
    ensures s.hist[3].clock == s.hist[0].clock && CONFIG_INODE in s.hist[0].files
    ensures 1 in s.threads && s.threads[1] == HasRead(THE_CALL, 0, CONFIG_INODE, 0, 3)
    ensures forall k | 0 <= k < 4 ::
              Resolves(s.hist[k], CONFIG_FILE) && s.hist[k].files[Resolve(s.hist[k], CONFIG_FILE)].contents == x
  {
    hide Reachable, ConfigFromText, ConfigPath;
    var first := OpenFirst(w, x, 0);
    var moved := DoRepoint(w, first, x);
    var changed := DoFs(w, moved, Change(CONFIG_INODE, Version(y, Floor(w, 0))));
    assert forall k | 0 <= k < 3 :: changed.hist[k] == moved.hist[k];
    s := DoRead(w, changed, 1, 0, 0);
  }

  /** A fill whose answer its path never gave: not before the call, not during it, and not until now. */
  lemma RepointedMeanwhile(w: World) returns (s: Sys, out: Outcome)
    requires w.tick > 0
    ensures Reachable(w, s) && 1 in s.threads && s.threads[1] == Done(THE_CALL, 0, Some(out))
    ensures IsFileAnswer(s.threads[1])
    ensures forall k: nat | k < |s.hist| :: !AnsweredAt(w, s, THE_CALL, out.built, k)
  {
    var x, y := DistinguishableFiles();
    hide Reachable, ConfigPath, ConfigFromText;
    var read := RewrittenBehindPath(w, x, y);
    var built := ConfigFromText(y).value;
    BuiltKind(w, read.args, THE_CALL, y);
    ReachStep(w, read, SettleAndStore(1));
    s := Apply(w, read, SettleAndStore(1));
    out := Outcome(built, FromFile(CONFIG_INODE, 0, 3), false);
    forall k: nat | k < |s.hist| ensures !AnsweredAt(w, s, THE_CALL, built, k) {
      ThePath(s.args);
      assert s.hist[k] == read.hist[k];
    }
  }

  /** The late hit of a world outside the bound, where names never change. */
  lemma LateHitAtNoInstant(w: World) returns (s: Sys)
    requires w.tick > 0 && w.delay + w.tick > SETTLE_TIME
    ensures Reachable(w, s) && NoRepoint(s.hist)
    ensures 2 in s.threads && IsFileAnswer(s.threads[2]) && !AtOneInstant(w, s, s.threads[2])
  {
    hide Reachable, ConfigPath, ConfigFromText;
    var out;
    s, out := LateHit(w);
    ThePath(s.args);
    forall k: nat | 2 <= k ensures !AnsweredAt(w, s, THE_CALL, out.built, k) {
    }
  }

  /**
   Every answer is one of a single instant exactly when files are never
   rewritten, or names never move and the settle check comes in time.
   */
  lemma OneInstantIsExact(w: World, d: Discipline)
    requires w.tick > 0
    ensures EveryAnswerAtOneInstant(w, d) <==> !d.rewrites || (!d.repoints && w.delay + w.tick <= SETTLE_TIME)
  {
    hide Reachable, AnsweredAt, NoRewrite, NoRepoint;
    if !d.rewrites || (!d.repoints && w.delay + w.tick <= SETTLE_TIME) {
      forall s, t | Reachable(w, s) && Follows(d, s.hist) && t in s.threads && IsFileAnswer(s.threads[t])
        ensures AtOneInstant(w, s, s.threads[t])
      {
        if d.rewrites {
          WithoutRepoints(w, s, t);
        } else {
          WithoutRewrites(w, s, t);
        }
      }
    } else if d.repoints {
      var s, out := RepointedMeanwhile(w);
      AnsweredInHistory(w, s, THE_CALL, out.built);
      assert !AtOneInstant(w, s, s.threads[1]);
    } else {
      var s := LateHitAtNoInstant(w);
      assert Follows(d, s.hist);
    }
  }

  lemma AnsweredInHistory(w: World, s: Sys, call: Call, built: Built)
    ensures forall k: nat | AnsweredAt(w, s, call, built, k) :: k < |s.hist|
  {
  }

  // ---------- the instant of the call's own stat ----------

  predicate IsFileHit(thread: Thread) {
    IsFileAnswer(thread) && thread.outcome.value.hit
  }

  /** Every file-backed hit of every run that follows the discipline is what its path gave at its own stat. */
  ghost predicate EveryHitAnsweredAtStat(w: World, d: Discipline)
    requires w.tick > 0
  {
    forall s, t | Reachable(w, s) && Follows(d, s.hist) && t in s.threads && IsFileHit(s.threads[t]) ::
      AnsweredAt(w, s, s.threads[t].call, s.threads[t].outcome.value.built, s.threads[t].statAt)
  }

  lemma HitWithoutRewrites(w: World, s: Sys, t: nat)
    requires w.tick > 0 && Reachable(w, s) && NoRewrite(s.hist) && t in s.threads && IsFileHit(s.threads[t])
    ensures AnsweredAt(w, s, s.threads[t].call, s.threads[t].outcome.value.built, s.threads[t].statAt)
  {
    hide Reachable, ConfigFromText, VerifierFromText, ConfigPath, Inline;
    ReachableInv(w, s);
    assert ThreadOk(w, s.hist, s.args, s.threads[t]);
    var Done(call, statAt, Some(out)) := s.threads[t];
    var FromFile(ino, _, r) := out.origin;
    assert SameContents(s.hist, ino, statAt, r) || SameContents(s.hist, ino, r, statAt);
  }

  /** The hit of an overlapping fill, where names never change. */
  lemma OverlappingHitNotAtStat(w: World) returns (s: Sys)
    requires w.tick > 0
    ensures Reachable(w, s) && NoRepoint(s.hist)
    ensures 2 in s.threads && IsFileHit(s.threads[2])
    ensures !AnsweredAt(w, s, s.threads[2].call, s.threads[2].outcome.value.built, s.threads[2].statAt)
  {
    hide Reachable, ConfigPath, ConfigFromText;
    var out;
    s, out := OverlappingHit(w, SETTLE_TIME);
    ThePath(s.args);
  }

  /** Hits are fresh at the call's own stat exactly where files are never rewritten in place, whatever the bound. */
  lemma FreshAtStatIsExact(w: World, d: Discipline)
    requires w.tick > 0
    ensures EveryHitAnsweredAtStat(w, d) <==> !d.rewrites
  {
    hide Reachable, AnsweredAt, NoRewrite, NoRepoint;
    if d.rewrites {
      var s := OverlappingHitNotAtStat(w);
      assert Follows(d, s.hist);
    } else {
      forall s, t | Reachable(w, s) && Follows(d, s.hist) && t in s.threads && IsFileHit(s.threads[t])
        ensures AnsweredAt(w, s, s.threads[t].call, s.threads[t].outcome.value.built, s.threads[t].statAt)
      {
        HitWithoutRewrites(w, s, t);
      }
    }
  }
}
