/** What the cache promises, and the runs that show where it stops promising it. */
module CacheTheorems {
  import opened Prelude
  import opened Utf8
  import opened Text
  import opened Jwt
  import opened Options
  import opened Pam
  import opened FrontEnds
  import opened Plain
  import opened OptionTheorems
  import opened CacheModel
  import opened CacheInvariant

  lemma ReachStep(w: World, s: Sys, step: Step)
    requires w.tick > 0 && Reachable(w, s) && s.hist != [] && Enabled(w, s, step)
    ensures Reachable(w, Apply(w, s, step))
  {
    var init, steps :| Initial(init) && Execute(w, init, steps) == Some(s);
    ExecuteLast(w, init, steps, step);
    assert Execute(w, init, steps + [step]) == Some(Apply(w, s, step));
  }

  lemma {:induction false} ExecuteLast(w: World, s: Sys, steps: seq<Step>, step: Step)
    requires w.tick > 0 && Execute(w, s, steps).Some?
    requires var last := Execute(w, s, steps).value; last.hist != [] && Enabled(w, last, step)
    ensures Execute(w, s, steps + [step]) == Some(Apply(w, Execute(w, s, steps).value, step))
    decreases |steps|
  {
    if steps == [] {
      assert [step][1..] == [];
      assert steps + [step] == [step];
    } else {
      assert (steps + [step])[1..] == steps[1..] + [step];
      ExecuteLast(w, Apply(w, s, steps[0]), steps[1..], step);
    }
  }

  // ---------- freshness ----------

  /** The call stat'ed its path at statAt, and rebuilding from that file gives built. */
  ghost predicate RebuiltAtStat(w: World, s: Sys, call: Call, statAt: nat, built: Built) {
    && CallExists(s.args, call) && statAt < |s.hist|
    && match PathOf(s.args, call)
       case Ok(Some(path)) =>
         Resolves(s.hist[statAt], path) &&
         Rebuild(w, s.args, call, s.hist[statAt].files[Resolve(s.hist[statAt], path)]) == Some(built)
       case _ => false
  }

  /** A returned hit on a file-backed value whose fill did not read after this call's stat. */
  predicate IsSettledHit(thread: Thread) {
    thread.Done? && thread.outcome.Some? && thread.outcome.value.hit &&
    thread.outcome.value.origin.FromFile? && thread.outcome.value.origin.readAt <= thread.statAt
  }

  ghost predicate HitsAreFresh(w: World, s: Sys) {
    forall t | t in s.threads && IsSettledHit(s.threads[t]) ::
      RebuiltAtStat(w, s, s.threads[t].call, s.threads[t].statAt, s.threads[t].outcome.value.built)
  }

  ghost predicate EveryRunIsFresh(w: World)
    requires w.tick > 0
  {
    forall s | Reachable(w, s) :: HitsAreFresh(w, s)
  }

  /** A hit, at either level, is what rereading the file at the call's own stat would have given. */
  lemma CacheFreshness(w: World, s: Sys)
    requires w.tick > 0 && w.delay + w.tick <= SETTLE_TIME && Reachable(w, s)
    ensures HitsAreFresh(w, s)
  {
    ReachableInv(w, s);
    forall t | t in s.threads && IsSettledHit(s.threads[t])
      ensures RebuiltAtStat(w, s, s.threads[t].call, s.threads[t].statAt, s.threads[t].outcome.value.built)
    {
      assert ThreadOk(w, s.hist, s.args, s.threads[t]);
    }
  }

  function BarePolicy(userid: string): Policy {
    Policy(userid, 0, None, None, [], [], [], [], None, [])
  }

  lemma PlainFile(userid: string)
    requires WritableValue(userid)
    ensures ConfigFromText(Encode(FileOf(BarePolicy(userid)))) == Some(Arguments(Denoted(BarePolicy(userid))))
  {
    FileDenotes(BarePolicy(userid));
    DecodeEncode(FileOf(BarePolicy(userid)));
  }

  /** Two configuration files of equal length that mean different things. */
  lemma DistinguishableFiles() returns (x: seq<Byte>, y: seq<Byte>)
    ensures |x| == |y|
    ensures ConfigFromText(x).Some? && ConfigFromText(y).Some? && ConfigFromText(x) != ConfigFromText(y)
  {
    x, y := FilesFor("a", "b");
  }

  lemma FilesFor(u: string, v: string) returns (x: seq<Byte>, y: seq<Byte>)
    requires WritableValue(u) && WritableValue(v) && u != v && |Encode(u)| == |Encode(v)|
    ensures |x| == |y|
    ensures ConfigFromText(x).Some? && ConfigFromText(y).Some? && ConfigFromText(x) != ConfigFromText(y)
  {
    x, y := Encode(FileOf(BarePolicy(u))), Encode(FileOf(BarePolicy(v)));
    PlainFile(u);
    PlainFile(v);
    FileLengths(BarePolicy(u), BarePolicy(v));
    assert Denoted(BarePolicy(u)).userid != Denoted(BarePolicy(v)).userid;
  }

  lemma FileLengths(p: Policy, q: Policy)
    requires q == p.(userid := q.userid) && |Encode(p.userid)| == |Encode(q.userid)|
    ensures |Encode(FileOf(p))| == |Encode(FileOf(q))|
  {
    var rest := [(GRACE, ShowI64(p.grace))] + AllEntries(BlocksOf(p));
    assert BlocksOf(q) == BlocksOf(p);
    FileShape(p, rest);
    FileShape(q, rest);
  }

  lemma FileShape(p: Policy, rest: seq<Entry>)
    requires rest == [(GRACE, ShowI64(p.grace))] + AllEntries(BlocksOf(p))
    ensures |Encode(FileOf(p))| == |Encode(USERID + ": ")| + |Encode(p.userid)| + |Encode("\n" + Render(rest))|
  {
    var entries := EntriesFor(p);
    assert entries == [(USERID, p.userid)] + rest;
    assert entries[1..] == rest;
    var front, back := USERID + ": ", "\n" + Render(rest);
    assert FileLine(entries[0]) == front + p.userid;
    assert FileOf(p) == front + p.userid + back;
    EncodeConcat(front + p.userid, back);
    EncodeConcat(front, p.userid);
  }

  const CONFIG_INODE := Inode(1, 1)
  const CONFIG_FILE := "/c"

  function Version(contents: seq<Byte>, ctime: nat): File {
    File(contents, Time(0, 0), TimeOf(ctime), true, false)
  }

  function Start(contents: seq<Byte>, clock: nat): Sys {
    Sys([Fs(clock, map[CONFIG_INODE := Version(contents, 0)], map[CONFIG_FILE := CONFIG_INODE])],
        map[], [], map[], map[], map[])
  }

  lemma StartIsReachable(w: World, contents: seq<Byte>, clock: nat)
    requires w.tick > 0
    ensures Reachable(w, Start(contents, clock))
  {
    assert Execute(w, Start(contents, clock), []) == Some(Start(contents, clock));
  }

  const THE_CALL := ConfigCall([CONFIG_PREFIX + CONFIG_FILE])

  /** The configuration path names its inode, a regular file only its owner may write. */
  predicate InPlace(s: Sys) {
    && s.hist != []
    && Resolves(Current(s), CONFIG_FILE) && Resolve(Current(s), CONFIG_FILE) == CONFIG_INODE
    && Readable(THE_CALL, Current(s).files[CONFIG_INODE])
  }

  lemma ThePath(args: seq<PamArgs>)
    ensures PathOf(args, THE_CALL) == Ok(Some(CONFIG_FILE))
  {
    OneConfigArg(CONFIG_FILE);
  }

  lemma DoFs(w: World, s: Sys, step: Step) returns (s': Sys)
    requires w.tick > 0 && Reachable(w, s) && s.hist != [] && IsFsStep(step) && FsEnabled(w, Current(s), step)
    ensures Reachable(w, s') && s' == s.(hist := s.hist + [FsApply(Current(s), step)])
  {
    ReachStep(w, s, step);
    s' := Apply(w, s, step);
  }

  /** A thread calls and stats. */
  lemma DoStat(w: World, s: Sys, t: nat) returns (s': Sys)
    requires w.tick > 0 && Reachable(w, s) && InPlace(s) && t !in s.threads
    ensures Reachable(w, s')
    ensures s' == Put(s, t, Waiting(THE_CALL, Now(s), Some(StampOf(CONFIG_INODE, Current(s).files[CONFIG_INODE]))))
  {
    hide ConfigFromText, VerifierFromText, PathOf, Reachable;
    ThePath(s.args);
    ReachStep(w, s, Begin(t, THE_CALL));
    var called := Put(s, t, Called(THE_CALL));
    assert called == Apply(w, s, Begin(t, THE_CALL));
    ReachStep(w, called, Stat(t));
    s' := Apply(w, called, Stat(t));
    assert s'.threads == s.threads[t := s'.threads[t]];
  }

  /** A waiting thread finds nothing cached, takes the lock and opens the file. */
  lemma DoOpen(w: World, s: Sys, t: nat, statAt: nat, current: Option<Stamp>) returns (s': Sys)
    requires w.tick > 0 && Reachable(w, s) && InPlace(s) && s.cache == map[] && s.locks == map[]
    requires t in s.threads && s.threads[t] == Waiting(THE_CALL, statAt, current)
    ensures Reachable(w, s')
    ensures s' == Put(s.(locks := map[CacheLock := t]), t, Opened(THE_CALL, statAt, CONFIG_INODE, Now(s)))
  {
    hide ConfigFromText, VerifierFromText, PathOf, Reachable;
    ThePath(s.args);
    ReachStep(w, s, LockAndCompare(t));
    var filling := Put(s.(locks := map[CacheLock := t]), t, Filling(THE_CALL, statAt));
    assert filling == Apply(w, s, LockAndCompare(t));
    ReachStep(w, filling, OpenAndFstat(t));
    s' := Apply(w, filling, OpenAndFstat(t));
    assert s'.threads == s.threads[t := s'.threads[t]];
  }

  lemma DoRead(w: World, s: Sys, t: nat, statAt: nat, openAt: nat) returns (s': Sys)
    requires w.tick > 0 && Reachable(w, s) && s.hist != [] && CONFIG_INODE in Current(s).files
    requires t in s.threads && s.threads[t] == Opened(THE_CALL, statAt, CONFIG_INODE, openAt)
    ensures Reachable(w, s') && s' == Put(s, t, HasRead(THE_CALL, statAt, CONFIG_INODE, openAt, Now(s)))
  {
    hide ConfigFromText, VerifierFromText, ConfigPath, Inline;
    ReachStep(w, s, ReadAll(t));
    s' := Apply(w, s, ReadAll(t));
  }

  /** Storing what was read at readAt, under the old ctime seen at the first state. */
  lemma DoStore(w: World, s: Sys, t: nat, statAt: nat, readAt: nat, built: Built) returns (s': Sys)
    requires w.tick > 0 && Reachable(w, s) && InPlace(s) && s.args == [] && s.cache == map[] && readAt < |s.hist|
    requires t in s.threads && s.threads[t] == HasRead(THE_CALL, statAt, CONFIG_INODE, 0, readAt)
    requires CONFIG_INODE in s.hist[0].files && CONFIG_INODE in s.hist[readAt].files
    requires s.hist[0].files[CONFIG_INODE].ctime == TimeOf(0)
    requires SETTLE_TIME <= Current(s).clock <= s.hist[0].clock + w.delay
    requires ConfigFromText(s.hist[readAt].files[CONFIG_INODE].contents) == Some(built)
    ensures Reachable(w, s')
    ensures built.Arguments?
    ensures var origin := FromFile(CONFIG_INODE, 0, readAt);
            var stamp := StampOf(CONFIG_INODE, s.hist[0].files[CONFIG_INODE]);
            s' == Put(s.(locks := s.locks - {CacheLock}, args := [built.args],
                         cache := map[THE_CALL.raw := CacheEntry(Some(stamp), 0, origin)]),
                      t, Done(THE_CALL, statAt, Some(Outcome(built, origin, false))))
  {
    hide ConfigFromText, VerifierFromText, ConfigPath, Inline, Reachable;
    BuiltKind(w, s.args, THE_CALL, s.hist[readAt].files[CONFIG_INODE].contents);
    ReachStep(w, s, SettleAndStore(t));
    s' := Apply(w, s, SettleAndStore(t));
  }

  /** A waiting thread whose stamp is the cached one. */
  lemma DoHit(w: World, s: Sys, t: nat, statAt: nat, stamp: Stamp, origin: Origin) returns (s': Sys)
    requires w.tick > 0 && Reachable(w, s) && s.hist != [] && |s.args| == 1 && s.locks == map[]
    requires t in s.threads && s.threads[t] == Waiting(THE_CALL, statAt, Some(stamp))
    requires s.cache == map[THE_CALL.raw := CacheEntry(Some(stamp), 0, origin)]
    ensures Reachable(w, s')
    ensures s' == Put(s, t, Done(THE_CALL, statAt, Some(Outcome(Arguments(s.args[0]), origin, true))))
  {
    hide ConfigFromText, VerifierFromText, ConfigPath, Inline;
    ReachStep(w, s, LockAndCompare(t));
    s' := Apply(w, s, LockAndCompare(t));
  }

  lemma NotRebuilt(w: World, s: Sys, statAt: nat, built: Built)
    requires statAt < |s.hist| && Resolves(s.hist[statAt], CONFIG_FILE)
    requires Resolve(s.hist[statAt], CONFIG_FILE) == CONFIG_INODE
    requires ConfigFromText(s.hist[statAt].files[CONFIG_INODE].contents) != Some(built)
    ensures !RebuiltAtStat(w, s, THE_CALL, statAt, built)
  {
    ThePath(s.args);
  }

  /** Thread t, already waiting since the first state, has opened the file there. */
  lemma OpenFirst(w: World, x: seq<Byte>, clock: nat) returns (s: Sys)
    requires w.tick > 0
    ensures Reachable(w, s)
    ensures s == Start(x, clock).(locks := map[CacheLock := 1],
                                  threads := map[1 := Opened(THE_CALL, 0, CONFIG_INODE, 0)])
  {
    hide ConfigFromText, VerifierFromText, ConfigPath, Inline;
    StartIsReachable(w, x, clock);
    s := DoStat(w, Start(x, clock), 1);
    s := DoOpen(w, s, 1, 0, Some(StampOf(CONFIG_INODE, Version(x, 0))));
    assert s.threads == map[1 := Opened(THE_CALL, 0, CONFIG_INODE, 0)];
  }

  /** The file changes within the tick of its ctime, and the delay passes. */
  lemma DoChangeAndWait(w: World, s: Sys, y: seq<Byte>) returns (s': Sys)
    requires w.tick > 0 && Reachable(w, s) && |s.hist| == 1 && InPlace(s) && s.hist[0].clock == w.tick - 1
    ensures Reachable(w, s') && s' == s.(hist := s'.hist)
    ensures |s'.hist| == 3 && s'.hist[0] == s.hist[0] && InPlace(s')
    ensures Current(s').files[CONFIG_INODE] == Version(y, 0) && Current(s').clock == w.tick - 1 + w.delay
    ensures forall k | 0 <= k < 3 :: s'.hist[k].names == s.hist[0].names
  {
    hide ConfigFromText, VerifierFromText, ConfigPath, Inline;
    assert Floor(w, w.tick - 1) == 0;
    var changed := DoFs(w, s, Change(CONFIG_INODE, Version(y, 0)));
    s' := DoFs(w, changed, Advance(w.delay));
  }

  /** The first version is read just before it changes; the check comes too late to notice. */
  lemma LateFill(w: World, x: seq<Byte>, y: seq<Byte>, built: Built) returns (s: Sys)
    requires w.tick > 0 && w.delay + w.tick > SETTLE_TIME
    requires ConfigFromText(x) == Some(built)
    ensures Reachable(w, s) && built.Arguments? && s.args == [built.args] && s.locks == map[] && 2 !in s.threads
    ensures |s.hist| == 3 && InPlace(s) && Current(s).files[CONFIG_INODE] == Version(y, 0)
    ensures forall k | 0 <= k < 3 :: s.hist[k].names == s.hist[0].names
    ensures s.cache == map[THE_CALL.raw :=
                             CacheEntry(Some(StampOf(CONFIG_INODE, Version(x, 0))), 0, FromFile(CONFIG_INODE, 0, 0))]
  {
    hide ConfigFromText, VerifierFromText, ConfigPath, Inline;
    var first := OpenFirst(w, x, w.tick - 1);
    var hasRead := DoRead(w, first, 1, 0, 0);
    var later := DoChangeAndWait(w, hasRead, y);
    s := DoStore(w, later, 1, 0, 0, built);
    assert s.locks == map[];
  }

  /** A late settle check lets the next call hit a value the file no longer has. The path names one file throughout. */
  lemma LateHit(w: World) returns (s: Sys, out: Outcome)
    requires w.tick > 0 && w.delay + w.tick > SETTLE_TIME
    ensures Reachable(w, s) && |s.hist| == 3 && (forall k | 0 <= k < 3 :: s.hist[k].names == s.hist[0].names)
    ensures 2 in s.threads && s.threads[2] == Done(THE_CALL, 2, Some(out)) && IsSettledHit(s.threads[2])
    ensures InPlace(s) && ConfigFromText(Current(s).files[CONFIG_INODE].contents) != Some(out.built)
  {
    hide ConfigFromText, VerifierFromText, ConfigPath, Inline;
    var x, y := DistinguishableFiles();
    var built := ConfigFromText(x).value;
    s := LateFill(w, x, y, built);
    var stamp := StampOf(CONFIG_INODE, Version(y, 0));
    assert stamp == StampOf(CONFIG_INODE, Version(x, 0));
    s := DoStat(w, s, 2);
    s := DoHit(w, s, 2, 2, stamp, FromFile(CONFIG_INODE, 0, 0));
    out := Outcome(built, FromFile(CONFIG_INODE, 0, 0), true);
  }

  lemma LateCheckServesStale(w: World) returns (s: Sys)
    requires w.tick > 0 && w.delay + w.tick > SETTLE_TIME
    ensures Reachable(w, s) && !HitsAreFresh(w, s)
  {
    var out;
    s, out := LateHit(w);
    NotRebuilt(w, s, 2, out.built);
  }

  /** Freshness in all runs is equivalent to the bound on the settle check. */
  lemma SettleBoundIsExact(w: World)
    requires w.tick > 0
    ensures EveryRunIsFresh(w) <==> w.delay + w.tick <= SETTLE_TIME
  {
    if w.delay + w.tick <= SETTLE_TIME {
      forall s | Reachable(w, s) ensures HitsAreFresh(w, s) {
        CacheFreshness(w, s);
      }
    } else {
      var s := LateCheckServesStale(w);
    }
  }

  /**
   A hit at an instant whose file the path already named at the call's stat, and
   whose contents came only between that stat and the fill's read.
   */
  lemma OverlappingHit(w: World, clock: nat) returns (s: Sys, out: Outcome)
    requires w.tick > 0 && clock >= SETTLE_TIME
    ensures Reachable(w, s) && |s.hist| == 2 && s.hist[1].names == s.hist[0].names
    ensures s.hist[0].clock == s.hist[1].clock == clock
    ensures 2 in s.threads && s.threads[2] == Done(THE_CALL, 0, Some(out))
    ensures out.hit && out.origin == FromFile(CONFIG_INODE, 0, 1)
    ensures Resolves(s.hist[0], CONFIG_FILE) && Resolve(s.hist[0], CONFIG_FILE) == CONFIG_INODE
    ensures ConfigFromText(s.hist[0].files[CONFIG_INODE].contents) != Some(out.built)
    ensures CONFIG_INODE in s.hist[1].files && s.hist[1].files[CONFIG_INODE].ctime == TimeOf(Floor(w, clock))
    ensures ConfigFromText(s.hist[1].files[CONFIG_INODE].contents) == Some(out.built)
  {
    hide ConfigFromText, VerifierFromText, ConfigPath, Inline;
    var x, y := DistinguishableFiles();
    var built := ConfigFromText(y).value;
    var filled := OverlappingFill(w, x, y, built, clock);
    s := DoHit(w, filled, 2, 0, StampOf(CONFIG_INODE, Version(x, 0)), FromFile(CONFIG_INODE, 0, 1));
    out := Outcome(built, FromFile(CONFIG_INODE, 0, 1), true);
  }

  /**
   IsSettledHit cannot drop its last condition: a call that stat'ed before the
   fill read the file returns the later contents, whatever the bounds.
   */
  lemma OverlappingFillServesLater(w: World) returns (s: Sys, out: Outcome)
    requires w.tick > 0
    ensures Reachable(w, s)
    ensures 2 in s.threads && s.threads[2] == Done(THE_CALL, 0, Some(out)) && out.hit
    ensures out.origin.FromFile? && out.origin.readAt > 0
    ensures !RebuiltAtStat(w, s, THE_CALL, 0, out.built)
  {
    hide ConfigFromText, VerifierFromText, ConfigPath, Inline;
    s, out := OverlappingHit(w, SETTLE_TIME);
    NotRebuilt(w, s, 0, out.built);
  }

  /** Thread 2 stats while thread 1 has the file open; then the file changes. */
  lemma OverlappingCalls(w: World, x: seq<Byte>, y: seq<Byte>, clock: nat) returns (s: Sys)
    requires w.tick > 0
    ensures Reachable(w, s) && InPlace(s) && s.cache == map[] && s.args == [] && s.locks == map[CacheLock := 1]
    ensures |s.hist| == 2 && s.hist[0] == Start(x, clock).hist[0] && s.hist[1].names == s.hist[0].names
    ensures Current(s).clock == clock && Current(s).files[CONFIG_INODE] == Version(y, Floor(w, clock))
    ensures s.threads == map[1 := Opened(THE_CALL, 0, CONFIG_INODE, 0),
                             2 := Waiting(THE_CALL, 0, Some(StampOf(CONFIG_INODE, Version(x, 0))))]
  {
    hide ConfigFromText, VerifierFromText, ConfigPath, Inline;
    var first := OpenFirst(w, x, clock);
    var waiting := DoStat(w, first, 2);
    s := DoFs(w, waiting, Change(CONFIG_INODE, Version(y, Floor(w, clock))));
    assert s.hist[0] == first.hist[0];
  }

  /** Thread 1 reads and stores the new contents under the old stamp. */
  lemma OverlappingFill(w: World, x: seq<Byte>, y: seq<Byte>, built: Built, clock: nat) returns (s: Sys)
    requires w.tick > 0 && ConfigFromText(y) == Some(built) && clock >= SETTLE_TIME
    ensures Reachable(w, s) && built.Arguments? && s.args == [built.args] && s.locks == map[]
    ensures |s.hist| == 2 && s.hist[0] == Start(x, clock).hist[0] && s.hist[1].names == s.hist[0].names
    ensures s.hist[1].clock == clock && InPlace(s) && Current(s).files[CONFIG_INODE] == Version(y, Floor(w, clock))
    ensures 2 in s.threads
    ensures s.threads[2] == Waiting(THE_CALL, 0, Some(StampOf(CONFIG_INODE, Version(x, 0))))
    ensures s.cache == map[THE_CALL.raw :=
                             CacheEntry(Some(StampOf(CONFIG_INODE, Version(x, 0))), 0, FromFile(CONFIG_INODE, 0, 1))]
  {
    hide ConfigFromText, VerifierFromText, ConfigPath, Inline;
    var changed := OverlappingCalls(w, x, y, clock);
    var hasRead := DoRead(w, changed, 1, 0, 0);
    s := DoStore(w, hasRead, 1, 0, 1, built);
    assert s.locks == map[];
  }

  // ---------- linearizability ----------

  /**
   Every successful call on a file returns what a file's contents give at some
   instant asOf between its own stat and its return; its path named that file
   at namedAt, no earlier than the stat and no later than asOf. The two are one
   instant if the path still names the file when it is read, or if the contents
   are then those the call opened. Only a hit on a value stored before the call
   needs the bound on the settle check.
   */
  lemma Linearizable(w: World, s: Sys, t: nat) returns (path: string, namedAt: nat, asOf: nat)
    requires w.tick > 0 && Reachable(w, s)
    requires t in s.threads && s.threads[t].Done? && s.threads[t].outcome.Some?
    requires s.threads[t].outcome.value.origin.FromFile?
    requires IsSettledHit(s.threads[t]) ==> w.delay + w.tick <= SETTLE_TIME
    ensures var Done(call, statAt, Some(out)) := s.threads[t];
            var FromFile(ino, o, r) := out.origin;
            && CallExists(s.args, call) && PathOf(s.args, call) == Ok(Some(path))
            && statAt <= namedAt <= asOf < |s.hist|
            && NamedAt(s.hist, path, ino, namedAt)
            && ino in s.hist[asOf].files
            && FromText(w, s.args, call, s.hist[asOf].files[ino].contents) == Some(out.built)
            && (NamedAt(s.hist, path, ino, r) ==> namedAt == asOf)
            && (statAt <= o && SameContents(s.hist, ino, o, r) ==> namedAt == asOf)
  {
    hide ConfigFromText, VerifierFromText, ConfigPath, Inline;
    ReachableInv(w, s);
    assert ThreadOk(w, s.hist, s.args, s.threads[t]);
    var Done(call, statAt, Some(out)) := s.threads[t];
    var FromFile(ino, o, r) := out.origin;
    path := PathOf(s.args, call).value.value;
    if out.hit && r <= statAt {
      namedAt, asOf := statAt, statAt;
    } else if NamedAt(s.hist, path, ino, r) {
      namedAt, asOf := r, r;
    } else if out.hit && o < statAt {
      namedAt, asOf := statAt, r;
    } else {
      namedAt, asOf := o, if SameContents(s.hist, ino, o, r) then o else r;
    }
  }

  predicate SameContents(hist: seq<Fs>, ino: Inode, j: nat, k: nat) {
    && j < |hist| && k < |hist| && ino in hist[j].files && ino in hist[k].files
    && hist[j].files[ino].contents == hist[k].files[ino].contents
  }

  /** Inline arguments: every successful call returns their parse. */
  lemma InlineAnswers(w: World, s: Sys, t: nat)
    requires w.tick > 0 && Reachable(w, s)
    requires t in s.threads && s.threads[t].Done? && s.threads[t].outcome.Some?
    requires s.threads[t].outcome.value.origin.FromInline?
    ensures s.threads[t].call.ConfigCall? && s.threads[t].outcome.value.built.Arguments?
    ensures NamesNoFile(s.threads[t].call.raw)
    ensures Inline(s.threads[t].call.raw) == Ok(s.threads[t].outcome.value.built.args)
  {
    hide ConfigPath, Inline, Reachable;
    ReachableInv(w, s);
    assert ThreadOk(w, s.hist, s.args, s.threads[t]);
    ConfigPathExactly(s.threads[t].call.raw);
  }

  // ---------- isolation of the two levels ----------

  /**
   A Config object only ever holds, and only ever hands out, verifiers of its
   own arguments' policy, whatever has become of its entry in the map.
   */
  lemma TwoLevelIsolation(w: World, s: Sys)
    requires w.tick > 0 && Reachable(w, s)
    ensures forall c | c in s.slots :: c < |s.args| && HasPolicyOf(s.args[c], s.slots[c].verifier.policy)
    ensures forall t |
              && t in s.threads && s.threads[t].Done? && s.threads[t].outcome.Some?
              && s.threads[t].call.VerifierCall? ::
              && s.threads[t].call.config < |s.args|
              && s.threads[t].outcome.value.built.Verifier?
              && HasPolicyOf(s.args[s.threads[t].call.config], s.threads[t].outcome.value.built.verifier.policy)
  {
    hide BuiltFrom, StampSound, Reachable, HasPolicyOf;
    ReachableInv(w, s);
    forall c | c in s.slots ensures c < |s.args| && HasPolicyOf(s.args[c], s.slots[c].verifier.policy) {
      assert SlotOk(w, s.hist, s.args, c, s.slots[c]);
      BuiltHasPolicy(w, s, c, Verifier(s.slots[c].verifier), s.slots[c].origin);
    }
    forall t | t in s.threads && s.threads[t].Done? && s.threads[t].outcome.Some? && s.threads[t].call.VerifierCall?
      ensures s.threads[t].call.config < |s.args| && s.threads[t].outcome.value.built.Verifier?
      ensures HasPolicyOf(s.args[s.threads[t].call.config], s.threads[t].outcome.value.built.verifier.policy)
    {
      assert ThreadOk(w, s.hist, s.args, s.threads[t]);
      var out := s.threads[t].outcome.value;
      BuiltHasPolicy(w, s, s.threads[t].call.config, out.built, out.origin);
    }
  }

  /** What a Config object builds from a JWKS file is loaded under its own policy. */
  lemma BuiltHasPolicy(w: World, s: Sys, c: nat, built: Built, origin: Origin)
    requires BuiltFrom(w, s.hist, s.args, VerifierCall(c), built, origin)
    ensures c < |s.args| && s.args[c].iss.Some? && built.Verifier? && origin.FromFile?
    ensures var FromFile(ino, _, r) := origin;
            && r < |s.hist| && ino in s.hist[r].files
            && var text := Decode(s.hist[r].files[ino].contents);
               text.Some? && Load(w.lib, built.verifier.policy, text.value) == Ok(built.verifier)
    ensures HasPolicyOf(s.args[c], built.verifier.policy)
  {
    hide Load;
    var FromFile(ino, _, r) := origin;
    LoadKeepsPolicy(w.lib, PolicyOf(s.args[c], s.args[c].iss.value), Decode(s.hist[r].files[ino].contents).value);
  }

  /** The arguments of Config object c come from raw: inline, or from the file its path named, read at one instant. */
  ghost predicate ArgumentsFrom(s: Sys, c: nat, raw: seq<string>, from: Origin) {
    && c < |s.args|
    && match from
       case FromInline => NamesNoFile(raw) && Inline(raw) == Ok(s.args[c])
       case FromFile(ino, o, r) =>
         && o <= r < |s.hist| && ino in s.hist[o].files && ino in s.hist[r].files
         && (exists path ::
               raw == ["config=" + path] && path in s.hist[o].names && s.hist[o].names[path] == ino)
         && s.hist[o].files[ino].regular && !s.hist[o].files[ino].shared
         && exists text: string ::
              s.hist[r].files[ino].contents == Encode(text) && Config(text) == Ok(s.args[c])
  }

  /**
   From end to end: a verifier that is handed out was loaded from the JWKS as
   it was at one instant, under the policy parsed from the arguments, or from
   the configuration file as it was at another, even if the map has long had
   another entry for them.
   */
  lemma EndToEnd(w: World, s: Sys, t: nat) returns (raw: seq<string>, from: Origin)
    requires w.tick > 0 && Reachable(w, s)
    requires t in s.threads && s.threads[t].Done? && s.threads[t].outcome.Some? && s.threads[t].call.VerifierCall?
    ensures var Done(VerifierCall(c), statAt, Some(Outcome(built, origin, _))) := s.threads[t];
            && ArgumentsFrom(s, c, raw, from)
            && built.Verifier? && HasPolicyOf(s.args[c], built.verifier.policy) && origin.FromFile?
            && var FromFile(ino, _, r) := origin;
            && r < |s.hist| && ino in s.hist[r].files
            && exists text: string ::
                 && s.hist[r].files[ino].contents == Encode(text)
                 && Load(w.lib, built.verifier.policy, text) == Ok(built.verifier)
  {
    hide Reachable, StampSound;
    ReachableInv(w, s);
    assert ThreadOk(w, s.hist, s.args, s.threads[t]);
    var Done(VerifierCall(c), statAt, Some(out)) := s.threads[t];
    BuiltHasPolicy(w, s, c, out.built, out.origin);
    EncodeDecode(s.hist[out.origin.readAt].files[out.origin.ino].contents);
    assert Made(w, s.hist, s.args, c);
    raw, from :| MadeBy(w, s.hist, s.args, c, raw, from);
    MadeHasArguments(w, s, c, raw, from);
  }

  lemma MadeHasArguments(w: World, s: Sys, c: nat, raw: seq<string>, from: Origin)
    requires MadeBy(w, s.hist, s.args, c, raw, from)
    ensures ArgumentsFrom(s, c, raw, from)
  {
    hide ConfigPath, Inline, Config;
    ConfigPathExactly(raw);
    if from.FromFile? {
      EncodeDecode(s.hist[from.readAt].files[from.ino].contents);
    }
  }

  /** Storing writes one entry of one level; arguments of existing Config objects never change. */
  lemma StoreWritesOne(s: Sys, call: Call, stamp: Option<Stamp>, built: Built, origin: Origin)
    requires call.ConfigCall? <==> built.Arguments?
    ensures var s' := Store(s, call, stamp, built, origin);
            && s.args <= s'.args
            && match call
               case ConfigCall(raw) => s'.slots == s.slots && s'.cache - {raw} == s.cache - {raw}
               case VerifierCall(c) => s'.cache == s.cache && s'.args == s.args && s'.slots - {c} == s.slots - {c}
  {
  }

  predicate SameLevels(s: Sys, s': Sys) {
    s'.cache == s.cache && s'.args == s.args && s'.slots == s.slots
  }

  /**
   Only a call that succeeds in that very step writes, and only its own entry:
   a failing call leaves both levels as they were.
   */
  lemma OnlySuccessWrites(w: World, s: Sys, step: Step)
    requires w.tick > 0 && s.hist != [] && Enabled(w, s, step)
    ensures var s' := Apply(w, s, step);
            || SameLevels(s, s')
            || (&& step.SettleAndStore? && step.t in s'.threads
                && s'.threads[step.t].Done? && s'.threads[step.t].outcome.Some?
                && s.args <= s'.args
                && match s'.threads[step.t].call
                   case ConfigCall(raw) => s'.slots == s.slots && s'.cache - {raw} == s.cache - {raw}
                   case VerifierCall(c) => s'.cache == s.cache && s'.args == s.args && s'.slots - {c} == s.slots - {c})
  {
    hide ConfigFromText, VerifierFromText, ConfigPath, Inline;
    if step.SettleAndStore? {
      match ThreadOf(s, step.t)
      case Filling(call, _) => StoreWritesOne(s, call, None, Arguments(Inline(call.raw).value), FromInline);
      case HasRead(call, _, ino, o, r) =>
        var built := FromText(w, s.args, call, s.hist[r].files[ino].contents).value;
        BuiltKind(w, s.args, call, s.hist[r].files[ino].contents);
        StoreWritesOne(s, call, Settled(ino, s.hist[o].files[ino], Current(s).clock), built, FromFile(ino, o, r));
    } else {
      OtherStepsKeepLevels(w, s, step);
    }
  }

  lemma OtherStepsKeepLevels(w: World, s: Sys, step: Step)
    requires w.tick > 0 && s.hist != [] && Enabled(w, s, step) && !step.SettleAndStore?
    ensures SameLevels(s, Apply(w, s, step))
  {
    hide ConfigFromText, VerifierFromText, ConfigPath, Inline;
  }

  // ---------- locks ----------

  predicate InCriticalSection(thread: Thread) {
    thread.Filling? || thread.Opened? || thread.HasRead?
  }

  /** A lock is held exactly by the thread that is filling under it. */
  ghost predicate LocksOk(s: Sys) {
    && (forall t | t in s.threads && InCriticalSection(s.threads[t]) ::
          LockOf(s.threads[t].call) in s.locks && s.locks[LockOf(s.threads[t].call)] == t)
    && (forall l | l in s.locks ::
          && s.locks[l] in s.threads && InCriticalSection(s.threads[s.locks[l]])
          && LockOf(s.threads[s.locks[l]].call) == l)
  }

  /** Thread t leaves the critical section it was in. */
  lemma LeaveKeepsLocks(s: Sys, s': Sys, t: nat, call: Call)
    requires LocksOk(s) && t in s.threads && InCriticalSection(s.threads[t]) && s.threads[t].call == call
    requires s'.locks == s.locks - {LockOf(call)} && t in s'.threads && !InCriticalSection(s'.threads[t])
    requires s'.threads == s.threads[t := s'.threads[t]]
    ensures LocksOk(s')
  {
  }

  lemma StepKeepsLocks(w: World, s: Sys, step: Step)
    requires w.tick > 0 && s.hist != [] && LocksOk(s) && Enabled(w, s, step)
    ensures LocksOk(Apply(w, s, step)) && Apply(w, s, step).hist != []
  {
    hide ConfigFromText, VerifierFromText, ConfigPath, Inline;
    if step.SettleAndStore? {
      LeaveKeepsLocks(s, Apply(w, s, step), step.t, ThreadOf(s, step.t).call);
    } else if step.Fail? && !ThreadOf(s, step.t).Called? {
      LeaveKeepsLocks(s, Apply(w, s, step), step.t, ThreadOf(s, step.t).call);
    } else {
      StepKeepsLocksRest(w, s, step);
    }
  }

  lemma StepKeepsLocksRest(w: World, s: Sys, step: Step)
    requires w.tick > 0 && s.hist != [] && LocksOk(s) && Enabled(w, s, step)
    requires !step.SettleAndStore? && (step.Fail? ==> ThreadOf(s, step.t).Called?)
    ensures LocksOk(Apply(w, s, step)) && Apply(w, s, step).hist != []
  {
    hide PathOf, HitFor, CanStore, FsEnabled, FsApply, StampOf, Resolve, Readable, CallExists, StoreAndReturn;
  }

  lemma {:induction false} ExecuteKeepsLocks(w: World, s: Sys, steps: seq<Step>)
    requires w.tick > 0 && s.hist != [] && LocksOk(s) && Execute(w, s, steps).Some?
    ensures LocksOk(Execute(w, s, steps).value)
    decreases |steps|
  {
    if steps == [] {
    } else {
      StepKeepsLocks(w, s, steps[0]);
      ExecuteKeepsLocks(w, Apply(w, s, steps[0]), steps[1..]);
    }
  }

  lemma ReachableLocks(w: World, s: Sys)
    requires w.tick > 0 && Reachable(w, s)
    ensures LocksOk(s)
  {
    var init, steps :| Initial(init) && Execute(w, init, steps) == Some(s);
    ExecuteKeepsLocks(w, init, steps);
  }

  /** All calls for arguments share one level; each Config object has its own for its verifier. */
  predicate SameLevel(a: Call, b: Call) {
    || (a.ConfigCall? && b.ConfigCall?)
    || (a.VerifierCall? && b.VerifierCall? && a.config == b.config)
  }

  lemma LockOfLevel(a: Call, b: Call)
    ensures LockOf(a) == LockOf(b) <==> SameLevel(a, b)
  {
  }

  /** Fills of one level exclude each other, and no finished call, failed or not, leaves a lock behind. */
  lemma MutualExclusion(w: World, s: Sys, t: nat, u: nat)
    requires w.tick > 0 && Reachable(w, s) && t in s.threads && u in s.threads
    requires InCriticalSection(s.threads[t])
    ensures InCriticalSection(s.threads[u]) && SameLevel(s.threads[u].call, s.threads[t].call) ==> t == u
    ensures !InCriticalSection(s.threads[u]) ==> u !in s.locks.Values
  {
    hide Reachable, LockOf, SameLevel;
    ReachableLocks(w, s);
    if InCriticalSection(s.threads[u]) {
      LockOfLevel(s.threads[u].call, s.threads[t].call);
    }
  }

  /** A call waits exactly while another one is filling the same level; nothing else holds it up. */
  lemma WaitsExactly(w: World, s: Sys, t: nat)
    requires w.tick > 0 && Reachable(w, s) && s.hist != [] && t in s.threads && s.threads[t].Waiting?
    ensures Enabled(w, s, LockAndCompare(t)) <==>
              !exists u | u in s.threads && InCriticalSection(s.threads[u]) ::
                 SameLevel(s.threads[u].call, s.threads[t].call)
  {
    hide Reachable, LockOf, SameLevel, PathOf, HitFor;
    ReachableLocks(w, s);
    forall u | u in s.threads && InCriticalSection(s.threads[u])
      ensures LockOf(s.threads[u].call) == LockOf(s.threads[t].call)
         <==> SameLevel(s.threads[u].call, s.threads[t].call)
    {
      LockOfLevel(s.threads[u].call, s.threads[t].call);
    }
    if LockOf(s.threads[t].call) in s.locks {
      var u := s.locks[LockOf(s.threads[t].call)];
      assert u in s.threads && InCriticalSection(s.threads[u]);
    }
  }
}
