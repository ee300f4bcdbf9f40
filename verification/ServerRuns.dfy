/** What the server accepts, and that no step depends on the steps before it. */
module ServerRuns {
  import opened Prelude
  import opened Utf8
  import opened Text
  import opened Rfc7628
  import opened Rfc7628Theorems
  import opened Jwt
  import opened SaslFfi
  import opened SaslServer

  // ---------- one step ----------

  predicate TlsSuffices(config: ServerConfig, env: Env) {
    config.tlsRequired ==> env.ssf.Some? && env.ssf.value >= 256
  }

  /** The mechanism is done without a security layer, and goes by the names in q. */
  predicate DoneWith(p: Params, q: Params) {
    && p.doneflag == 1 && p.mechSsf == 0 && p.maxoutbuf == 0 && p.paramVersion == 0
    && p.encodeContext == None && p.encode == None && p.decodeContext == None && p.decode == None
    && p.authid == q.authid && p.user == q.user
  }

  lemma DoneWithIs(p: Params, q: Params)
    ensures DoneWith(p, q) <==> p == Finished(q)
  {
  }

  /** The input is a client response whose own token gives uid. */
  predicate Speaks(lib: Library, config: ServerConfig, env: Env, input: seq<Byte>,
                   authzid: Option<string>, uid: string)
  {
    && TlsSuffices(config, env) && |input| <= 65_536
    && Parse(input).Ok? && Parse(input).value.authzid == authzid
    && Verify(lib, config.verifier, Parse(input).value.token, env.clock) == Ok(uid)
  }

  /** A verified uid has no control characters, so it never contains a NUL. */
  lemma VerifiedUidIsCString(lib: Library, verifier: JwtVerifier, token: string, clock: Clock)
    requires Verify(lib, verifier, token, clock).Ok?
    ensures var uid := Verify(lib, verifier, token, clock).value; uid != "" && 0 !in Encode(uid)
  {
    var uid := Verify(lib, verifier, token, clock).value;
    assert exists claims :: ExtractUid(verifier.policy, claims) == Ok(uid) by {
      var header := lib.decodeHeader(token).value;
      var claims := lib.decode(token, verifier.keys[header.kid.value].key, header.alg).value;
      assert ExtractUid(verifier.policy, claims) == Ok(uid);
    }
    var claims :| ExtractUid(verifier.policy, claims) == Ok(uid);
    AsciiByteIsChar(uid, 0);
    assert IsControl('\0');
  }

  /** The completion byte is no client response. */
  lemma CompletionIsNoResponse()
    ensures Parse(COMPLETION).Err?
  {
    assert Position(COMPLETION, KVSEP) == Some(0);
    assert COMPLETION[..0] == [];
  }

  /**
   canon_user, given p, takes both names and leaves q: the authzid first and
   then the uid, or one call with both flags if there is no authzid.
   */
  predicate CanonTakes(canon: CanonUser, uid: string, authzid: Option<string>, p: Params, q: Params) {
    if authzid.None? || authzid.value == "" then canon(Encode(uid), 3, p) == (0, q)
    else
      var name := Encode(authzid.value);
      var (rc, p1) := canon(name, 2, p);
      0 !in name && rc == 0 && canon(Encode(uid), 1, p1) == (0, q)
  }

  lemma AdmitsExactly(env: Env, uid: string, authzid: Option<string>, v: ServerView)
    requires 0 !in Encode(uid)
    ensures Admit(env, uid, authzid, v).0 == SASL_OK <==>
              env.canon.Some? && exists q :: CanonTakes(env.canon.value, uid, authzid, v.params, q)
    ensures forall q | env.canon.Some? && CanonTakes(env.canon.value, uid, authzid, v.params, q) ::
              Admit(env, uid, authzid, v) == (SASL_OK, v.(params := Finished(q)))
  {
    if env.canon.Some? {
      var (rc, q) := CanonicaliseBoth(env.canon.value, Encode(uid), authzid, v.params);
      assert rc == SASL_OK ==> CanonTakes(env.canon.value, uid, authzid, v.params, q);
    }
  }

  /** Past the checks on the connection and the input, a step admits the uid of its own token. */
  lemma SpeaksAdmits(lib: Library, config: ServerConfig, env: Env, input: seq<Byte>, v: ServerView,
                     authzid: Option<string>, uid: string)
    requires Speaks(lib, config, env, input, authzid, uid)
    ensures ServerStep(lib, config, env, input, v) == Admit(env, uid, authzid, v.(out := NOTHING))
    ensures 0 !in Encode(uid)
  {
    CompletionIsNoResponse();
    VerifiedUidIsCString(lib, config.verifier, Parse(input).value.token, env.clock);
  }

  lemma OkSpeaks(lib: Library, config: ServerConfig, env: Env, input: seq<Byte>, v: ServerView)
    returns (authzid: Option<string>, uid: string)
    requires ServerStep(lib, config, env, input, v).0 == SASL_OK
    ensures Speaks(lib, config, env, input, authzid, uid)
  {
    authzid := Parse(input).value.authzid;
    uid := Verify(lib, config.verifier, Parse(input).value.token, env.clock).value;
  }

  /**
   For every canon_user: SASL_OK exactly when the step's own input is a
   response whose own token verifies, and canon_user is there and takes the uid
   of that token and the authzid. The parameters are then those it leaves, done.
   */
  lemma AcceptsExactly(lib: Library, config: ServerConfig, env: Env, input: seq<Byte>, v: ServerView)
    ensures ServerStep(lib, config, env, input, v).0 == 0 <==>
              env.canon.Some? && exists uid, authzid, q ::
                Speaks(lib, config, env, input, authzid, uid) && CanonTakes(env.canon.value, uid, authzid, v.params, q)
    ensures forall uid, authzid, q |
              && env.canon.Some? && Speaks(lib, config, env, input, authzid, uid)
              && CanonTakes(env.canon.value, uid, authzid, v.params, q) ::
              var (rc, v') := ServerStep(lib, config, env, input, v);
              && rc == 0 && v'.out == Published(None, 0) && v'.serverOut == v.serverOut
              && DoneWith(v'.params, q)
  {
    forall uid, authzid, q |
      && env.canon.Some? && Speaks(lib, config, env, input, authzid, uid)
      && CanonTakes(env.canon.value, uid, authzid, v.params, q)
      ensures ServerStep(lib, config, env, input, v) == (SASL_OK, v.(out := NOTHING, params := Finished(q)))
    {
      SpeaksAdmits(lib, config, env, input, v, authzid, uid);
      AdmitsExactly(env, uid, authzid, v.(out := NOTHING));
    }
    if ServerStep(lib, config, env, input, v).0 == SASL_OK {
      var authzid, uid := OkSpeaks(lib, config, env, input, v);
      SpeaksAdmits(lib, config, env, input, v, authzid, uid);
      AdmitsExactly(env, uid, authzid, v.(out := NOTHING));
    }
  }

  /** The code canon_user ends with: of the call with both names, or the first of two that fails. */
  function CanonCode(canon: CanonUser, uid: string, authzid: Option<string>, p: Params): int {
    if authzid.None? || authzid.value == "" then canon(Encode(uid), 3, p).0
    else
      var (rc, p1) := canon(Encode(authzid.value), 2, p);
      if rc != 0 then rc else canon(Encode(uid), 1, p1).0
  }

  /** Which code a step returns, as the numbers of the Cyrus SASL headers, the first that applies. */
  lemma ServerCodes(lib: Library, config: ServerConfig, env: Env, input: seq<Byte>, v: ServerView)
    ensures ServerStep(lib, config, env, input, v).0 ==
              if config.tlsRequired && env.ssf.None? then -7
              else if config.tlsRequired && env.ssf.value < 256 then -16
              else if |input| > 65_536 then -5
              else if input == [0x01] then -13
              else if Parse(input).Err? then -5
              else
                var response := Parse(input).value;
                var verdict := Verify(lib, config.verifier, response.token, env.clock);
                if verdict.Err? then 1
                else if env.canon.None? then -1
                else if response.authzid.Some? && 0 in Encode(response.authzid.value) then -5
                else CanonCode(env.canon.value, verdict.value, response.authzid, v.params)
  {
    hide Parse, Verify, Encode;
    if Parse(input).Ok? && Verify(lib, config.verifier, Parse(input).value.token, env.clock).Ok? {
      VerifiedUidIsCString(lib, config.verifier, Parse(input).value.token, env.clock);
      EmptyHasNoNul();
    }
  }

  lemma EmptyHasNoNul()
    ensures Encode("") == []
  {
  }

  /** The refusal published, as text. */
  lemma RefusalText()
    ensures INVALID_TOKEN_JSON == Ascii("{\"status\":\"invalid_token\"}")
  {
  }

  /** The server publishes something exactly when a well-formed response does not verify: the refusal in JSON. */
  lemma RefusesExactly(lib: Library, config: ServerConfig, env: Env, input: seq<Byte>, v: ServerView)
    ensures var (rc, v') := ServerStep(lib, config, env, input, v);
            && (v'.out.ptr.Some? <==>
                  && TlsSuffices(config, env) && |input| <= 65_536 && Parse(input).Ok?
                  && Verify(lib, config.verifier, Parse(input).value.token, env.clock).Err?)
            && (v'.out.ptr.Some? ==>
                  && rc == 1 && v'.params == v.params
                  && v'.out == Published(Some(Ascii("{\"status\":\"invalid_token\"}")), 26))
            && (v'.out.ptr.None? ==> v'.out == NOTHING && v'.serverOut == v.serverOut)
  {
    CompletionIsNoResponse();
    RefusalText();
  }

  // ---------- the names a framework records ----------

  /** A canon_user that maps a name or refuses it, and records it where the flags say. */
  function Recording(names: seq<Byte> -> Result<seq<Byte>, Failure>): CanonUser {
    (name: seq<Byte>, flags: nat, p: Params) =>
      match names(name)
      case Err(rc) => (rc as int, p)
      case Ok(canonical) =>
        (SASL_OK, p.(authid := if flags in {1, 3} then Some(canonical) else p.authid,
                     user := if flags in {2, 3} then Some(canonical) else p.user))
  }

  /** The identity a client acts as: its authzid, or else its own. */
  function ActsAs(uid: string, authzid: Option<string>): seq<Byte> {
    Encode(if NonEmpty(authzid).Some? then authzid.value else uid)
  }

  /** With such a canon_user, the names recorded are the uid and the identity the client acts as. */
  lemma RecordingTakes(names: seq<Byte> -> Result<seq<Byte>, Failure>, uid: string, authzid: Option<string>, p: Params)
    requires 0 !in Encode(uid)
    ensures (exists q :: CanonTakes(Recording(names), uid, authzid, p, q)) <==>
              names(Encode(uid)).Ok? && names(ActsAs(uid, authzid)).Ok? && 0 !in ActsAs(uid, authzid)
    ensures forall q | CanonTakes(Recording(names), uid, authzid, p, q) ::
              && names(Encode(uid)).Ok? && q.authid == Some(names(Encode(uid)).value)
              && names(ActsAs(uid, authzid)).Ok? && q.user == Some(names(ActsAs(uid, authzid)).value)
  {
    var canon := Recording(names);
    if names(Encode(uid)).Ok? && names(ActsAs(uid, authzid)).Ok? && 0 !in ActsAs(uid, authzid) {
      var authid, user := Some(names(Encode(uid)).value), Some(names(ActsAs(uid, authzid)).value);
      assert CanonTakes(canon, uid, authzid, p, p.(authid := authid, user := user));
    }
  }

  // ---------- runs ----------

  /** One input, and what surrounds the step that reads it. */
  datatype Arrival = Arrival(env: Env, input: seq<Byte>)

  datatype Reply = Reply(rc: int, out: Published)

  /** What the client sees of one step. */
  function ReplyTo(lib: Library, config: ServerConfig, a: Arrival, v: ServerView): Reply {
    var (rc, v') := ServerStep(lib, config, a.env, a.input, v);
    Reply(rc, v'.out)
  }

  function ServerRun(lib: Library, config: ServerConfig, arrivals: seq<Arrival>, v: ServerView)
    : (r: (seq<Reply>, ServerView))
    ensures |r.0| == |arrivals|
  {
    if arrivals == [] then ([], v)
    else
      var v' := ServerStep(lib, config, arrivals[0].env, arrivals[0].input, v).1;
      var (rest, end) := ServerRun(lib, config, arrivals[1..], v');
      ([ReplyTo(lib, config, arrivals[0], v)] + rest, end)
  }

  /** The code of the first of two calls that fails, or of the second. */
  function CodeOfTwo(canon: CanonUser, authzid: seq<Byte>, authcid: seq<Byte>, p: Params): int {
    var (rc, p1) := canon(authzid, SASL_CU_AUTHZID, p);
    if rc != SASL_OK then rc else canon(authcid, SASL_CU_AUTHID, p1).0
  }

  /** Given p or q, canon_user answers the same; a name with a NUL never gets to it. */
  predicate SameCode(canon: CanonUser, uid: string, authzid: Option<string>, p: Params, q: Params) {
    var both := SASL_CU_AUTHID + SASL_CU_AUTHZID;
    if NonEmpty(authzid).None? then canon(Encode(uid), both, p).0 == canon(Encode(uid), both, q).0
    else
      var name := Encode(authzid.value);
      0 in name || CodeOfTwo(canon, name, Encode(uid), p) == CodeOfTwo(canon, name, Encode(uid), q)
  }

  /** The code canon_user gives these names does not depend on the output parameters. */
  ghost predicate CodeIgnoresParams(canon: CanonUser, uid: string, authzid: Option<string>) {
    forall p, q :: SameCode(canon, uid, authzid, p, q)
  }

  /** Either the input does not get as far as canon_user, or its code ignores the output parameters. */
  ghost predicate Forgets(lib: Library, config: ServerConfig, a: Arrival) {
    forall uid, authzid | a.env.canon.Some? && Speaks(lib, config, a.env, a.input, authzid, uid) ::
      CodeIgnoresParams(a.env.canon.value, uid, authzid)
  }

  lemma AdmitReply(env: Env, uid: string, authzid: Option<string>, v: ServerView)
    requires 0 !in Encode(uid) && env.canon.Some?
    ensures Admit(env, uid, authzid, v).0 == CanonicaliseBoth(env.canon.value, Encode(uid), authzid, v.params).0
    ensures Admit(env, uid, authzid, v).1.out == v.out
  {
  }

  lemma NoCanonReply(lib: Library, config: ServerConfig, a: Arrival, v: ServerView, w: ServerView)
    requires a.env.canon.None? || !exists uid, authzid :: Speaks(lib, config, a.env, a.input, authzid, uid)
    ensures ReplyTo(lib, config, a, v) == ReplyTo(lib, config, a, w)
  {
    if Parse(a.input).Ok? && Verify(lib, config.verifier, Parse(a.input).value.token, a.env.clock).Ok? {
      var uid := Verify(lib, config.verifier, Parse(a.input).value.token, a.env.clock).value;
      assert TlsSuffices(config, a.env) && |a.input| <= MAX_CLIENTIN_LEN ==>
          Speaks(lib, config, a.env, a.input, Parse(a.input).value.authzid, uid);
    }
  }

  /** Two contexts get the same reply to an admitted input exactly when canon_user gives both the same code. */
  lemma CanonReply(lib: Library, config: ServerConfig, a: Arrival, uid: string, authzid: Option<string>,
                   v: ServerView, w: ServerView)
    requires a.env.canon.Some? && Speaks(lib, config, a.env, a.input, authzid, uid)
    ensures ReplyTo(lib, config, a, v) == ReplyTo(lib, config, a, w) <==>
              SameCode(a.env.canon.value, uid, authzid, v.params, w.params)
  {
    SpeaksAdmits(lib, config, a.env, a.input, v, authzid, uid);
    SpeaksAdmits(lib, config, a.env, a.input, w, authzid, uid);
    AdmitReply(a.env, uid, authzid, v.(out := NOTHING));
    AdmitReply(a.env, uid, authzid, w.(out := NOTHING));
  }

  /** A reply never depends on earlier steps otherwise than through the parameters canon_user is given. */
  lemma OnlyParamsMatter(lib: Library, config: ServerConfig, a: Arrival, v: ServerView, w: ServerView)
    requires v.params == w.params || Forgets(lib, config, a)
    ensures ReplyTo(lib, config, a, v) == ReplyTo(lib, config, a, w)
  {
    if a.env.canon.Some? && exists uid, authzid :: Speaks(lib, config, a.env, a.input, authzid, uid) {
      var uid, authzid :| Speaks(lib, config, a.env, a.input, authzid, uid);
      CanonReply(lib, config, a, uid, authzid, v, w);
    } else {
      NoCanonReply(lib, config, a, v, w);
    }
  }

  /** An input gets the same reply in every context exactly when it does not reach a canon_user that remembers. */
  lemma ForgetsExactly(lib: Library, config: ServerConfig, a: Arrival)
    ensures (forall v, w :: ReplyTo(lib, config, a, v) == ReplyTo(lib, config, a, w)) <==> Forgets(lib, config, a)
  {
    if Forgets(lib, config, a) {
      forall v, w ensures ReplyTo(lib, config, a, v) == ReplyTo(lib, config, a, w) {
        OnlyParamsMatter(lib, config, a, v, w);
      }
    } else {
      var uid, authzid :| a.env.canon.Some? && Speaks(lib, config, a.env, a.input, authzid, uid)
                          && !CodeIgnoresParams(a.env.canon.value, uid, authzid);
      var p, q :| !SameCode(a.env.canon.value, uid, authzid, p, q);
      CanonReply(lib, config, a, uid, authzid, ServerView(None, NOTHING, p), ServerView(None, NOTHING, q));
    }
  }

  /** In every sequence of inputs, one that forgets is answered as if it were the only one, whatever the others do. */
  lemma {:induction false} RunForgets(lib: Library, config: ServerConfig, arrivals: seq<Arrival>, v: ServerView,
                                      other: ServerView, i: nat)
    requires i < |arrivals| && Forgets(lib, config, arrivals[i])
    ensures ServerRun(lib, config, arrivals, v).0[i] == ReplyTo(lib, config, arrivals[i], other)
  {
    hide ReplyTo, ServerStep, Forgets;
    if i == 0 {
      OnlyParamsMatter(lib, config, arrivals[0], v, other);
    } else {
      var v' := ServerStep(lib, config, arrivals[0].env, arrivals[0].input, v).1;
      RunForgets(lib, config, arrivals[1..], v', other, i - 1);
    }
  }

  /** A canon_user whose codes are decided by name and flags makes every input forget. */
  lemma DecidedByNameForgets(lib: Library, config: ServerConfig, a: Arrival)
    requires a.env.canon.Some? ==>
               forall name, flags, p, q :: a.env.canon.value(name, flags, p).0 == a.env.canon.value(name, flags, q).0
    ensures Forgets(lib, config, a)
  {
    forall uid, authzid | a.env.canon.Some? && Speaks(lib, config, a.env, a.input, authzid, uid)
      ensures CodeIgnoresParams(a.env.canon.value, uid, authzid)
    {
      var canon := a.env.canon.value;
      assert forall name, flags, p, q :: canon(name, flags, p).0 == canon(name, flags, q).0;
    }
  }

  /** A canon_user that names one identity only, once. */
  function OnceOnly(): CanonUser {
    (name: seq<Byte>, flags: nat, p: Params) =>
      if p.authid.Some? then (SASL_FAIL, p) else (SASL_OK, p.(authid := Some(name)))
  }

  /** With it the same input is accepted, and refused when it comes again. */
  lemma OnceOnlyRemembers(lib: Library, config: ServerConfig, a: Arrival, uid: string, v: ServerView)
    requires a.env.canon == Some(OnceOnly()) && Speaks(lib, config, a.env, a.input, None, uid) && v.params.authid.None?
    ensures var replies := ServerRun(lib, config, [a, a], v).0; replies[0].rc == SASL_OK && replies[1].rc == SASL_FAIL
    ensures !Forgets(lib, config, a)
  {
    var v1 := ServerStep(lib, config, a.env, a.input, v).1;
    SpeaksAdmits(lib, config, a.env, a.input, v, None, uid);
    SpeaksAdmits(lib, config, a.env, a.input, v1, None, uid);
    assert [a, a][1..] == [a];
    assert ServerRun(lib, config, [a, a], v).0 == [ReplyTo(lib, config, a, v)] + ServerRun(lib, config, [a], v1).0;
    ForgetsExactly(lib, config, a);
  }

  // ---------- done ----------

  /** The step that ends an exchange the server refused. */
  predicate Completes(config: ServerConfig, a: Arrival) {
    TlsSuffices(config, a.env) && a.input == [0x01]
  }

  /** Where this input reaches canon_user and is refused, the done flag stays as it was. */
  ghost predicate LeavesDone(lib: Library, config: ServerConfig, a: Arrival) {
    forall uid, authzid, p |
      && a.env.canon.Some? && Speaks(lib, config, a.env, a.input, authzid, uid)
      && CanonicaliseBoth(a.env.canon.value, Encode(uid), authzid, p).0 != SASL_OK ::
      CanonicaliseBoth(a.env.canon.value, Encode(uid), authzid, p).1.doneflag == 1 <==> p.doneflag == 1
  }

  /** After the step the server is done exactly if it was, or accepted a token, or finished refusing one. */
  ghost predicate DoneAsExpected(lib: Library, config: ServerConfig, a: Arrival, v: ServerView) {
    var (rc, v') := ServerStep(lib, config, a.env, a.input, v);
    v'.params.doneflag == 1 <==> v.params.doneflag == 1 || rc == SASL_OK || Completes(config, a)
  }

  lemma AdmittedDone(lib: Library, config: ServerConfig, a: Arrival, uid: string, authzid: Option<string>,
                     v: ServerView)
    requires a.env.canon.Some? && Speaks(lib, config, a.env, a.input, authzid, uid)
    ensures var (rc, p) := CanonicaliseBoth(a.env.canon.value, Encode(uid), authzid, v.params);
            DoneAsExpected(lib, config, a, v) <==> (rc != SASL_OK ==> (p.doneflag == 1 <==> v.params.doneflag == 1))
  {
    CompletionIsNoResponse();
    SpeaksAdmits(lib, config, a.env, a.input, v, authzid, uid);
  }

  lemma NoCanonDone(lib: Library, config: ServerConfig, a: Arrival, v: ServerView)
    requires a.env.canon.None? || !exists uid, authzid :: Speaks(lib, config, a.env, a.input, authzid, uid)
    ensures DoneAsExpected(lib, config, a, v)
  {
    CompletionIsNoResponse();
    if Parse(a.input).Ok? && Verify(lib, config.verifier, Parse(a.input).value.token, a.env.clock).Ok? {
      var uid := Verify(lib, config.verifier, Parse(a.input).value.token, a.env.clock).value;
      assert TlsSuffices(config, a.env) && |a.input| <= MAX_CLIENTIN_LEN ==>
          Speaks(lib, config, a.env, a.input, Parse(a.input).value.authzid, uid);
    }
  }

  /** One step sets the flag as expected in every context exactly if canon_user leaves it alone where it refuses. */
  lemma StepDoneExactly(lib: Library, config: ServerConfig, a: Arrival)
    ensures (forall v :: DoneAsExpected(lib, config, a, v)) <==> LeavesDone(lib, config, a)
  {
    hide DoneAsExpected;
    forall v | LeavesDone(lib, config, a) ensures DoneAsExpected(lib, config, a, v) {
      if a.env.canon.Some? && exists uid, authzid :: Speaks(lib, config, a.env, a.input, authzid, uid) {
        var uid, authzid :| Speaks(lib, config, a.env, a.input, authzid, uid);
        AdmittedDone(lib, config, a, uid, authzid, v);
      } else {
        NoCanonDone(lib, config, a, v);
      }
    }
    if forall v :: DoneAsExpected(lib, config, a, v) {
      forall uid, authzid, p |
        && a.env.canon.Some? && Speaks(lib, config, a.env, a.input, authzid, uid)
        && CanonicaliseBoth(a.env.canon.value, Encode(uid), authzid, p).0 != SASL_OK
        ensures CanonicaliseBoth(a.env.canon.value, Encode(uid), authzid, p).1.doneflag == 1 <==> p.doneflag == 1
      {
        AdmittedDone(lib, config, a, uid, authzid, ServerView(None, NOTHING, p));
      }
    }
  }

  /** Over a whole run the server is done exactly when it accepted a token or finished refusing one. */
  lemma {:induction false} DoneExactly(lib: Library, config: ServerConfig, arrivals: seq<Arrival>, v: ServerView)
    requires forall a | a in arrivals :: LeavesDone(lib, config, a)
    ensures var (replies, end) := ServerRun(lib, config, arrivals, v);
            end.params.doneflag == 1 <==>
            || v.params.doneflag == 1
            || exists i | 0 <= i < |arrivals| :: replies[i].rc == SASL_OK || Completes(config, arrivals[i])
  {
    if arrivals == [] {
    } else {
      StepDoneExactly(lib, config, arrivals[0]);
      assert DoneAsExpected(lib, config, arrivals[0], v);
      var v' := ServerStep(lib, config, arrivals[0].env, arrivals[0].input, v).1;
      DoneExactly(lib, config, arrivals[1..], v');
      var replies, rest := ServerRun(lib, config, arrivals, v).0, ServerRun(lib, config, arrivals[1..], v').0;
      assert replies[0] == ReplyTo(lib, config, arrivals[0], v);
      forall i | 0 <= i < |rest| ensures replies[i + 1] == rest[i] && arrivals[i + 1] == arrivals[1..][i] {
      }
      if i :| 0 <= i < |arrivals| && (replies[i].rc == SASL_OK || Completes(config, arrivals[i])) {
        if i > 0 {
          assert rest[i - 1].rc == SASL_OK || Completes(config, arrivals[1..][i - 1]);
        }
      }
      if i :| 0 <= i < |rest| && (rest[i].rc == SASL_OK || Completes(config, arrivals[1..][i])) {
        assert replies[i + 1].rc == SASL_OK || Completes(config, arrivals[i + 1]);
      }
    }
  }

  /** A canon_user that refuses everybody and says it is done. */
  function Finishing(): CanonUser {
    (name: seq<Byte>, flags: nat, p: Params) => (SASL_FAIL, p.(doneflag := 1))
  }

  /** With it a refused input leaves the server done, so LeavesDone cannot be dropped. */
  lemma FinishingIsDone(lib: Library, config: ServerConfig, a: Arrival, uid: string, v: ServerView)
    requires a.env.canon == Some(Finishing()) && Speaks(lib, config, a.env, a.input, None, uid)
    ensures var (rc, v') := ServerStep(lib, config, a.env, a.input, v);
            rc == SASL_FAIL && !Completes(config, a) && v'.params.doneflag == 1
  {
    CompletionIsNoResponse();
    SpeaksAdmits(lib, config, a.env, a.input, v, None, uid);
  }
}
