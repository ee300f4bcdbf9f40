/**
 The exchange of section 3.2 of RFC 7628: client and server in turn, each
 reading what the other published.
 */
module Exchange {
  import opened Prelude
  import opened Utf8
  import opened Rfc7628
  import opened Rfc7628Theorems
  import opened Jwt
  import opened SaslFfi
  import opened SaslClient
  import opened ClientValues
  import opened SaslServer
  import opened ServerRuns

  /** Both ends. What surrounds them may change from message to message. */
  datatype Peers = Peers(lib: Library, config: ServerConfig, app: nat -> App, env: nat -> Env)

  datatype Turn = ClientTurn | ServerTurn | Over

  datatype Session = Session(
    client: ClientView, server: ServerView, clientRc: int, serverRc: int, messages: seq<seq<Byte>>, turn: Turn)

  /** The published bytes as the other end receives them. */
  function Delivered(p: Published): seq<Byte> {
    if p.ptr.None? then [] else if p.len < |p.ptr.value| then p.ptr.value[..p.len] else p.ptr.value
  }

  function Incoming(s: Session): seq<Byte> {
    if s.messages == [] then [] else s.messages[|s.messages| - 1]
  }

  /** One turn: step, then send what was published if the step asks to go on or is a last word. */
  function Next(p: Peers, s: Session): Session
    requires s.client.Valid()
    ensures Next(p, s).client.Valid()
  {
    var n := |s.messages|;
    match s.turn
    case Over => s
    case ClientTurn =>
      var (rc, v) := ClientStep(p.app(n), Incoming(s), Incoming(s) != [], s.client);
      var sends := rc in {SASL_OK, SASL_CONTINUE} && v.out.ptr.Some?;
      s.(client := v, clientRc := rc,
         messages := if sends then s.messages + [Delivered(v.out)] else s.messages,
         turn := if sends then ServerTurn else Over)
    case ServerTurn =>
      var (rc, v) := ServerStep(p.lib, p.config, p.env(n), Incoming(s), s.server);
      var sends := rc == SASL_CONTINUE && v.out.ptr.Some?;
      s.(server := v, serverRc := rc,
         messages := if sends then s.messages + [Delivered(v.out)] else s.messages,
         turn := if sends then ClientTurn else Over)
  }

  function Run(p: Peers, s: Session, n: nat): Session
    requires s.client.Valid()
    ensures Run(p, s, n).client.Valid()
    decreases n
  {
    if n == 0 then s else Run(p, Next(p, s), n - 1)
  }

  predicate Opening(s: Session) {
    s.client.Valid() && s.messages == [] && s.turn == ClientTurn
  }

  lemma OverStays(p: Peers, s: Session, n: nat)
    requires s.client.Valid() && s.turn.Over?
    ensures Run(p, s, n) == s
  {
  }

  // ---------- one turn at a time ----------

  /** A client that opens with a message has a token, and the message is the printed response. */
  lemma ClientOpens(p: Peers, s: Session)
    requires Opening(s)
    ensures var s' := Next(p, s);
            || (s'.turn == Over && s'.messages == [])
            || (s'.turn == ServerTurn && s'.clientRc == SASL_CONTINUE && |s'.messages| == 1)
    ensures var s' := Next(p, s); s'.server == s.server && s'.client.Valid()
  {
  }

  /** A refusal in JSON, or the end. */
  lemma ServerReplies(p: Peers, s: Session)
    requires s.client.Valid() && s.turn == ServerTurn && s.messages != []
    ensures var s' := Next(p, s);
            || (s'.turn == Over && s'.messages == s.messages)
            || (s'.turn == ClientTurn && s'.messages == s.messages + [INVALID_TOKEN_JSON])
    ensures Next(p, s).client == s.client && Next(p, s).clientRc == s.clientRc
  {
    assert Delivered(Publishing(INVALID_TOKEN_JSON)) == INVALID_TOKEN_JSON;
  }

  /** Any server message makes the client finish with the completion byte. */
  lemma ClientCompletes(p: Peers, s: Session)
    requires s.client.Valid() && s.turn == ClientTurn && Incoming(s) == INVALID_TOKEN_JSON
    ensures var s' := Next(p, s);
            && s'.turn == ServerTurn && s'.messages == s.messages + [COMPLETION]
            && s'.clientRc == SASL_OK && s'.client.params == Finished(s.client.params)
            && s'.server == s.server
  {
    assert Delivered(Publishing(ERROR_COMPLETION)) == COMPLETION;
  }

  /** The completion byte ends the exchange, with SASL_BADAUTH unless TLS was lost meanwhile. */
  lemma ServerCompletes(p: Peers, s: Session)
    requires s.client.Valid() && s.turn == ServerTurn && Incoming(s) == COMPLETION
    ensures var s' := Next(p, s);
            && s'.turn == Over && s'.messages == s.messages
            && s'.client == s.client && s'.clientRc == s.clientRc
            && (TlsSuffices(p.config, p.env(|s.messages|)) ==>
                  s'.serverRc == SASL_BADAUTH && s'.server.params == Finished(s.server.params))
  {
  }

  /** After a first message: the refusal and the completion, or the end. */
  lemma TurnsAfterOpening(p: Peers, s1: Session)
    requires s1.client.Valid() && (s1.turn == Over || (s1.turn == ServerTurn && |s1.messages| == 1))
    requires |s1.messages| <= 1
    ensures var s2 := Next(p, s1); var s3 := Next(p, s2); var s4 := Next(p, s3);
            |s2.messages| <= 2 && |s3.messages| <= 3 && |s4.messages| <= 3 && s4.turn == Over
  {
    if s1.turn == ServerTurn {
      ServerReplies(p, s1);
      var s2 := Next(p, s1);
      if s2.turn == ClientTurn {
        ClientCompletes(p, s2);
        ServerCompletes(p, Next(p, s2));
      }
    }
  }

  lemma RunUnfolds(p: Peers, s: Session, n: nat)
    requires s.client.Valid() && n > 0
    ensures Run(p, s, n) == Run(p, Next(p, s), n - 1)
  {
  }

  lemma FourTurns(p: Peers, s: Session)
    requires s.client.Valid()
    ensures Run(p, s, 4) == Next(p, Next(p, Next(p, Next(p, s))))
  {
    var s1 := Next(p, s);
    var s2 := Next(p, s1);
    var s3 := Next(p, s2);
    RunUnfolds(p, s, 4);
    RunUnfolds(p, s1, 3);
    RunUnfolds(p, s2, 2);
    RunUnfolds(p, s3, 1);
  }

  lemma {:induction false} RunAdds(p: Peers, s: Session, m: nat, n: nat)
    requires s.client.Valid()
    ensures Run(p, s, m + n) == Run(p, Run(p, s, m), n)
    decreases m
  {
    hide Next;
    if m == 0 {
    } else {
      RunUnfolds(p, s, m + n);
      RunUnfolds(p, s, m);
      RunAdds(p, Next(p, s), m - 1, n);
    }
  }

  /** A run that is over stays as it is. */
  lemma RunStays(p: Peers, s: Session, m: nat, n: nat)
    requires s.client.Valid() && n >= m && Run(p, s, m).turn == Over
    ensures Run(p, s, n) == Run(p, s, m)
  {
    hide Next;
    RunAdds(p, s, m, n - m);
    OverStays(p, Run(p, s, m), n - m);
  }

  lemma FewTurns(p: Peers, s: Session, n: nat)
    requires s.client.Valid() && n <= 3
    ensures Run(p, s, n) == if n == 0 then s
                            else if n == 1 then Next(p, s)
                            else if n == 2 then Next(p, Next(p, s))
                            else Next(p, Next(p, Next(p, s)))
  {
    if n >= 1 {
      RunUnfolds(p, s, n);
    }
    if n >= 2 {
      RunUnfolds(p, Next(p, s), n - 1);
    }
    if n >= 3 {
      RunUnfolds(p, Next(p, Next(p, s)), n - 2);
    }
  }

  /** Whatever the peers do, there are at most three messages, and four turns end the exchange. */
  lemma AtMostThreeMessages(p: Peers, s: Session, n: nat)
    requires Opening(s)
    ensures |Run(p, s, n).messages| <= 3
    ensures n >= 4 ==> Run(p, s, n).turn == Over && Run(p, s, n) == Run(p, s, 4)
  {
    hide Next;
    ClientOpens(p, s);
    TurnsAfterOpening(p, Next(p, s));
    FourTurns(p, s);
    if n >= 4 {
      RunStays(p, s, 4, n);
    } else {
      FewTurns(p, s, n);
    }
  }

  // ---------- the composed exchange ----------

  /** The name the client acts as. */
  function ClientActsAs(authzid: Option<string>): seq<Byte> {
    if authzid.Some? then Encode(authzid.value) else Ascii("anonymous")
  }

  /** canon_user takes the placeholder as the client's identity, and then the name it acts as, and leaves q. */
  predicate ClientCanonTakes(canon: CanonUser, authzid: Option<string>, p: Params, q: Params) {
    var (rc, p1) := canon(Ascii("anonymous"), 1, p);
    rc == 0 && 0 !in ClientActsAs(authzid) && canon(ClientActsAs(authzid), 2, p1) == (0, q)
  }

  ghost predicate ClientNamesTaken(app: App, v: ClientView, authzid: Option<string>)
    requires app.canon.Some?
  {
    exists q :: ClientCanonTakes(app.canon.value, authzid, v.params, q)
  }

  lemma Placeholder()
    ensures Ascii("anonymous") == ANONYMOUS && 0 !in ANONYMOUS
  {
  }

  lemma TakesExactly(canon: CanonUser, authzid: Option<string>, p: Params)
    ensures (exists q :: ClientCanonTakes(canon, authzid, p, q)) <==> Canonicalise(canon, authzid, p).0 == SASL_OK
    ensures forall q | ClientCanonTakes(canon, authzid, p, q) :: Canonicalise(canon, authzid, p) == (SASL_OK, q)
  {
    Placeholder();
    hide Ascii, Encode;
    var (rc, q) := Canonicalise(canon, authzid, p);
    assert rc == SASL_OK ==> ClientCanonTakes(canon, authzid, p, q);
  }

  /** The first turn, when the application has supplied both values. */
  lemma OpeningStep(p: Peers, s: Session, authzid: Option<string>, token: string)
    requires Opening(s) && Holds(p.app(0), s.client, authzid, token)
    ensures var (rc, params) := Canonicalise(p.app(0).canon.value, authzid, s.client.params);
            && (Next(p, s).messages == if rc == SASL_OK then [Delivered(Publishing(Build(authzid, token)))] else [])
            && Next(p, s).clientRc == (if rc == SASL_OK then SASL_CONTINUE else rc)
            && Next(p, s).client.params == params
  {
    HoldsExactly(p.app(0), s.client, authzid, token);
    hide Holds, GetSimple, GetPassword, CheckValues, Canonicalise, Build, Parse, Verify, ServerStep;
  }

  /** A client that opens holds a token. */
  lemma OpenersHold(p: Peers, s: Session) returns (authzid: Option<string>, token: string)
    requires Opening(s) && Next(p, s).messages != []
    ensures Holds(p.app(0), s.client, authzid, token)
  {
    hide Holds, GetSimple, GetPassword, Canonicalise, Build, ServerStep;
    var app, v := p.app(0), s.client;
    var user, pass := GetSimple(v.prompts, SASL_CB_USER, app.user), GetPassword(v.prompts, app.pass);
    var values := CheckValues(app, user, pass);
    authzid, token := values.value.0, values.value.1;
    HoldsExactly(app, v, authzid, token);
  }

  /** The client opens with a message exactly when it holds a token and its names are taken; the message prints both. */
  lemma ClientSendsExactly(p: Peers, s: Session)
    requires Opening(s)
    ensures Next(p, s).messages != [] <==>
              exists authzid, token ::
                Holds(p.app(0), s.client, authzid, token) && ClientNamesTaken(p.app(0), s.client, authzid)
    ensures forall authzid, token |
              Holds(p.app(0), s.client, authzid, token) && ClientNamesTaken(p.app(0), s.client, authzid) ::
              && Next(p, s).messages == [Delivered(Publishing(Build(authzid, token)))]
              && Next(p, s).clientRc == 1
  {
    hide GivesName, GivesToken, NamesAuthzid, Next, ClientNamesTaken, Build, Canonicalise;
    forall authzid, token | Holds(p.app(0), s.client, authzid, token)
      ensures Next(p, s).messages == if ClientNamesTaken(p.app(0), s.client, authzid)
                                     then [Delivered(Publishing(Build(authzid, token)))] else []
      ensures ClientNamesTaken(p.app(0), s.client, authzid) ==> Next(p, s).clientRc == 1
    {
      OpeningStep(p, s, authzid, token);
      NamesTakenIs(p.app(0), s.client, authzid);
    }
    if Next(p, s).messages != [] {
      var authzid, token := OpenersHold(p, s);
    }
  }

  lemma NamesTakenIs(app: App, v: ClientView, authzid: Option<string>)
    requires app.canon.Some?
    ensures ClientNamesTaken(app, v, authzid) <==> Canonicalise(app.canon.value, authzid, v.params).0 == SASL_OK
  {
    TakesExactly(app.canon.value, authzid, v.params);
  }

  /** For every canon_user: which calls decide whether a client opens, and the parameters it is left with. */
  lemma ClientNames(p: Peers, s: Session, authzid: Option<string>, token: string)
    requires Opening(s) && Holds(p.app(0), s.client, authzid, token)
    ensures Next(p, s).messages != [] <==>
              exists q :: ClientCanonTakes(p.app(0).canon.value, authzid, s.client.params, q)
    ensures forall q | ClientCanonTakes(p.app(0).canon.value, authzid, s.client.params, q) ::
              Next(p, s).client.params == q && Next(p, s).clientRc == 1
  {
    hide GivesName, GivesToken, NamesAuthzid, Next, Build, Canonicalise, ClientCanonTakes;
    TakesExactly(p.app(0).canon.value, authzid, s.client.params);
    OpeningStep(p, s, authzid, token);
  }

  /** With a canon_user that records names, the client goes by the placeholder and acts as its authzid, or else so. */
  lemma ClientNamesRecorded(p: Peers, s: Session, authzid: Option<string>, token: string,
                            names: seq<Byte> -> Result<seq<Byte>, Failure>)
    requires Opening(s) && p.app(0).canon == Some(Recording(names)) && Holds(p.app(0), s.client, authzid, token)
    requires names(Ascii("anonymous")).Ok? && 0 !in ClientActsAs(authzid) && names(ClientActsAs(authzid)).Ok?
    ensures var params := Next(p, s).client.params;
            && params.authid == Some(names(Ascii("anonymous")).value)
            && params.user == Some(names(ClientActsAs(authzid)).value)
            && params.doneflag == s.client.params.doneflag
  {
    ClientNames(p, s, authzid, token);
    var before := s.client.params;
    var q := before.(authid := Some(names(Ascii("anonymous")).value), user := Some(names(ClientActsAs(authzid)).value));
    assert ClientCanonTakes(Recording(names), authzid, before, q);
  }

  /** The code of the two calls to canon_user, and 1 if both take their name. */
  function ClientCanonCode(canon: CanonUser, authzid: Option<string>, p: Params): int {
    var (rc, p1) := canon(Ascii("anonymous"), 1, p);
    if rc != 0 then rc
    else if 0 in ClientActsAs(authzid) then -7
    else
      var rc' := canon(ClientActsAs(authzid), 2, p1).0;
      if rc' != 0 then rc' else 1
  }

  /** Which code the values supplied lead to. */
  ghost predicate ValuesCode(app: App, p: Params, name: Option<seq<Byte>>, secret: seq<Byte>, rc: int) {
    if NoText(secret) then rc == -7
    else if app.canon.None? then rc == -1
    else if name.Some? && NoText(name.value) then rc == -7
    else exists authzid :: NamesAuthzid(name, authzid) && rc == ClientCanonCode(app.canon.value, authzid, p)
  }

  /** Which code a step returns, as the numbers of the Cyrus SASL headers, the first that applies. */
  ghost predicate StepCode(app: App, serverIn: seq<Byte>, isFinal: bool, v: ClientView, rc: int) {
    if |serverIn| % 0x1_0000_0000 > 65_536 then rc == -5
    else if isFinal then rc == 0
    else if app.ssfTooWeak then rc == -15
    else if ToPrompt(v.prompts, 0x4001, app.user) || ToPrompt(v.prompts, 0x4004, app.pass) then
      rc == if !app.present then -1 else if !app.allocates then -2 else 2
    else if exists c :: NameFails(v.prompts, app.user, c) then NameFails(v.prompts, app.user, rc)
    else if exists c :: TokenFails(v.prompts, app.pass, c) then TokenFails(v.prompts, app.pass, rc)
    else
      exists name, secret ::
        && GivesName(v.prompts, app.user, name) && GivesToken(v.prompts, app.pass, secret)
        && ValuesCode(app, v.params, name, secret, rc)
  }

  lemma CanonCodeIs(canon: CanonUser, authzid: Option<string>, p: Params)
    ensures var rc := Canonicalise(canon, authzid, p).0;
            ClientCanonCode(canon, authzid, p) == if rc == SASL_OK then 1 else rc
  {
    Placeholder();
    hide Ascii, Encode;
  }

  lemma ValuesCodeIs(app: App, v: ClientView, name: Option<seq<Byte>>, secret: seq<Byte>)
    ensures ValuesCode(app, v.params, name, secret, Respond(app, Value(name), Value(Some(secret)), v).0)
  {
    NoTextIs(secret);
    EncodeNothing([]);
    if name.Some? {
      NoTextIs(name.value);
    }
    hide NoText, Encode, Decode, Canonicalise, ClientCanonCode, Build;
    if app.canon.Some? && CheckValues(app, Value(name), Value(Some(secret))).Ok? {
      var authzid := CheckValues(app, Value(name), Value(Some(secret))).value.0;
      AuthzidIs(name, authzid);
      CanonCodeIs(app.canon.value, authzid, v.params);
    }
  }

  lemma ValuesFail(app: App, v: ClientView, user: CbValue, pass: CbValue)
    requires !user.NeedPrompt? && !pass.NeedPrompt?
    ensures user.Fail? ==> Respond(app, user, pass, v).0 == user.rc
    ensures user.Value? && pass.Fail? ==> Respond(app, user, pass, v).0 == pass.rc
    ensures user.Value? && pass == Value(None) ==> Respond(app, user, pass, v).0 == -7
  {
    hide Decode, Canonicalise, Build;
  }

  lemma ClientCodes(app: App, serverIn: seq<Byte>, isFinal: bool, v: ClientView)
    requires v.Valid()
    ensures StepCode(app, serverIn, isFinal, v, ClientStep(app, serverIn, isFinal, v).0)
  {
    hide GetSimple, GetPassword, GivesName, GivesToken, NameFails, TokenFails, ToPrompt, ValuesCode, Respond;
    NameExactly(v.prompts, app.user);
    TokenExactly(v.prompts, app.pass);
    var user, pass := GetSimple(v.prompts, SASL_CB_USER, app.user), GetPassword(v.prompts, app.pass);
    if !user.NeedPrompt? && !pass.NeedPrompt? {
      ValuesFail(app, v.(out := NOTHING, prompts := None), user, pass);
    }
    if user.Value? && pass.Value? && pass.value.Some? {
      ValuesCodeIs(app, v.(out := NOTHING, prompts := None), user.value, pass.value.value);
    }
  }

  /** What a client holds is never an empty authzid, and a name it got taken is a C string. */
  lemma HeldAuthzid(app: App, v: ClientView, authzid: Option<string>, token: string)
    requires v.Valid() && Holds(app, v, authzid, token) && ClientNamesTaken(app, v, authzid)
    ensures NonEmpty(authzid) == authzid && (authzid.Some? ==> 0 !in Encode(authzid.value))
  {
  }

  lemma DeliveredWhole(data: seq<Byte>)
    requires |data| < U32_SIZE
    ensures Delivered(Publishing(data)) == data
  {
  }

  /** The server reads from the client's message exactly what the client holds, if and only if the format carries it. */
  lemma ServerReadsClient(app: App, v: ClientView, authzid: Option<string>, token: string, message: seq<Byte>)
    requires v.Valid() && Holds(app, v, authzid, token) && ClientNamesTaken(app, v, authzid)
    requires message == Build(authzid, token) && |message| < U32_SIZE
    ensures Parse(Delivered(Publishing(message))) == Ok(ClientResponse(authzid, token)) <==> Carries(authzid, token)
  {
    HeldAuthzid(app, v, authzid, token);
    DeliveredWhole(message);
    RoundTrip(authzid, token);
  }

  /** The client's first turn. */
  lemma OpeningTurn(p: Peers, s: Session, authzid: Option<string>, token: string, message: seq<Byte>)
    requires Opening(s) && Holds(p.app(0), s.client, authzid, token) && ClientNamesTaken(p.app(0), s.client, authzid)
    requires Carries(authzid, token) && message == Build(authzid, token) && |message| <= 65_536
    ensures var s1 := Next(p, s);
            s1.client.Valid() && s1.turn == ServerTurn && s1.messages == [message] && s1.clientRc == SASL_CONTINUE
    ensures Parse(message) == Ok(ClientResponse(authzid, token)) && (authzid.Some? ==> 0 !in Encode(authzid.value))
  {
    ClientSendsExactly(p, s);
    ClientOpens(p, s);
    DeliveredWhole(message);
    HeldAuthzid(p.app(0), s.client, authzid, token);
    ServerReadsClient(p.app(0), s.client, authzid, token, message);
  }

  /** One message; the server is done, with the names canon_user left in q. */
  predicate Accepted(end: Session, message: seq<Byte>, q: Params) {
    && end.turn == Over && end.messages == [message]
    && end.clientRc == 1 && end.serverRc == 0 && DoneWith(end.server.params, q)
  }

  /** Three messages: the response, the refusal, one %x01. Both ends are done, the server with code -13. */
  predicate Rejected(end: Session, message: seq<Byte>) {
    && end.turn == Over && end.messages == [message, Ascii("{\"status\":\"invalid_token\"}"), [0x01]]
    && end.clientRc == 0 && end.client.params.doneflag == 1
    && end.serverRc == -13 && end.server.params.doneflag == 1
  }

  /** How an exchange over this message ends, when the server starts from p. */
  ghost predicate Ends(end: Session, message: seq<Byte>, authzid: Option<string>, verdict: Result<string, OAuthError>,
                       canon: Option<CanonUser>, p: Params) {
    match verdict
    case Err(_) => Rejected(end, message)
    case Ok(uid) =>
      && end.turn == Over && end.messages == [message] && end.clientRc == 1
      && (end.serverRc == 0 <==> canon.Some? && exists q :: CanonTakes(canon.value, uid, authzid, p, q))
      && (forall q | canon.Some? && CanonTakes(canon.value, uid, authzid, p, q) :: Accepted(end, message, q))
  }

  /** The server's first turn, on a message that verifies. */
  lemma ServerAdmits(p: Peers, s1: Session, authzid: Option<string>, token: string, uid: string)
    requires s1.client.Valid() && s1.turn == ServerTurn && |s1.messages| == 1 && s1.clientRc == SASL_CONTINUE
    requires |s1.messages[0]| <= 65_536 && TlsSuffices(p.config, p.env(1))
    requires Parse(s1.messages[0]) == Ok(ClientResponse(authzid, token))
    requires Verify(p.lib, p.config.verifier, token, p.env(1).clock) == Ok(uid)
    ensures Ends(Next(p, s1), s1.messages[0], authzid, Ok(uid), p.env(1).canon, s1.server.params)
  {
    var input, v := s1.messages[0], s1.server.(out := NOTHING);
    SpeaksAdmits(p.lib, p.config, p.env(1), input, s1.server, authzid, uid);
    AdmitsExactly(p.env(1), uid, authzid, v);
    AdmitPublishesNothing(p.env(1), uid, authzid, v);
    forall q: Params {
      DoneWithIs(Finished(q), q);
    }
  }

  lemma AdmitPublishesNothing(env: Env, uid: string, authzid: Option<string>, v: ServerView)
    ensures Admit(env, uid, authzid, v).1.out == v.out
  {
  }

  /** The server's first turn, on a message whose token does not verify, and the rest of the exchange. */
  lemma ServerRefuses(p: Peers, s1: Session, authzid: Option<string>, token: string)
    requires s1.client.Valid() && s1.turn == ServerTurn && |s1.messages| == 1
    requires |s1.messages[0]| <= 65_536 && TlsSuffices(p.config, p.env(1)) && TlsSuffices(p.config, p.env(3))
    requires Parse(s1.messages[0]) == Ok(ClientResponse(authzid, token))
    requires Verify(p.lib, p.config.verifier, token, p.env(1).clock).Err?
    ensures Rejected(Next(p, Next(p, Next(p, s1))), s1.messages[0])
  {
    hide Parse, Verify;
    RefusalText();
    hide Ascii;
    RefusesExactly(p.lib, p.config, p.env(1), s1.messages[0], s1.server);
    ServerReplies(p, s1);
    var s2 := Next(p, s1);
    ClientCompletes(p, s2);
    ServerCompletes(p, Next(p, s2));
  }

  /**
   The server verifies exactly the client's token, whatever canon_user does.
   If it does not verify, the exchange ends with three messages, both ends
   done, and SASL_BADAUTH. If it verifies, it ends with one message, and with
   SASL_OK exactly when the server's canon_user takes the token's uid and the
   client's authzid.
   */
  lemma ComposedExchange(p: Peers, s: Session, authzid: Option<string>, token: string, message: seq<Byte>)
    requires Opening(s) && Holds(p.app(0), s.client, authzid, token) && ClientNamesTaken(p.app(0), s.client, authzid)
    requires Carries(authzid, token) && message == Build(authzid, token) && |message| <= 65_536
    requires TlsSuffices(p.config, p.env(1)) && TlsSuffices(p.config, p.env(3))
    ensures Ends(Run(p, s, 4), message, authzid, Verify(p.lib, p.config.verifier, token, p.env(1).clock),
                 p.env(1).canon, s.server.params)
  {
    OpeningTurn(p, s, authzid, token, message);
    ClientOpens(p, s);
    var s1 := Next(p, s);
    FourTurns(p, s);
    match Verify(p.lib, p.config.verifier, token, p.env(1).clock) {
      case Err(_) => ServerRefuses(p, s1, authzid, token);
      case Ok(uid) => ServerAdmits(p, s1, authzid, token, uid);
    }
  }

  /** Where canon_user records names, an accepted client goes by the token's uid and acts as its own authzid. */
  lemma RecordedExchange(p: Peers, s: Session, authzid: Option<string>, token: string, message: seq<Byte>, uid: string,
                         names: seq<Byte> -> Result<seq<Byte>, Failure>)
    requires Opening(s) && Holds(p.app(0), s.client, authzid, token) && ClientNamesTaken(p.app(0), s.client, authzid)
    requires Carries(authzid, token) && message == Build(authzid, token) && |message| <= 65_536
    requires TlsSuffices(p.config, p.env(1)) && TlsSuffices(p.config, p.env(3))
    requires Verify(p.lib, p.config.verifier, token, p.env(1).clock) == Ok(uid)
    requires p.env(1).canon == Some(Recording(names))
    ensures var end := Run(p, s, 4);
            && (end.serverRc == 0 <==> names(Encode(uid)).Ok? && names(ActsAs(uid, authzid)).Ok?)
            && (end.serverRc == 0 ==>
                  && end.server.params.doneflag == 1
                  && end.server.params.authid == Some(names(Encode(uid)).value)
                  && end.server.params.user == Some(names(ActsAs(uid, authzid)).value))
  {
    ComposedExchange(p, s, authzid, token, message);
    HeldAuthzid(p.app(0), s.client, authzid, token);
    VerifiedUidIsCString(p.lib, p.config.verifier, token, p.env(1).clock);
    RecordingTakes(names, uid, authzid, s.server.params);
  }
}
