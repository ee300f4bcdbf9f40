/**
 What an accepted token is, in the fields of header, key, claims and policy;
 why a refused one is refused; and how both depend on policy and time.
 */
module TokenTheorems {
  import opened Prelude
  import opened Utf8
  import opened Text
  import opened Jwt
  import opened JwtTheorems
  import opened Plain

  // ---------- times ----------

  /** Instants at which the date claims hold without any grace: from the later of nbf and iat, to exp. */
  datatype Window = Window(from: Option<int>, to: int) {
    /** Unbounded integers; grace widens the interval at both ends. */
    predicate Contains(grace: int, now: int) {
      (from.Some? ==> from.value - grace <= now) && now <= to + grace
    }
  }

  /** The window of the date claims; a claim that is absent sets no bound, exp must be there. */
  ghost predicate IsWindow(claims: Value, window: Window) {
    && HasDate(claims, "exp", window.to)
    && (Lacks(claims, "nbf") || exists d :: HasDate(claims, "nbf", d))
    && (Lacks(claims, "iat") || exists d :: HasDate(claims, "iat", d))
    && (window.from.None? <==> Lacks(claims, "nbf") && Lacks(claims, "iat"))
    && (window.from.Some? ==>
          && (HasDate(claims, "nbf", window.from.value) || HasDate(claims, "iat", window.from.value))
          && (forall d | HasDate(claims, "nbf", d) || HasDate(claims, "iat", d) :: d <= window.from.value))
  }

  /** Negative grace counts as none. */
  function GraceOf(policy: JwtPolicy): int {
    if policy.grace > 0 then policy.grace else 0
  }

  ghost predicate InTime(policy: JwtPolicy, claims: Value, now: int) {
    exists window :: IsWindow(claims, window) && window.Contains(GraceOf(policy), now)
  }

  lemma OneDate(v: Value, key: string, d: int, e: int)
    requires HasDate(v, key, d) && HasDate(v, key, e)
    ensures d == e
  {
  }

  /** The saturating 64-bit comparisons are those of unbounded integers with the window. */
  lemma TimeWindow(policy: JwtPolicy, claims: Value, clock: Clock)
    ensures CheckValidityDates(policy, claims, clock).Ok? <==> clock.Some? && InTime(policy, claims, clock.value)
  {
    DateIs(claims, "exp");
    DateIs(claims, "nbf");
    DateIs(claims, "iat");
    hide HasDate, Lacks, NumericDate;
    var exp, nbf, iat := NumericDate(claims.Get("exp")), NumericDate(claims.Get("nbf")), NumericDate(claims.Get("iat"));
    if exp.Ok? && exp.value.Some? && nbf.Ok? && iat.Ok? {
      var from: Option<int> :=
        if nbf.value.None? then iat.value
        else if iat.value.None? || iat.value.value < nbf.value.value then nbf.value
        else iat.value;
      assert IsWindow(claims, Window(from, exp.value.value));
    }
  }

  /** The accepted instants are one interval, and more grace keeps all of them. */
  lemma AcceptedInstants(policy: JwtPolicy, wider: JwtPolicy, claims: Value, first: I64, now: I64, last: I64)
    requires 0 <= first <= now <= last && GraceOf(policy) <= GraceOf(wider)
    requires CheckValidityDates(policy, claims, Some(first)).Ok? && CheckValidityDates(policy, claims, Some(last)).Ok?
    ensures CheckValidityDates(wider, claims, Some(now)).Ok?
  {
  }

  // ---------- acceptance ----------

  ghost predicate NamesAudience(claims: Value, aud: string) {
    || Has(claims, "aud", String(aud))
    || exists items :: Has(claims, "aud", Array(items)) && String(aud) in items
  }

  /** scope is one of the words of the scope claim. */
  ghost predicate GrantsScope(claims: Value, scope: string) {
    exists text, i: nat :: Has(claims, "scope", String(text)) && IsWordAt(text, Blank, scope, i)
  }

  ghost predicate AudienceTrusted(policy: JwtPolicy, claims: Value) {
    exists aud | aud in policy.trustedAudiences :: NamesAudience(claims, aud)
  }

  /** Without trusted parties none is asked for. */
  ghost predicate PartyTrusted(policy: JwtPolicy, claims: Value) {
    || policy.trustedAuthorizedParties == []
    || exists azp | azp in policy.trustedAuthorizedParties :: Has(claims, "azp", String(azp))
  }

  ghost predicate Denied(policy: JwtPolicy, uid: string) {
    exists denied | denied in policy.disallowedUsernames :: SameName(denied, uid)
  }

  /** A name without white space at its ends, and without control characters. */
  predicate CleanName(uid: string) {
    uid != "" && !White(uid[0]) && !White(uid[|uid| - 1]) && forall c | c in uid :: !Control(c)
  }

  /** The claims the policy asks for, among them those of sections 4.1.1 to 4.1.6 of RFC 7519. */
  ghost predicate ClaimsAccepted(policy: JwtPolicy, claims: Value, clock: Clock, uid: string) {
    && Has(claims, "iss", String(policy.trustedIssuer))
    && AudienceTrusted(policy, claims) && PartyTrusted(policy, claims)
    && clock.Some? && InTime(policy, claims, clock.value)
    && (forall scope | scope in policy.requiredScopes :: GrantsScope(claims, scope))
    && Has(claims, policy.uidAttr, String(uid)) && CleanName(uid)
    && !Denied(policy, uid)
  }

  /** Not disallowed, and configured, or without a configured list any algorithm but HMAC. */
  predicate Permitted(policy: JwtPolicy, alg: Algorithm) {
    && alg !in policy.disallowedAlgorithms
    && match policy.allowedAlgorithms
       case Some(list) => alg in list
       case None => alg !in {HS256, HS384, HS512}
  }

  /** The key may be used to verify with this algorithm. */
  predicate MetadataAllows(meta: JwkMeta, alg: Algorithm) {
    && (meta.use == None || meta.use == Some("sig"))
    && (meta.keyOps == [] || "verify" in meta.keyOps)
    && (meta.alg == None || NamesAlgorithm(meta.alg.value, alg))
    && KeyFits(alg, meta.kty, meta.crv)
  }

  ghost predicate LooksLikeJwt(token: string) {
    |Encode(token)| >= 16 && Dotted(token)
  }

  ghost predicate Accepted(lib: Library, verifier: JwtVerifier, token: string, clock: Clock, uid: string) {
    && LooksLikeJwt(token)
    && lib.decodeHeader(token).Some?
    && var header := lib.decodeHeader(token).value;
    && Permitted(verifier.policy, header.alg)
    && header.kid.Some? && header.kid.value in verifier.keys
    && var signingKey := verifier.keys[header.kid.value];
    && MetadataAllows(signingKey.meta, header.alg)
    && var claims := lib.decode(token, signingKey.key, header.alg);
    && claims.Ok?
    && ClaimsAccepted(verifier.policy, claims.value, clock, uid)
  }

  // ---------- refusal ----------

  /** The string under a key, if there is one. */
  ghost function StringUnder(claims: Value, key: string): Option<string> {
    if exists s :: Has(claims, key, String(s)) then var s :| Has(claims, key, String(s)); Some(s) else None
  }

  ghost predicate FirstMissingScope(policy: JwtPolicy, claims: Value, k: nat) {
    && k < |policy.requiredScopes| && !GrantsScope(claims, policy.requiredScopes[k])
    && forall j | 0 <= j < k :: GrantsScope(claims, policy.requiredScopes[j])
  }

  ghost predicate SomeDate(claims: Value, key: string) {
    exists d :: HasDate(claims, key, d)
  }

  /** Why the claims are refused: the first clause that fails, in this order. */
  ghost function ClaimsRefusal(policy: JwtPolicy, claims: Value, clock: Clock): Option<OAuthError> {
    var uid := StringUnder(claims, policy.uidAttr);
    if !Has(claims, "iss", String(policy.trustedIssuer)) then Some(InvalidIssuer(StringUnder(claims, "iss")))
    else if !AudienceTrusted(policy, claims) then Some(InvalidAudience)
    else if !PartyTrusted(policy, claims) then Some(InvalidAuthorizedParty(StringUnder(claims, "azp")))
    else if clock.None? then Some(ConfigError)
    else if !SomeDate(claims, "exp") then Some(MissingExpiration)
    else if !InTime(policy, claims, clock.value) then Some(ClaimExpired)
    else if exists k: nat :: FirstMissingScope(policy, claims, k) then
      var k: nat :| FirstMissingScope(policy, claims, k);
      Some(MissingScope(policy.requiredScopes[k]))
    else if uid == None || uid == Some("") then Some(MissingUidClaim(policy.uidAttr))
    else if !CleanName(uid.value) then Some(InvalidUidClaim(policy.uidAttr))
    else if Denied(policy, uid.value) then Some(DisallowedUsername(uid.value))
    else None
  }

  /** Why a token is refused. */
  ghost function Refusal(lib: Library, verifier: JwtVerifier, token: string, clock: Clock): Option<OAuthError> {
    if !LooksLikeJwt(token) || lib.decodeHeader(token).None? then Some(ParseError)
    else
      var header := lib.decodeHeader(token).value;
      if !Permitted(verifier.policy, header.alg) then Some(InvalidSignature)
      else if header.kid.None? || header.kid.value !in verifier.keys then Some(UnknownSigningKey(header.kid))
      else
        var signingKey := verifier.keys[header.kid.value];
        if !MetadataAllows(signingKey.meta, header.alg) then Some(InvalidSignature)
        else
          match lib.decode(token, signingKey.key, header.alg)
          case Err(BadJson) => Some(ParseError)
          case Err(BadBase64) => Some(ParseError)
          case Err(MalformedToken) => Some(ParseError)
          case Err(_) => Some(InvalidSignature)
          case Ok(claims) => ClaimsRefusal(verifier.policy, claims, clock)
  }

  // ---------- the checks ----------

  lemma StringUnderIs(claims: Value, key: string)
    ensures StringUnder(claims, key) == claims.GetStr(key)
  {
    GetStrIs(claims, key);
  }

  lemma WordsWithBlank(text: string, w: string, i: nat)
    ensures IsWordAt(text, Blank, w, i) <==> IsWordAt(text, IsAsciiWhitespace, w, i)
  {
    forall c: char {
      BlankIs(c);
    }
  }

  lemma ScopeIsWord(claims: Value, scope: string)
    ensures scope in ScopeWords(claims) <==> GrantsScope(claims, scope)
  {
    hide IsWordAt, RunsInOrder, Words;
    GetStrIs(claims, "scope");
    var text := match claims.GetStr("scope") case Some(s) => s case None => "";
    forall i: nat {
      WordsWithBlank(text, scope, i);
    }
    WordIsSomewhere(text, scope);
    NoWordInEmpty(scope);
  }

  lemma NoWordInEmpty(w: string)
    ensures forall i: nat :: !IsWordAt("", IsAsciiWhitespace, w, i)
  {
  }

  lemma WordIsSomewhere(text: string, w: string)
    ensures w in Words(text, IsAsciiWhitespace) <==> exists i: nat :: IsWordAt(text, IsAsciiWhitespace, w, i)
  {
    var starts := WordsAreRunsInOrder(text, IsAsciiWhitespace);
    hide IsWordAt, Words;
    var words := Words(text, IsAsciiWhitespace);
    if w in words {
      var k :| 0 <= k < |words| && words[k] == w;
      assert IsWordAt(text, IsAsciiWhitespace, w, starts[k]);
    }
    forall i: nat | IsWordAt(text, IsAsciiWhitespace, w, i) ensures w in words {
      var k :| 0 <= k < |starts| && starts[k] == i;
      SameStartSameWord(text, w, words[k], i);
    }
  }

  lemma SameStartSameWord(text: string, v: string, w: string, i: nat)
    requires IsWordAt(text, IsAsciiWhitespace, v, i) && IsWordAt(text, IsAsciiWhitespace, w, i)
    ensures v == w
  {
    assert forall k | 0 <= k < |v| :: v[k] == text[i + k];
    assert forall k | 0 <= k < |w| :: w[k] == text[i + k];
  }

  lemma {:induction false} ScopesChecked(required: seq<string>, claims: Value)
    ensures match CheckScopes(required, claims)
            case Ok(_) => forall scope | scope in required :: GrantsScope(claims, scope)
            case Err(e) =>
              exists k: nat | k < |required| ::
                && !GrantsScope(claims, required[k]) && e == MissingScope(required[k])
                && forall j | 0 <= j < k :: GrantsScope(claims, required[j])
  {
    hide GrantsScope, ScopeWords;
    if required == [] {
    } else {
      ScopeIsWord(claims, required[0]);
      ScopesChecked(required[1..], claims);
      if required[0] in ScopeWords(claims) && CheckScopes(required[1..], claims).Err? {
        var k: nat :| k < |required[1..]| && !GrantsScope(claims, required[1..][k])
                      && CheckScopes(required[1..], claims).error == MissingScope(required[1..][k])
                      && forall j | 0 <= j < k :: GrantsScope(claims, required[1..][j]);
        assert forall j | 0 <= j < k + 1 :: j > 0 ==> required[j] == required[1..][j - 1];
        assert required[k + 1] == required[1..][k];
      }
    }
  }

  lemma AudienceChecked(policy: JwtPolicy, claims: Value)
    ensures CheckAudience(policy, claims) ==
              if AudienceTrusted(policy, claims) then Ok(()) else Err(InvalidAudience)
  {
    match claims.Get("aud")
    case Some(Array(items)) =>
      forall aud: string {
        StringsMembers(items, aud);
      }
      if CheckAudience(policy, claims).Ok? {
        var aud :| aud in Strings(items) && aud in policy.trustedAudiences;
        assert NamesAudience(claims, aud);
      }
    case Some(String(aud)) =>
      if aud in policy.trustedAudiences {
        assert NamesAudience(claims, aud);
      }
    case _ =>
  }

  lemma NameChecked(policy: JwtPolicy, claims: Value)
    ensures match ExtractUid(policy, claims)
            case Ok(uid) => StringUnder(claims, policy.uidAttr) == Some(uid) && CleanName(uid)
            case Err(MissingUidClaim(name)) =>
              name == policy.uidAttr
              && (StringUnder(claims, name) == None || StringUnder(claims, name) == Some(""))
            case Err(e) =>
              && e == InvalidUidClaim(policy.uidAttr)
              && var uid := StringUnder(claims, policy.uidAttr);
                 uid.Some? && uid.value != "" && !CleanName(uid.value)
  {
    StringUnderIs(claims, policy.uidAttr);
    match claims.GetStr(policy.uidAttr)
    case Some(uid) => CleanNameIs(uid);
    case None =>
  }

  lemma CleanNameIs(uid: string)
    ensures CleanName(uid) <==> uid != "" && Trim(uid) == uid && !exists c | c in uid :: IsControl(c)
  {
    TrimmedIsFixed(uid);
    forall c: char {
      WhiteIs(c);
    }
  }

  lemma DenyListChecked(policy: JwtPolicy, uid: string)
    ensures CheckUsername(policy, uid) ==
              if Denied(policy, uid) then Err(DisallowedUsername(uid)) else Ok(())
  {
    forall denied: string {
      SameNameIs(denied, uid);
    }
  }

  lemma IssuerChecked(policy: JwtPolicy, claims: Value)
    ensures CheckIssuer(policy, claims) ==
              if Has(claims, "iss", String(policy.trustedIssuer)) then Ok(())
              else Err(InvalidIssuer(StringUnder(claims, "iss")))
  {
    StringUnderIs(claims, "iss");
    GetStrIs(claims, "iss");
  }

  lemma PartyChecked(policy: JwtPolicy, claims: Value)
    ensures CheckAuthorizedParty(policy, claims) ==
              if PartyTrusted(policy, claims) then Ok(())
              else Err(InvalidAuthorizedParty(StringUnder(claims, "azp")))
  {
    StringUnderIs(claims, "azp");
    GetStrIs(claims, "azp");
  }

  lemma DatesChecked(policy: JwtPolicy, claims: Value, clock: Clock)
    ensures CheckValidityDates(policy, claims, clock) ==
              if clock.None? then Err(ConfigError)
              else if !SomeDate(claims, "exp") then Err(MissingExpiration)
              else if !InTime(policy, claims, clock.value) then Err(ClaimExpired)
              else Ok(())
  {
    TimeWindow(policy, claims, clock);
    DateIs(claims, "exp");
    DateIs(claims, "nbf");
    DateIs(claims, "iat");
    hide InTime, HasDate, Lacks;
  }

  /** The checks on the claims together: the first clause that fails, or the uid. */
  lemma ClaimsChecked(policy: JwtPolicy, claims: Value, clock: Clock)
    ensures match CheckClaims(policy, claims, clock)
            case Ok(uid) =>
              ClaimsRefusal(policy, claims, clock) == None && StringUnder(claims, policy.uidAttr) == Some(uid)
            case Err(e) => ClaimsRefusal(policy, claims, clock) == Some(e)
  {
    IssuerChecked(policy, claims);
    AudienceChecked(policy, claims);
    PartyChecked(policy, claims);
    DatesChecked(policy, claims, clock);
    ScopesChecked(policy.requiredScopes, claims);
    NameChecked(policy, claims);
    if ExtractUid(policy, claims).Ok? {
      DenyListChecked(policy, ExtractUid(policy, claims).value);
    }
    MissingScopeIs(policy, claims);
    hide CheckIssuer, CheckAudience, CheckAuthorizedParty, CheckValidityDates, CheckScopes, ExtractUid, CheckUsername,
      StringUnder, AudienceTrusted, PartyTrusted, InTime, CleanName, Denied, Has, SomeDate, FirstMissingScope;
  }

  lemma MissingScopeIs(policy: JwtPolicy, claims: Value)
    ensures match CheckScopes(policy.requiredScopes, claims)
            case Ok(_) => !exists k: nat :: FirstMissingScope(policy, claims, k)
            case Err(e) =>
              && (exists k: nat :: FirstMissingScope(policy, claims, k))
              && forall k: nat | FirstMissingScope(policy, claims, k) :: e == MissingScope(policy.requiredScopes[k])
  {
    hide GrantsScope;
    ScopesChecked(policy.requiredScopes, claims);
    match CheckScopes(policy.requiredScopes, claims)
    case Ok(_) =>
    case Err(e) =>
      var required := policy.requiredScopes;
      var k: nat :| k < |required| && !GrantsScope(claims, required[k]) && e == MissingScope(required[k])
                    && forall j | 0 <= j < k :: GrantsScope(claims, required[j]);
      assert FirstMissingScope(policy, claims, k);
      forall l: nat | FirstMissingScope(policy, claims, l) ensures l == k {
      }
  }

  /** No reason to refuse the claims is the same as every clause holding of them. */
  lemma ClaimsAcceptedIs(policy: JwtPolicy, claims: Value, clock: Clock, uid: string)
    ensures ClaimsAccepted(policy, claims, clock, uid) <==>
              ClaimsRefusal(policy, claims, clock) == None && StringUnder(claims, policy.uidAttr) == Some(uid)
  {
    StringUnderIs(claims, policy.uidAttr);
    GetStrIs(claims, policy.uidAttr);
    AllGranted(policy, claims);
    InTimeHasDate(policy, claims, clock);
    hide AudienceTrusted, PartyTrusted, InTime, GrantsScope, FirstMissingScope, StringUnder, Denied, SomeDate, Has;
  }

  lemma InTimeHasDate(policy: JwtPolicy, claims: Value, clock: Clock)
    ensures clock.Some? && InTime(policy, claims, clock.value) ==> SomeDate(claims, "exp")
  {
    if clock.Some? && InTime(policy, claims, clock.value) {
      var window :| IsWindow(claims, window) && window.Contains(GraceOf(policy), clock.value);
      assert HasDate(claims, "exp", window.to);
    }
  }

  lemma AllGranted(policy: JwtPolicy, claims: Value)
    ensures (forall scope | scope in policy.requiredScopes :: GrantsScope(claims, scope)) <==>
              !exists k: nat :: FirstMissingScope(policy, claims, k)
  {
    hide GrantsScope;
    MissingScopeIs(policy, claims);
    ScopesChecked(policy.requiredScopes, claims);
  }

  // ---------- the shape of a token ----------

  lemma {:induction false} CountConcat(a: seq<Byte>, b: seq<Byte>, x: Byte)
    ensures Count(a + b, x) == Count(a, x) + Count(b, x)
  {
    if a == [] {
      assert a + b == b;
    } else {
      assert (a + b)[1..] == a[1..] + b;
      CountConcat(a[1..], b, x);
    }
  }

  lemma {:induction false} CountAbsent(bytes: seq<Byte>, x: Byte)
    ensures Count(bytes, x) == 0 <==> x !in bytes
  {
    if bytes == [] {
    } else {
      CountAbsent(bytes[1..], x);
      assert bytes == [bytes[0]] + bytes[1..];
    }
  }

  lemma DotsIn(s: string)
    ensures Count(Encode(s), 0x2E) == 0 <==> '.' !in s
  {
    CountAbsent(Encode(s), 0x2E);
    AsciiByteIsChar(s, 0x2E);
  }

  lemma CountAround(a: string, b: string)
    ensures Count(Encode(a + "." + b), 0x2E) == Count(Encode(a), 0x2E) + 1 + Count(Encode(b), 0x2E)
  {
    EncodeConcat(a + ".", b);
    EncodeConcat(a, ".");
    OneDot();
    CountConcat(Encode(a) + Encode("."), Encode(b), 0x2E);
    CountConcat(Encode(a), Encode("."), 0x2E);
  }

  lemma OneDot()
    ensures Encode(".") == [0x2E] && Count(Encode("."), 0x2E) == 1
  {
    assert Encode(".") == EncodeChar('.') + Encode("");
  }

  /** A string with a dot is cut at the first one. */
  lemma CutAtDot(s: string) returns (a: string, b: string)
    requires '.' in s
    ensures s == a + "." + b && '.' !in a
  {
    var i := Find(s, c => c == '.');
    a, b := s[..i], s[i + 1..];
    var k :| 0 <= k < |s| && s[k] == '.';
    assert s == a + [s[i]] + b;
  }

  lemma DottedCounts(a: string, b: string, c: string)
    requires '.' !in a && '.' !in b && '.' !in c
    ensures Count(Encode(a + "." + b + "." + c), 0x2E) == 2
  {
    hide Encode, Count;
    CountAround(a + "." + b, c);
    CountAround(a, b);
    DotsIn(a);
    DotsIn(b);
    DotsIn(c);
  }

  lemma CountsDotted(token: string)
    requires Count(Encode(token), 0x2E) == 2
    ensures Dotted(token)
  {
    hide Encode, Count;
    DotsIn(token);
    var a, rest := CutAtDot(token);
    CountAround(a, rest);
    DotsIn(a);
    DotsIn(rest);
    var b, c := CutAtDot(rest);
    CountAround(b, c);
    DotsIn(b);
    DotsIn(c);
    assert a + "." + (b + "." + c) == a + "." + b + "." + c;
  }

  lemma DottedIs(token: string)
    ensures Dotted(token) <==> Count(Encode(token), 0x2E) == 2
  {
    hide Encode, Count;
    if Dotted(token) {
      var a, b, c :| '.' !in a && '.' !in b && '.' !in c && token == a + "." + b + "." + c;
      DottedCounts(a, b, c);
    }
    if Count(Encode(token), 0x2E) == 2 {
      CountsDotted(token);
    }
  }

  // ---------- the verdict ----------

  lemma PermittedIs(policy: JwtPolicy, alg: Algorithm)
    ensures AlgorithmAllowed(policy, alg) == Permitted(policy, alg)
  {
  }

  lemma MetadataIs(meta: JwkMeta, alg: Algorithm)
    ensures CheckJwkMetadata(meta, alg) == if MetadataAllows(meta, alg) then Ok(()) else Err(InvalidSignature)
  {
    KeyFitsIs(alg, meta.kty, meta.crv);
    if meta.alg.Some? {
      NamesAlgorithmIs(meta.alg.value, alg);
    }
    hide KeyFits, NamesAlgorithm, ParseAlgorithmName;
  }

  /** verify returns a uid exactly if every clause of the policy holds of the token. */
  lemma VerifyAccepts(lib: Library, verifier: JwtVerifier, token: string, clock: Clock, uid: string)
    ensures Verify(lib, verifier, token, clock) == Ok(uid) <==> Accepted(lib, verifier, token, clock, uid)
  {
    VerifyDecides(lib, verifier, token, clock);
    AcceptedIs(lib, verifier, token, clock, uid);
    hide Verify, Accepted;
  }

  /** And otherwise the error of the first clause that fails. */
  lemma VerifyRefuses(lib: Library, verifier: JwtVerifier, token: string, clock: Clock)
    ensures match Verify(lib, verifier, token, clock)
            case Ok(_) => Refusal(lib, verifier, token, clock) == None
            case Err(e) => Refusal(lib, verifier, token, clock) == Some(e)
  {
    VerifyDecides(lib, verifier, token, clock);
    hide Verify;
  }

  ghost predicate Decided(lib: Library, verifier: JwtVerifier, token: string, clock: Clock,
                          verdict: Result<string, OAuthError>)
  {
    match verdict
    case Err(e) => Refusal(lib, verifier, token, clock) == Some(e)
    case Ok(uid) =>
      && Refusal(lib, verifier, token, clock) == None
      && var header := lib.decodeHeader(token).value;
         var claims := lib.decode(token, verifier.keys[header.kid.value].key, header.alg).value;
         StringUnder(claims, verifier.policy.uidAttr) == Some(uid)
  }

  lemma VerifyDecides(lib: Library, verifier: JwtVerifier, token: string, clock: Clock)
    ensures Decided(lib, verifier, token, clock, Verify(lib, verifier, token, clock))
  {
    DottedIs(token);
    hide Dotted, Count, Encode, AlgorithmAllowed, Permitted, CheckJwkMetadata, MetadataAllows, CheckClaims,
      ClaimsRefusal, StringUnder;
    if lib.decodeHeader(token).Some? {
      var Header(alg, kid) := lib.decodeHeader(token).value;
      PermittedIs(verifier.policy, alg);
      if kid.Some? && kid.value in verifier.keys {
        var signingKey := verifier.keys[kid.value];
        MetadataIs(signingKey.meta, alg);
        var claims := lib.decode(token, signingKey.key, alg);
        if claims.Ok? {
          ClaimsChecked(verifier.policy, claims.value, clock);
        }
      }
    }
  }

  lemma AcceptedIs(lib: Library, verifier: JwtVerifier, token: string, clock: Clock, uid: string)
    ensures Accepted(lib, verifier, token, clock, uid) <==>
              Decided(lib, verifier, token, clock, Ok(uid))
  {
    hide LooksLikeJwt, Permitted, MetadataAllows, ClaimsAccepted, ClaimsRefusal, StringUnder;
    if lib.decodeHeader(token).Some? {
      var Header(alg, kid) := lib.decodeHeader(token).value;
      if kid.Some? && kid.value in verifier.keys {
        var claims := lib.decode(token, verifier.keys[kid.value].key, alg);
        if claims.Ok? {
          ClaimsAcceptedIs(verifier.policy, claims.value, clock, uid);
        }
      }
    }
  }

  // ---------- policy monotonicity ----------

  ghost predicate Subset<T>(a: seq<T>, b: seq<T>) {
    forall x | x in a :: x in b
  }

  /** Without a configured list p allows what the default list holds, everything but HMAC. */
  ghost predicate AllowsNoMore(p: JwtPolicy, q: JwtPolicy) {
    && (forall alg | alg in q.disallowedAlgorithms ::
          alg in p.disallowedAlgorithms || match p.allowedAlgorithms case Some(list) => alg !in list
                                                                     case None => alg in {HS256, HS384, HS512})
    && match (p.allowedAlgorithms, q.allowedAlgorithms)
       case (Some(mine), Some(other)) => forall alg | alg in mine :: alg in p.disallowedAlgorithms || alg in other
       case (Some(mine), None) =>
         forall alg | alg in mine :: alg in p.disallowedAlgorithms || alg !in {HS256, HS384, HS512}
       case (None, Some(other)) =>
         forall alg: Algorithm :: alg in {HS256, HS384, HS512} || alg in p.disallowedAlgorithms || alg in other
       case (None, None) => true
  }

  /** p is at least as strict as q, component by component. */
  ghost predicate AtLeastAsStrict(p: JwtPolicy, q: JwtPolicy) {
    && p.uidAttr == q.uidAttr
    && p.trustedIssuer == q.trustedIssuer
    && AllowsNoMore(p, q)
    && Subset(p.trustedAudiences, q.trustedAudiences)
    && (q.trustedAuthorizedParties == [] ||
        (p.trustedAuthorizedParties != [] && Subset(p.trustedAuthorizedParties, q.trustedAuthorizedParties)))
    && Subset(q.requiredScopes, p.requiredScopes)
    && (forall denied | denied in q.disallowedUsernames ::
          exists mine | mine in p.disallowedUsernames :: SameName(mine, denied))
    && GraceOf(p) <= GraceOf(q)
  }

  lemma SameNameChain(a: string, b: string, c: string)
    requires SameName(a, b) && SameName(b, c)
    ensures SameName(a, c)
  {
    SameNameIs(a, b);
    SameNameIs(b, c);
    SameNameIs(a, c);
  }

  lemma ClaimsMonotone(p: JwtPolicy, q: JwtPolicy, claims: Value, clock: Clock, uid: string)
    requires AtLeastAsStrict(p, q) && ClaimsAccepted(p, claims, clock, uid)
    ensures ClaimsAccepted(q, claims, clock, uid)
  {
    hide SameName, NamesAudience, GrantsScope, Has, CleanName, IsWindow;
    forall denied | denied in q.disallowedUsernames ensures !SameName(denied, uid) {
      var mine :| mine in p.disallowedUsernames && SameName(mine, denied);
      if SameName(denied, uid) {
        SameNameChain(mine, denied, uid);
      }
    }
    var window :| IsWindow(claims, window) && window.Contains(GraceOf(p), clock.value);
    assert window.Contains(GraceOf(q), clock.value);
  }

  lemma PermittedMonotone(p: JwtPolicy, q: JwtPolicy, alg: Algorithm)
    requires AllowsNoMore(p, q) && Permitted(p, alg)
    ensures Permitted(q, alg)
  {
  }

  /** Whatever the stricter policy accepts, the laxer one accepts at the same time with the same uid. */
  lemma PolicyMonotone(lib: Library, p: JwtPolicy, q: JwtPolicy, keys: map<string, SigningKey>,
                       token: string, clock: Clock, uid: string)
    requires AtLeastAsStrict(p, q)
    requires Verify(lib, JwtVerifier(p, keys), token, clock) == Ok(uid)
    ensures Verify(lib, JwtVerifier(q, keys), token, clock) == Ok(uid)
  {
    hide Verify, ClaimsAccepted, Permitted, MetadataAllows, LooksLikeJwt;
    VerifyAccepts(lib, JwtVerifier(p, keys), token, clock, uid);
    VerifyAccepts(lib, JwtVerifier(q, keys), token, clock, uid);
    var Header(alg, kid) := lib.decodeHeader(token).value;
    PermittedMonotone(p, q, alg);
    ClaimsMonotone(p, q, lib.decode(token, keys[kid.value].key, alg).value, clock, uid);
  }
}
