/**
 The JWKS loader and the token policy. JSON, base64 and signature decoding
 belong to other crates: they are the fields of `Library`, arbitrary
 deterministic functions.
 */
module Jwt {
  import opened Prelude
  import opened Utf8
  import opened Text

  datatype Algorithm =
    HS256 | HS384 | HS512 | ES256 | ES384 | RS256 | RS384 | RS512 | PS256 | PS384 | PS512 | EdDSA

  const LEGACY_ALLOWED_ALGORITHMS: seq<Algorithm> :=
    [RS256, RS384, RS512, PS256, PS384, PS512, ES256, ES384, EdDSA]

  const MIN_JWT_LEN: nat := 16

  /** A JSON integer is an i64 or a u64. A float is given by the date it rounds to, if that is an i64. */
  type JsonInteger = n: int | I64_MIN <= n < 0x1_0000_0000_0000_0000

  datatype Value =
    | Null
    | Bool(b: bool)
    | Integer(n: JsonInteger)
    | Float(date: Option<I64>)
    | String(s: string)
    | Array(items: seq<Value>)
    | Object(fields: map<string, Value>)
  {
    function Get(key: string): Option<Value> {
      if Object? && key in fields then Some(fields[key]) else None
    }

    function AsStr(): Option<string> {
      if String? then Some(s) else None
    }

    /** `get(key).and_then(Value::as_str)` */
    function GetStr(key: string): Option<string> {
      var v := Get(key);
      if v.Some? then v.value.AsStr() else None
    }
  }

  datatype OAuthError =
    | MissingUidClaim(claim: string)
    | InvalidUidClaim(claim: string)
    | DisallowedUsername(username: string)
    | ParseError
    | InvalidIssuer(foundIssuer: Option<string>)
    | InvalidAudience
    | MissingScope(scope: string)
    | InvalidAuthorizedParty(foundParty: Option<string>)
    | MissingExpiration
    | ClaimExpired
    | InvalidSignature
    | UnknownSigningKey(kid: Option<string>)
    | ConfigError

  datatype DecodingKey = DecodingKey(material: string)

  datatype JwkMeta = JwkMeta(
    alg: Option<string>, use: Option<string>, keyOps: seq<string>, kty: string, crv: Option<string>)

  datatype SigningKey = SigningKey(key: DecodingKey, meta: JwkMeta)

  datatype JwtPolicy = JwtPolicy(
    uidAttr: string,
    grace: I64,
    trustedIssuer: string,
    trustedAudiences: seq<string>,
    trustedAuthorizedParties: seq<string>,
    requiredScopes: seq<string>,
    disallowedUsernames: seq<string>,
    allowedAlgorithms: Option<seq<Algorithm>>,
    disallowedAlgorithms: seq<Algorithm>)

  datatype JwtVerifier = JwtVerifier(policy: JwtPolicy, keys: map<string, SigningKey>)

  datatype Header = Header(alg: Algorithm, kid: Option<string>)

  datatype DecodeFailure =
    SignatureMismatch | AlgorithmMismatch | BadJson | BadBase64 | MalformedToken | OtherFailure

  datatype Library = Library(
    parseJson: string -> Option<Value>,
    decodingKey: Value -> Option<DecodingKey>,
    decodeHeader: string -> Option<Header>,
    decode: (string, DecodingKey, Algorithm) -> Result<Value, DecodeFailure>)

  function ParseAlgorithmName(name: string): Option<Algorithm> {
    match name
    case "HS256" => Some(HS256)
    case "HS384" => Some(HS384)
    case "HS512" => Some(HS512)
    case "ES256" => Some(ES256)
    case "ES384" => Some(ES384)
    case "RS256" => Some(RS256)
    case "RS384" => Some(RS384)
    case "RS512" => Some(RS512)
    case "PS256" => Some(PS256)
    case "PS384" => Some(PS384)
    case "PS512" => Some(PS512)
    case "EdDSA" => Some(EdDSA)
    case _ => None
  }

  function AlgorithmName(alg: Algorithm): (name: string)
    ensures ParseAlgorithmName(name) == Some(alg)
  {
    match alg
    case HS256 => "HS256"
    case HS384 => "HS384"
    case HS512 => "HS512"
    case ES256 => "ES256"
    case ES384 => "ES384"
    case RS256 => "RS256"
    case RS384 => "RS384"
    case RS512 => "RS512"
    case PS256 => "PS256"
    case PS384 => "PS384"
    case PS512 => "PS512"
    case EdDSA => "EdDSA"
  }

  predicate AlgorithmMatchesKeyType(alg: Algorithm, kty: string, crv: Option<string>) {
    match kty
    case "RSA" => alg in [RS256, RS384, RS512, PS256, PS384, PS512]
    case "EC" => (alg == ES256 && (crv == None || crv == Some("P-256")))
              || (alg == ES384 && (crv == None || crv == Some("P-384")))
    case "OKP" => alg == EdDSA && (crv == None || crv == Some("Ed25519"))
    case "oct" => alg in [HS256, HS384, HS512]
    case _ => false
  }

  // ---------- loader ----------

  function Strings(items: seq<Value>): seq<string> {
    if items == [] then []
    else
      var front := Strings(items[..|items| - 1]);
      match items[|items| - 1].AsStr()
      case None => front
      case Some(s) => front + [s]
  }

  function MetaOf(raw: Value): JwkMeta {
    JwkMeta(
      raw.GetStr("alg"),
      raw.GetStr("use"),
      match raw.Get("key_ops") case Some(Array(items)) => Strings(items) case _ => [],
      match raw.GetStr("kty") case Some(kty) => kty case None => "",
      raw.GetStr("crv"))
  }

  /** Ignored at load time: another use, no verify operation, or an algorithm that is not a JWS one. */
  predicate Ignored(meta: JwkMeta) {
    || (meta.use.Some? && meta.use.value != "sig")
    || (meta.keyOps != [] && "verify" !in meta.keyOps)
    || (meta.alg.Some? && ParseAlgorithmName(meta.alg.value).None?)
  }

  /** Metadata this verifier checks itself is hidden from the JWK parser. */
  function WithoutMetadata(raw: Value): Value {
    if raw.Object? then Object(raw.fields - {"alg", "use", "key_ops"}) else raw
  }

  /** What loading one more key does. None: duplicate kid or not an object. */
  datatype Loaded = Loaded(seen: set<string>, keys: map<string, SigningKey>)

  function LoadKey(lib: Library, loaded: Loaded, raw: Value): Option<Loaded> {
    if !raw.Object? then None
    else
      match raw.GetStr("kid")
      case None => Some(loaded)
      case Some(kid) =>
        if kid in loaded.seen then None
        else
          var seen := loaded.seen + {kid};
          var meta := MetaOf(raw);
          var key := lib.decodingKey(WithoutMetadata(raw));
          if Ignored(meta) || key.None? then Some(Loaded(seen, loaded.keys))
          else Some(Loaded(seen, loaded.keys[kid := SigningKey(key.value, meta)]))
  }

  function LoadKeys(lib: Library, raws: seq<Value>): Option<Loaded> {
    if raws == [] then Some(Loaded({}, map[]))
    else
      match LoadKeys(lib, raws[..|raws| - 1])
      case None => None
      case Some(loaded) => LoadKey(lib, loaded, raws[|raws| - 1])
  }

  predicate PolicyUsable(policy: JwtPolicy) {
    policy.trustedAudiences != [] && policy.trustedIssuer != "" && policy.allowedAlgorithms != Some([])
  }

  /** The `keys` array of a JWKS document, if it is one and not empty. */
  function KeysArray(lib: Library, json: string): Option<seq<Value>> {
    match lib.parseJson(json)
    case None => None
    case Some(doc) =>
      match doc.Get("keys")
      case Some(Array(raws)) => if raws == [] then None else Some(raws)
      case _ => None
  }

  function Load(lib: Library, policy: JwtPolicy, json: string): Result<JwtVerifier, OAuthError> {
    var raws := KeysArray(lib, json);
    if !PolicyUsable(policy) || raws.None? then Err(ConfigError)
    else
      var loaded := LoadKeys(lib, raws.value);
      if loaded.None? || loaded.value.keys == map[] then Err(ConfigError)
      else Ok(JwtVerifier(policy, loaded.value.keys))
  }

  lemma LoadKeepsPolicy(lib: Library, policy: JwtPolicy, json: string)
    ensures Load(lib, policy, json).Ok? ==> Load(lib, policy, json).value.policy == policy
  {
    hide LoadKeys, KeysArray;
  }

  lemma {:induction false} LoadKeysStops(lib: Library, raws: seq<Value>, n: nat)
    requires n <= |raws| && LoadKeys(lib, raws[..n]).None?
    ensures LoadKeys(lib, raws).None?
  {
    if n < |raws| {
      assert raws[..|raws| - 1][..n] == raws[..n];
      LoadKeysStops(lib, raws[..|raws| - 1], n);
    } else {
      assert raws[..n] == raws;
    }
  }

  method FromJwksJson(lib: Library, policy: JwtPolicy, json: string) returns (r: Result<JwtVerifier, OAuthError>)
    ensures r == Load(lib, policy, json)
  {
    if policy.trustedAudiences == [] || policy.trustedIssuer == "" || policy.allowedAlgorithms == Some([]) {
      return Err(ConfigError);
    }
    var doc := lib.parseJson(json);
    if doc.None? {
      return Err(ConfigError);
    }
    var entry := doc.value.Get("keys");
    if entry.None? || !entry.value.Array? || entry.value.items == [] {
      return Err(ConfigError);
    }
    var raws := entry.value.items;

    var seenKids: set<string> := {};
    var keys: map<string, SigningKey> := map[];
    for i := 0 to |raws|
      invariant LoadKeys(lib, raws[..i]) == Some(Loaded(seenKids, keys))
    {
      var raw := raws[i];
      assert raws[..i + 1][..i] == raws[..i];
      if LoadKeys(lib, raws[..i + 1]).None? {
        LoadKeysStops(lib, raws, i + 1);
      }
      if !raw.Object? {
        return Err(ConfigError);
      }
      var kid := raw.GetStr("kid");
      if kid.None? {
        continue;
      }
      if kid.value in seenKids {
        return Err(ConfigError);
      }
      seenKids := seenKids + {kid.value};
      var meta := MetaOf(raw);
      if meta.use.Some? && meta.use.value != "sig" {
        continue;
      }
      if meta.keyOps != [] && "verify" !in meta.keyOps {
        continue;
      }
      if meta.alg.Some? && ParseAlgorithmName(meta.alg.value).None? {
        continue;
      }
      var key := lib.decodingKey(WithoutMetadata(raw));
      if key.None? {
        continue;
      }
      keys := keys[kid.value := SigningKey(key.value, meta)];
    }
    assert raws[..|raws|] == raws;
    if keys == map[] {
      return Err(ConfigError);
    }
    return Ok(JwtVerifier(policy, keys));
  }

  // ---------- verification ----------

  function Count(bytes: seq<Byte>, b: Byte): nat {
    if bytes == [] then 0 else (if bytes[0] == b then 1 else 0) + Count(bytes[1..], b)
  }

  /** At least 16 bytes and exactly two dots. */
  predicate TokenShape(token: string) {
    |Encode(token)| >= MIN_JWT_LEN && Count(Encode(token), 0x2E) == 2
  }

  predicate AlgorithmAllowed(policy: JwtPolicy, alg: Algorithm) {
    var allowed := match policy.allowedAlgorithms case None => LEGACY_ALLOWED_ALGORITHMS case Some(algs) => algs;
    alg in allowed && alg !in policy.disallowedAlgorithms
  }

  function CheckJwkMetadata(meta: JwkMeta, alg: Algorithm): Result<(), OAuthError> {
    if meta.use.Some? && meta.use.value != "sig" then Err(InvalidSignature)
    else if meta.keyOps != [] && "verify" !in meta.keyOps then Err(InvalidSignature)
    else if meta.alg.Some? && ParseAlgorithmName(meta.alg.value) != Some(alg) then Err(InvalidSignature)
    else if !AlgorithmMatchesKeyType(alg, meta.kty, meta.crv) then Err(InvalidSignature)
    else Ok(())
  }

  function CheckIssuer(policy: JwtPolicy, claims: Value): Result<(), OAuthError> {
    var found := claims.GetStr("iss");
    if found == Some(policy.trustedIssuer) then Ok(()) else Err(InvalidIssuer(found))
  }

  function CheckAudience(policy: JwtPolicy, claims: Value): Result<(), OAuthError> {
    var valid :=
      match claims.Get("aud")
      case Some(String(aud)) => aud in policy.trustedAudiences
      case Some(Array(items)) => exists aud | aud in Strings(items) :: aud in policy.trustedAudiences
      case _ => false;
    if valid then Ok(()) else Err(InvalidAudience)
  }

  function CheckAuthorizedParty(policy: JwtPolicy, claims: Value): Result<(), OAuthError> {
    if policy.trustedAuthorizedParties == [] then Ok(())
    else
      match claims.GetStr("azp")
      case None => Err(InvalidAuthorizedParty(None))
      case Some(azp) =>
        if azp in policy.trustedAuthorizedParties then Ok(()) else Err(InvalidAuthorizedParty(Some(azp)))
  }

  function NumericDate(value: Option<Value>): Result<Option<I64>, OAuthError> {
    match value
    case None => Ok(None)
    case Some(Integer(n)) => if n <= I64_MAX then Ok(Some(n)) else Err(ClaimExpired)
    case Some(Float(Some(date))) => Ok(Some(date))
    case Some(_) => Err(ClaimExpired)
  }

  function SaturatingAdd(a: I64, b: I64): I64 {
    if a + b > I64_MAX then I64_MAX else if a + b < I64_MIN then I64_MIN else a + b
  }

  function SaturatingSub(a: I64, b: I64): I64 {
    if a - b > I64_MAX then I64_MAX else if a - b < I64_MIN then I64_MIN else a - b
  }

  function Grace(policy: JwtPolicy): I64 {
    if policy.grace > 0 then policy.grace else 0
  }

  /** Seconds since the epoch; None when the clock is before it. */
  type Clock = now: Option<I64> | now.Some? ==> now.value >= 0 witness None

  function CheckValidityDates(policy: JwtPolicy, claims: Value, clock: Clock): Result<(), OAuthError> {
    if clock.None? then Err(ConfigError)
    else
      var now := clock.value;
      var grace := Grace(policy);
      match NumericDate(claims.Get("exp"))
      case Err(_) => Err(MissingExpiration)
      case Ok(None) => Err(MissingExpiration)
      case Ok(Some(exp)) =>
        var nbf :- NumericDate(claims.Get("nbf"));
        var iat :- NumericDate(claims.Get("iat"));
        var nbfInFuture := nbf.Some? && nbf.value > SaturatingAdd(now, grace);
        var iatInFuture := iat.Some? && iat.value > SaturatingAdd(now, grace);
        if exp < SaturatingSub(now, grace) || nbfInFuture || iatInFuture then Err(ClaimExpired) else Ok(())
  }

  function ScopeWords(claims: Value): seq<string> {
    Words(match claims.GetStr("scope") case Some(s) => s case None => "", IsAsciiWhitespace)
  }

  function CheckScopes(required: seq<string>, claims: Value): Result<(), OAuthError> {
    if required == [] then Ok(())
    else if required[0] !in ScopeWords(claims) then Err(MissingScope(required[0]))
    else CheckScopes(required[1..], claims)
  }

  function ExtractUid(policy: JwtPolicy, claims: Value): Result<string, OAuthError> {
    match claims.GetStr(policy.uidAttr)
    case None => Err(MissingUidClaim(policy.uidAttr))
    case Some(uid) =>
      if uid == "" then Err(MissingUidClaim(policy.uidAttr))
      else if Trim(uid) != uid || exists c | c in uid :: IsControl(c) then Err(InvalidUidClaim(policy.uidAttr))
      else Ok(uid)
  }

  function CheckUsername(policy: JwtPolicy, username: string): Result<(), OAuthError> {
    if exists d | d in policy.disallowedUsernames :: SameIgnoringAsciiCase(d, username)
    then Err(DisallowedUsername(username))
    else Ok(())
  }

  function CheckClaims(policy: JwtPolicy, claims: Value, clock: Clock): Result<string, OAuthError> {
    var _ :- CheckIssuer(policy, claims);
    var _ :- CheckAudience(policy, claims);
    var _ :- CheckAuthorizedParty(policy, claims);
    var _ :- CheckValidityDates(policy, claims, clock);
    var _ :- CheckScopes(policy.requiredScopes, claims);
    var uid :- ExtractUid(policy, claims);
    var _ :- CheckUsername(policy, uid);
    Ok(uid)
  }

  function Verify(lib: Library, verifier: JwtVerifier, token: string, clock: Clock): Result<string, OAuthError> {
    if !TokenShape(token) then Err(ParseError)
    else
      match lib.decodeHeader(token)
      case None => Err(ParseError)
      case Some(header) =>
        if !AlgorithmAllowed(verifier.policy, header.alg) then Err(InvalidSignature)
        else if header.kid.None? then Err(UnknownSigningKey(None))
        else if header.kid.value !in verifier.keys then Err(UnknownSigningKey(header.kid))
        else
          var signingKey := verifier.keys[header.kid.value];
          var _ :- CheckJwkMetadata(signingKey.meta, header.alg);
          match lib.decode(token, signingKey.key, header.alg)
          case Err(e) => Err(if e in {BadJson, BadBase64, MalformedToken} then ParseError else InvalidSignature)
          case Ok(claims) => CheckClaims(verifier.policy, claims, clock)
  }
}
