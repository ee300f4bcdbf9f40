/**
 The words the theorems use, each spelled out in literals and fields, apart
 from the functions of the model that decide the same things.
 */
module Plain {
  import opened Prelude
  import opened Text
  import opened Jwt
  import opened Pam

  // ---------- characters ----------

  /** ASCII white space: tab, line feed, form feed, carriage return, space. */
  predicate Blank(c: char) {
    c as int in {0x09, 0x0A, 0x0C, 0x0D, 0x20}
  }

  /** The Unicode property White_Space. */
  predicate White(c: char) {
    || c as int in {0x09, 0x0A, 0x0B, 0x0C, 0x0D, 0x20, 0x85, 0xA0, 0x1680, 0x2028, 0x2029, 0x202F, 0x205F, 0x3000}
    || 0x2000 <= c as int < 0x200B
  }

  /** C0 and C1 control characters, and delete. */
  predicate Control(c: char) {
    (c as int) < 0x20 || c as int == 0x7F || 0x80 <= c as int < 0xA0
  }

  predicate KeyLetter(c: char) {
    'a' <= c <= 'z' || 'A' <= c <= 'Z' || '0' <= c <= '9' || c == '-' || c == '_'
  }

  /** The same character, or the two cases of one ASCII letter. */
  predicate SameLetter(a: char, b: char) {
    || a == b
    || ('A' <= a <= 'Z' && b as int == a as int + 32)
    || ('A' <= b <= 'Z' && a as int == b as int + 32)
  }

  predicate SameName(a: string, b: string) {
    |a| == |b| && forall i | 0 <= i < |a| :: SameLetter(a[i], b[i])
  }

  lemma BlankIs(c: char)
    ensures Blank(c) == IsAsciiWhitespace(c)
  {
  }

  lemma WhiteIs(c: char)
    ensures White(c) == IsWhitespace(c) && Control(c) == IsControl(c)
  {
  }

  lemma SameNameIs(a: string, b: string)
    ensures SameName(a, b) == SameIgnoringAsciiCase(a, b)
  {
    var x, y := AsciiLowercase(a), AsciiLowercase(b);
    if |a| == |b| {
      assert forall i | 0 <= i < |a| :: (x[i] == y[i]) == SameLetter(a[i], b[i]);
    } else {
      assert |x| != |y|;
    }
  }

  // ---------- JSON values ----------

  /** An object with this value under this key. */
  predicate Has(v: Value, key: string, w: Value) {
    v.Object? && key in v.fields && v.fields[key] == w
  }

  predicate Lacks(v: Value, key: string) {
    v.Object? ==> key !in v.fields
  }

  /** No string under this key. */
  predicate LacksString(v: Value, key: string) {
    v.Object? && key in v.fields ==> !v.fields[key].String?
  }

  /** The value is a number that is, or rounds to, the 64-bit integer d. */
  predicate IsDate(v: Value, d: int) {
    -0x8000_0000_0000_0000 <= d <= 0x7fff_ffff_ffff_ffff
    && ((v.Integer? && v.n == d) || (v.Float? && v.date.Some? && v.date.value == d))
  }

  predicate HasDate(v: Value, key: string, d: int) {
    v.Object? && key in v.fields && IsDate(v.fields[key], d)
  }

  lemma GetStrIs(v: Value, key: string)
    ensures match v.GetStr(key) case Some(s) => Has(v, key, String(s)) case None => LacksString(v, key)
    ensures forall s :: Has(v, key, String(s)) ==> v.GetStr(key) == Some(s)
  {
  }

  lemma DateIs(v: Value, key: string)
    ensures match NumericDate(v.Get(key))
            case Ok(None) => Lacks(v, key)
            case Ok(Some(d)) => HasDate(v, key, d) && !Lacks(v, key)
            case Err(_) => !Lacks(v, key) && forall d :: !HasDate(v, key, d)
    ensures forall d | HasDate(v, key, d) :: NumericDate(v.Get(key)).Ok? && NumericDate(v.Get(key)).value == Some(d)
  {
  }

  // ---------- tokens and keys ----------

  /** The names of section 3.1 of RFC 7518 and section 3.1 of RFC 8037. */
  predicate NamesAlgorithm(name: string, alg: Algorithm) {
    || (name == "HS256" && alg == HS256) || (name == "HS384" && alg == HS384) || (name == "HS512" && alg == HS512)
    || (name == "ES256" && alg == ES256) || (name == "ES384" && alg == ES384)
    || (name == "RS256" && alg == RS256) || (name == "RS384" && alg == RS384) || (name == "RS512" && alg == RS512)
    || (name == "PS256" && alg == PS256) || (name == "PS384" && alg == PS384) || (name == "PS512" && alg == PS512)
    || (name == "EdDSA" && alg == EdDSA)
  }

  lemma NamesAlgorithmIs(name: string, alg: Algorithm)
    ensures NamesAlgorithm(name, alg) <==> ParseAlgorithmName(name) == Some(alg)
    ensures NamesAlgorithm(name, alg) <==> name == AlgorithmName(alg)
  {
  }

  /** Three parts separated by two dots. */
  ghost predicate Dotted(token: string) {
    exists a, b, c :: '.' !in a && '.' !in b && '.' !in c && token == a + "." + b + "." + c
  }

  /** Which keys sign with which algorithm. */
  predicate KeyFits(alg: Algorithm, kty: string, crv: Option<string>) {
    || (alg in {HS256, HS384, HS512} && kty == "oct")
    || (alg in {RS256, RS384, RS512, PS256, PS384, PS512} && kty == "RSA")
    || (alg == ES256 && kty == "EC" && (crv == None || crv == Some("P-256")))
    || (alg == ES384 && kty == "EC" && (crv == None || crv == Some("P-384")))
    || (alg == EdDSA && kty == "OKP" && (crv == None || crv == Some("Ed25519")))
  }

  lemma KeyFitsIs(alg: Algorithm, kty: string, crv: Option<string>)
    ensures KeyFits(alg, kty, crv) == AlgorithmMatchesKeyType(alg, kty, crv)
  {
  }

  // ---------- arguments ----------

  /** No argument selects a configuration file. */
  predicate NamesNoFile(raw: seq<string>) {
    forall arg | arg in raw :: !("config=" <= arg)
  }

  /** The policy is what these arguments say, component by component. */
  predicate HasPolicyOf(args: PamArgs, policy: JwtPolicy) {
    && policy.uidAttr == args.userid
    && policy.grace == args.grace
    && Some(policy.trustedIssuer) == args.iss
    && policy.trustedAudiences == args.trustedAud
    && policy.trustedAuthorizedParties == args.trustedAzp
    && policy.requiredScopes == args.requiredScope
    && policy.disallowedUsernames == args.disallowedUsernames
    && policy.allowedAlgorithms == args.allowedAlgorithms
    && policy.disallowedAlgorithms == args.disallowedAlgorithms
  }
}
