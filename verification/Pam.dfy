/** The two front ends of the PAM module: inline arguments and a Cyrus SASL-style file. */
module Pam {
  import opened Prelude
  import opened Text
  import opened Jwt
  import opened Options

  datatype PamArgs = PamArgs(
    userid: string,
    grace: I64,
    iss: Option<string>,
    jwks: Option<string>,
    trustedAud: seq<string>,
    trustedAzp: seq<string>,
    requiredScope: seq<string>,
    onlyFrom: seq<seq<string>>,
    disallowedUsernames: seq<string>,
    allowedAlgorithms: Option<seq<Algorithm>>,
    disallowedAlgorithms: seq<Algorithm>)

  const DEFAULT_ARGS := PamArgs(DEFAULT_UID_ATTR, 3, None, None, [], [], [], [], [], None, [])

  // ---------- text helpers ----------

  /** Index of the first occurrence, or the length. */
  function IndexOf(s: string, c: char): (n: nat)
    ensures n <= |s| && c !in s[..n]
    ensures n < |s| ==> s[n] == c
  {
    if s == "" || s[0] == c then 0
    else
      assert s[..1 + IndexOf(s[1..], c)] == [s[0]] + s[1..][..IndexOf(s[1..], c)];
      1 + IndexOf(s[1..], c)
  }

  /** `str::split_once` */
  function SplitOnce(s: string, c: char): Option<(string, string)> {
    var n := IndexOf(s, c);
    if n == |s| then None else Some((s[..n], s[n + 1..]))
  }

  function StripCarriageReturn(s: string): string {
    if s != "" && s[|s| - 1] == '\r' then s[..|s| - 1] else s
  }

  /** `str::lines` */
  function Lines(s: string): seq<string>
    decreases |s|
  {
    if s == "" then []
    else
      var n := IndexOf(s, '\n');
      if n == |s| then [s] else [StripCarriageReturn(s[..n])] + Lines(s[n + 1..])
  }

  // ---------- inline arguments ----------

  const CONFIG_PREFIX := "config="

  predicate HasPrefix(s: string, prefix: string) {
    |prefix| <= |s| && s[..|prefix|] == prefix
  }

  function ConfigPaths(raw: seq<string>): (paths: seq<string>)
    ensures |paths| <= |raw|
  {
    if raw == [] then []
    else (if HasPrefix(raw[0], CONFIG_PREFIX) then [raw[0][|CONFIG_PREFIX|..]] else []) + ConfigPaths(raw[1..])
  }

  /** The file to read instead of inline arguments; it must be the only argument. */
  function ConfigPath(raw: seq<string>): Result<Option<string>, OptionError> {
    var paths := ConfigPaths(raw);
    if |paths| > 1 then Err(MultipleConfigs)
    else if paths != [] && exists arg | arg in raw :: !HasPrefix(arg, CONFIG_PREFIX) then Err(ConfigWithInline)
    else Ok(if paths == [] then None else Some(paths[0]))
  }

  /** Why an option is refused. */
  function Problem(args: PamArgs, key: string, value: string): Option<OptionError> {
    match key
    case "grace" => if ParseI64(value).None? then Some(InvalidGrace) else None
    case "iss" => if args.iss.Some? then Some(MultipleValues("iss")) else None
    case "jwks" => if args.jwks.Some? then Some(MultipleValues("jwks")) else None
    case "allowed_alg" => if ParseAlgorithmName(value).None? then Some(InvalidAlgorithm("allowed_alg")) else None
    case "disallowed_alg" => if ParseAlgorithmName(value).None? then Some(InvalidAlgorithm("disallowed_alg")) else None
    case _ => None
  }

  function IsComma(): char -> bool {
    c => c == ','
  }

  /** The arguments after an option, refused or not: a repeated iss or jwks has replaced the first one. */
  function After(args: PamArgs, key: string, value: string): PamArgs {
    match key
    case "userid" => args.(userid := value)
    case "grace" => (match ParseI64(value) case None => args case Some(n) => args.(grace := n))
    case "iss" => args.(iss := Some(value))
    case "jwks" => args.(jwks := Some(value))
    case "trusted_aud" => args.(trustedAud := args.trustedAud + [value])
    case "trusted_azp" => args.(trustedAzp := args.trustedAzp + [value])
    case "required_scope" => args.(requiredScope := args.requiredScope + [value])
    case "only_from" => args.(onlyFrom := args.onlyFrom + [Words(value, IsComma())])
    case "disallowed_username" => args.(disallowedUsernames := args.disallowedUsernames + [value])
    case "allowed_alg" =>
      (match ParseAlgorithmName(value)
       case None => args
       case Some(alg) =>
         var values := match args.allowedAlgorithms case None => [] case Some(algs) => algs;
         args.(allowedAlgorithms := Some(AddDistinct(values, alg))))
    case "disallowed_alg" =>
      (match ParseAlgorithmName(value)
       case None => args
       case Some(alg) => args.(disallowedAlgorithms := AddDistinct(args.disallowedAlgorithms, alg)))
    case _ => args
  }

  /** The arguments while they are being read. */
  class MutableArgs {
    var userid: string
    var grace: I64
    var iss: Option<string>
    var jwks: Option<string>
    var trustedAud: seq<string>
    var trustedAzp: seq<string>
    var requiredScope: seq<string>
    var onlyFrom: seq<seq<string>>
    var disallowedUsernames: seq<string>
    var allowedAlgorithms: Option<seq<Algorithm>>
    var disallowedAlgorithms: seq<Algorithm>

    function Value(): PamArgs
      reads this
    {
      PamArgs(userid, grace, iss, jwks, trustedAud, trustedAzp, requiredScope, onlyFrom,
              disallowedUsernames, allowedAlgorithms, disallowedAlgorithms)
    }

    constructor ()
      ensures Value() == DEFAULT_ARGS
    {
      userid, grace, iss, jwks := DEFAULT_UID_ATTR, 3, None, None;
      trustedAud, trustedAzp, requiredScope, onlyFrom := [], [], [], [];
      disallowedUsernames, allowedAlgorithms, disallowedAlgorithms := [], None, [];
    }

    method ApplyOption(key: string, value: string) returns (problem: Option<OptionError>)
      modifies this
      ensures problem == Problem(old(Value()), key, value)
      ensures Value() == After(old(Value()), key, value)
    {
      problem := None;
      match key
      case "userid" => userid := value;
      case "grace" =>
        var n := ParseI64(value);
        if n.None? {
          return Some(InvalidGrace);
        }
        grace := n.value;
      case "iss" =>
        var previous := iss;
        iss := Some(value);
        if previous.Some? {
          return Some(MultipleValues("iss"));
        }
      case "jwks" =>
        var previous := jwks;
        jwks := Some(value);
        if previous.Some? {
          return Some(MultipleValues("jwks"));
        }
      case "trusted_aud" => trustedAud := trustedAud + [value];
      case "trusted_azp" => trustedAzp := trustedAzp + [value];
      case "required_scope" => requiredScope := requiredScope + [value];
      case "only_from" => onlyFrom := onlyFrom + [Words(value, IsComma())];
      case "disallowed_username" => disallowedUsernames := disallowedUsernames + [value];
      case "allowed_alg" =>
        var alg := ParseAlgorithmName(value);
        if alg.None? {
          return Some(InvalidAlgorithm("allowed_alg"));
        }
        var values := if allowedAlgorithms.None? then [] else allowedAlgorithms.value;
        if alg.value !in values {
          values := values + [alg.value];
        }
        allowedAlgorithms := Some(values);
      case "disallowed_alg" =>
        var alg := ParseAlgorithmName(value);
        if alg.None? {
          return Some(InvalidAlgorithm("disallowed_alg"));
        }
        if alg.value !in disallowedAlgorithms {
          disallowedAlgorithms := disallowedAlgorithms + [alg.value];
        }
      case _ =>
    }
  }

  function InlineFrom(args: PamArgs, raw: seq<string>): Result<PamArgs, OptionError>
    decreases |raw|
  {
    if raw == [] then Ok(args)
    else
      match SplitOnce(raw[0], '=')
      case None => InlineFrom(args, raw[1..])
      case Some((key, value)) =>
        match Problem(args, key, value)
        case Some(e) => Err(e)
        case None => InlineFrom(After(args, key, value), raw[1..])
  }

  function Inline(raw: seq<string>): Result<PamArgs, OptionError> {
    InlineFrom(DEFAULT_ARGS, raw)
  }

  method ParseInlineArgs(raw: seq<string>) returns (r: Result<PamArgs, OptionError>)
    ensures r == Inline(raw)
  {
    var args := new MutableArgs();
    for i := 0 to |raw|
      invariant InlineFrom(args.Value(), raw[i..]) == Inline(raw)
    {
      assert raw[i..][1..] == raw[i + 1..];
      match SplitOnce(raw[i], '=')
      case None =>
      case Some((key, value)) =>
        var problem := args.ApplyOption(key, value);
        if problem.Some? {
          return Err(problem.value);
        }
    }
    r := Ok(args.Value());
  }

  // ---------- configuration file ----------

  predicate IsKeyChar(c: char) {
    'a' <= c <= 'z' || 'A' <= c <= 'Z' || IsDigit(c) || c == '-' || c == '_'
  }

  datatype Line = Skipped | Invalid | KeyValue(key: string, value: string)

  /** A line is empty, or a comment as a whole, or an entry: a key in any case, and a value that is trimmed. */
  function ReadLine(raw: string): Line {
    var line := TrimStart(raw);
    if line == "" || line[0] == '#' then Skipped
    else
      match SplitOnce(line, ':')
      case None => Invalid
      case Some((key, rest)) =>
        var value := Trim(rest);
        if value == "" || exists c | c in key :: !IsKeyChar(c) then Invalid
        else KeyValue(AsciiLowercase(key), value)
  }

  function EntriesOf(lines: seq<string>): Result<seq<Entry>, OptionError> {
    if lines == [] then Ok([])
    else
      var front :- EntriesOf(lines[..|lines| - 1]);
      match ReadLine(lines[|lines| - 1])
      case Skipped => Ok(front)
      case Invalid => Err(InvalidLine(|lines|))
      case KeyValue(key, value) => Ok(front + [(key, value)])
  }

  lemma {:induction false} EntriesOfStops(lines: seq<string>, n: nat)
    requires n <= |lines| && EntriesOf(lines[..n]).Err?
    ensures EntriesOf(lines) == EntriesOf(lines[..n])
  {
    if n < |lines| {
      assert lines[..|lines| - 1][..n] == lines[..n];
      EntriesOfStops(lines[..|lines| - 1], n);
    } else {
      assert lines[..n] == lines;
    }
  }

  function ArgsOf(options: PolicyOptions): PamArgs {
    PamArgs(options.uidAttr, options.grace, options.trustedIssuer, options.jwksPath, options.trustedAudiences,
            options.trustedAuthorizedParties, options.requiredScopes, [], options.disallowedUsernames,
            options.allowedAlgorithms, options.disallowedAlgorithms)
  }

  function Interpret(entries: seq<Entry>): Result<PamArgs, OptionError> {
    var options :- ReadOptions(Source(true, entries));
    Ok(ArgsOf(options))
  }

  function Config(contents: string): Result<PamArgs, OptionError> {
    var entries :- EntriesOf(Lines(contents));
    Interpret(entries)
  }

  method ReadEntries(lines: seq<string>) returns (r: Result<seq<Entry>, OptionError>)
    ensures r == EntriesOf(lines)
  {
    var entries: seq<Entry> := [];
    for lineNumber := 0 to |lines|
      invariant EntriesOf(lines[..lineNumber]) == Ok(entries)
    {
      assert lines[..lineNumber + 1][..lineNumber] == lines[..lineNumber];
      match ReadLine(lines[lineNumber])
      case Skipped =>
      case Invalid =>
        EntriesOfStops(lines, lineNumber + 1);
        return Err(InvalidLine(lineNumber + 1));
      case KeyValue(key, value) => entries := entries + [(key, value)];
    }
    assert lines[..|lines|] == lines;
    return Ok(entries);
  }

  /** `Config::policy` of the cache: the verifier policy of these arguments. */
  function PolicyOf(args: PamArgs, trustedIssuer: string): JwtPolicy {
    JwtPolicy(args.userid, args.grace, trustedIssuer, args.trustedAud, args.trustedAzp, args.requiredScope,
              args.disallowedUsernames, args.allowedAlgorithms, args.disallowedAlgorithms)
  }
}
