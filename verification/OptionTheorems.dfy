/** What the arguments of the module mean: which select a file, and what inline options say. */
module OptionTheorems {
  import opened Prelude
  import opened Text
  import opened Jwt
  import opened Options
  import opened Pam
  import opened Plain

  // ---------- the file to read ----------

  lemma {:induction false} PathsAre(raw: seq<string>)
    ensures ConfigPaths(raw) == [] <==> NamesNoFile(raw)
    ensures |ConfigPaths(raw)| == |raw| <==> forall arg | arg in raw :: "config=" <= arg
  {
    if raw == [] {
    } else {
      var rest := raw[1..];
      PathsAre(rest);
      assert raw == [raw[0]] + rest;
      assert raw[0] in raw && forall arg :: arg in raw <==> arg == raw[0] || arg in rest;
      assert HasPrefix(raw[0], CONFIG_PREFIX) <==> "config=" <= raw[0];
      assert |ConfigPaths(raw)| == (if "config=" <= raw[0] then 1 else 0) + |ConfigPaths(rest)|;
    }
  }

  /** A file is read exactly if its path is the only argument, and none if no argument names one. */
  lemma ConfigPathExactly(raw: seq<string>)
    ensures forall path :: ConfigPath(raw) == Ok(Some(path)) <==> raw == ["config=" + path]
    ensures ConfigPath(raw) == Ok(None) <==> NamesNoFile(raw)
  {
    PathsAre(raw);
    assert forall arg | arg in raw :: HasPrefix(arg, CONFIG_PREFIX) <==> "config=" <= arg;
    if |raw| == 1 {
      assert raw[1..] == [];
      assert "config=" <= raw[0] ==> raw[0] == "config=" + raw[0][7..];
      forall path | raw == ["config=" + path] ensures ConfigPath(raw) == Ok(Some(path)) {
        assert raw[0] in raw;
        assert raw[0][7..] == path;
      }
    }
  }

  // ---------- numbers ----------

  /** An optional sign, zeros, and the decimal form of the number, within 64 bits. */
  ghost predicate IsNumber(text: string, n: int) {
    && -0x8000_0000_0000_0000 <= n <= 0x7fff_ffff_ffff_ffff
    && exists zeros: string :: (forall c | c in zeros :: c == '0') && Spelled(text, zeros, n)
  }

  predicate Spelled(text: string, zeros: string, n: int) {
    || (n >= 0 && (text == zeros + Decimal(n) || text == "+" + zeros + Decimal(n)))
    || (n <= 0 && text == "-" + zeros + Decimal(-n))
  }

  lemma DecimalIs(n: nat)
    ensures Decimal(n) == if n < 10 then ["0123456789"[n]] else Decimal(n / 10) + ["0123456789"[n % 10]]
  {
    assert forall d: nat | d < 10 :: Digit(d) == "0123456789"[d];
  }

  lemma {:induction false} ZerosAreNothing(zeros: string)
    requires forall c | c in zeros :: c == '0'
    ensures DigitsValue(zeros) == 0
  {
    if zeros == "" {
    } else {
      var front := zeros[..|zeros| - 1];
      assert forall c | c in front :: c in zeros;
      ZerosAreNothing(front);
      assert zeros[|zeros| - 1] in zeros;
    }
  }

  lemma {:induction false} PaddedValue(zeros: string, n: nat)
    requires forall c | c in zeros :: c == '0'
    ensures (forall c | c in zeros + Decimal(n) :: IsDigit(c)) && DigitsValue(zeros + Decimal(n)) == n
    decreases n
  {
    var s := zeros + Decimal(n);
    forall c | c in s ensures IsDigit(c) {
      assert c in zeros || c in Decimal(n);
    }
    if n < 10 {
      ZerosAreNothing(zeros);
      assert s[..|s| - 1] == zeros;
    } else {
      PaddedValue(zeros, n / 10);
      assert s[..|s| - 1] == zeros + Decimal(n / 10);
    }
  }

  lemma {:induction false} DigitsPadded(s: string) returns (zeros: string)
    requires s != "" && forall c | c in s :: IsDigit(c)
    ensures (forall c | c in zeros :: c == '0') && s == zeros + Decimal(DigitsValue(s))
  {
    var front, d := s[..|s| - 1], s[|s| - 1];
    assert s == front + [d] && IsDigit(d);
    var digit: nat := d as int - 0x30;
    assert Decimal(digit) == [d];
    if front == "" {
      zeros := "";
    } else {
      zeros := DigitsPadded(front);
      var v := DigitsValue(front);
      if v == 0 {
        zeros := front;
      } else {
        assert (10 * v + digit) / 10 == v && (10 * v + digit) % 10 == digit;
        assert zeros + (Decimal(v) + [d]) == zeros + Decimal(v) + [d];
      }
    }
  }

  lemma PlusSign(digits: string)
    requires digits != "" && forall c | c in digits :: IsDigit(c)
    ensures ParseI64("+" + digits) == ParseI64(digits)
  {
    assert ("+" + digits)[1..] == digits;
    assert IsDigit(digits[0]);
  }

  lemma NumberParses(text: string, n: int)
    requires IsNumber(text, n)
    ensures ParseI64(text) == Some(n)
  {
    hide ParseI64;
    var zeros: string :| (forall c | c in zeros :: c == '0') && Spelled(text, zeros, n);
    var m: nat := if n < 0 then -n else n;
    PaddedValue(zeros, m);
    SignFirst(text, zeros, n);
    DigitsParse(zeros + Decimal(m), text, n);
  }

  lemma DigitsParse(digits: string, text: string, n: int)
    requires I64_MIN <= n <= I64_MAX
    requires digits != "" && forall c | c in digits :: IsDigit(c)
    requires DigitsValue(digits) == if n < 0 then -n else n
    requires if n < 0 then text == "-" + digits
             else text == digits || text == "+" + digits || (n == 0 && text == "-" + digits)
    ensures ParseI64(text) == Some(n)
  {
    hide ParseI64, DigitsValue, IsDigit;
    PlusSign(digits);
    ParseSigned(digits, false);
    ParseSigned(digits, true);
  }

  lemma SignFirst(text: string, zeros: string, n: int)
    requires Spelled(text, zeros, n)
    ensures var digits := zeros + Decimal(if n < 0 then -n else n);
            if n < 0 then text == "-" + digits
            else text == digits || text == "+" + digits || (n == 0 && text == "-" + digits)
  {
    var digits := zeros + Decimal(if n < 0 then -n else n);
    assert "+" + zeros + Decimal(if n < 0 then -n else n) == "+" + digits;
    assert "-" + zeros + Decimal(if n < 0 then -n else n) == "-" + digits;
  }

  lemma ParsedNumber(text: string)
    requires ParseI64(text).Some?
    ensures IsNumber(text, ParseI64(text).value)
  {
    hide Decimal, DigitsValue;
    var n: int := ParseI64(text).value;
    var digits := if text != "" && (text[0] == '-' || text[0] == '+') then text[1..] else text;
    var zeros := DigitsPadded(digits);
    if text[0] == '-' {
      assert text == "-" + (zeros + Decimal(-n)) && "-" + (zeros + Decimal(-n)) == "-" + zeros + Decimal(-n);
    } else if text[0] == '+' {
      assert text == "+" + (zeros + Decimal(n)) && "+" + (zeros + Decimal(n)) == "+" + zeros + Decimal(n);
    }
    assert Spelled(text, zeros, n);
  }

  /** A number is read from exactly the texts that spell it. */
  lemma NumbersExactly(text: string, n: I64)
    ensures ParseI64(text) == Some(n) <==> IsNumber(text, n)
    ensures ParseI64(text).None? <==> forall m :: !IsNumber(text, m)
  {
    hide IsNumber, ParseI64;
    if ParseI64(text).Some? {
      ParsedNumber(text);
    }
    forall m | IsNumber(text, m) ensures ParseI64(text) == Some(m) {
      NumberParses(text, m);
    }
  }

  // ---------- inline options ----------

  /** The values given for a key, in order. */
  function ValuesOf(raw: seq<string>, key: string): seq<string> {
    if raw == [] then []
    else (if key + "=" <= raw[0] then [raw[0][|key| + 1..]] else []) + ValuesOf(raw[1..], key)
  }

  function LastOr(values: seq<string>, default: string): string {
    if values == [] then default else values[|values| - 1]
  }

  predicate Comma(c: char) {
    c == ','
  }

  /** The pieces of text between separators, in order, without empty ones. */
  ghost predicate ArePieces(text: string, separator: char -> bool, pieces: seq<string>) {
    exists starts :: RunsInOrder(text, separator, pieces, starts)
  }

  lemma PiecesAre(text: string, separator: char -> bool, p: char -> bool)
    requires forall c :: separator(c) == p(c)
    ensures ArePieces(text, separator, Words(text, p))
  {
    hide Words;
    var starts := WordsAreRunsInOrder(text, p);
    SameRuns(text, separator, p, Words(text, p), starts);
  }

  lemma SameRuns(text: string, separator: char -> bool, p: char -> bool, words: seq<string>, starts: seq<nat>)
    requires (forall c :: separator(c) == p(c)) && RunsInOrder(text, p, words, starts)
    ensures RunsInOrder(text, separator, words, starts)
  {
    forall w, i: nat ensures IsWordAt(text, separator, w, i) <==> IsWordAt(text, p, w, i) {
    }
    hide IsWordAt;
  }

  /** Each list holds the pieces between commas, in order, without empty ones. */
  ghost predicate HostLists(values: seq<string>, lists: seq<seq<string>>) {
    |lists| == |values| && forall i | 0 <= i < |lists| :: ArePieces(values[i], Comma, lists[i])
  }

  /** The algorithms named, once each. */
  ghost predicate AlgorithmsNamed(names: seq<string>, algs: seq<Algorithm>) {
    && (forall i, j | 0 <= i < j < |algs| :: algs[i] != algs[j])
    && (forall alg :: alg in algs <==> exists name | name in names :: NamesAlgorithm(name, alg))
  }

  ghost predicate AllNamed(names: seq<string>) {
    forall name | name in names :: exists alg :: NamesAlgorithm(name, alg)
  }

  ghost predicate AllNumbers(values: seq<string>) {
    forall v | v in values :: exists n :: IsNumber(v, n)
  }

  /** What the options say: lists in order, the last of repeated single values, and the defaults. */
  ghost predicate SaysInline(raw: seq<string>, args: PamArgs) {
    && args.userid == LastOr(ValuesOf(raw, "userid"), "preferred_username")
    && IsNumber(LastOr(ValuesOf(raw, "grace"), "3"), args.grace)
    && ValuesOf(raw, "iss") == (if args.iss.Some? then [args.iss.value] else [])
    && ValuesOf(raw, "jwks") == (if args.jwks.Some? then [args.jwks.value] else [])
    && args.trustedAud == ValuesOf(raw, "trusted_aud")
    && args.trustedAzp == ValuesOf(raw, "trusted_azp")
    && args.requiredScope == ValuesOf(raw, "required_scope")
    && args.disallowedUsernames == ValuesOf(raw, "disallowed_username")
    && HostLists(ValuesOf(raw, "only_from"), args.onlyFrom)
    && (args.allowedAlgorithms.None? <==> ValuesOf(raw, "allowed_alg") == [])
    && (args.allowedAlgorithms.Some? ==> AlgorithmsNamed(ValuesOf(raw, "allowed_alg"), args.allowedAlgorithms.value))
    && AlgorithmsNamed(ValuesOf(raw, "disallowed_alg"), args.disallowedAlgorithms)
  }

  /** Every grace is a number, every algorithm has a name, and there is at most one issuer and one JWKS file. */
  ghost predicate InlineReadable(raw: seq<string>) {
    && AllNumbers(ValuesOf(raw, "grace"))
    && |ValuesOf(raw, "iss")| <= 1 && |ValuesOf(raw, "jwks")| <= 1
    && AllNamed(ValuesOf(raw, "allowed_alg")) && AllNamed(ValuesOf(raw, "disallowed_alg"))
  }

  /** How one argument is cut at its first '='. */
  lemma OptionIs(arg: string, key: string)
    requires '=' !in key
    ensures key + "=" <= arg <==> SplitOnce(arg, '=').Some? && SplitOnce(arg, '=').value.0 == key
    ensures key + "=" <= arg ==> SplitOnce(arg, '=').value.1 == arg[|key| + 1..]
  {
    var n := IndexOf(arg, '=');
    if key + "=" <= arg {
      assert arg[..|key| + 1] == key + "=";
      assert arg[|key|] == '=' && arg[..|key|] == key;
    }
    if n < |arg| && arg[..n] == key {
      assert arg[..n + 1] == key + "=";
    }
  }

  /** The options of one argument, and then of the rest. */
  lemma ValuesCons(raw: seq<string>, key: string)
    requires raw != [] && '=' !in key
    ensures ValuesOf(raw, key) ==
              (match SplitOnce(raw[0], '=')
               case None => []
               case Some((k, value)) => if k == key then [value] else []) + ValuesOf(raw[1..], key)
  {
    OptionIs(raw[0], key);
  }

  predicate IsListOption(key: string) {
    key == "trusted_aud" || key == "trusted_azp" || key == "required_scope" || key == "disallowed_username"
  }

  function ListField(args: PamArgs, key: string): seq<string>
    requires IsListOption(key)
  {
    if key == "trusted_aud" then args.trustedAud
    else if key == "trusted_azp" then args.trustedAzp
    else if key == "required_scope" then args.requiredScope
    else args.disallowedUsernames
  }

  lemma ListFieldAfter(args: PamArgs, k: string, value: string, key: string)
    requires IsListOption(key)
    ensures ListField(After(args, k, value), key) == ListField(args, key) + if k == key then [value] else []
  {
    hide Words, ParseI64, ParseAlgorithmName;
  }

  lemma {:induction false} ListsMean(args: PamArgs, raw: seq<string>, key: string)
    requires IsListOption(key) && InlineFrom(args, raw).Ok?
    ensures ListField(InlineFrom(args, raw).value, key) == ListField(args, key) + ValuesOf(raw, key)
    decreases |raw|
  {
    hide After, Problem, ListField, SplitOnce;
    if raw == [] {
    } else {
      ValuesCons(raw, key);
      match SplitOnce(raw[0], '=')
      case None => ListsMean(args, raw[1..], key);
      case Some((k, value)) =>
        ListFieldAfter(args, k, value, key);
        ListsMean(After(args, k, value), raw[1..], key);
        Associates(ListField(args, key), if k == key then [value] else [], ValuesOf(raw[1..], key));
    }
  }

  lemma Associates<T>(a: seq<T>, b: seq<T>, c: seq<T>)
    ensures a + (b + c) == a + b + c
  {
  }

  // ---------- the hosts ----------

  function Split(values: seq<string>): seq<seq<string>> {
    seq(|values|, i requires 0 <= i < |values| => Words(values[i], IsComma()))
  }

  lemma SplitConcat(a: seq<string>, b: seq<string>)
    ensures Split(a + b) == Split(a) + Split(b)
  {
    hide Words;
  }

  lemma HostsAfter(args: PamArgs, k: string, value: string)
    ensures After(args, k, value).onlyFrom == args.onlyFrom + Split(if k == "only_from" then [value] else [])
  {
    hide Words, ParseI64, ParseAlgorithmName;
  }

  lemma {:induction false} HostsMean(args: PamArgs, raw: seq<string>)
    requires InlineFrom(args, raw).Ok?
    ensures InlineFrom(args, raw).value.onlyFrom == args.onlyFrom + Split(ValuesOf(raw, "only_from"))
    decreases |raw|
  {
    hide After, Problem, SplitOnce;
    if raw == [] {
    } else {
      ValuesCons(raw, "only_from");
      hide ValuesOf;
      var rest := ValuesOf(raw[1..], "only_from");
      match SplitOnce(raw[0], '=')
      case None =>
        HostsMean(args, raw[1..]);
        assert [] + rest == rest;
      case Some((k, value)) =>
        var own := if k == "only_from" then [value] else [];
        HostsAfter(args, k, value);
        HostsMean(After(args, k, value), raw[1..]);
        SplitConcat(own, rest);
        hide Split;
        Associates(args.onlyFrom, Split(own), Split(rest));
    }
  }

  lemma HostListsAre(values: seq<string>)
    ensures HostLists(values, Split(values))
  {
    hide Words;
    forall i | 0 <= i < |values| ensures ArePieces(values[i], Comma, Split(values)[i]) {
      PiecesAre(values[i], Comma, IsComma());
    }
    hide ArePieces;
  }

  // ---------- single values ----------

  predicate IsSingle(key: string) {
    key == "userid" || key == "iss" || key == "jwks"
  }

  function SingleField(args: PamArgs, key: string): Option<string>
    requires IsSingle(key)
  {
    if key == "userid" then Some(args.userid) else if key == "iss" then args.iss else args.jwks
  }

  lemma SingleFieldAfter(args: PamArgs, k: string, value: string, key: string)
    requires IsSingle(key)
    ensures SingleField(After(args, k, value), key) == if k == key then Some(value) else SingleField(args, key)
  {
    hide Words, ParseI64, ParseAlgorithmName;
  }

  /** A single value becomes the last one given. */
  lemma {:induction false} SinglesMean(args: PamArgs, raw: seq<string>, key: string)
    requires IsSingle(key) && InlineFrom(args, raw).Ok?
    ensures var values := ValuesOf(raw, key);
            SingleField(InlineFrom(args, raw).value, key)
              == if values == [] then SingleField(args, key) else Some(LastOr(values, ""))
    decreases |raw|
  {
    hide After, Problem, SplitOnce, SingleField;
    if raw == [] {
    } else {
      ValuesCons(raw, key);
      match SplitOnce(raw[0], '=')
      case None => SinglesMean(args, raw[1..], key);
      case Some((k, value)) =>
        SingleFieldAfter(args, k, value, key);
        SinglesMean(After(args, k, value), raw[1..], key);
    }
  }

  lemma GraceAfter(args: PamArgs, k: string, value: string)
    requires Problem(args, k, value).None?
    ensures if k == "grace" then ParseI64(value) == Some(After(args, k, value).grace)
            else After(args, k, value).grace == args.grace
  {
    hide Words, ParseI64, ParseAlgorithmName;
  }

  lemma {:induction false} GraceMeans(args: PamArgs, raw: seq<string>)
    requires InlineFrom(args, raw).Ok?
    ensures var values, grace := ValuesOf(raw, "grace"), InlineFrom(args, raw).value.grace;
            if values == [] then grace == args.grace else ParseI64(LastOr(values, "")) == Some(grace)
    decreases |raw|
  {
    hide After, Problem, SplitOnce, ParseI64;
    if raw == [] {
    } else {
      ValuesCons(raw, "grace");
      match SplitOnce(raw[0], '=')
      case None => GraceMeans(args, raw[1..]);
      case Some((k, value)) =>
        GraceAfter(args, k, value);
        GraceMeans(After(args, k, value), raw[1..]);
    }
  }

  // ---------- algorithms ----------

  lemma AddedAlgorithm(algs: seq<Algorithm>, names: seq<string>, name: string)
    requires AlgorithmsNamed(names, algs) && ParseAlgorithmName(name).Some?
    ensures AlgorithmsNamed(names + [name], AddDistinct(algs, ParseAlgorithmName(name).value))
  {
    var more, alg := names + [name], ParseAlgorithmName(name).value;
    var after := AddDistinct(algs, alg);
    forall a ensures a in after <==> exists n | n in more :: NamesAlgorithm(n, a) {
      NamesAlgorithmIs(name, a);
      hide NamesAlgorithm;
      if a in algs {
        var n :| n in names && NamesAlgorithm(n, a);
        assert n in more;
      }
      if a == alg {
        assert name in more;
      }
    }
    hide NamesAlgorithm;
  }

  predicate IsAlgorithmOption(key: string) {
    key == "allowed_alg" || key == "disallowed_alg"
  }

  function AlgorithmField(args: PamArgs, key: string): seq<Algorithm>
    requires IsAlgorithmOption(key)
  {
    if key == "disallowed_alg" then args.disallowedAlgorithms
    else match args.allowedAlgorithms case None => [] case Some(algs) => algs
  }

  lemma AlgorithmFieldAfter(args: PamArgs, k: string, value: string, key: string)
    requires IsAlgorithmOption(key) && Problem(args, k, value).None?
    ensures k == key ==> ParseAlgorithmName(value).Some?
    ensures AlgorithmField(After(args, k, value), key) ==
              if k == key then AddDistinct(AlgorithmField(args, key), ParseAlgorithmName(value).value)
              else AlgorithmField(args, key)
    ensures After(args, k, value).allowedAlgorithms.None? <==> args.allowedAlgorithms.None? && k != "allowed_alg"
  {
    hide Words, ParseI64, ParseAlgorithmName, AddDistinct;
  }

  lemma {:induction false} AlgorithmsMean(args: PamArgs, raw: seq<string>, key: string, names: seq<string>)
    requires IsAlgorithmOption(key) && InlineFrom(args, raw).Ok? && AlgorithmsNamed(names, AlgorithmField(args, key))
    ensures AlgorithmsNamed(names + ValuesOf(raw, key), AlgorithmField(InlineFrom(args, raw).value, key))
    decreases |raw|
  {
    hide After, Problem, SplitOnce, AlgorithmField, AlgorithmsNamed, AddDistinct, ParseAlgorithmName;
    if raw == [] {
      assert names + [] == names;
    } else {
      ValuesCons(raw, key);
      var rest := ValuesOf(raw[1..], key);
      hide ValuesOf;
      match SplitOnce(raw[0], '=')
      case None =>
        assert [] + rest == rest;
        AlgorithmsMean(args, raw[1..], key, names);
      case Some((k, value)) =>
        AlgorithmFieldAfter(args, k, value, key);
        if k == key {
          AddedAlgorithm(AlgorithmField(args, key), names, value);
          AlgorithmsMean(After(args, k, value), raw[1..], key, names + [value]);
          Associates(names, [value], rest);
        } else {
          assert [] + rest == rest;
          AlgorithmsMean(After(args, k, value), raw[1..], key, names);
        }
    }
  }

  lemma {:induction false} NoneAllowed(args: PamArgs, raw: seq<string>)
    requires InlineFrom(args, raw).Ok?
    ensures InlineFrom(args, raw).value.allowedAlgorithms.None? <==>
              args.allowedAlgorithms.None? && ValuesOf(raw, "allowed_alg") == []
    decreases |raw|
  {
    hide After, Problem, SplitOnce, AlgorithmField, AddDistinct, ParseAlgorithmName;
    if raw == [] {
    } else {
      ValuesCons(raw, "allowed_alg");
      match SplitOnce(raw[0], '=')
      case None => NoneAllowed(args, raw[1..]);
      case Some((k, value)) =>
        AlgorithmFieldAfter(args, k, value, "allowed_alg");
        NoneAllowed(After(args, k, value), raw[1..]);
    }
  }

  // ---------- what is refused ----------

  function Room(slot: Option<string>): nat {
    if slot.None? then 1 else 0
  }

  predicate IsRefusable(key: string) {
    key == "grace" || key == "iss" || key == "jwks" || IsAlgorithmOption(key)
  }

  /** The values of one key can be read after others that left args. */
  predicate Fine(args: PamArgs, key: string, values: seq<string>)
    requires IsRefusable(key)
  {
    if key == "iss" then |values| <= Room(args.iss)
    else if key == "jwks" then |values| <= Room(args.jwks)
    else if key == "grace" then forall v | v in values :: ParseI64(v).Some?
    else forall v | v in values :: ParseAlgorithmName(v).Some?
  }

  predicate Acceptable(args: PamArgs, raw: seq<string>) {
    && Fine(args, "grace", ValuesOf(raw, "grace"))
    && Fine(args, "iss", ValuesOf(raw, "iss")) && Fine(args, "jwks", ValuesOf(raw, "jwks"))
    && Fine(args, "allowed_alg", ValuesOf(raw, "allowed_alg"))
    && Fine(args, "disallowed_alg", ValuesOf(raw, "disallowed_alg"))
  }

  predicate OneAcceptable(args: PamArgs, k: string, value: string) {
    IsRefusable(k) ==> Fine(args, k, [value])
  }

  lemma ProblemIs(args: PamArgs, k: string, value: string)
    ensures Problem(args, k, value).None? <==> OneAcceptable(args, k, value)
  {
    hide ParseI64, ParseAlgorithmName;
  }

  lemma FineCons(args: PamArgs, k: string, value: string, key: string, rest: seq<string>)
    requires IsRefusable(key)
    ensures Fine(args, key, (if k == key then [value] else []) + rest) <==>
              (k == key ==> Fine(args, key, [value])) && Fine(After(args, k, value), key, rest)
  {
    SingleFieldAfter(args, k, value, "iss");
    SingleFieldAfter(args, k, value, "jwks");
    hide ParseI64, ParseAlgorithmName, After;
  }

  lemma FineValues(args: PamArgs, raw: seq<string>, k: string, value: string, key: string)
    requires raw != [] && SplitOnce(raw[0], '=') == Some((k, value)) && IsRefusable(key)
    ensures Fine(args, key, ValuesOf(raw, key)) <==>
              (k == key ==> Fine(args, key, [value])) && Fine(After(args, k, value), key, ValuesOf(raw[1..], key))
  {
    ValuesCons(raw, key);
    hide Fine, After, SplitOnce, ValuesOf;
    FineCons(args, k, value, key, ValuesOf(raw[1..], key));
  }

  lemma AcceptableCons(args: PamArgs, raw: seq<string>, k: string, value: string)
    requires raw != [] && SplitOnce(raw[0], '=') == Some((k, value))
    ensures Acceptable(args, raw) <==> OneAcceptable(args, k, value) && Acceptable(After(args, k, value), raw[1..])
  {
    hide Fine, After, SplitOnce, ValuesOf;
    FineValues(args, raw, k, value, "grace");
    FineValues(args, raw, k, value, "iss");
    FineValues(args, raw, k, value, "jwks");
    FineValues(args, raw, k, value, "allowed_alg");
    FineValues(args, raw, k, value, "disallowed_alg");
  }

  lemma AcceptableRest(args: PamArgs, raw: seq<string>)
    requires raw != [] && SplitOnce(raw[0], '=').None?
    ensures Acceptable(args, raw) <==> Acceptable(args, raw[1..])
  {
    ValuesCons(raw, "grace");
    ValuesCons(raw, "iss");
    ValuesCons(raw, "jwks");
    ValuesCons(raw, "allowed_alg");
    ValuesCons(raw, "disallowed_alg");
    hide Fine, After, SplitOnce, ValuesOf;
    assert forall rest: seq<string> :: [] + rest == rest;
  }

  lemma NothingAcceptable(args: PamArgs)
    ensures Acceptable(args, [])
  {
  }

  lemma {:induction false} ReadableExactly(args: PamArgs, raw: seq<string>)
    ensures InlineFrom(args, raw).Ok? <==> Acceptable(args, raw)
    decreases |raw|
  {
    hide After, Problem, SplitOnce, Acceptable, OneAcceptable;
    if raw == [] {
      NothingAcceptable(args);
    } else {
      match SplitOnce(raw[0], '=')
      case None =>
        AcceptableRest(args, raw);
        ReadableExactly(args, raw[1..]);
      case Some((k, value)) =>
        ProblemIs(args, k, value);
        AcceptableCons(args, raw, k, value);
        ReadableExactly(After(args, k, value), raw[1..]);
    }
  }

  // ---------- what inline options mean ----------

  lemma AllNumbersAre(values: seq<string>)
    ensures AllNumbers(values) <==> forall v | v in values :: ParseI64(v).Some?
  {
    forall v | v in values ensures (exists n :: IsNumber(v, n)) <==> ParseI64(v).Some? {
      NumbersExactly(v, 0);
    }
    hide IsNumber, ParseI64;
  }

  lemma AllNamedAre(names: seq<string>)
    ensures AllNamed(names) <==> forall v | v in names :: ParseAlgorithmName(v).Some?
  {
    forall v | v in names ensures (exists alg :: NamesAlgorithm(v, alg)) <==> ParseAlgorithmName(v).Some? {
      NameExists(v);
    }
    hide NamesAlgorithm, ParseAlgorithmName;
  }

  lemma NameExists(name: string)
    ensures (exists alg :: NamesAlgorithm(name, alg)) <==> ParseAlgorithmName(name).Some?
  {
    forall alg: Algorithm ensures NamesAlgorithm(name, alg) <==> ParseAlgorithmName(name) == Some(alg) {
      NamesAlgorithmIs(name, alg);
    }
    hide NamesAlgorithm, ParseAlgorithmName;
    if ParseAlgorithmName(name).Some? {
      assert NamesAlgorithm(name, ParseAlgorithmName(name).value);
    }
  }

  lemma LastGrace(values: seq<string>, grace: I64)
    requires if values == [] then grace == 3 else ParseI64(LastOr(values, "")) == Some(grace)
    ensures IsNumber(LastOr(values, "3"), grace)
  {
    NumbersExactly(LastOr(values, "3"), grace);
    ParseShowI64(3);
    assert ShowI64(3) == "3";
    hide IsNumber, ParseI64;
  }

  /** Inline options are read exactly if none is to be refused, and then mean what they say. */
  lemma InlineExactly(raw: seq<string>)
    ensures Inline(raw).Ok? <==> InlineReadable(raw)
    ensures Inline(raw).Ok? ==> SaysInline(raw, Inline(raw).value)
  {
    ReadableExactly(DEFAULT_ARGS, raw);
    AllNumbersAre(ValuesOf(raw, "grace"));
    AllNamedAre(ValuesOf(raw, "allowed_alg"));
    AllNamedAre(ValuesOf(raw, "disallowed_alg"));
    hide AllNumbers, AllNamed, InlineFrom, ValuesOf, ParseAlgorithmName, ParseI64, SaysInline;
    if Inline(raw).Ok? {
      InlineSays(raw);
    }
  }

  lemma ListsSay(raw: seq<string>)
    requires Inline(raw).Ok?
    ensures Inline(raw).value.trustedAud == ValuesOf(raw, "trusted_aud")
    ensures Inline(raw).value.trustedAzp == ValuesOf(raw, "trusted_azp")
    ensures Inline(raw).value.requiredScope == ValuesOf(raw, "required_scope")
    ensures Inline(raw).value.disallowedUsernames == ValuesOf(raw, "disallowed_username")
    ensures HostLists(ValuesOf(raw, "only_from"), Inline(raw).value.onlyFrom)
  {
    hide InlineFrom, ValuesOf, HostLists, Split;
    ListsMean(DEFAULT_ARGS, raw, "trusted_aud");
    ListsMean(DEFAULT_ARGS, raw, "trusted_azp");
    ListsMean(DEFAULT_ARGS, raw, "required_scope");
    ListsMean(DEFAULT_ARGS, raw, "disallowed_username");
    HostsMean(DEFAULT_ARGS, raw);
    HostListsAre(ValuesOf(raw, "only_from"));
    assert [] + Split(ValuesOf(raw, "only_from")) == Split(ValuesOf(raw, "only_from"));
  }

  lemma SinglesSay(raw: seq<string>)
    requires Inline(raw).Ok?
    ensures var args := Inline(raw).value;
            && args.userid == LastOr(ValuesOf(raw, "userid"), "preferred_username")
            && IsNumber(LastOr(ValuesOf(raw, "grace"), "3"), args.grace)
            && ValuesOf(raw, "iss") == (if args.iss.Some? then [args.iss.value] else [])
            && ValuesOf(raw, "jwks") == (if args.jwks.Some? then [args.jwks.value] else [])
  {
    hide InlineFrom, ValuesOf, IsNumber, ParseI64;
    ReadableExactly(DEFAULT_ARGS, raw);
    SinglesMean(DEFAULT_ARGS, raw, "userid");
    SinglesMean(DEFAULT_ARGS, raw, "iss");
    SinglesMean(DEFAULT_ARGS, raw, "jwks");
    GraceMeans(DEFAULT_ARGS, raw);
    LastGrace(ValuesOf(raw, "grace"), Inline(raw).value.grace);
  }

  lemma InlineSays(raw: seq<string>)
    requires Inline(raw).Ok?
    ensures SaysInline(raw, Inline(raw).value)
  {
    hide Inline, ValuesOf, IsNumber, HostLists, AlgorithmsNamed, LastOr;
    ListsSay(raw);
    SinglesSay(raw);
    AlgorithmsSay(raw);
  }

  lemma AlgorithmsSay(raw: seq<string>)
    requires Inline(raw).Ok?
    ensures var args := Inline(raw).value;
            && (args.allowedAlgorithms.None? <==> ValuesOf(raw, "allowed_alg") == [])
            && (args.allowedAlgorithms.Some? ==>
                  AlgorithmsNamed(ValuesOf(raw, "allowed_alg"), args.allowedAlgorithms.value))
            && AlgorithmsNamed(ValuesOf(raw, "disallowed_alg"), args.disallowedAlgorithms)
  {
    hide InlineFrom, ValuesOf;
    NoneNamed();
    AlgorithmsMean(DEFAULT_ARGS, raw, "allowed_alg", []);
    AlgorithmsMean(DEFAULT_ARGS, raw, "disallowed_alg", []);
    NoneAllowed(DEFAULT_ARGS, raw);
    hide AlgorithmsNamed;
    assert [] + ValuesOf(raw, "allowed_alg") == ValuesOf(raw, "allowed_alg");
    assert [] + ValuesOf(raw, "disallowed_alg") == ValuesOf(raw, "disallowed_alg");
  }

  lemma NoneNamed()
    ensures AlgorithmsNamed([], [])
  {
  }
}
