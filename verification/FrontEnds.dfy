/**
 The two front ends agree: a policy written as inline options and the same
 policy written as a configuration file read back as the same arguments.
 */
module FrontEnds {
  import opened Prelude
  import opened Text
  import opened Jwt
  import opened Options
  import opened Pam

  datatype Policy = Policy(
    userid: string,
    grace: I64,
    iss: Option<string>,
    jwks: Option<string>,
    audiences: seq<string>,
    parties: seq<string>,
    scopes: seq<string>,
    usernames: seq<string>,
    allowed: Option<seq<Algorithm>>,
    disallowed: seq<Algorithm>)

  /** A value both syntaxes can hold: not empty, trimmed, on one line. */
  predicate WritableValue(v: string) {
    v != "" && Trimmed(v) && '\n' !in v
  }

  predicate WritableValues(vs: seq<string>) {
    forall v | v in vs :: WritableValue(v)
  }

  predicate Writable(p: Policy) {
    && WritableValue(p.userid) && WritableValues(OptionalValue(p.iss)) && WritableValues(OptionalValue(p.jwks))
    && WritableValues(p.audiences) && WritableValues(p.parties) && WritableValues(p.scopes)
    && WritableValues(p.usernames)
    && p.allowed != Some([])
  }

  function OptionalValue(v: Option<string>): seq<string> {
    if v.None? then [] else [v.value]
  }

  // ---------- what a policy denotes ----------

  function AddAll(algs: seq<Algorithm>, more: seq<Algorithm>): seq<Algorithm>
    decreases |more|
  {
    if more == [] then algs else AddAll(AddDistinct(algs, more[0]), more[1..])
  }

  /** First occurrences, in order. */
  function Deduplicated(algs: seq<Algorithm>): seq<Algorithm> {
    AddAll([], algs)
  }

  function Denoted(p: Policy): PamArgs {
    PamArgs(p.userid, p.grace, p.iss, p.jwks, p.audiences, p.parties, p.scopes, [], p.usernames,
            if p.allowed.None? then None else Some(Deduplicated(p.allowed.value)), Deduplicated(p.disallowed))
  }

  function Names(algs: seq<Algorithm>): (names: seq<string>)
    ensures |names| == |algs|
    ensures forall i | 0 <= i < |algs| :: names[i] == AlgorithmName(algs[i])
  {
    if algs == [] then [] else [AlgorithmName(algs[0])] + Names(algs[1..])
  }

  function AllowedNames(p: Policy): seq<string> {
    if p.allowed.None? then [] else Names(p.allowed.value)
  }

  // ---------- inline options ----------

  function Arg(key: string, value: string): string {
    key + "=" + value
  }

  function Repeated(key: string, values: seq<string>): seq<string> {
    if values == [] then [] else [Arg(key, values[0])] + Repeated(key, values[1..])
  }

  function InlineOf(p: Policy): seq<string> {
    [Arg("userid", p.userid), Arg("grace", ShowI64(p.grace))]
    + Repeated("iss", OptionalValue(p.iss)) + Repeated("jwks", OptionalValue(p.jwks))
    + Repeated("trusted_aud", p.audiences) + Repeated("trusted_azp", p.parties)
    + Repeated("required_scope", p.scopes) + Repeated("disallowed_username", p.usernames)
    + Repeated("allowed_alg", AllowedNames(p)) + Repeated("disallowed_alg", Names(p.disallowed))
  }

  lemma SplitJoined(key: string, c: char, value: string)
    requires c !in key
    ensures SplitOnce(key + [c] + value, c) == Some((key, value))
  {
    var s := key + [c] + value;
    assert s[|key|] == c && s[..|key|] == key && s[|key| + 1..] == value;
    var n := IndexOf(s, c);
    assert forall i | 0 <= i < n :: s[..n][i] == s[i];
    assert forall i | 0 <= i < |key| :: s[i] == key[i];
  }

  /** Options are read left to right. */
  lemma {:induction false} InlineConcat(args: PamArgs, a: seq<string>, b: seq<string>)
    requires InlineFrom(args, a).Ok?
    ensures InlineFrom(args, a + b) == InlineFrom(InlineFrom(args, a).value, b)
    decreases |a|
  {
    if a == [] {
      assert a + b == b;
    } else {
      assert (a + b)[1..] == a[1..] + b;
      match SplitOnce(a[0], '=')
      case None => InlineConcat(args, a[1..], b);
      case Some((key, value)) => InlineConcat(After(args, key, value), a[1..], b);
    }
  }

  lemma ReadArg(args: PamArgs, key: string, value: string, rest: seq<string>)
    requires '=' !in key && Problem(args, key, value).None?
    ensures InlineFrom(args, [Arg(key, value)] + rest) == InlineFrom(After(args, key, value), rest)
  {
    SplitJoined(key, '=', value);
    assert ([Arg(key, value)] + rest)[1..] == rest;
  }

  function WithList(args: PamArgs, key: string, values: seq<string>): PamArgs {
    match key
    case "trusted_aud" => args.(trustedAud := args.trustedAud + values)
    case "trusted_azp" => args.(trustedAzp := args.trustedAzp + values)
    case "required_scope" => args.(requiredScope := args.requiredScope + values)
    case "disallowed_username" => args.(disallowedUsernames := args.disallowedUsernames + values)
    case _ => args
  }

  predicate IsListKey(key: string) {
    key == "trusted_aud" || key == "trusted_azp" || key == "required_scope" || key == "disallowed_username"
  }

  lemma WithListSplit(args: PamArgs, key: string, value: string, values: seq<string>)
    requires IsListKey(key)
    ensures '=' !in key && Problem(args, key, value).None?
    ensures WithList(After(args, key, value), key, values) == WithList(args, key, [value] + values)
    ensures WithList(args, key, []) == args
  {
    assert forall vs: seq<string> :: vs + [value] + values == vs + ([value] + values);
    assert forall vs: seq<string> :: vs + [] == vs;
  }

  lemma {:induction false} ReadList(args: PamArgs, key: string, values: seq<string>)
    requires IsListKey(key)
    ensures InlineFrom(args, Repeated(key, values)) == Ok(WithList(args, key, values))
    decreases |values|
  {
    if values == [] {
      WithListSplit(args, key, "", []);
    } else {
      WithListSplit(args, key, values[0], values[1..]);
      ReadArg(args, key, values[0], Repeated(key, values[1..]));
      ReadList(After(args, key, values[0]), key, values[1..]);
      assert [values[0]] + values[1..] == values;
    }
  }

  function WithAllowed(args: PamArgs, algs: seq<Algorithm>): PamArgs {
    if algs == [] then args
    else
      var before := match args.allowedAlgorithms case None => [] case Some(before) => before;
      args.(allowedAlgorithms := Some(AddAll(before, algs)))
  }

  lemma NamesTail(algs: seq<Algorithm>)
    requires algs != []
    ensures Names(algs)[0] == AlgorithmName(algs[0]) && Names(algs)[1..] == Names(algs[1..])
  {
  }

  lemma WithAllowedSplit(args: PamArgs, algs: seq<Algorithm>)
    requires algs != []
    ensures Problem(args, "allowed_alg", AlgorithmName(algs[0])).None?
    ensures WithAllowed(After(args, "allowed_alg", AlgorithmName(algs[0])), algs[1..]) == WithAllowed(args, algs)
  {
    var before := match args.allowedAlgorithms case None => [] case Some(before) => before;
    assert AddAll(before, algs) == AddAll(AddDistinct(before, algs[0]), algs[1..]);
  }

  lemma {:induction false} ReadAllowed(args: PamArgs, algs: seq<Algorithm>)
    ensures InlineFrom(args, Repeated("allowed_alg", Names(algs))) == Ok(WithAllowed(args, algs))
    decreases |algs|
  {
    if algs == [] {
    } else {
      NamesTail(algs);
      ReadArg(args, "allowed_alg", Names(algs)[0], Repeated("allowed_alg", Names(algs[1..])));
      ReadAllowed(After(args, "allowed_alg", Names(algs)[0]), algs[1..]);
      WithAllowedSplit(args, algs);
    }
  }

  lemma {:induction false} ReadDisallowed(args: PamArgs, algs: seq<Algorithm>)
    ensures InlineFrom(args, Repeated("disallowed_alg", Names(algs)))
         == Ok(args.(disallowedAlgorithms := AddAll(args.disallowedAlgorithms, algs)))
    decreases |algs|
  {
    if algs == [] {
    } else {
      NamesTail(algs);
      ReadArg(args, "disallowed_alg", Names(algs)[0], Repeated("disallowed_alg", Names(algs[1..])));
      ReadDisallowed(After(args, "disallowed_alg", Names(algs)[0]), algs[1..]);
    }
  }

  lemma RepeatedOne(key: string, value: string)
    ensures Repeated(key, [value]) == [Arg(key, value)] + []
  {
    assert [value][1..] == [];
  }

  lemma ReadIss(args: PamArgs, iss: Option<string>)
    requires args.iss.None?
    ensures InlineFrom(args, Repeated("iss", OptionalValue(iss))) == Ok(args.(iss := iss))
  {
    if iss.Some? {
      ReadArg(args, "iss", iss.value, []);
      RepeatedOne("iss", iss.value);
    }
  }

  lemma ReadJwks(args: PamArgs, jwks: Option<string>)
    requires args.jwks.None?
    ensures InlineFrom(args, Repeated("jwks", OptionalValue(jwks))) == Ok(args.(jwks := jwks))
  {
    if jwks.Some? {
      ReadArg(args, "jwks", jwks.value, []);
      RepeatedOne("jwks", jwks.value);
    }
  }

  lemma ReadScalars(p: Policy) returns (args: PamArgs)
    ensures args == DEFAULT_ARGS.(userid := p.userid, grace := p.grace)
    ensures Inline([Arg("userid", p.userid), Arg("grace", ShowI64(p.grace))]) == Ok(args)
  {
    var grace := [Arg("grace", ShowI64(p.grace))];
    args := DEFAULT_ARGS.(userid := p.userid);
    ReadArg(DEFAULT_ARGS, "userid", p.userid, grace);
    ParseShowI64(p.grace);
    ReadArg(args, "grace", ShowI64(p.grace), []);
    assert grace + [] == grace;
    args := args.(grace := p.grace);
    assert [Arg("userid", p.userid)] + grace == [Arg("userid", p.userid), Arg("grace", ShowI64(p.grace))];
  }

  /** Appending a section whose effect is known. */
  lemma Section(raw: seq<string>, more: seq<string>, before: PamArgs, after: PamArgs)
    requires Inline(raw) == Ok(before) && InlineFrom(before, more) == Ok(after)
    ensures Inline(raw + more) == Ok(after)
  {
    InlineConcat(DEFAULT_ARGS, raw, more);
  }

  lemma InlineDenotes(p: Policy)
    requires Writable(p)
    ensures Inline(InlineOf(p)) == Ok(Denoted(p))
  {
    var a := ReadScalars(p);
    var raw := [Arg("userid", p.userid), Arg("grace", ShowI64(p.grace))];
    ReadIss(a, p.iss);
    var b := a.(iss := p.iss);
    Section(raw, Repeated("iss", OptionalValue(p.iss)), a, b);
    raw := raw + Repeated("iss", OptionalValue(p.iss));
    ReadJwks(b, p.jwks);
    a := b.(jwks := p.jwks);
    Section(raw, Repeated("jwks", OptionalValue(p.jwks)), b, a);
    raw := raw + Repeated("jwks", OptionalValue(p.jwks));

    var raw', c := ReadLists(p, raw, a);
    var algs := if p.allowed.None? then [] else p.allowed.value;
    ReadAllowed(c, algs);
    Section(raw', Repeated("allowed_alg", AllowedNames(p)), c, WithAllowed(c, algs));
    raw' := raw' + Repeated("allowed_alg", AllowedNames(p));
    ReadDisallowed(WithAllowed(c, algs), p.disallowed);
    Section(raw', Repeated("disallowed_alg", Names(p.disallowed)), WithAllowed(c, algs), Denoted(p));
  }

  lemma ReadLists(p: Policy, raw: seq<string>, args: PamArgs) returns (raw': seq<string>, args': PamArgs)
    requires Inline(raw) == Ok(args)
    requires args.trustedAud == args.trustedAzp == args.requiredScope == args.disallowedUsernames == []
    ensures raw' == raw + Repeated("trusted_aud", p.audiences) + Repeated("trusted_azp", p.parties)
                  + Repeated("required_scope", p.scopes) + Repeated("disallowed_username", p.usernames)
    ensures args' == args.(trustedAud := p.audiences, trustedAzp := p.parties, requiredScope := p.scopes,
                           disallowedUsernames := p.usernames)
    ensures Inline(raw') == Ok(args')
  {
    hide Inline, Repeated;
    raw', args' := ReadListSection(raw, args, "trusted_aud", p.audiences);
    raw', args' := ReadListSection(raw', args', "trusted_azp", p.parties);
    raw', args' := ReadListSection(raw', args', "required_scope", p.scopes);
    raw', args' := ReadListSection(raw', args', "disallowed_username", p.usernames);
  }

  lemma ReadListSection(raw: seq<string>, args: PamArgs, key: string, values: seq<string>)
    returns (raw': seq<string>, args': PamArgs)
    requires Inline(raw) == Ok(args) && IsListKey(key)
    ensures raw' == raw + Repeated(key, values) && args' == WithList(args, key, values)
    ensures Inline(raw') == Ok(args')
  {
    raw', args' := raw + Repeated(key, values), WithList(args, key, values);
    ReadList(args, key, values);
    Section(raw, Repeated(key, values), args, args');
  }

  // ---------- configuration file ----------

  datatype Block = Block(base: string, values: seq<string>)

  function BlockEntries(base: string, values: seq<string>, from: nat): seq<Entry>
    decreases |values|
  {
    if values == [] then [] else [(Numbered(base, from), values[0])] + BlockEntries(base, values[1..], from + 1)
  }

  function AllEntries(blocks: seq<Block>): seq<Entry> {
    if blocks == [] then [] else BlockEntries(blocks[0].base, blocks[0].values, 0) + AllEntries(blocks[1..])
  }

  function BlocksOf(p: Policy): seq<Block> {
    [Block(TRUSTED_ISS, OptionalValue(p.iss)), Block(TRUSTED_JWKS, OptionalValue(p.jwks)),
     Block(TRUSTED_AUD, p.audiences), Block(TRUSTED_AZP, p.parties), Block(REQUIRED_SCOPE, p.scopes),
     Block(DISALLOWED_USERNAME, p.usernames), Block(ALLOWED_ALG, AllowedNames(p)),
     Block(DISALLOWED_ALG, Names(p.disallowed))]
  }

  function EntriesFor(p: Policy): seq<Entry> {
    [(USERID, p.userid), (GRACE, ShowI64(p.grace))] + AllEntries(BlocksOf(p))
  }

  function FileLine(e: Entry): string {
    e.0 + ":" + (" " + e.1)
  }

  function Render(entries: seq<Entry>): string {
    if entries == [] then "" else FileLine(entries[0]) + "\n" + Render(entries[1..])
  }

  function FileOf(p: Policy): string {
    Render(EntriesFor(p))
  }

  // ---------- reading the file back ----------

  predicate IsFileKey(key: string) {
    key != "" && forall c | c in key :: 'a' <= c <= 'z' || c == '_' || IsDigit(c)
  }

  predicate IsFileEntry(e: Entry) {
    IsFileKey(e.0) && WritableValue(e.1)
  }

  lemma LowercaseIsFixed(key: string)
    requires IsFileKey(key)
    ensures AsciiLowercase(key) == key
  {
    forall i | 0 <= i < |key| ensures AsciiLowerChar(key[i]) == key[i] {
      assert key[i] in key;
    }
  }

  lemma TrimSpaced(v: string)
    requires WritableValue(v)
    ensures Trim(" " + v) == v
  {
    assert (" " + v)[1..] == v;
    TrimmedIsFixed(v);
  }

  /** A line that starts with a key is no comment, and is not trimmed. */
  lemma KeyStartsLine(key: string, rest: string)
    requires IsFileKey(key)
    ensures var line := key + rest; line != "" && line[0] != '#' && TrimStart(line) == line
  {
    assert (key + rest)[0] == key[0] && key[0] in key;
  }

  lemma ReadFileLine(e: Entry)
    requires IsFileEntry(e)
    ensures ReadLine(FileLine(e)) == KeyValue(e.0, e.1)
  {
    hide AsciiLowercase, SplitOnce, Trim, TrimStart, Trimmed;
    KeyStartsLine(e.0, ": " + e.1);
    assert FileLine(e) == e.0 + (": " + e.1) && FileLine(e) == e.0 + [':'] + (" " + e.1);
    SplitJoined(e.0, ':', " " + e.1);
    TrimSpaced(e.1);
    LowercaseIsFixed(e.0);
  }

  lemma FileLineIsLine(e: Entry)
    requires IsFileEntry(e)
    ensures var line := FileLine(e); line != "" && '\n' !in line && line[|line| - 1] != '\r'
  {
    assert '\n' !in e.0 && '\n' !in e.1;
    assert FileLine(e)[|FileLine(e)| - 1] == e.1[|e.1| - 1];
  }

  function FileLines(entries: seq<Entry>): seq<string> {
    seq(|entries|, i requires 0 <= i < |entries| => FileLine(entries[i]))
  }

  lemma LinesCons(line: string, rest: string)
    requires line != "" && '\n' !in line && line[|line| - 1] != '\r'
    ensures Lines(line + "\n" + rest) == [line] + Lines(rest)
  {
    var s := line + "\n" + rest;
    SplitJoined(line, '\n', rest);
    assert IndexOf(s, '\n') < |s|;
  }

  lemma FileLinesCons(entries: seq<Entry>)
    requires entries != []
    ensures FileLines(entries) == [FileLine(entries[0])] + FileLines(entries[1..])
  {
  }

  lemma {:induction false} LinesOfRender(entries: seq<Entry>)
    requires forall e | e in entries :: IsFileEntry(e)
    ensures Lines(Render(entries)) == FileLines(entries)
  {
    if entries == [] {
    } else {
      var e := entries[0];
      var line := FileLine(e);
      assert e in entries;
      FileLineIsLine(e);
      LinesCons(line, Render(entries[1..]));
      LinesOfRender(entries[1..]);
      FileLinesCons(entries);
    }
  }

  lemma {:induction false} EntriesOfLines(entries: seq<Entry>)
    requires forall e | e in entries :: IsFileEntry(e)
    ensures EntriesOf(FileLines(entries)) == Ok(entries)
  {
    hide ReadLine, FileLine, IsFileEntry;
    if entries == [] {
    } else {
      var n := |entries| - 1;
      assert FileLines(entries)[..n] == FileLines(entries[..n]);
      EntriesOfLines(entries[..n]);
      ReadFileLine(entries[n]);
      assert entries == entries[..n] + [entries[n]];
    }
  }

  // ---------- looking names up in the file ----------

  predicate IsBase(base: string) {
    base != "" && !IsDigit(base[|base| - 1])
  }

  function StripDigits(s: string): string {
    if s != "" && IsDigit(s[|s| - 1]) then StripDigits(s[..|s| - 1]) else s
  }

  lemma {:induction false} StripNumber(base: string, digits: string)
    requires IsBase(base) && forall c | c in digits :: IsDigit(c)
    ensures StripDigits(base + digits) == base
  {
    if digits == "" {
      assert base + digits == base;
    } else {
      var n := |digits| - 1;
      assert digits[n] in digits;
      assert (base + digits)[..|base| + n] == base + digits[..n];
      StripNumber(base, digits[..n]);
    }
  }

  /** Names of different families never meet. */
  lemma NumberedFamilies(a: string, i: nat, b: string, j: nat)
    requires IsBase(a) && IsBase(b) && Numbered(a, i) == Numbered(b, j)
    ensures a == b && i == j
  {
    StripNumber(a, Decimal(i));
    StripNumber(b, Decimal(j));
    NumberedInjective(a, i, j);
  }

  lemma NumberedIsNotBase(a: string, i: nat, b: string)
    requires IsBase(b)
    ensures Numbered(a, i) != b
  {
    var name := Numbered(a, i);
    assert name[|name| - 1] == Decimal(i)[|Decimal(i)| - 1];
    assert IsDigit(Decimal(i)[|Decimal(i)| - 1]);
  }

  lemma {:induction false} LookupConcat(a: seq<Entry>, b: seq<Entry>, name: string)
    ensures Lookup(a + b, name) == if Lookup(a, name).Some? then Lookup(a, name) else Lookup(b, name)
  {
    if a == [] {
      assert a + b == b;
    } else {
      LookupConcat(a[1..], b, name);
      assert (a + b)[1..] == a[1..] + b;
    }
  }

  function ValueAt(values: seq<string>, j: int): Option<string> {
    if 0 <= j < |values| then Some(values[j]) else None
  }

  lemma {:induction false} LookupBlock(base: string, values: seq<string>, from: nat, other: string, j: nat)
    requires IsBase(base) && IsBase(other)
    ensures Lookup(BlockEntries(base, values, from), Numbered(other, j))
         == if other == base then ValueAt(values, j - from) else None
    decreases |values|
  {
    if values == [] {
    } else {
      LookupBlock(base, values[1..], from + 1, other, j);
      if Numbered(base, from) == Numbered(other, j) {
        NumberedFamilies(base, from, other, j);
      }
    }
  }

  lemma {:induction false} LookupBlockPlain(base: string, values: seq<string>, from: nat, name: string)
    requires IsBase(name)
    ensures Lookup(BlockEntries(base, values, from), name).None?
    decreases |values|
  {
    if values == [] {
    } else {
      LookupBlockPlain(base, values[1..], from + 1, name);
      NumberedIsNotBase(base, from, name);
    }
  }

  function ValuesFor(blocks: seq<Block>, base: string): seq<string> {
    if blocks == [] then []
    else if blocks[0].base == base then blocks[0].values
    else ValuesFor(blocks[1..], base)
  }

  ghost predicate DistinctBases(blocks: seq<Block>) {
    && (forall b | b in blocks :: IsBase(b.base))
    && (forall i, j | 0 <= i < j < |blocks| :: blocks[i].base != blocks[j].base)
  }

  lemma {:induction false} LookupBlocks(blocks: seq<Block>, base: string, j: nat)
    requires DistinctBases(blocks) && IsBase(base)
    ensures Lookup(AllEntries(blocks), Numbered(base, j)) == ValueAt(ValuesFor(blocks, base), j)
  {
    if blocks == [] {
    } else {
      var first, rest := BlockEntries(blocks[0].base, blocks[0].values, 0), blocks[1..];
      LookupConcat(first, AllEntries(rest), Numbered(base, j));
      LookupBlock(blocks[0].base, blocks[0].values, 0, base, j);
      LookupBlocks(rest, base, j);
      if blocks[0].base == base {
        AbsentBase(rest, base);
      }
    }
  }

  lemma {:induction false} AbsentBase(blocks: seq<Block>, base: string)
    requires forall b | b in blocks :: b.base != base
    ensures ValuesFor(blocks, base) == []
  {
    if blocks == [] {
    } else {
      AbsentBase(blocks[1..], base);
    }
  }

  lemma {:induction false} LookupBlocksPlain(blocks: seq<Block>, name: string)
    requires IsBase(name)
    ensures Lookup(AllEntries(blocks), name).None?
  {
    if blocks == [] {
    } else {
      LookupConcat(BlockEntries(blocks[0].base, blocks[0].values, 0), AllEntries(blocks[1..]), name);
      LookupBlockPlain(blocks[0].base, blocks[0].values, 0, name);
      LookupBlocksPlain(blocks[1..], name);
    }
  }

  /** Families whose names have the same length differ in some character. */
  lemma BasesDiffer()
    ensures TRUSTED_ISS != TRUSTED_AUD && TRUSTED_ISS != TRUSTED_AZP && TRUSTED_ISS != ALLOWED_ALG
    ensures TRUSTED_AUD != TRUSTED_AZP && TRUSTED_AUD != ALLOWED_ALG && TRUSTED_AZP != ALLOWED_ALG
    ensures REQUIRED_SCOPE != DISALLOWED_ALG
    ensures ALLOWED_ALG != USERID && DISALLOWED_ALG != USERID
  {
    assert TRUSTED_ISS[20] == 'i' && TRUSTED_AUD[20..22] == "au" && TRUSTED_AZP[20..22] == "az";
    assert "au"[1] == 'u' && "az"[1] == 'z';
    assert TRUSTED_ISS[12] == TRUSTED_AUD[12] == TRUSTED_AZP[12] == 't' && ALLOWED_ALG[12] == 'a';
    assert REQUIRED_SCOPE[12] == 'r' && DISALLOWED_ALG[12] == 'd';
  }

  lemma BlocksAreDistinct(p: Policy)
    ensures DistinctBases(BlocksOf(p))
    ensures IsBase(USERID) && IsBase(GRACE)
  {
    BasesDiffer();
    var bases := [TRUSTED_ISS, TRUSTED_JWKS, TRUSTED_AUD, TRUSTED_AZP, REQUIRED_SCOPE,
                  DISALLOWED_USERNAME, ALLOWED_ALG, DISALLOWED_ALG];
    assert forall i, j | 0 <= i < j < |bases| :: bases[i] != bases[j];
    assert forall i | 0 <= i < |bases| :: BlocksOf(p)[i].base == bases[i];
  }

  // ---------- the theorem ----------

  lemma PlainNames()
    ensures IsBase(USERID) && IsBase(GRACE) && USERID != GRACE
    ensures IsBase(ALLOWED_ALG) && ALLOWED_ALG != USERID && ALLOWED_ALG != GRACE
    ensures IsBase(DISALLOWED_ALG) && DISALLOWED_ALG != USERID && DISALLOWED_ALG != GRACE
    ensures IsBase(DISALLOWED_USERNAME) && DISALLOWED_USERNAME != USERID && DISALLOWED_USERNAME != GRACE
  {
  }

  /** Every numbered lookup in the written file finds the policy's value, and only that. */
  lemma LookupWritten(p: Policy, base: string, j: nat)
    requires IsBase(base)
    ensures Lookup(EntriesFor(p), Numbered(base, j)) == ValueAt(ValuesFor(BlocksOf(p), base), j)
  {
    var scalars := [(USERID, p.userid), (GRACE, ShowI64(p.grace))];
    LookupConcat(scalars, AllEntries(BlocksOf(p)), Numbered(base, j));
    BlocksAreDistinct(p);
    PlainNames();
    NumberedIsNotBase(base, j, USERID);
    NumberedIsNotBase(base, j, GRACE);
    assert scalars[1..] == [(GRACE, ShowI64(p.grace))] && scalars[1..][1..] == [];
    LookupBlocks(BlocksOf(p), base, j);
  }

  lemma LookupWrittenPlain(p: Policy, name: string)
    requires IsBase(name)
    ensures Lookup(EntriesFor(p), name)
         == if name == USERID then Some(p.userid) else if name == GRACE then Some(ShowI64(p.grace)) else None
  {
    var scalars := [(USERID, p.userid), (GRACE, ShowI64(p.grace))];
    LookupConcat(scalars, AllEntries(BlocksOf(p)), name);
    PlainNames();
    assert scalars[1..] == [(GRACE, ShowI64(p.grace))] && scalars[1..][1..] == [];
    LookupBlocksPlain(BlocksOf(p), name);
  }

  lemma IndexedWritten(p: Policy, base: string)
    requires IsBase(base) && WritableValues(ValuesFor(BlocksOf(p), base))
    ensures Indexed(Source(true, EntriesFor(p)), base) == Ok(ValuesFor(BlocksOf(p), base))
  {
    var source, values := Source(true, EntriesFor(p)), ValuesFor(BlocksOf(p), base);
    forall k | 0 <= k < |values| ensures source.Get(Numbered(base, 0 + k)) == Ok(Some(values[k])) && values[k] != "" {
      LookupWritten(p, base, k);
      assert values[k] in values;
    }
    LookupWritten(p, base, |values|);
    assert source.Get(Numbered(base, 0 + |values|)) == Ok(None);
    assert MaximalRun(source, base, 0, values);
    IndexedIsMaximalRun(source, base, values);
  }

  lemma ListWritten(p: Policy, base: string)
    requires IsBase(base) && base != USERID && base != GRACE && WritableValues(ValuesFor(BlocksOf(p), base))
    ensures ListOption(Source(true, EntriesFor(p)), base) == Ok(ValuesFor(BlocksOf(p), base))
  {
    IndexedWritten(p, base);
    LookupWrittenPlain(p, base);
  }

  lemma {:induction false} AlgorithmsRead(option: string, algs: seq<Algorithm>)
    ensures AlgorithmsOf(option, Names(algs)) == Ok(Deduplicated(algs))
  {
    if algs == [] {
    } else {
      var n := |algs| - 1;
      AlgorithmsRead(option, algs[..n]);
      NamesFront(algs);
      AddAllLast([], algs);
    }
  }

  lemma {:induction false} NamesFront(algs: seq<Algorithm>)
    requires algs != []
    ensures Names(algs)[..|algs| - 1] == Names(algs[..|algs| - 1])
  {
  }

  lemma {:induction false} AddAllLast(start: seq<Algorithm>, algs: seq<Algorithm>)
    requires algs != []
    ensures AddAll(start, algs) == AddDistinct(AddAll(start, algs[..|algs| - 1]), algs[|algs| - 1])
    decreases |algs|
  {
    if |algs| > 1 {
      AddAllLast(AddDistinct(start, algs[0]), algs[1..]);
      assert algs[1..][..|algs| - 2] == algs[..|algs| - 1][1..];
    }
  }

  lemma ValuesWritten(p: Policy)
    ensures ValuesFor(BlocksOf(p), TRUSTED_ISS) == OptionalValue(p.iss)
    ensures ValuesFor(BlocksOf(p), TRUSTED_JWKS) == OptionalValue(p.jwks)
    ensures ValuesFor(BlocksOf(p), TRUSTED_AUD) == p.audiences
    ensures ValuesFor(BlocksOf(p), TRUSTED_AZP) == p.parties
    ensures ValuesFor(BlocksOf(p), REQUIRED_SCOPE) == p.scopes
    ensures ValuesFor(BlocksOf(p), DISALLOWED_USERNAME) == p.usernames
    ensures ValuesFor(BlocksOf(p), ALLOWED_ALG) == AllowedNames(p)
    ensures ValuesFor(BlocksOf(p), DISALLOWED_ALG) == Names(p.disallowed)
  {
    BlocksAreDistinct(p);
    forall i | 0 <= i < |BlocksOf(p)| ensures ValuesFor(BlocksOf(p), BlocksOf(p)[i].base) == BlocksOf(p)[i].values {
      ValuesForDistinct(BlocksOf(p), i);
    }
    assert BlocksOf(p)[0].base == TRUSTED_ISS && BlocksOf(p)[1].base == TRUSTED_JWKS;
    assert BlocksOf(p)[2].base == TRUSTED_AUD && BlocksOf(p)[3].base == TRUSTED_AZP;
    assert BlocksOf(p)[4].base == REQUIRED_SCOPE && BlocksOf(p)[5].base == DISALLOWED_USERNAME;
    assert BlocksOf(p)[6].base == ALLOWED_ALG && BlocksOf(p)[7].base == DISALLOWED_ALG;
  }

  lemma {:induction false} ValuesForDistinct(blocks: seq<Block>, i: nat)
    requires DistinctBases(blocks) && i < |blocks|
    ensures ValuesFor(blocks, blocks[i].base) == blocks[i].values
  {
    if i == 0 {
    } else {
      ValuesForDistinct(blocks[1..], i - 1);
    }
  }

  lemma NamesAreWritable(algs: seq<Algorithm>)
    ensures WritableValues(Names(algs))
  {
    forall v | v in Names(algs) ensures WritableValue(v) {
      var i :| 0 <= i < |algs| && Names(algs)[i] == v;
      AlgorithmNameIsWritable(algs[i]);
    }
  }

  lemma AlgorithmNameIsWritable(alg: Algorithm)
    ensures WritableValue(AlgorithmName(alg))
  {
  }

  lemma BlockValuesAreWritable(p: Policy)
    requires Writable(p)
    ensures WritableValues(AllowedNames(p)) && WritableValues(Names(p.disallowed))
    ensures forall b | b in BlocksOf(p) :: WritableValues(b.values)
  {
    NamesAreWritable(p.disallowed);
    if p.allowed.Some? {
      NamesAreWritable(p.allowed.value);
    }
  }

  lemma BasesAreBases(p: Policy)
    ensures IsBase(TRUSTED_ISS) && IsBase(TRUSTED_JWKS) && IsBase(TRUSTED_AUD) && IsBase(TRUSTED_AZP)
    ensures IsBase(REQUIRED_SCOPE)
  {
  }

  lemma ListsWritten(p: Policy)
    requires Writable(p)
    ensures var source := Source(true, EntriesFor(p));
            && Indexed(source, TRUSTED_AUD) == Ok(p.audiences)
            && Indexed(source, TRUSTED_AZP) == Ok(p.parties)
            && Indexed(source, REQUIRED_SCOPE) == Ok(p.scopes)
            && ListOption(source, DISALLOWED_USERNAME) == Ok(p.usernames)
            && ListOption(source, ALLOWED_ALG) == Ok(AllowedNames(p))
            && ListOption(source, DISALLOWED_ALG) == Ok(Names(p.disallowed))
  {
    ValuesWritten(p);
    BlockValuesAreWritable(p);
    BasesAreBases(p);
    PlainNames();
    IndexedWritten(p, TRUSTED_AUD);
    IndexedWritten(p, TRUSTED_AZP);
    IndexedWritten(p, REQUIRED_SCOPE);
    ListWritten(p, DISALLOWED_USERNAME);
    ListWritten(p, ALLOWED_ALG);
    ListWritten(p, DISALLOWED_ALG);
  }

  lemma ScalarsWritten(p: Policy)
    requires Writable(p)
    ensures var source := Source(true, EntriesFor(p));
            && source.Get(USERID) == Ok(Some(p.userid)) && p.userid != ""
            && source.Get(GRACE) == Ok(Some(ShowI64(p.grace)))
            && source.Get(Numbered(TRUSTED_ISS, 0)) == Ok(p.iss) && p.iss != Some("")
            && source.Get(Numbered(TRUSTED_JWKS, 0)) == Ok(p.jwks) && p.jwks != Some("")
  {
    PlainNames();
    BasesAreBases(p);
    ValuesWritten(p);
    LookupWrittenPlain(p, USERID);
    LookupWrittenPlain(p, GRACE);
    LookupWritten(p, TRUSTED_ISS, 0);
    LookupWritten(p, TRUSTED_JWKS, 0);
    assert p.iss.Some? ==> p.iss.value in OptionalValue(p.iss);
    assert p.jwks.Some? ==> p.jwks.value in OptionalValue(p.jwks);
  }

  lemma OptionsWritten(p: Policy)
    requires Writable(p)
    ensures ReadOptions(Source(true, EntriesFor(p))).Ok?
    ensures ArgsOf(ReadOptions(Source(true, EntriesFor(p))).value) == Denoted(p)
  {
    ScalarsWritten(p);
    ListsWritten(p);
    ParseShowI64(p.grace);
    AlgorithmsRead(DISALLOWED_ALG, p.disallowed);
    AlgorithmsRead(ALLOWED_ALG, if p.allowed.None? then [] else p.allowed.value);
  }

  lemma {:induction false} BlockEntriesAreWritable(base: string, values: seq<string>, from: nat)
    requires IsFileKey(base) && WritableValues(values)
    ensures forall e | e in BlockEntries(base, values, from) :: IsFileEntry(e)
    decreases |values|
  {
    if values == [] {
    } else {
      BlockEntriesAreWritable(base, values[1..], from + 1);
    }
  }

  lemma {:induction false} AllEntriesAreWritable(blocks: seq<Block>)
    requires forall b | b in blocks :: IsFileKey(b.base) && WritableValues(b.values)
    ensures forall e | e in AllEntries(blocks) :: IsFileEntry(e)
  {
    if blocks == [] {
    } else {
      BlockEntriesAreWritable(blocks[0].base, blocks[0].values, 0);
      AllEntriesAreWritable(blocks[1..]);
    }
  }

  lemma ShownIsWritable(n: I64)
    ensures WritableValue(ShowI64(n))
  {
    var m: int := n;
    var digits := Decimal(if m < 0 then -m else m);
    assert IsDigit(digits[0]) && IsDigit(digits[|digits| - 1]);
  }

  lemma BasesAreFileKeys()
    ensures IsFileKey(TRUSTED_ISS) && IsFileKey(TRUSTED_JWKS) && IsFileKey(TRUSTED_AUD) && IsFileKey(TRUSTED_AZP)
  {
  }

  lemma MoreBasesAreFileKeys()
    ensures IsFileKey(REQUIRED_SCOPE) && IsFileKey(DISALLOWED_USERNAME)
  {
  }

  lemma AlgorithmBasesAreFileKeys()
    ensures IsFileKey(ALLOWED_ALG) && IsFileKey(DISALLOWED_ALG)
  {
  }

  lemma ScalarNamesAreFileKeys()
    ensures IsFileKey(USERID) && IsFileKey(GRACE)
  {
  }

  lemma EntriesAreWritable(p: Policy)
    requires Writable(p)
    ensures forall e | e in EntriesFor(p) :: IsFileEntry(e)
  {
    BasesAreFileKeys();
    MoreBasesAreFileKeys();
    AlgorithmBasesAreFileKeys();
    ScalarNamesAreFileKeys();
    BlockValuesAreWritable(p);
    AllEntriesAreWritable(BlocksOf(p));
    ShownIsWritable(p.grace);
  }

  lemma FileDenotes(p: Policy)
    requires Writable(p)
    ensures Config(FileOf(p)) == Ok(Denoted(p))
  {
    EntriesAreWritable(p);
    LinesOfRender(EntriesFor(p));
    EntriesOfLines(EntriesFor(p));
    OptionsWritten(p);
  }

  // ---------- repeated keys ----------

  /** The first entry of each key, in order. */
  function FirstEntries(entries: seq<Entry>): (firsts: seq<Entry>)
    ensures Keys(firsts) == Keys(entries)
    ensures forall i, j | 0 <= i < j < |firsts| :: firsts[i].0 != firsts[j].0
  {
    if entries == [] then []
    else
      var front, last := entries[..|entries| - 1], entries[|entries| - 1];
      assert entries == front + [last];
      assert Keys(entries) == Keys(front) + {last.0};
      var firsts := FirstEntries(front);
      if last.0 in Keys(front) then firsts
      else
        KeysOfExtended(firsts, last);
        firsts + [last]
  }

  lemma KeysOfExtended(entries: seq<Entry>, last: Entry)
    ensures Keys(entries + [last]) == Keys(entries) + {last.0}
    ensures last.0 !in Keys(entries) ==> forall i | 0 <= i < |entries| :: entries[i].0 != last.0
  {
    var extended := entries + [last];
    assert forall e | e in extended :: e in entries || e == last;
    assert extended[|entries|] == last;
    assert forall i | 0 <= i < |entries| :: extended[i] == entries[i] && entries[i] in entries;
  }

  lemma {:induction false} LookupFirst(entries: seq<Entry>, name: string)
    ensures Lookup(FirstEntries(entries), name) == Lookup(entries, name)
  {
    if entries == [] {
    } else {
      var front, last := entries[..|entries| - 1], entries[|entries| - 1];
      assert entries == front + [last];
      LookupFirst(front, name);
      LookupConcat(front, [last], name);
      LookupConcat(FirstEntries(front), [last], name);
    }
  }

  ghost predicate SameLookups(a: Source, b: Source) {
    a.available == b.available && forall name :: Lookup(a.entries, name) == Lookup(b.entries, name)
  }

  lemma {:induction false} IndexedByLookups(a: Source, b: Source, prefix: string, i: nat)
    requires SameLookups(a, b)
    ensures IndexedFrom(a, prefix, i) == IndexedFrom(b, prefix, i)
    decreases Keys(a.entries) - NamesBelow(prefix, i)
  {
    var value := a.Get(Numbered(prefix, i));
    assert b.Get(Numbered(prefix, i)) == value;
    if value.Ok? && value.value.Some? && value.value.value != "" {
      LookupUsesKey(a, prefix, i);
      IndexedByLookups(a, b, prefix, i + 1);
    }
  }

  lemma ListByLookups(a: Source, b: Source, name: string)
    requires SameLookups(a, b)
    ensures ListOption(a, name) == ListOption(b, name)
  {
    IndexedByLookups(a, b, name, 0);
    assert a.Get(name) == b.Get(name);
  }

  /** Options are read through lookups alone. */
  lemma OptionsByLookups(a: Source, b: Source)
    requires SameLookups(a, b)
    ensures ReadOptions(a) == ReadOptions(b)
  {
    hide IndexedFrom, ListOption, Lookup, Numbered;
    ListByLookups(a, b, ALLOWED_ALG);
    ListByLookups(a, b, DISALLOWED_ALG);
    ListByLookups(a, b, DISALLOWED_USERNAME);
    IndexedByLookups(a, b, TRUSTED_AUD, 0);
    IndexedByLookups(a, b, TRUSTED_AZP, 0);
    IndexedByLookups(a, b, REQUIRED_SCOPE, 0);
  }

  /** A configuration file means what the first entry of each of its keys means. */
  lemma FirstEntryWins(contents: string)
    requires EntriesOf(Lines(contents)).Ok?
    ensures Config(contents) == Interpret(FirstEntries(EntriesOf(Lines(contents)).value))
  {
    hide ReadOptions, Lookup;
    var entries := EntriesOf(Lines(contents)).value;
    forall name: string {
      LookupFirst(entries, name);
    }
    OptionsByLookups(Source(true, entries), Source(true, FirstEntries(entries)));
  }

  predicate NotConfig(arg: string) {
    arg != "" && arg[0] != 'c'
  }

  lemma {:induction false} NoConfigArg(raw: seq<string>)
    requires forall arg | arg in raw :: NotConfig(arg)
    ensures ConfigPaths(raw) == []
  {
    if raw == [] {
    } else {
      NoConfigArg(raw[1..]);
      assert NotConfig(raw[0]);
      assert CONFIG_PREFIX[0] == 'c';
    }
  }

  lemma {:induction false} RepeatedStart(key: string, values: seq<string>)
    requires NotConfig(key)
    ensures forall arg | arg in Repeated(key, values) :: NotConfig(arg)
  {
    if values == [] {
    } else {
      RepeatedStart(key, values[1..]);
    }
  }

  lemma InlineSelectsNoFile(p: Policy)
    ensures ConfigPath(InlineOf(p)) == Ok(None)
  {
    RepeatedStart("iss", OptionalValue(p.iss));
    RepeatedStart("jwks", OptionalValue(p.jwks));
    RepeatedStart("trusted_aud", p.audiences);
    RepeatedStart("trusted_azp", p.parties);
    RepeatedStart("required_scope", p.scopes);
    RepeatedStart("disallowed_username", p.usernames);
    RepeatedStart("allowed_alg", AllowedNames(p));
    RepeatedStart("disallowed_alg", Names(p.disallowed));
    assert NotConfig(Arg("userid", p.userid)) && NotConfig(Arg("grace", ShowI64(p.grace)));
    NoConfigArg(InlineOf(p));
  }

  lemma OneConfigArg(path: string)
    ensures ConfigPath([CONFIG_PREFIX + path]) == Ok(Some(path))
  {
    var raw := [CONFIG_PREFIX + path];
    assert raw[1..] == [] && raw[0][|CONFIG_PREFIX|..] == path && raw[0][..|CONFIG_PREFIX|] == CONFIG_PREFIX;
  }

  /** The same policy through both front ends gives equal arguments, and each form selects its own front end. */
  lemma FrontEndsAgree(p: Policy, path: string)
    requires Writable(p)
    ensures ConfigPath(InlineOf(p)) == Ok(None) && ConfigPath([CONFIG_PREFIX + path]) == Ok(Some(path))
    ensures Inline(InlineOf(p)) == Config(FileOf(p)) == Ok(Denoted(p))
  {
    InlineSelectsNoFile(p);
    OneConfigArg(path);
    InlineDenotes(p);
    FileDenotes(p);
  }
}
