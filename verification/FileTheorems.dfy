/** What a configuration file means: its lines, its entries, and the options among them. */
module FileTheorems {
  import opened Prelude
  import opened Text
  import opened Jwt
  import opened Options
  import opened Pam
  import opened Plain
  import opened OptionTheorems

  // ---------- lines ----------

  lemma IndexOfLine(line: string, rest: string)
    requires '\n' !in line
    ensures IndexOf(line + "\n" + rest, '\n') == |line| && IndexOf(line, '\n') == |line|
  {
    var s := line + "\n" + rest;
    var n := IndexOf(s, '\n');
    assert s[|line|] == '\n' && forall k | 0 <= k < |line| :: s[k] == line[k];
    assert forall k | 0 <= k < n :: s[..n][k] == s[k];
  }

  /** Lines end at a line feed; one carriage return before it belongs to the end. The last one may have no end. */
  lemma LinesExactly(line: string, rest: string)
    requires '\n' !in line
    ensures Lines("") == [] && (line != "" ==> Lines(line) == [line])
    ensures (line == "" || line[|line| - 1] != '\r') ==> Lines(line + "\n" + rest) == [line] + Lines(rest)
    ensures Lines(line + "\r\n" + rest) == [line] + Lines(rest)
  {
    IndexOfLine(line, rest);
    IndexOfLine(line + "\r", rest);
    var s, t := line + "\n" + rest, line + "\r" + "\n" + rest;
    assert t == line + "\r\n" + rest;
    assert s[..|line|] == line && s[|line| + 1..] == rest;
    assert t[..|line| + 1] == line + "\r" && t[|line| + 2..] == rest;
  }

  // ---------- one line ----------

  predicate AllWhite(s: string) {
    forall c | c in s :: White(c)
  }

  /** key is k with its capital letters made small. */
  predicate SmallLetters(k: string, key: string) {
    |key| == |k| && forall i | 0 <= i < |k| :: key[i] as int == k[i] as int + if 'A' <= k[i] <= 'Z' then 32 else 0
  }

  predicate EntryWith(raw: string, key: string, value: string, lead: string, k: string, gap: string, tail: string) {
    && raw == lead + k + ":" + gap + value + tail
    && AllWhite(lead) && AllWhite(gap) && AllWhite(tail)
    && (forall c | c in k :: KeyLetter(c)) && SmallLetters(k, key)
    && value != "" && !White(value[0]) && !White(value[|value| - 1])
  }

  /** The line holds a key in any case, a colon and a value, with white space around key and value. */
  ghost predicate IsEntry(raw: string, key: string, value: string) {
    exists lead, k, gap, tail :: EntryWith(raw, key, value, lead, k, gap, tail)
  }

  /** The line is blank, or a comment after white space. */
  ghost predicate IsNoEntry(raw: string) {
    exists lead, rest :: raw == lead + rest && AllWhite(lead) && (rest == "" || rest[0] == '#')
  }

  lemma {:induction false} TrimStartSplits(s: string) returns (lead: string)
    ensures s == lead + TrimStart(s) && AllWhite(lead)
  {
    lead := "";
    if s != "" && IsWhitespace(s[0]) {
      WhiteIs(s[0]);
      var more := TrimStartSplits(s[1..]);
      lead := [s[0]] + more;
      assert s == [s[0]] + s[1..];
      assert [s[0]] + (more + TrimStart(s[1..])) == lead + TrimStart(s[1..]);
    }
  }

  lemma {:induction false} TrimEndSplits(s: string) returns (tail: string)
    ensures s == TrimEnd(s) + tail && AllWhite(tail)
  {
    tail := "";
    if s != "" && IsWhitespace(s[|s| - 1]) {
      WhiteIs(s[|s| - 1]);
      var front := s[..|s| - 1];
      var more := TrimEndSplits(front);
      tail := more + [s[|s| - 1]];
      assert s == front + [s[|s| - 1]];
      assert TrimEnd(front) + more + [s[|s| - 1]] == TrimEnd(front) + tail;
    }
  }

  lemma {:induction false} TrimStartOf(lead: string, rest: string)
    requires AllWhite(lead) && (rest == "" || !White(rest[0]))
    ensures TrimStart(lead + rest) == rest
  {
    if lead == "" {
      assert lead + rest == rest;
      if rest != "" {
        WhiteIs(rest[0]);
      }
    } else {
      WhiteIs(lead[0]);
      assert lead[0] in lead && forall c | c in lead[1..] :: c in lead;
      TrimStartOf(lead[1..], rest);
      assert (lead + rest)[1..] == lead[1..] + rest;
    }
  }

  lemma {:induction false} TrimEndOf(rest: string, tail: string)
    requires AllWhite(tail) && (rest == "" || !White(rest[|rest| - 1]))
    ensures TrimEnd(rest + tail) == rest
  {
    var s := rest + tail;
    if tail == "" {
      assert s == rest;
      if rest != "" {
        WhiteIs(rest[|rest| - 1]);
      }
    } else {
      WhiteIs(tail[|tail| - 1]);
      var front := tail[..|tail| - 1];
      assert tail[|tail| - 1] in tail && forall c | c in front :: c in tail;
      TrimEndOf(rest, front);
      assert s[..|s| - 1] == rest + front;
    }
  }

  /** Trimming removes the white space at both ends, and nothing else. */
  lemma TrimExactly(lead: string, value: string, tail: string)
    requires AllWhite(lead) && AllWhite(tail)
    requires value != "" && !White(value[0]) && !White(value[|value| - 1])
    ensures Trim(lead + value + tail) == value
  {
    assert lead + value + tail == lead + (value + tail);
    TrimStartOf(lead, value + tail);
    TrimEndOf(value, tail);
  }

  lemma TrimSplits(s: string) returns (lead: string, tail: string)
    ensures s == lead + Trim(s) + tail && AllWhite(lead) && AllWhite(tail)
    ensures Trim(s) != "" ==> !White(Trim(s)[0]) && !White(Trim(s)[|Trim(s)| - 1])
  {
    hide TrimStart, TrimEnd, White, IsWhitespace, AllWhite;
    lead := TrimStartSplits(s);
    tail := TrimEndSplits(TrimStart(s));
    var t := Trim(s);
    if t != "" {
      assert TrimStart(s)[0] == t[0];
      WhiteIs(t[0]);
      WhiteIs(t[|t| - 1]);
    }
    assert lead + (t + tail) == lead + t + tail;
  }

  lemma SplitIs(key: string, rest: string)
    requires ':' !in key
    ensures SplitOnce(key + ":" + rest, ':') == Some((key, rest))
  {
    var s := key + ":" + rest;
    var n := IndexOf(s, ':');
    assert s[|key|] == ':' && s[..|key|] == key && s[|key| + 1..] == rest;
    assert forall k | 0 <= k < |key| :: s[k] == key[k];
    assert forall k | 0 <= k < n :: s[..n][k] == s[k];
  }

  lemma {:induction false} LetterNotWhite(k: string)
    requires forall c | c in k :: KeyLetter(c)
    ensures ':' !in k && '#' !in k && forall c | c in k :: !White(c)
  {
  }

  lemma SmallLettersIs(k: string, key: string)
    ensures SmallLetters(k, key) <==> AsciiLowercase(k) == key
  {
    if SmallLetters(k, key) {
      assert AsciiLowercase(k) == key;
    }
  }

  lemma EntryRead(raw: string, key: string, value: string)
    requires IsEntry(raw, key, value)
    ensures ReadLine(raw) == KeyValue(key, value)
  {
    var lead, k, gap, tail :| EntryWith(raw, key, value, lead, k, gap, tail);
    LetterNotWhite(k);
    var line, rest := k + ":" + (gap + value + tail), gap + value + tail;
    assert raw == lead + line;
    assert line[0] == if k == "" then ':' else k[0];
    assert k != "" ==> k[0] in k;
    TrimStartOf(lead, line);
    SplitIs(k, rest);
    TrimExactly(gap, value, tail);
    SmallLettersIs(k, key);
    assert forall c | c in k :: IsKeyChar(c);
  }

  lemma ReadEntry(raw: string)
    requires ReadLine(raw).KeyValue?
    ensures IsEntry(raw, ReadLine(raw).key, ReadLine(raw).value)
  {
    hide TrimStart, Trim, White;
    var line := TrimStart(raw);
    var lead := TrimStartSplits(raw);
    var n := IndexOf(line, ':');
    var k, rest := line[..n], line[n + 1..];
    var gap, tail := TrimSplits(rest);
    var value := Trim(rest);
    SmallLettersIs(k, AsciiLowercase(k));
    assert line == k + ":" + rest;
    assert raw == lead + k + ":" + gap + value + tail;
    assert forall c | c in k :: KeyLetter(c);
    assert EntryWith(raw, AsciiLowercase(k), value, lead, k, gap, tail);
  }

  lemma NoEntryRead(raw: string)
    ensures ReadLine(raw) == Skipped <==> IsNoEntry(raw)
  {
    var lead := TrimStartSplits(raw);
    var line := TrimStart(raw);
    if IsNoEntry(raw) {
      var l, rest :| raw == l + rest && AllWhite(l) && (rest == "" || rest[0] == '#');
      TrimStartOf(l, rest);
    }
    if line == "" || line[0] == '#' {
      assert raw == lead + line;
    }
  }

  /** A line is read as the entry it holds, in any case of the key. Blank lines and comments are skipped, others bad. */
  lemma ReadLineExactly(raw: string)
    ensures forall key, value :: ReadLine(raw) == KeyValue(key, value) <==> IsEntry(raw, key, value)
    ensures ReadLine(raw) == Skipped <==> IsNoEntry(raw)
  {
    hide ReadLine, IsEntry, IsNoEntry;
    forall key, value | IsEntry(raw, key, value) ensures ReadLine(raw) == KeyValue(key, value) {
      EntryRead(raw, key, value);
    }
    if ReadLine(raw).KeyValue? {
      ReadEntry(raw);
    }
    NoEntryRead(raw);
  }

  // ---------- the entries of a file ----------

  ghost predicate BadLine(line: string) {
    !IsNoEntry(line) && forall key, value :: !IsEntry(line, key, value)
  }

  /** The entries are those of the lines, in order: entries[k] is that of line at[k], all others are skipped. */
  ghost predicate EntriesAt(lines: seq<string>, entries: seq<Entry>, at: seq<nat>) {
    && |at| == |entries|
    && (forall k | 0 <= k < |at| :: at[k] < |lines| && IsEntry(lines[at[k]], entries[k].0, entries[k].1))
    && (forall j, k | 0 <= j < k < |at| :: at[j] < at[k])
    && (forall i: nat | i < |lines| :: i in at || IsNoEntry(lines[i]))
  }

  ghost predicate EntriesAre(lines: seq<string>, entries: seq<Entry>) {
    exists at :: EntriesAt(lines, entries, at)
  }

  ghost predicate FirstBadLine(lines: seq<string>, n: nat) {
    0 < n <= |lines| && BadLine(lines[n - 1]) && forall i | 0 <= i < n - 1 :: !BadLine(lines[i])
  }

  lemma EntriesAtSkip(front: seq<string>, line: string, entries: seq<Entry>, at: seq<nat>)
    requires EntriesAt(front, entries, at) && IsNoEntry(line)
    ensures EntriesAt(front + [line], entries, at)
  {
    hide IsEntry, IsNoEntry;
    var lines := front + [line];
    forall i: nat | i < |lines| ensures i in at || IsNoEntry(lines[i]) {
      assert i < |front| ==> i in at || IsNoEntry(front[i]);
    }
  }

  lemma EntriesAtAdd(front: seq<string>, line: string, entries: seq<Entry>, at: seq<nat>, e: Entry)
    requires EntriesAt(front, entries, at) && IsEntry(line, e.0, e.1)
    ensures EntriesAt(front + [line], entries + [e], at + [|front|])
  {
    hide IsEntry, IsNoEntry;
    var lines, more := front + [line], at + [|front|];
    forall i: nat | i < |lines| ensures i in more || IsNoEntry(lines[i]) {
      if i == |front| {
        assert more[|at|] == i;
      } else {
        assert i in at || IsNoEntry(front[i]);
      }
    }
  }

  /** A file is read into the entries of its lines, or refused at the first bad line. */
  lemma {:induction false} EntriesExactly(lines: seq<string>)
    ensures match EntriesOf(lines)
            case Ok(entries) => EntriesAre(lines, entries)
            case Err(e) => e.InvalidLine? && FirstBadLine(lines, e.line)
    ensures EntriesOf(lines).Ok? <==> forall line | line in lines :: !BadLine(line)
  {
    hide IsEntry, IsNoEntry, ReadLine, EntriesAt;
    if lines == [] {
      assert EntriesAt([], [], []) by {
        NoEntries();
      }
    } else {
      var front, line := lines[..|lines| - 1], lines[|lines| - 1];
      assert lines == front + [line];
      EntriesExactly(front);
      ReadLineExactly(line);
      if EntriesOf(front).Ok? {
        var entries := EntriesOf(front).value;
        var at :| EntriesAt(front, entries, at);
        match ReadLine(line) {
          case Skipped => EntriesAtSkip(front, line, entries, at);
          case KeyValue(key, value) => EntriesAtAdd(front, line, entries, at, (key, value));
          case Invalid => assert BadLine(line);
        }
      }
    }
  }

  lemma NoEntries()
    ensures EntriesAt([], [], [])
  {
  }

  // ---------- options ----------

  predicate Unset(entries: seq<Entry>, name: string) {
    forall e | e in entries :: e.0 != name
  }

  /** Entry k is the first with this name, and has this value. */
  predicate FirstAt(entries: seq<Entry>, name: string, value: string, k: nat) {
    k < |entries| && entries[k] == (name, value) && forall j | 0 <= j < k :: entries[j].0 != name
  }

  /** The first entry with this name has this value. */
  ghost predicate Sets(entries: seq<Entry>, name: string, value: string) {
    exists k: nat :: FirstAt(entries, name, value, k)
  }

  lemma {:induction false} LookupExactly(entries: seq<Entry>, name: string)
    ensures Lookup(entries, name) == None <==> Unset(entries, name)
    ensures forall value :: Lookup(entries, name) == Some(value) <==> Sets(entries, name, value)
  {
    if entries == [] {
    } else {
      var rest := entries[1..];
      LookupExactly(rest, name);
      assert entries == [entries[0]] + rest;
      forall value ensures Lookup(entries, name) == Some(value) <==> Sets(entries, name, value) {
        if entries[0].0 == name {
          assert FirstAt(entries, name, entries[0].1, 0);
        } else {
          SetsCons(entries[0], rest, name, value);
        }
      }
    }
  }

  lemma SetsCons(e: Entry, rest: seq<Entry>, name: string, value: string)
    requires e.0 != name
    ensures Sets([e] + rest, name, value) <==> Sets(rest, name, value)
  {
    assert !FirstAt([e] + rest, name, value, 0);
    hide FirstAt;
    if Sets([e] + rest, name, value) {
      var k: nat :| FirstAt([e] + rest, name, value, k);
      FirstAtCons(e, rest, name, value, k - 1);
    }
    if Sets(rest, name, value) {
      var k: nat :| FirstAt(rest, name, value, k);
      FirstAtCons(e, rest, name, value, k);
    }
  }

  lemma FirstAtCons(e: Entry, rest: seq<Entry>, name: string, value: string, k: nat)
    requires e.0 != name
    ensures FirstAt([e] + rest, name, value, k + 1) <==> FirstAt(rest, name, value, k)
  {
    var entries := [e] + rest;
    assert forall j | 0 <= j < |rest| :: entries[j + 1] == rest[j];
    if FirstAt(entries, name, value, k + 1) {
      forall j | 0 <= j < k ensures rest[j].0 != name {
        assert entries[j + 1].0 != name;
      }
    }
    if FirstAt(rest, name, value, k) {
      forall j | 0 <= j < k + 1 ensures entries[j].0 != name {
        assert j > 0 ==> entries[j] == rest[j - 1];
      }
    }
  }

  /** The values of prefix0, prefix1 and so on, up to the first number that is not set; none is empty. */
  ghost predicate NumberedValues(entries: seq<Entry>, prefix: string, values: seq<string>) {
    && (forall k: nat | k < |values| :: Sets(entries, prefix + Decimal(k), values[k]) && values[k] != "")
    && Unset(entries, prefix + Decimal(|values|))
  }

  predicate ListSeparator(c: char) {
    c == ',' || Blank(c)
  }

  /** Numbered values, or else the pieces of the unnumbered value, or else none. */
  ghost predicate ListValues(entries: seq<Entry>, name: string, values: seq<string>) {
    || (values != [] && NumberedValues(entries, name, values))
    || (Unset(entries, name + "0") &&
        if Unset(entries, name) then values == []
        else exists text :: Sets(entries, name, text) && ArePieces(text, ListSeparator, values))
  }

  /** An empty value counts as none. */
  ghost predicate OptionalOf(entries: seq<Entry>, name: string, value: Option<string>) {
    match value
    case Some(v) => v != "" && Sets(entries, name, v)
    case None => Unset(entries, name) || Sets(entries, name, "")
  }

  /** The text of the grace option, or its default. */
  ghost predicate GraceText(entries: seq<Entry>, text: string) {
    Sets(entries, "oauthbearer_grace", text) || (Unset(entries, "oauthbearer_grace") && text == "3")
  }

  /** The attribute that names the user, or its default. */
  ghost predicate UserAttribute(entries: seq<Entry>, attr: string) {
    || (attr != "" && Sets(entries, "oauthbearer_userid", attr))
    || (OptionalOf(entries, "oauthbearer_userid", None) && attr == "preferred_username")
  }

  /** No list at all, or the algorithms it names. */
  ghost predicate AllowedList(entries: seq<Entry>, algs: Option<seq<Algorithm>>) {
    match algs
    case None => ListValues(entries, "oauthbearer_allowed_alg", [])
    case Some(list) =>
      exists names ::
        names != [] && ListValues(entries, "oauthbearer_allowed_alg", names) && AlgorithmsNamed(names, list)
  }

  /** What the options of a file say. A file does not restrict hosts. */
  ghost predicate SaysFile(entries: seq<Entry>, args: PamArgs) {
    && UserAttribute(entries, args.userid)
    && (exists text :: GraceText(entries, text) && IsNumber(text, args.grace))
    && OptionalOf(entries, "oauthbearer_trusted_iss0", args.iss)
    && OptionalOf(entries, "oauthbearer_trusted_jwks0", args.jwks)
    && NumberedValues(entries, "oauthbearer_trusted_aud", args.trustedAud)
    && NumberedValues(entries, "oauthbearer_trusted_azp", args.trustedAzp)
    && NumberedValues(entries, "oauthbearer_required_scope", args.requiredScope)
    && ListValues(entries, "oauthbearer_disallowed_username", args.disallowedUsernames)
    && AllowedList(entries, args.allowedAlgorithms)
    && (exists names ::
          ListValues(entries, "oauthbearer_disallowed_alg", names) && AlgorithmsNamed(names, args.disallowedAlgorithms))
    && args.onlyFrom == []
  }

  ghost predicate SetsSomething(entries: seq<Entry>, name: string) {
    exists v :: v != "" && Sets(entries, name, v)
  }

  /** The numbered values of prefix run up to number k, which is set to nothing. */
  ghost predicate EmptyAt(entries: seq<Entry>, prefix: string, k: nat) {
    && Sets(entries, prefix + Decimal(k), "")
    && forall j: nat | j < k :: SetsSomething(entries, prefix + Decimal(j))
  }

  predicate IsListName(name: string) {
    || name == "oauthbearer_trusted_aud" || name == "oauthbearer_trusted_azp" || name == "oauthbearer_required_scope"
    || name == "oauthbearer_disallowed_username"
    || name == "oauthbearer_allowed_alg" || name == "oauthbearer_disallowed_alg"
  }

  /** Why options are refused. */
  ghost predicate FileRefused(entries: seq<Entry>, e: OptionError) {
    match e
    case InvalidGrace => exists text :: GraceText(entries, text) && forall n :: !IsNumber(text, n)
    case EmptyOption(name) =>
      exists prefix, k: nat :: IsListName(prefix) && name == prefix + Decimal(k) && EmptyAt(entries, prefix, k)
    case InvalidAlgorithm(option) =>
      IsListName(option) && exists names :: ListValues(entries, option, names) && !AllNamed(names)
    case _ => false
  }

  function FromEntries(entries: seq<Entry>): Source {
    Source(true, entries)
  }

  lemma NumberedRun(entries: seq<Entry>, prefix: string)
    ensures match Indexed(FromEntries(entries), prefix)
            case Ok(values) => NumberedValues(entries, prefix, values)
            case Err(e) =>
              e.EmptyOption? && exists k: nat :: e.name == prefix + Decimal(k) && EmptyAt(entries, prefix, k)
  {
    var source := FromEntries(entries);
    match Indexed(source, prefix)
    case Ok(values) =>
      IndexedIsMaximalRun(source, prefix, values);
      hide IndexedFrom, Lookup, Sets, Unset;
      forall k: nat | k < |values| ensures Sets(entries, prefix + Decimal(k), values[k]) && values[k] != "" {
        assert source.Get(Numbered(prefix, 0 + k)) == Ok(Some(values[k]));
        LookupExactly(entries, prefix + Decimal(k));
      }
      LookupExactly(entries, prefix + Decimal(|values|));
      assert source.Get(Numbered(prefix, 0 + |values|)) == Ok(None);
    case Err(e) =>
      var k := EmptyFound(entries, prefix, 0);
  }

  lemma {:induction false} EmptyFound(entries: seq<Entry>, prefix: string, i: nat) returns (k: nat)
    requires IndexedFrom(FromEntries(entries), prefix, i).Err?
    requires forall j: nat | j < i :: SetsSomething(entries, prefix + Decimal(j))
    ensures IndexedFrom(FromEntries(entries), prefix, i).error == EmptyOption(prefix + Decimal(k))
    ensures EmptyAt(entries, prefix, k)
    decreases Keys(entries) - NamesBelow(prefix, i)
  {
    hide Lookup, Sets, Decimal;
    var source := FromEntries(entries);
    LookupExactly(entries, prefix + Decimal(i));
    var value := source.Get(Numbered(prefix, i)).value.value;
    assert Sets(entries, prefix + Decimal(i), value);
    if value == "" {
      k := i;
      assert Sets(entries, prefix + Decimal(k), "");
    } else {
      assert SetsSomething(entries, prefix + Decimal(i));
      LookupUsesKey(source, prefix, i);
      k := EmptyFound(entries, prefix, i + 1);
    }
  }

  lemma ListRead(entries: seq<Entry>, name: string)
    ensures match ListOption(FromEntries(entries), name)
            case Ok(values) => ListValues(entries, name, values)
            case Err(e) => e.EmptyOption? && exists k: nat :: e.name == name + Decimal(k) && EmptyAt(entries, name, k)
  {
    NumberedRun(entries, name);
    LookupExactly(entries, name);
    hide Indexed, Lookup, Sets, Unset, EmptyAt;
    assert Decimal(0) == "0";
    match Indexed(FromEntries(entries), name)
    case Err(_) =>
    case Ok(indexed) =>
      if indexed == [] && Lookup(entries, name).Some? {
        var text := Lookup(entries, name).value;
        forall c: char ensures ListSeparator(c) == IsListSeparator(c) {
          BlankIs(c);
        }
        PiecesAre(text, ListSeparator, IsListSeparator);
      }
  }

  lemma {:induction false} AlgorithmsRead(option: string, names: seq<string>)
    ensures match AlgorithmsOf(option, names)
            case Ok(algs) => AllNamed(names) && AlgorithmsNamed(names, algs)
            case Err(e) => e == InvalidAlgorithm(option) && !AllNamed(names)
  {
    hide NamesAlgorithm, ParseAlgorithmName, AlgorithmsNamed, AddDistinct;
    if names == [] {
      NoneNamed();
    } else {
      var front, last := names[..|names| - 1], names[|names| - 1];
      assert names == front + [last];
      AlgorithmsRead(option, front);
      NameExists(last);
      assert last in names;
      assert forall n | n in front :: n in names;
      if AlgorithmsOf(option, front).Ok? && ParseAlgorithmName(last).Some? {
        AddedAlgorithm(AlgorithmsOf(option, front).value, front, last);
      }
    }
  }

  ghost predicate AlgorithmsAre(entries: seq<Entry>, names: seq<string>, r: Result<seq<Algorithm>, OptionError>) {
    if r.Ok? then AlgorithmsNamed(names, r.value) else FileRefused(entries, r.error)
  }

  /** A list, and the algorithms it names if it is read as such. */
  lemma ListsRead(entries: seq<Entry>, option: string)
    requires IsListName(option)
    ensures var names := ListOption(FromEntries(entries), option);
            && (names.Err? ==> FileRefused(entries, names.error))
            && (names.Ok? ==> ListValues(entries, option, names.value))
            && (names.Ok? ==> AlgorithmsAre(entries, names.value, AlgorithmsOf(option, names.value)))
  {
    hide ListOption, ListValues, AlgorithmsOf, AlgorithmsNamed, EmptyAt, AllNamed, IsListName;
    ListRead(entries, option);
    match ListOption(FromEntries(entries), option)
    case Err(_) =>
    case Ok(list) => AlgorithmsRead(option, list);
  }

  lemma OptionalRead(entries: seq<Entry>, name: string)
    ensures OptionalOf(entries, name, NonEmpty(Lookup(entries, name)))
  {
    LookupExactly(entries, name);
    hide Lookup, Sets, Unset;
    if Lookup(entries, name).Some? {
      assert Sets(entries, name, Lookup(entries, name).value);
    }
  }

  lemma UserRead(entries: seq<Entry>)
    ensures UserAttribute(entries,
                          match NonEmpty(Lookup(entries, USERID)) case None => DEFAULT_UID_ATTR case Some(v) => v)
  {
    OptionalRead(entries, USERID);
    hide Lookup, Sets, Unset;
  }

  lemma GraceRead(entries: seq<Entry>)
    ensures var text := match Lookup(entries, GRACE) case None => "3" case Some(v) => v;
            && GraceText(entries, text)
            && (ParseI64(text).Some? ==> IsNumber(text, ParseI64(text).value))
            && (ParseI64(text).None? ==> FileRefused(entries, InvalidGrace))
  {
    LookupExactly(entries, GRACE);
    hide Lookup, Sets, Unset, ParseI64, IsNumber;
    var text := match Lookup(entries, GRACE) case None => "3" case Some(v) => v;
    if Lookup(entries, GRACE).Some? {
      assert Sets(entries, GRACE, text);
    }
    NumbersExactly(text, 0);
    if ParseI64(text).Some? {
      NumbersExactly(text, ParseI64(text).value);
    }
  }

  lemma NumberedListsRead(entries: seq<Entry>, name: string)
    requires IsListName(name)
    ensures match Indexed(FromEntries(entries), name)
            case Ok(values) => NumberedValues(entries, name, values)
            case Err(e) => FileRefused(entries, e)
  {
    hide Indexed, NumberedValues, EmptyAt, IsListName;
    NumberedRun(entries, name);
  }

  /** The options of a file mean what they say, or are refused for one of three reasons. */
  lemma OptionsExactly(entries: seq<Entry>)
    ensures match Interpret(entries)
            case Ok(args) => SaysFile(entries, args)
            case Err(e) => FileRefused(entries, e)
  {
    hide Indexed, ListOption, AlgorithmsOf, Lookup, ParseI64, IsNumber, FileRefused, ListValues, NumberedValues,
      AlgorithmsNamed, OptionalOf, UserAttribute, GraceText;
    UserRead(entries);
    GraceRead(entries);
    ListsRead(entries, ALLOWED_ALG);
    ListsRead(entries, DISALLOWED_ALG);
    OptionalRead(entries, Numbered(TRUSTED_ISS, 0));
    OptionalRead(entries, Numbered(TRUSTED_JWKS, 0));
    NumberedListsRead(entries, TRUSTED_AUD);
    NumberedListsRead(entries, TRUSTED_AZP);
    NumberedListsRead(entries, REQUIRED_SCOPE);
    ListsRead(entries, DISALLOWED_USERNAME);
    assert Numbered(TRUSTED_ISS, 0) == "oauthbearer_trusted_iss0";
    assert Numbered(TRUSTED_JWKS, 0) == "oauthbearer_trusted_jwks0";
  }

  lemma NoLineRefused(entries: seq<Entry>)
    ensures forall n :: !FileRefused(entries, InvalidLine(n))
  {
  }

  /** From the bytes of a file to the arguments it gives: every line, every entry and every option counts as it says. */
  lemma FileExactly(contents: string)
    ensures match Config(contents)
            case Ok(args) => exists entries :: EntriesAre(Lines(contents), entries) && SaysFile(entries, args)
            case Err(InvalidLine(n)) => FirstBadLine(Lines(contents), n)
            case Err(e) => exists entries :: EntriesAre(Lines(contents), entries) && FileRefused(entries, e)
  {
    hide EntriesOf, Lines, Interpret, SaysFile, FileRefused, EntriesAre, FirstBadLine;
    EntriesExactly(Lines(contents));
    if EntriesOf(Lines(contents)).Ok? {
      var entries := EntriesOf(Lines(contents)).value;
      OptionsExactly(entries);
      NoLineRefused(entries);
    }
  }
}
