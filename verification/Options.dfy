/** The `oauthbearer_*` options shared by the SASL plugin and the PAM module. */
module Options {
  import opened Prelude
  import opened Text
  import opened Jwt

  datatype OptionError =
    | Unavailable
    | InvalidGrace
    | EmptyOption(name: string)
    | InvalidAlgorithm(option: string)
    | InvalidLine(line: nat)
    | MultipleValues(option: string)
    | MultipleConfigs
    | ConfigWithInline

  type Entry = (string, string)

  /** The value of the first entry with that key. */
  function Lookup(entries: seq<Entry>, name: string): (value: Option<string>)
    ensures value.Some? <==> name in Keys(entries)
  {
    if entries == [] then None
    else if entries[0].0 == name then Some(entries[0].1)
    else Lookup(entries[1..], name)
  }

  function Keys(entries: seq<Entry>): set<string> {
    set e | e in entries :: e.0
  }

  /** Where options come from: a finite list of entries, behind a lookup service that may be missing. */
  datatype Source = Source(available: bool, entries: seq<Entry>) {
    function Get(name: string): (r: Result<Option<string>, OptionError>) {
      if available then Ok(Lookup(entries, name)) else Err(Unavailable)
    }
  }

  // ---------- numbered options ----------

  function Numbered(prefix: string, index: nat): string {
    prefix + Decimal(index)
  }

  lemma NumberedInjective(prefix: string, i: nat, j: nat)
    requires Numbered(prefix, i) == Numbered(prefix, j)
    ensures i == j
  {
    assert Numbered(prefix, i)[|prefix|..] == Decimal(i);
    assert Numbered(prefix, j)[|prefix|..] == Decimal(j);
    DecimalInjective(i, j);
  }

  /** The first n numbered names. */
  function NamesBelow(prefix: string, n: nat): set<string> {
    set i | 0 <= i < n :: Numbered(prefix, i)
  }

  /** Every successful lookup uses up one key, because numbered names are pairwise distinct. */
  lemma LookupUsesKey(source: Source, prefix: string, i: nat)
    requires source.available && Lookup(source.entries, Numbered(prefix, i)).Some?
    ensures Keys(source.entries) - NamesBelow(prefix, i + 1) < Keys(source.entries) - NamesBelow(prefix, i)
  {
    var name := Numbered(prefix, i);
    assert name in NamesBelow(prefix, i + 1);
    if name in NamesBelow(prefix, i) {
      var j :| 0 <= j < i && Numbered(prefix, j) == name;
      NumberedInjective(prefix, i, j);
    }
    assert NamesBelow(prefix, i) <= NamesBelow(prefix, i + 1);
  }

  lemma {:induction false} NamesBelowCount(prefix: string, n: nat)
    ensures |NamesBelow(prefix, n)| == n
  {
    if n == 0 {
    } else {
      NamesBelowCount(prefix, n - 1);
      var name := Numbered(prefix, n - 1);
      if name in NamesBelow(prefix, n - 1) {
        var j :| 0 <= j < n - 1 && Numbered(prefix, j) == name;
        NumberedInjective(prefix, n - 1, j);
      }
      assert NamesBelow(prefix, n) == NamesBelow(prefix, n - 1) + {name};
    }
  }

  lemma {:induction false} KeysCount(entries: seq<Entry>)
    ensures |Keys(entries)| <= |entries|
  {
    if entries == [] {
    } else {
      KeysCount(entries[1..]);
      assert entries == [entries[0]] + entries[1..];
      assert Keys(entries) == {entries[0].0} + Keys(entries[1..]);
    }
  }

  lemma SubsetCount<T>(a: set<T>, b: set<T>)
    requires a <= b
    ensures |a| <= |b|
  {
    assert b == a + (b - a);
  }

  /** The pigeonhole: a consecutive run of n present names needs n entries. */
  lemma RunFits(entries: seq<Entry>, prefix: string, n: nat)
    requires forall i | 0 <= i < n :: Lookup(entries, Numbered(prefix, i)).Some?
    ensures n <= |entries|
  {
    NamesBelowCount(prefix, n);
    KeysCount(entries);
    SubsetCount(NamesBelow(prefix, n), Keys(entries));
  }

  function IndexedFrom(source: Source, prefix: string, index: nat): (r: Result<seq<string>, OptionError>)
    decreases Keys(source.entries) - NamesBelow(prefix, index)
  {
    var name := Numbered(prefix, index);
    var value :- source.Get(name);
    if value.None? then Ok([])
    else if value.value == "" then Err(EmptyOption(name))
    else
      LookupUsesKey(source, prefix, index);
      var rest :- IndexedFrom(source, prefix, index + 1);
      Ok([value.value] + rest)
  }

  function Indexed(source: Source, prefix: string): Result<seq<string>, OptionError> {
    IndexedFrom(source, prefix, 0)
  }

  /**
   The open-ended loop stops: it performs at most one lookup more than there
   are entries.
   */
  method GetIndexed(source: Source, prefix: string) returns (r: Result<seq<string>, OptionError>, ghost lookups: nat)
    ensures r == Indexed(source, prefix)
    ensures lookups <= |source.entries| + 1
  {
    var values: seq<string> := [];
    var index := 0;
    lookups := 0;
    assert forall rest: seq<string> :: values + rest == rest;
    while true
      invariant lookups == index == |values|
      invariant Indexed(source, prefix)
             == match IndexedFrom(source, prefix, index) case Err(e) => Err(e) case Ok(rest) => Ok(values + rest)
      invariant index > 0 ==> source.available
      invariant forall i | 0 <= i < index :: Lookup(source.entries, Numbered(prefix, i)).Some?
      decreases Keys(source.entries) - NamesBelow(prefix, index)
    {
      RunFits(source.entries, prefix, index);
      var name := Numbered(prefix, index);
      lookups := lookups + 1;
      var value := source.Get(name);
      if value.Err? {
        return Err(value.error), lookups;
      }
      if value.value.None? {
        assert values + [] == values;
        break;
      }
      if value.value.value == "" {
        return Err(EmptyOption(name)), lookups;
      }
      LookupUsesKey(source, prefix, index);
      assert forall rest: seq<string> :: values + ([value.value.value] + rest) == values + [value.value.value] + rest;
      values := values + [value.value.value];
      index := index + 1;
    }
    r := Ok(values);
  }

  /** values is the run from index i on: present, not empty, and as long as possible. */
  ghost predicate MaximalRun(source: Source, prefix: string, i: nat, values: seq<string>) {
    && (forall k | 0 <= k < |values| ::
          source.Get(Numbered(prefix, i + k)) == Ok(Some(values[k])) && values[k] != "")
    && source.Get(Numbered(prefix, i + |values|)) == Ok(None)
  }

  lemma RunTail(source: Source, prefix: string, i: nat, values: seq<string>)
    requires values != []
    ensures MaximalRun(source, prefix, i, values)
       <==> source.Get(Numbered(prefix, i)) == Ok(Some(values[0])) && values[0] != ""
            && MaximalRun(source, prefix, i + 1, values[1..])
  {
    var tail := values[1..];
    assert forall k | 0 <= k < |tail| :: tail[k] == values[k + 1];
    if MaximalRun(source, prefix, i, values) {
      assert source.Get(Numbered(prefix, i + 0)) == Ok(Some(values[0]));
      forall k | 0 <= k < |tail| ensures source.Get(Numbered(prefix, i + 1 + k)) == Ok(Some(tail[k])) {
        assert source.Get(Numbered(prefix, i + (k + 1))) == Ok(Some(values[k + 1]));
      }
    } else if source.Get(Numbered(prefix, i)) == Ok(Some(values[0])) && values[0] != "" {
      if MaximalRun(source, prefix, i + 1, tail) {
        forall k | 0 < k < |values| ensures source.Get(Numbered(prefix, i + k)) == Ok(Some(values[k])) {
          assert source.Get(Numbered(prefix, i + 1 + (k - 1))) == Ok(Some(tail[k - 1]));
        }
      }
    }
  }

  lemma {:induction false} IndexedFromMeaning(source: Source, prefix: string, i: nat, values: seq<string>)
    ensures IndexedFrom(source, prefix, i) == Ok(values) <==> MaximalRun(source, prefix, i, values)
    decreases Keys(source.entries) - NamesBelow(prefix, i)
  {
    var value := source.Get(Numbered(prefix, i));
    if values != [] {
      RunTail(source, prefix, i, values);
      assert values == [values[0]] + values[1..];
    }
    if value.Ok? && value.value.Some? && value.value.value != "" {
      LookupUsesKey(source, prefix, i);
      if values != [] {
        IndexedFromMeaning(source, prefix, i + 1, values[1..]);
      }
    }
  }

  /** On success the values are exactly the maximal consecutive run from index 0, and they fit the entries. */
  lemma IndexedIsMaximalRun(source: Source, prefix: string, values: seq<string>)
    ensures Indexed(source, prefix) == Ok(values) <==> MaximalRun(source, prefix, 0, values)
    ensures Indexed(source, prefix) == Ok(values) ==> |values| <= |source.entries|
  {
    IndexedFromMeaning(source, prefix, 0, values);
    if MaximalRun(source, prefix, 0, values) {
      forall k | 0 <= k < |values| ensures Lookup(source.entries, Numbered(prefix, k)).Some? {
        assert source.Get(Numbered(prefix, 0 + k)) == Ok(Some(values[k]));
      }
      RunFits(source.entries, prefix, |values|);
    }
  }

  // ---------- lists and algorithms ----------

  predicate IsListSeparator(c: char) {
    c == ',' || IsAsciiWhitespace(c)
  }

  function ListOption(source: Source, name: string): Result<seq<string>, OptionError> {
    var indexed :- Indexed(source, name);
    if indexed != [] then Ok(indexed)
    else
      var value :- source.Get(name);
      if value.None? then Ok([]) else Ok(Words(value.value, IsListSeparator))
  }

  function AddDistinct<T(==)>(values: seq<T>, value: T): seq<T> {
    if value in values then values else values + [value]
  }

  function AlgorithmsOf(option: string, names: seq<string>): Result<seq<Algorithm>, OptionError> {
    if names == [] then Ok([])
    else
      var front :- AlgorithmsOf(option, names[..|names| - 1]);
      match ParseAlgorithmName(names[|names| - 1])
      case None => Err(InvalidAlgorithm(option))
      case Some(alg) => Ok(AddDistinct(front, alg))
  }

  lemma {:induction false} AlgorithmsOfStops(option: string, names: seq<string>, n: nat)
    requires n <= |names| && AlgorithmsOf(option, names[..n]).Err?
    ensures AlgorithmsOf(option, names) == AlgorithmsOf(option, names[..n])
  {
    if n < |names| {
      assert names[..|names| - 1][..n] == names[..n];
      AlgorithmsOfStops(option, names[..|names| - 1], n);
    } else {
      assert names[..n] == names;
    }
  }

  method ParseAlgorithms(option: string, names: seq<string>) returns (r: Result<seq<Algorithm>, OptionError>)
    ensures r == AlgorithmsOf(option, names)
  {
    var result: seq<Algorithm> := [];
    for i := 0 to |names|
      invariant AlgorithmsOf(option, names[..i]) == Ok(result)
    {
      assert names[..i + 1][..i] == names[..i];
      var alg := ParseAlgorithmName(names[i]);
      if alg.None? {
        AlgorithmsOfStops(option, names, i + 1);
        return Err(InvalidAlgorithm(option));
      }
      if alg.value !in result {
        result := result + [alg.value];
      }
    }
    assert names[..|names|] == names;
    return Ok(result);
  }

  // ---------- the whole policy ----------

  datatype PolicyOptions = PolicyOptions(
    uidAttr: string,
    grace: I64,
    trustedIssuer: Option<string>,
    jwksPath: Option<string>,
    trustedAudiences: seq<string>,
    trustedAuthorizedParties: seq<string>,
    requiredScopes: seq<string>,
    disallowedUsernames: seq<string>,
    allowedAlgorithms: Option<seq<Algorithm>>,
    disallowedAlgorithms: seq<Algorithm>)

  const DEFAULT_UID_ATTR := "preferred_username"
  const USERID := "oauthbearer_userid"
  const GRACE := "oauthbearer_grace"
  const TRUSTED_ISS := "oauthbearer_trusted_iss"
  const TRUSTED_JWKS := "oauthbearer_trusted_jwks"
  const TRUSTED_AUD := "oauthbearer_trusted_aud"
  const TRUSTED_AZP := "oauthbearer_trusted_azp"
  const REQUIRED_SCOPE := "oauthbearer_required_scope"
  const DISALLOWED_USERNAME := "oauthbearer_disallowed_username"
  const ALLOWED_ALG := "oauthbearer_allowed_alg"
  const DISALLOWED_ALG := "oauthbearer_disallowed_alg"

  function ReadOptions(source: Source): Result<PolicyOptions, OptionError> {
    var userid :- source.Get(USERID);
    var graceText :- source.Get(GRACE);
    var grace := ParseI64(match graceText case None => "3" case Some(text) => text);
    if grace.None? then Err(InvalidGrace)
    else
      var allowedNames :- ListOption(source, ALLOWED_ALG);
      var allowed :- AlgorithmsOf(ALLOWED_ALG, allowedNames);
      var disallowedNames :- ListOption(source, DISALLOWED_ALG);
      var disallowed :- AlgorithmsOf(DISALLOWED_ALG, disallowedNames);
      var issuer :- source.Get(Numbered(TRUSTED_ISS, 0));
      var jwks :- source.Get(Numbered(TRUSTED_JWKS, 0));
      var audiences :- Indexed(source, TRUSTED_AUD);
      var parties :- Indexed(source, TRUSTED_AZP);
      var scopes :- Indexed(source, REQUIRED_SCOPE);
      var usernames :- ListOption(source, DISALLOWED_USERNAME);
      Ok(PolicyOptions(
           match NonEmpty(userid) case None => DEFAULT_UID_ATTR case Some(attr) => attr,
           grace.value,
           NonEmpty(issuer),
           NonEmpty(jwks),
           audiences,
           parties,
           scopes,
           usernames,
           if allowedNames == [] then None else Some(allowed),
           disallowed))
  }
}
