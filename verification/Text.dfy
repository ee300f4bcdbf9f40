/** The parts of Rust's `str` the option readers and claim checks rely on. */
module Text {
  import opened Prelude

  /** `char::is_ascii_whitespace` */
  predicate IsAsciiWhitespace(c: char) {
    c == ' ' || c == '\t' || c == '\n' || c == '\U{0C}' || c == '\r'
  }

  /** `char::is_whitespace`: the Unicode White_Space property. */
  predicate IsWhitespace(c: char) {
    var n := c as int;
    0x09 <= n <= 0x0D || n == 0x20 || n == 0x85 || n == 0xA0 || n == 0x1680 || 0x2000 <= n <= 0x200A
    || n == 0x2028 || n == 0x2029 || n == 0x202F || n == 0x205F || n == 0x3000
  }

  /** `char::is_control`: general category Cc. */
  predicate IsControl(c: char) {
    var n := c as int;
    n <= 0x1F || 0x7F <= n <= 0x9F
  }

  function TrimStart(s: string): (r: string)
    ensures r != "" ==> !IsWhitespace(r[0])
  {
    if s != "" && IsWhitespace(s[0]) then TrimStart(s[1..]) else s
  }

  function TrimEnd(s: string): (r: string)
    ensures r <= s
    ensures r != "" ==> !IsWhitespace(r[|r| - 1])
  {
    if s != "" && IsWhitespace(s[|s| - 1]) then TrimEnd(s[..|s| - 1]) else s
  }

  function Trim(s: string): string {
    TrimEnd(TrimStart(s))
  }

  predicate Trimmed(s: string) {
    s != "" ==> !IsWhitespace(s[0]) && !IsWhitespace(s[|s| - 1])
  }

  lemma TrimmedIsFixed(s: string)
    ensures Trim(s) == s <==> Trimmed(s)
  {
    if s != "" && IsWhitespace(s[0]) {
      TrimStartShrinks(s);
    }
  }

  lemma {:induction false} TrimStartShrinks(s: string)
    ensures |TrimStart(s)| <= |s|
    ensures s != "" && IsWhitespace(s[0]) ==> |TrimStart(s)| < |s|
  {
    if s == "" {
    } else {
      TrimStartShrinks(s[1..]);
    }
  }

  function AsciiLowerChar(c: char): char {
    if 'A' <= c <= 'Z' then (c as int + 0x20) as char else c
  }

  /** `str::to_ascii_lowercase` */
  function AsciiLowercase(s: string): string {
    seq(|s|, i requires 0 <= i < |s| => AsciiLowerChar(s[i]))
  }

  /** `str::eq_ignore_ascii_case` */
  predicate SameIgnoringAsciiCase(a: string, b: string) {
    AsciiLowercase(a) == AsciiLowercase(b)
  }

  // ---------- splitting ----------

  /** Index of the first character satisfying p, or the length. */
  function Find(s: string, p: char -> bool): (n: nat)
    ensures n <= |s|
    ensures forall i | 0 <= i < n :: !p(s[i])
    ensures n < |s| ==> p(s[n])
  {
    if s == "" || p(s[0]) then 0 else 1 + Find(s[1..], p)
  }

  /** `split(p).filter(|v| !v.is_empty())`, which is also `split_ascii_whitespace` when p is that property. */
  function Words(s: string, p: char -> bool): (words: seq<string>)
    decreases |s|
  {
    var n := Find(s, p);
    (if n == 0 then [] else [s[..n]]) + (if n == |s| then [] else Words(s[n + 1..], p))
  }

  /** w occurs in s at i, is not empty, holds no separator, and is cut off by separators or the ends. */
  ghost predicate IsWordAt(s: string, p: char -> bool, w: string, i: nat) {
    && w != "" && i + |w| <= |s| && s[i..i + |w|] == w
    && (forall k | 0 <= k < |w| :: !p(w[k]))
    && (i > 0 ==> p(s[i - 1]))
    && (i + |w| < |s| ==> p(s[i + |w|]))
  }

  lemma WordAtInRest(s: string, p: char -> bool, w: string, n: nat, j: nat)
    requires 0 < n <= |s| && p(s[n - 1])
    requires IsWordAt(s[n..], p, w, j)
    ensures IsWordAt(s, p, w, n + j)
  {
    var rest := s[n..];
    assert s[n + j..n + j + |w|] == rest[j..j + |w|];
    assert j > 0 ==> rest[j - 1] == s[n + j - 1];
    assert j + |w| < |rest| ==> rest[j + |w|] == s[n + j + |w|];
  }

  /** The converse: a run beyond the first separator is one of the rest. */
  lemma RestWordAt(s: string, p: char -> bool, w: string, n: nat, i: nat)
    requires n <= i && IsWordAt(s, p, w, i)
    ensures n <= |s| && IsWordAt(s[n..], p, w, i - n)
  {
    var rest := s[n..];
    assert rest[i - n..i - n + |w|] == s[i..i + |w|];
  }

  /** The word that starts before the first separator, if any, starts at 0. */
  lemma FirstWord(s: string, p: char -> bool)
    ensures var n := Find(s, p);
            && (n > 0 ==> IsWordAt(s, p, s[..n], 0))
            && forall w, i: nat | i <= n && IsWordAt(s, p, w, i) :: i == 0 && n > 0
  {
    var n := Find(s, p);
    forall w, i: nat | i <= n && IsWordAt(s, p, w, i) ensures i == 0 && n > 0 {
      assert s[i] == w[0];
    }
  }

  /** words are the runs of s, all of them, at the increasing positions starts. */
  ghost predicate RunsInOrder(s: string, p: char -> bool, words: seq<string>, starts: seq<nat>) {
    && |starts| == |words|
    && (forall k | 0 <= k < |starts| :: IsWordAt(s, p, words[k], starts[k]))
    && (forall j, k | 0 <= j < k < |starts| :: starts[j] < starts[k])
    && (forall w, i: nat | IsWordAt(s, p, w, i) :: i in starts)
  }

  function Moved(starts: seq<nat>, n: nat): (moved: seq<nat>)
    ensures |moved| == |starts| && forall k | 0 <= k < |starts| :: moved[k] == n + starts[k]
  {
    seq(|starts|, k requires 0 <= k < |starts| => n + starts[k])
  }

  /** The runs of the rest are those of s from n on. */
  lemma RunsOfRest(s: string, p: char -> bool, n: nat, words: seq<string>, starts: seq<nat>)
    requires 0 < n <= |s| && p(s[n - 1]) && RunsInOrder(s[n..], p, words, starts)
    ensures var moved := Moved(starts, n);
            && (forall k | 0 <= k < |moved| :: IsWordAt(s, p, words[k], moved[k]) && moved[k] >= n)
            && (forall j, k | 0 <= j < k < |moved| :: moved[j] < moved[k])
            && forall w, i: nat | n <= i && IsWordAt(s, p, w, i) :: i in moved
  {
    hide IsWordAt;
    var moved := Moved(starts, n);
    forall k | 0 <= k < |moved| ensures IsWordAt(s, p, words[k], moved[k]) {
      WordAtInRest(s, p, words[k], n, starts[k]);
    }
    forall w, i: nat | n <= i && IsWordAt(s, p, w, i) ensures i in moved {
      RestWordAt(s, p, w, n, i);
      var k :| 0 <= k < |starts| && starts[k] == i - n;
      assert moved[k] == i;
    }
  }

  /** A word at 0 before runs that start later. */
  lemma ConsRuns(s: string, p: char -> bool, n: nat, words: seq<string>, starts: seq<nat>)
    requires |starts| == |words| && 0 < n <= |s| && IsWordAt(s, p, s[..n], 0)
    requires forall k | 0 <= k < |starts| :: IsWordAt(s, p, words[k], starts[k]) && starts[k] > n
    requires forall j, k | 0 <= j < k < |starts| :: starts[j] < starts[k]
    requires forall w, i: nat | IsWordAt(s, p, w, i) :: i == 0 || i in starts
    ensures RunsInOrder(s, p, [s[..n]] + words, [0] + starts)
  {
    hide IsWordAt;
    var all: seq<nat> := [0] + starts;
    forall k | 0 <= k < |all| ensures IsWordAt(s, p, ([s[..n]] + words)[k], all[k]) {
      if k > 0 {
        assert all[k] == starts[k - 1] && ([s[..n]] + words)[k] == words[k - 1];
      }
    }
    forall j, k | 0 <= j < k < |all| ensures all[j] < all[k] {
      assert all[k] == starts[k - 1] && (j > 0 ==> all[j] == starts[j - 1]);
    }
    forall w, i: nat | IsWordAt(s, p, w, i) ensures i in all {
      assert i == 0 ==> all[0] == i;
    }
  }

  lemma JoinedRuns(s: string, p: char -> bool, n: nat, words: seq<string>, tail: seq<nat>)
    requires n == Find(s, p) < |s| && RunsInOrder(s[n + 1..], p, words, tail)
    ensures n == 0 ==> RunsInOrder(s, p, words, Moved(tail, n + 1))
    ensures n > 0 ==> RunsInOrder(s, p, [s[..n]] + words, [0] + Moved(tail, n + 1))
  {
    hide IsWordAt, Find;
    var moved := Moved(tail, n + 1);
    RunsOfRest(s, p, n + 1, words, tail);
    assert |moved| == |words|;
    hide RunsInOrder, Moved;
    FirstWord(s, p);
    forall w, i: nat | IsWordAt(s, p, w, i) ensures (i == 0 && n > 0) || i in moved {
      if i > n {
        assert i in moved;
      }
    }
    if n == 0 {
      AllRuns(s, p, words, moved);
    } else {
      ConsRuns(s, p, n, words, moved);
    }
  }

  lemma AllRuns(s: string, p: char -> bool, words: seq<string>, starts: seq<nat>)
    requires |starts| == |words| && forall k | 0 <= k < |starts| :: IsWordAt(s, p, words[k], starts[k])
    requires forall j, k | 0 <= j < k < |starts| :: starts[j] < starts[k]
    requires forall w, i: nat | IsWordAt(s, p, w, i) :: i in starts
    ensures RunsInOrder(s, p, words, starts)
  {
    hide IsWordAt;
  }

  lemma OnlyRun(s: string, p: char -> bool)
    requires Find(s, p) == |s|
    ensures RunsInOrder(s, p, if s == "" then [] else [s], if s == "" then [] else [0])
  {
    FirstWord(s, p);
    assert s[..|s|] == s;
    hide Find;
    forall w, i: nat | IsWordAt(s, p, w, i) ensures i == 0 && s != "" {
      WordFits(s, p, w, i);
    }
  }

  /** The words of s are its maximal separator-free runs, all of them, in the order of their positions. */
  lemma {:induction false} WordsAreRunsInOrder(s: string, p: char -> bool) returns (starts: seq<nat>)
    ensures RunsInOrder(s, p, Words(s, p), starts)
    decreases |s|
  {
    hide RunsInOrder, Find;
    var n := Find(s, p);
    if n == |s| {
      OnlyRun(s, p);
      starts := if s == "" then [] else [0];
      assert s[..|s|] == s;
      assert Words(s, p) == (if s == "" then [] else [s]);
    } else {
      var tail := WordsAreRunsInOrder(s[n + 1..], p);
      var rest := Words(s[n + 1..], p);
      JoinedRuns(s, p, n, rest, tail);
      starts := if n == 0 then Moved(tail, n + 1) else [0] + Moved(tail, n + 1);
      assert Words(s, p) == if n == 0 then rest else [s[..n]] + rest;
    }
  }

  lemma WordFits(s: string, p: char -> bool, w: string, i: nat)
    requires IsWordAt(s, p, w, i)
    ensures i < |s|
  {
  }

  // ---------- numbers ----------

  predicate IsDigit(c: char) {
    '0' <= c <= '9'
  }

  function Digit(d: nat): (c: char)
    requires d < 10
    ensures IsDigit(c)
  {
    (0x30 + d) as char
  }

  /** `format!("{n}")` */
  function Decimal(n: nat): (s: string)
    ensures s != ""
    ensures forall c | c in s :: IsDigit(c)
  {
    if n < 10 then [Digit(n)] else Decimal(n / 10) + [Digit(n % 10)]
  }

  function DigitsValue(s: string): (n: nat)
    requires forall c | c in s :: IsDigit(c)
  {
    if s == "" then 0
    else
      assert IsDigit(s[|s| - 1]);
      10 * DigitsValue(s[..|s| - 1]) + (s[|s| - 1] as int - 0x30)
  }

  lemma {:induction false} DecimalValue(n: nat)
    ensures DigitsValue(Decimal(n)) == n
  {
    if n >= 10 {
      DecimalValue(n / 10);
      var front := Decimal(n / 10);
      assert (front + [Digit(n % 10)])[..|front|] == front;
    }
  }

  /** Decimal names are pairwise distinct. */
  lemma DecimalInjective(i: nat, j: nat)
    requires Decimal(i) == Decimal(j)
    ensures i == j
  {
    DecimalValue(i);
    DecimalValue(j);
  }

  /** `str::parse::<i64>` */
  function ParseI64(s: string): (r: Option<I64>) {
    var negative := s != "" && s[0] == '-';
    var digits := if s != "" && (s[0] == '-' || s[0] == '+') then s[1..] else s;
    if digits == "" || exists c | c in digits :: !IsDigit(c) then None
    else
      var magnitude: int := DigitsValue(digits);
      var n := if negative then -magnitude else magnitude;
      if I64_MIN <= n <= I64_MAX then Some(n) else None
  }

  function ShowI64(n: I64): string {
    var m: int := n;
    if m < 0 then "-" + Decimal(-m) else Decimal(m)
  }

  lemma ParseSigned(digits: string, negative: bool)
    requires digits != "" && forall c | c in digits :: IsDigit(c)
    ensures var magnitude: int := DigitsValue(digits);
            var n := if negative then -magnitude else magnitude;
            ParseI64(if negative then "-" + digits else digits)
              == if I64_MIN <= n <= I64_MAX then Some(n) else None
  {
    assert ("-" + digits)[1..] == digits;
    assert IsDigit(digits[0]);
  }

  lemma ParseShowI64(n: I64)
    ensures ParseI64(ShowI64(n)) == Some(n)
  {
    var m: int := n;
    var magnitude: nat := if m < 0 then -m else m;
    DecimalValue(magnitude);
    ParseSigned(Decimal(magnitude), m < 0);
  }
}
