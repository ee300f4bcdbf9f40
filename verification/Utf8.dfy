/**
 UTF-8 as defined by section 4 of RFC 3629. A Rust `str` is a Dafny `string`
 (a sequence of Unicode scalar values); its bytes are `Encode`. `Decode` is
 `std::str::from_utf8`.
 */
module Utf8 {
  import opened Prelude

  type Byte = b: int | 0 <= b < 0x100

  function EncodeChar(c: char): (bytes: seq<Byte>)
    ensures 1 <= |bytes| <= 4
  {
    var n := c as int;
    if n < 0x80 then
      [n]
    else if n < 0x800 then
      [0xC0 + n / 0x40, 0x80 + n % 0x40]
    else if n < 0x1_0000 then
      [0xE0 + n / 0x1000, 0x80 + n / 0x40 % 0x40, 0x80 + n % 0x40]
    else
      [0xF0 + n / 0x4_0000, 0x80 + n / 0x1000 % 0x40, 0x80 + n / 0x40 % 0x40, 0x80 + n % 0x40]
  }

  function Encode(s: string): (bytes: seq<Byte>)
    ensures |bytes| >= |s|
  {
    if s == "" then [] else EncodeChar(s[0]) + Encode(s[1..])
  }

  /** Continuation bytes: UTF8-tail in the grammar of RFC 3629. */
  predicate Tail(bytes: seq<Byte>, i: nat) {
    i < |bytes| && 0x80 <= bytes[i] <= 0xBF
  }

  /** Length of the well-formed sequence at the front, by the UTF8-1 .. UTF8-4 productions. */
  function FirstLength(bytes: seq<Byte>): (n: nat)
    ensures n <= 4 && n <= |bytes|
  {
    if bytes == [] then 0
    else
      var b := bytes[0];
      if b < 0x80 then 1
      else if 0xC2 <= b <= 0xDF && Tail(bytes, 1) then 2
      else if 0xE0 <= b <= 0xEF && Tail(bytes, 1) && Tail(bytes, 2)
              && (b == 0xE0 ==> 0xA0 <= bytes[1]) && (b == 0xED ==> bytes[1] <= 0x9F) then 3
      else if 0xF0 <= b <= 0xF4 && Tail(bytes, 1) && Tail(bytes, 2) && Tail(bytes, 3)
              && (b == 0xF0 ==> 0x90 <= bytes[1]) && (b == 0xF4 ==> bytes[1] <= 0x8F) then 4
      else 0
  }

  /** The scalar value packed into a sequence of n bytes: a lead byte and n - 1 tails of six bits. */
  function Pack(n: nat, b0: int, b1: int, b2: int, b3: int): int {
    match n
    case 1 => b0
    case 2 => (b0 - 0xC0) * 0x40 + (b1 - 0x80)
    case 3 => (b0 - 0xE0) * 0x1000 + (b1 - 0x80) * 0x40 + (b2 - 0x80)
    case _ => (b0 - 0xF0) * 0x4_0000 + (b1 - 0x80) * 0x1000 + (b2 - 0x80) * 0x40 + (b3 - 0x80)
  }

  function At(bytes: seq<Byte>, i: nat): int {
    if i < |bytes| then bytes[i] else 0
  }

  function FirstChar(bytes: seq<Byte>): char
    requires FirstLength(bytes) > 0
  {
    Pack(FirstLength(bytes), At(bytes, 0), At(bytes, 1), At(bytes, 2), At(bytes, 3)) as char
  }

  function Decode(bytes: seq<Byte>): (s: Option<string>)
  {
    if bytes == [] then Some("")
    else if FirstLength(bytes) == 0 then None
    else
      match Decode(bytes[FirstLength(bytes)..])
      case None => None
      case Some(rest) => Some([FirstChar(bytes)] + rest)
  }

  /** The bytes of a character read back from in front of others. */
  predicate ReadsBack(c: char, rest: seq<Byte>) {
    FirstLength(EncodeChar(c) + rest) == |EncodeChar(c)| && FirstChar(EncodeChar(c) + rest) == c
  }

  lemma ShortReadsBack(c: char, rest: seq<Byte>)
    requires c as int < 0x800
    ensures ReadsBack(c, rest)
  {
    var n, e := c as int, EncodeChar(c);
    assert forall i | 0 <= i < |e| :: At(e + rest, i) == e[i];
    assert n >= 0x80 ==> e == [0xC0 + n / 0x40, 0x80 + n % 0x40] && Tail(e + rest, 1);
  }

  lemma ThreeReadBack(c: char, rest: seq<Byte>)
    requires 0x800 <= c as int < 0x1_0000
    ensures ReadsBack(c, rest)
  {
    var n, e := c as int, EncodeChar(c);
    var q, r := n / 0x40, n % 0x40;
    var q', r' := q / 0x40, q % 0x40;
    assert n / 0x1000 == q';
    assert e == [0xE0 + q', 0x80 + r', 0x80 + r];
    assert forall i | 0 <= i < |e| :: At(e + rest, i) == e[i];
    assert Tail(e + rest, 1) && Tail(e + rest, 2);
  }

  lemma FourReadBack(c: char, rest: seq<Byte>)
    requires 0x1_0000 <= c as int
    ensures ReadsBack(c, rest)
  {
    var n, e := c as int, EncodeChar(c);
    var q, r := n / 0x40, n % 0x40;
    var q', r' := q / 0x40, q % 0x40;
    var q'', r'' := q' / 0x40, q' % 0x40;
    assert n / 0x1000 == q' && n / 0x4_0000 == q'';
    assert e == [0xF0 + q'', 0x80 + r'', 0x80 + r', 0x80 + r];
    assert forall i | 0 <= i < |e| :: At(e + rest, i) == e[i];
    assert Tail(e + rest, 1) && Tail(e + rest, 2) && Tail(e + rest, 3);
  }

  lemma DecodeFirstOfEncode(c: char, rest: seq<Byte>)
    ensures ReadsBack(c, rest)
  {
    hide ReadsBack;
    if c as int < 0x800 {
      ShortReadsBack(c, rest);
    } else if c as int < 0x1_0000 {
      ThreeReadBack(c, rest);
    } else {
      FourReadBack(c, rest);
    }
  }

  lemma SixBits(q: int, r: int)
    requires 0 <= r < 0x40
    ensures (q * 0x40 + r) / 0x40 == q && (q * 0x40 + r) % 0x40 == r
  {
  }

  lemma ThreeBytesBack(bytes: seq<Byte>)
    requires FirstLength(bytes) == 3
    ensures EncodeChar(FirstChar(bytes)) == bytes[..3]
  {
    var n := FirstChar(bytes) as int;
    var b0, t1, t2 := At(bytes, 0), At(bytes, 1) - 0x80, At(bytes, 2) - 0x80;
    var q := (b0 - 0xE0) * 0x40 + t1;
    assert n == q * 0x40 + t2;
    SixBits(q, t2);
    SixBits(b0 - 0xE0, t1);
    assert n / 0x1000 == q / 0x40;
    assert EncodeChar(n as char) == [b0, t1 + 0x80, t2 + 0x80];
  }

  lemma FourBytesBack(bytes: seq<Byte>)
    requires FirstLength(bytes) == 4
    ensures EncodeChar(FirstChar(bytes)) == bytes[..4]
  {
    var n := FirstChar(bytes) as int;
    var b0, t1, t2, t3 := At(bytes, 0), At(bytes, 1) - 0x80, At(bytes, 2) - 0x80, At(bytes, 3) - 0x80;
    var q' := (b0 - 0xF0) * 0x40 + t1;
    var q := q' * 0x40 + t2;
    assert n == q * 0x40 + t3;
    SixBits(q, t3);
    SixBits(q', t2);
    SixBits(b0 - 0xF0, t1);
    assert n / 0x1000 == q / 0x40 && n / 0x4_0000 == q' / 0x40;
    assert EncodeChar(n as char) == [b0, t1 + 0x80, t2 + 0x80, t3 + 0x80];
  }

  lemma TwoBytesBack(bytes: seq<Byte>)
    requires 1 <= FirstLength(bytes) <= 2
    ensures EncodeChar(FirstChar(bytes)) == bytes[..FirstLength(bytes)]
  {
    if FirstLength(bytes) == 2 {
      SixBits(bytes[0] - 0xC0, bytes[1] - 0x80);
    }
  }

  lemma EncodeFirstOfDecode(bytes: seq<Byte>)
    requires FirstLength(bytes) > 0
    ensures EncodeChar(FirstChar(bytes)) == bytes[..FirstLength(bytes)]
  {
    hide FirstChar, EncodeChar, FirstLength;
    if FirstLength(bytes) == 4 {
      FourBytesBack(bytes);
    } else if FirstLength(bytes) == 3 {
      ThreeBytesBack(bytes);
    } else {
      TwoBytesBack(bytes);
    }
  }

  /** Every string survives its own encoding. */
  lemma {:induction false} DecodeEncode(s: string)
    ensures Decode(Encode(s)) == Some(s)
  {
    hide EncodeChar, FirstLength, FirstChar;
    if s == "" {
    } else {
      var head, rest := EncodeChar(s[0]), Encode(s[1..]);
      DecodeFirstOfEncode(s[0], rest);
      assert (head + rest)[|head|..] == rest;
      DecodeEncode(s[1..]);
      assert s == [s[0]] + s[1..];
    }
  }

  /** Only encodings decode: overlong forms and surrogates are refused. */
  lemma {:induction false} EncodeDecode(bytes: seq<Byte>)
    requires Decode(bytes).Some?
    ensures Encode(Decode(bytes).value) == bytes
  {
    hide EncodeChar, FirstLength, FirstChar;
    if bytes == [] {
    } else {
      var n := FirstLength(bytes);
      EncodeFirstOfDecode(bytes);
      EncodeDecode(bytes[n..]);
      var rest := Decode(bytes[n..]).value;
      assert ([FirstChar(bytes)] + rest)[1..] == rest;
      assert bytes == bytes[..n] + bytes[n..];
    }
  }

  lemma {:induction false} EncodeConcat(s: string, t: string)
    ensures Encode(s + t) == Encode(s) + Encode(t)
  {
    hide EncodeChar;
    if s == "" {
      assert s + t == t;
    } else {
      var head, rest := EncodeChar(s[0]), Encode(s[1..]);
      assert (s + t)[1..] == s[1..] + t;
      EncodeConcat(s[1..], t);
      assert head + (rest + Encode(t)) == head + rest + Encode(t);
    }
  }

  /** The number n in the byte sequences of section 3 of RFC 3629: bits of a lead byte, then six bits a byte. */
  predicate Utf8Form(bytes: seq<Byte>, n: int) {
    && (forall i | 1 <= i < |bytes| :: 0x80 <= bytes[i] <= 0xBF)
    && match |bytes|
       case 1 => n < 0x80 && n == bytes[0]
       case 2 =>
         var b0: int, b1: int := bytes[0], bytes[1];
         0x80 <= n < 0x800 && b0 >= 0xC0 && n == (b0 - 0xC0) * 0x40 + (b1 - 0x80)
       case 3 =>
         var b0: int, b1: int, b2: int := bytes[0], bytes[1], bytes[2];
         0x800 <= n < 0x1_0000 && b0 >= 0xE0 && n == (b0 - 0xE0) * 0x1000 + (b1 - 0x80) * 0x40 + (b2 - 0x80)
       case 4 =>
         var b0: int, b1: int, b2: int, b3: int := bytes[0], bytes[1], bytes[2], bytes[3];
         && 0x1_0000 <= n < 0x11_0000 && b0 >= 0xF0
         && n == (b0 - 0xF0) * 0x4_0000 + (b1 - 0x80) * 0x1000 + (b2 - 0x80) * 0x40 + (b3 - 0x80)
       case _ => false
  }

  lemma CharForm(c: char)
    ensures Utf8Form(EncodeChar(c), c as int)
  {
    DecodeFirstOfEncode(c, []);
    var e := EncodeChar(c);
    assert e + [] == e;
    assert forall i | 0 <= i < |e| :: At(e, i) == e[i];
  }

  /** A string is encoded character by character, each in its one form. */
  lemma EncodesExactly(s: string, c: char)
    ensures Encode("") == []
    ensures exists bytes :: Utf8Form(bytes, c as int) && Encode(s + [c]) == Encode(s) + bytes
  {
    CharForm(c);
    hide EncodeChar, Utf8Form;
    EncodeConcat(s, [c]);
    assert [c][1..] == "" && Encode([c]) == EncodeChar(c);
  }

  /** An ASCII byte in an encoding is that ASCII character, never part of another one. */
  lemma {:induction false} AsciiByteIsChar(s: string, b: Byte)
    requires b < 0x80
    ensures b in Encode(s) <==> b as char in s
  {
    if s == "" {
    } else {
      AsciiByteIsChar(s[1..], b);
      assert s == [s[0]] + s[1..];
    }
  }
}
