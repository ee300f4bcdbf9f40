/**
 The OAUTHBEARER client response of section 3.1 of RFC 7628: its printer, its
 parser, and the name escaping of section 4 of RFC 5801 they share. The
 printer escapes characters, the parser unescapes bytes.
 */
module Rfc7628 {
  import opened Prelude
  import opened Utf8

  const KVSEP: Byte := 0x01
  const COMMA: Byte := 0x2C
  const EQUALS: Byte := 0x3D
  const GS2_NO_AUTHZID: seq<Byte> := [0x6E, 0x2C, 0x2C]            // "n,,"
  const GS2_AUTHZID: seq<Byte> := [0x6E, 0x2C, 0x61, 0x3D]         // "n,a="
  const AUTH: seq<Byte> := [0x61, 0x75, 0x74, 0x68]                // "auth"
  const BEARER: seq<Byte> := [0x42, 0x65, 0x61, 0x72, 0x65, 0x72, 0x20] // "Bearer "

  datatype ClientResponse = ClientResponse(authzid: Option<string>, token: string)

  datatype Error =
    | InvalidUtf8
    | InvalidGs2Header
    | InvalidSaslName
    | MissingAuth
    | InvalidKeyValue
    | MissingTerminator
    | NotBearer

  // ---------- byte helpers ----------

  predicate StartsWith(bytes: seq<Byte>, prefix: seq<Byte>) {
    |prefix| <= |bytes| && bytes[..|prefix|] == prefix
  }

  predicate EndsWith(bytes: seq<Byte>, suffix: seq<Byte>) {
    |suffix| <= |bytes| && bytes[|bytes| - |suffix|..] == suffix
  }

  function AsciiLower(b: Byte): Byte {
    if 0x41 <= b <= 0x5A then b + 0x20 else b
  }

  predicate EqIgnoreAsciiCase(a: seq<Byte>, b: seq<Byte>) {
    |a| == |b| && forall i | 0 <= i < |a| :: AsciiLower(a[i]) == AsciiLower(b[i])
  }

  /** Index of the first occurrence. */
  function Position(bytes: seq<Byte>, b: Byte): (r: Option<nat>)
    ensures r.None? ==> b !in bytes
    ensures r.Some? ==> r.value < |bytes| && bytes[r.value] == b && b !in bytes[..r.value]
  {
    if bytes == [] then None
    else if bytes[0] == b then Some(0)
    else
      match Position(bytes[1..], b)
      case None => None
      case Some(i) =>
        assert bytes[..i + 1] == [bytes[0]] + bytes[1..][..i];
        Some(i + 1)
  }

  /** `slice::split`: the pieces between separators, always at least one. */
  function Split(bytes: seq<Byte>, sep: Byte): (fields: seq<seq<Byte>>)
    ensures |fields| >= 1
    ensures forall f | f in fields :: sep !in f
    decreases |bytes|
  {
    match Position(bytes, sep)
    case None => [bytes]
    case Some(i) => [bytes[..i]] + Split(bytes[i + 1..], sep)
  }

  // ---------- name escaping ----------

  function EscapeChar(c: char): string {
    if c == ',' then "=2C" else if c == '=' then "=3D" else [c]
  }

  function EscapeName(name: string): string {
    if name == "" then "" else EscapeChar(name[0]) + EscapeName(name[1..])
  }

  /** The decoded form of an escaped name, on characters. None: a stray '='. */
  function UnescapeName(escaped: string): (name: Option<string>)
    decreases |escaped|
  {
    if escaped == "" then Some("")
    else if escaped[0] != '=' then Prepend([escaped[0]], UnescapeName(escaped[1..]))
    else if |escaped| >= 3 && escaped[1] == '2' && escaped[2] == 'C' then Prepend([','], UnescapeName(escaped[3..]))
    else if |escaped| >= 3 && escaped[1] == '3' && escaped[2] == 'D' then Prepend(['='], UnescapeName(escaped[3..]))
    else None
  }

  function Prepend<T>(front: seq<T>, rest: Option<seq<T>>): Option<seq<T>> {
    if rest.None? then None else Some(front + rest.value)
  }

  lemma PrependPrepend<T>(a: seq<T>, b: seq<T>, rest: Option<seq<T>>)
    ensures Prepend(a, Prepend(b, rest)) == Prepend(a + b, rest)
  {
    if rest.Some? {
      assert a + (b + rest.value) == a + b + rest.value;
    }
  }

  /** What the loop of `decode_saslname` computes on bytes. */
  function UnescapeBytes(bytes: seq<Byte>): (out: Option<seq<Byte>>)
    decreases |bytes|
  {
    if bytes == [] then Some([])
    else if bytes[0] != EQUALS then Prepend([bytes[0]], UnescapeBytes(bytes[1..]))
    else if |bytes| >= 3 && bytes[1..3] == [0x32, 0x43] then Prepend([COMMA], UnescapeBytes(bytes[3..]))
    else if |bytes| >= 3 && bytes[1..3] == [0x33, 0x44] then Prepend([EQUALS], UnescapeBytes(bytes[3..]))
    else None
  }

  lemma {:induction false} UnescapeBytesPrefix(plain: seq<Byte>, rest: seq<Byte>)
    requires EQUALS !in plain
    ensures UnescapeBytes(plain + rest) == Prepend(plain, UnescapeBytes(rest))
  {
    if plain == [] {
      assert plain + rest == rest;
      assert forall out: seq<Byte> :: plain + out == out;
    } else {
      UnescapeBytesPrefix(plain[1..], rest);
      assert (plain + rest)[1..] == plain[1..] + rest;
      PrependPrepend([plain[0]], plain[1..], UnescapeBytes(rest));
      assert [plain[0]] + plain[1..] == plain;
    }
  }

  /** The first byte of an encoding is an ASCII byte iff the first character is that character. */
  lemma FirstByte(s: string, b: Byte)
    requires b < 0x80
    ensures s != "" && s[0] as int == b <==> Encode(s) != [] && Encode(s)[0] == b
    ensures s != "" && s[0] as int == b ==> Encode(s)[1..] == Encode(s[1..])
  {
  }

  /** Two ASCII bytes at offset 1 of an encoding are the characters at offset 1. */
  lemma EncodedPairAt(s: string, b0: Byte, b1: Byte, b2: Byte)
    requires b0 < 0x80 && b1 < 0x80 && b2 < 0x80 && s != "" && s[0] as int == b0
    ensures |Encode(s)| >= 3 && Encode(s)[1..3] == [b1, b2]
       <==> |s| >= 3 && s[1] as int == b1 && s[2] as int == b2
    ensures |s| >= 3 && s[1] as int == b1 && s[2] as int == b2 ==> Encode(s)[3..] == Encode(s[3..])
  {
    var bytes := Encode(s);
    var bytes1 := bytes[1..];
    FirstByte(s, b0);
    FirstByte(s[1..], b1);
    if |s| >= 2 && s[1] as int == b1 {
      assert s[1..][1..] == s[2..] && bytes1[1..] == bytes[2..];
      FirstByte(s[2..], b2);
      if |s| >= 3 && s[2] as int == b2 {
        assert s[2..][1..] == s[3..] && bytes[2..][1..] == bytes[3..];
      }
    }
    if |bytes| >= 3 {
      assert bytes[1..3] == [bytes1[0], bytes1[1]] && bytes1[1] == bytes[2..][0];
    }
  }

  /**
   Unescaping the bytes of a string is unescaping the string: the result is
   UTF-8 again, so the last check of `decode_saslname` never fails.
   */
  lemma {:induction false} UnescapeBytesIsUnescapeName(s: string)
    ensures UnescapeBytes(Encode(s))
         == match UnescapeName(s) case None => None case Some(name) => Some(Encode(name))
    decreases |s|
  {
    if s == "" {
    } else {
      var bytes := Encode(s);
      var head := EncodeChar(s[0]);
      if s[0] != '=' {
        UnescapeBytesIsUnescapeName(s[1..]);
        UnescapeBytesPrefix(head, Encode(s[1..]));
        if UnescapeName(s[1..]).Some? {
          var name := UnescapeName(s).value;
          assert name[1..] == UnescapeName(s[1..]).value;
        }
      } else {
        assert bytes[0] == EQUALS;
        EncodedPairAt(s, EQUALS, 0x32, 0x43);
        EncodedPairAt(s, EQUALS, 0x33, 0x44);
        if |s| >= 3 {
          UnescapeBytesIsUnescapeName(s[3..]);
          if UnescapeName(s[3..]).Some? {
            var name := UnescapeName(s[3..]).value;
            assert (['='] + name)[1..] == name && ([','] + name)[1..] == name;
          }
        }
      }
    }
  }

  /** Decoding inverts encoding, for every Unicode string. */
  lemma {:induction false} UnescapeEscape(name: string)
    ensures UnescapeName(EscapeName(name)) == Some(name)
  {
    if name == "" {
    } else {
      UnescapeEscape(name[1..]);
      var rest := EscapeName(name[1..]);
      var escaped := EscapeName(name);
      assert escaped[|EscapeChar(name[0])|..] == rest;
      assert name == [name[0]] + name[1..];
    }
  }

  /** Encoding inverts decoding exactly when the escaped name has no raw comma. */
  lemma {:induction false} EscapeUnescape(escaped: string)
    requires UnescapeName(escaped).Some?
    ensures EscapeName(UnescapeName(escaped).value) == escaped <==> ',' !in escaped
    decreases |escaped|
  {
    if escaped == "" {
    } else {
      var n := if escaped[0] == '=' then 3 else 1;
      var name := UnescapeName(escaped).value;
      EscapeUnescape(escaped[n..]);
      assert name[1..] == UnescapeName(escaped[n..]).value;
      assert escaped == escaped[..n] + escaped[n..];
      assert EscapeName(name) == EscapeChar(name[0]) + EscapeName(name[1..]);
      if escaped[0] == ',' {
        assert EscapeName(name)[0] == '=';
      } else {
        assert escaped[..n] == EscapeChar(name[0]);
        assert (EscapeChar(name[0]) + EscapeName(name[1..]))[n..] == EscapeName(name[1..]);
      }
    }
  }

  /** A character other than ',' and '=' is in a name iff it is in its escaped form. */
  lemma {:induction false} EscapeKeepsChar(name: string, c: char)
    requires c !in ",=23CD"
    ensures c in EscapeName(name) <==> c in name
  {
    if name == "" {
    } else {
      EscapeKeepsChar(name[1..], c);
      assert name == [name[0]] + name[1..];
    }
  }

  lemma {:induction false} UnescapeKeepsChar(escaped: string, c: char)
    requires c !in ",=23CD" && UnescapeName(escaped).Some?
    ensures c in UnescapeName(escaped).value <==> c in escaped
    decreases |escaped|
  {
    if escaped == "" {
    } else {
      var n := if escaped[0] == '=' then 3 else 1;
      UnescapeKeepsChar(escaped[n..], c);
      assert escaped == escaped[..n] + escaped[n..];
    }
  }

  method EncodeSaslname(input: string) returns (out: string)
    ensures out == EscapeName(input)
  {
    out := "";
    for i := 0 to |input|
      invariant out + EscapeName(input[i..]) == EscapeName(input)
    {
      var rest := input[i..];
      assert EscapeName(rest) == EscapeChar(input[i]) + EscapeName(rest[1..]) && rest[1..] == input[i + 1..];
      assert out + EscapeName(rest) == out + EscapeChar(input[i]) + EscapeName(input[i + 1..]);
      match input[i]
      case ',' => out := out + "=2C";
      case '=' => out := out + "=3D";
      case c => out := out + [c];
    }
  }

  /** One turn of the unescaping loop, on the bytes from index i. */
  lemma UnescapeStep(out: seq<Byte>, bytes: seq<Byte>, i: nat)
    requires i < |bytes|
    ensures Prepend(out, UnescapeBytes(bytes[i..])) ==
            if bytes[i] != EQUALS then
              Prepend(out + [bytes[i]], UnescapeBytes(bytes[i + 1..]))
            else if i + 3 <= |bytes| && bytes[i + 1..i + 3] == [0x32, 0x43] then
              Prepend(out + [COMMA], UnescapeBytes(bytes[i + 3..]))
            else if i + 3 <= |bytes| && bytes[i + 1..i + 3] == [0x33, 0x44] then
              Prepend(out + [EQUALS], UnescapeBytes(bytes[i + 3..]))
            else
              None
  {
    var rest := bytes[i..];
    assert rest[1..] == bytes[i + 1..];
    if |rest| >= 3 {
      assert rest[1..3] == bytes[i + 1..i + 3] && rest[3..] == bytes[i + 3..];
      PrependPrepend(out, [COMMA], UnescapeBytes(bytes[i + 3..]));
      PrependPrepend(out, [EQUALS], UnescapeBytes(bytes[i + 3..]));
    }
    PrependPrepend(out, [bytes[i]], UnescapeBytes(bytes[i + 1..]));
  }

  method DecodeSaslname(input: string) returns (r: Result<string, Error>)
    ensures r == match UnescapeName(input) case None => Err(InvalidSaslName) case Some(name) => Ok(name)
  {
    hide UnescapeName, Encode, Decode;
    var bytes := Encode(input);
    var out: seq<Byte> := [];
    var i := 0;
    UnescapeBytesIsUnescapeName(input);
    assert bytes[0..] == bytes;
    assert forall rest: seq<Byte> :: [] + rest == rest;
    while i < |bytes|
      invariant 0 <= i <= |bytes|
      invariant UnescapeBytes(bytes) == Prepend(out, UnescapeBytes(bytes[i..]))
    {
      UnescapeStep(out, bytes, i);
      if bytes[i] == EQUALS && i + 3 <= |bytes| && bytes[i + 1..i + 3] == [0x32, 0x43] {
        out := out + [COMMA];
        i := i + 3;
      } else if bytes[i] == EQUALS && i + 3 <= |bytes| && bytes[i + 1..i + 3] == [0x33, 0x44] {
        out := out + [EQUALS];
        i := i + 3;
      } else if bytes[i] == EQUALS {
        return Err(InvalidSaslName);
      } else {
        out := out + [bytes[i]];
        i := i + 1;
      }
    }
    assert out + [] == out;
    if UnescapeName(input).Some? {
      DecodeEncode(UnescapeName(input).value);
    }
    r := match Decode(out) case None => Err(InvalidUtf8) case Some(name) => Ok(name);
  }

  // ---------- printer ----------

  function GS2Header(authzid: Option<string>): seq<Byte> {
    if authzid.Some? && authzid.value != ""
    then GS2_AUTHZID + Encode(EscapeName(authzid.value)) + [COMMA]
    else GS2_NO_AUTHZID
  }

  function Build(authzid: Option<string>, token: string): seq<Byte> {
    GS2Header(authzid) + [KVSEP] + (AUTH + [EQUALS] + BEARER) + Encode(token) + [KVSEP, KVSEP]
  }

  method BuildClientResponse(authzid: Option<string>, token: string) returns (out: seq<Byte>)
    ensures out == Build(authzid, token)
  {
    out := [];
    if authzid.Some? && authzid.value != "" {
      out := out + GS2_AUTHZID;
      var name := EncodeSaslname(authzid.value);
      out := out + Encode(name);
      out := out + [COMMA];
    } else {
      out := out + GS2_NO_AUTHZID;
    }
    assert out == GS2Header(authzid);
    out := out + [KVSEP];
    out := out + (AUTH + [EQUALS] + BEARER);
    out := out + Encode(token);
    out := out + [KVSEP, KVSEP];
  }

  // ---------- parser ----------

  predicate IsAuthzidHeader(gs2: seq<Byte>)
    ensures IsAuthzidHeader(gs2) ==> |gs2| >= 5
  {
    assert |gs2| == 4 && StartsWith(gs2, GS2_AUTHZID) ==> gs2[3] == EQUALS;
    StartsWith(gs2, GS2_AUTHZID) && EndsWith(gs2, [COMMA])
  }

  function ParseHeader(gs2: seq<Byte>): (r: Result<Option<string>, Error>) {
    if gs2 == GS2_NO_AUTHZID then Ok(None)
    else if IsAuthzidHeader(gs2) then
      match Decode(gs2[4..|gs2| - 1])
      case None => Err(InvalidUtf8)
      case Some(encoded) =>
        match UnescapeName(encoded)
        case None => Err(InvalidSaslName)
        case Some(name) => Ok(Some(name))
    else Err(InvalidGs2Header)
  }

  /** The value of the last `auth` field. */
  function ScanFields(fields: seq<seq<Byte>>): (r: Result<Option<seq<Byte>>, Error>) {
    if fields == [] then Ok(None)
    else
      var before :- ScanFields(fields[..|fields| - 1]);
      var field := fields[|fields| - 1];
      if field == [] then Ok(before)
      else
        match Position(field, EQUALS)
        case None => Err(InvalidKeyValue)
        case Some(eq) => if field[..eq] == AUTH then Ok(Some(field[eq + 1..])) else Ok(before)
  }

  function ParseBearer(auth: Option<seq<Byte>>): (r: Result<string, Error>) {
    if auth.None? then Err(MissingAuth)
    else
      var value := auth.value;
      if |value| < |BEARER| || !EqIgnoreAsciiCase(value[..|BEARER|], BEARER) then Err(NotBearer)
      else
        match Decode(value[|BEARER|..])
        case None => Err(InvalidUtf8)
        case Some(token) => if token == "" then Err(NotBearer) else Ok(token)
  }

  function Parse(input: seq<Byte>): (r: Result<ClientResponse, Error>) {
    match Position(input, KVSEP)
    case None => Err(InvalidGs2Header)
    case Some(firstSep) =>
      var authzid :- ParseHeader(input[..firstSep]);
      if !EndsWith(input, [KVSEP, KVSEP]) then Err(MissingTerminator)
      else
        SliceInBounds(input, firstSep);
        var auth :- ScanFields(Split(input[firstSep + 1..|input| - 1], KVSEP));
        var token :- ParseBearer(auth);
        Ok(ClientResponse(authzid, token))
  }

  /** The slice between the first separator and the last byte exists on every input. */
  lemma SliceInBounds(input: seq<Byte>, firstSep: nat)
    requires Position(input, KVSEP) == Some(firstSep) && EndsWith(input, [KVSEP, KVSEP])
    ensures firstSep + 1 <= |input| - 1
  {
    assert input[|input| - 2..][0] == KVSEP;
    assert forall i | 0 <= i < firstSep :: input[i] == input[..firstSep][i];
  }

  /** The loop over the fields: the last `auth` wins, the first malformed field ends it. */
  method FindAuth(fields: seq<seq<Byte>>) returns (r: Result<Option<seq<Byte>>, Error>)
    ensures r == ScanFields(fields)
  {
    var auth: Option<seq<Byte>> := None;
    for i := 0 to |fields|
      invariant ScanFields(fields[..i]) == Ok(auth)
    {
      assert fields[..i + 1][..i] == fields[..i];
      if ScanFields(fields[..i + 1]).Err? {
        ScanFieldsStops(fields, i + 1);
      }
      var field := fields[i];
      if field != [] {
        var eq := Position(field, EQUALS);
        if eq.None? {
          return Err(InvalidKeyValue);
        }
        if field[..eq.value] == AUTH {
          auth := Some(field[eq.value + 1..]);
        }
      }
    }
    assert fields[..|fields|] == fields;
    return Ok(auth);
  }

  method ParseClientResponse(input: seq<Byte>) returns (r: Result<ClientResponse, Error>)
    ensures r == Parse(input)
  {
    var position := Position(input, KVSEP);
    if position.None? {
      return Err(InvalidGs2Header);
    }
    var firstSep := position.value;
    var gs2 := input[..firstSep];
    var authzid: Option<string>;
    if gs2 == GS2_NO_AUTHZID {
      authzid := None;
    } else if IsAuthzidHeader(gs2) {
      var encoded := Decode(gs2[4..|gs2| - 1]);
      if encoded.None? {
        return Err(InvalidUtf8);
      }
      var name := DecodeSaslname(encoded.value);
      if name.Err? {
        return Err(name.error);
      }
      authzid := Some(name.value);
    } else {
      return Err(InvalidGs2Header);
    }

    if !EndsWith(input, [KVSEP, KVSEP]) {
      return Err(MissingTerminator);
    }

    SliceInBounds(input, firstSep);
    var fields := Split(input[firstSep + 1..|input| - 1], KVSEP);
    var scanned := FindAuth(fields);
    if scanned.Err? {
      return Err(scanned.error);
    }
    var auth := scanned.value;
    if auth.None? {
      return Err(MissingAuth);
    }
    var value := auth.value;
    if |value| < |BEARER| || !EqIgnoreAsciiCase(value[..|BEARER|], BEARER) {
      return Err(NotBearer);
    }
    var token := Decode(value[|BEARER|..]);
    if token.None? {
      return Err(InvalidUtf8);
    }
    if token.value == "" {
      return Err(NotBearer);
    }
    return Ok(ClientResponse(authzid, token.value));
  }

  /** The first malformed field decides. */
  lemma {:induction false} ScanFieldsStops(fields: seq<seq<Byte>>, n: nat)
    requires n <= |fields| && ScanFields(fields[..n]).Err?
    ensures ScanFields(fields) == ScanFields(fields[..n])
  {
    if n < |fields| {
      var front := fields[..|fields| - 1];
      assert front[..n] == fields[..n];
      ScanFieldsStops(front, n);
    } else {
      assert fields[..n] == fields;
    }
  }
}
