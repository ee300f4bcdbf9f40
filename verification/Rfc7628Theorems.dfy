/**
 What the parser and the printer of Rfc7628 mean: the parser accepts exactly a
 declarative grammar, and the two are inverse on the messages a client can
 carry.
 */
module Rfc7628Theorems {
  import opened Prelude
  import opened Utf8
  import opened Rfc7628

  // ---------- words ----------

  /** The bytes of a text of ASCII characters. */
  function Ascii(text: string): (bytes: seq<Byte>)
    ensures |bytes| == |text| && forall i | 0 <= i < |text| :: bytes[i] == AsciiByte(text[i])
  {
    seq(|text|, i requires 0 <= i < |text| => AsciiByte(text[i]))
  }

  function AsciiByte(c: char): Byte {
    if (c as int) < 0x80 then c as int else 0x3F
  }

  lemma AsciiWords()
    ensures Ascii("n,,") == GS2_NO_AUTHZID && Ascii("n,a=") == GS2_AUTHZID && Ascii(",") == [COMMA]
    ensures Ascii("auth=") == AUTH + [EQUALS] && Ascii("Bearer ") == BEARER
    ensures Ascii("auth=Bearer ") == AUTH + [EQUALS] + BEARER
  {
  }

  /** b is the character, or the same ASCII letter in the other case, 0x20 apart. */
  predicate SpellsLetter(b: Byte, c: char) {
    || b == c as int
    || ('a' <= c <= 'z' && b == c as int - 0x20)
    || ('A' <= c <= 'Z' && b == c as int + 0x20)
  }

  /** "Bearer " with each letter in either case. */
  predicate SpellsBearer(scheme: seq<Byte>) {
    |scheme| == 7 && forall i | 0 <= i < 7 :: SpellsLetter(scheme[i], "Bearer "[i])
  }

  lemma SpellsBearerIs(scheme: seq<Byte>)
    ensures SpellsBearer(scheme) <==> EqIgnoreAsciiCase(scheme, BEARER)
  {
    if |scheme| == 7 {
      forall i | 0 <= i < 7
        ensures SpellsLetter(scheme[i], "Bearer "[i]) <==> AsciiLower(scheme[i]) == AsciiLower(BEARER[i])
      {
      }
    }
  }

  // ---------- escaped names ----------

  function Joined(pieces: seq<string>): string {
    if pieces == [] then "" else pieces[0] + Joined(pieces[1..])
  }

  /** How a character may be written in an authzid: "=2C", "=3D", or as itself unless it is '='. */
  predicate Writes(piece: string, c: char) {
    || (c == ',' && piece == "=2C")
    || (c == '=' && piece == "=3D")
    || (c != '=' && piece == [c])
  }

  ghost predicate WritesName(escaped: string, name: string) {
    exists pieces :: WritesEach(pieces, name) && escaped == Joined(pieces)
  }

  predicate WritesEach(pieces: seq<string>, name: string) {
    |pieces| == |name| && forall i | 0 <= i < |name| :: Writes(pieces[i], name[i])
  }

  lemma UnescapePiece(piece: string, c: char, rest: string)
    requires Writes(piece, c)
    ensures UnescapeName(piece + rest) == Prepend([c], UnescapeName(rest))
  {
    assert (piece + rest)[|piece|..] == rest;
  }

  lemma {:induction false} WrittenUnescapes(pieces: seq<string>, name: string)
    requires WritesEach(pieces, name)
    ensures UnescapeName(Joined(pieces)) == Some(name)
  {
    hide UnescapeName, Writes;
    if pieces == [] {
      UnescapeNothing();
    } else {
      WrittenUnescapes(pieces[1..], name[1..]);
      UnescapePiece(pieces[0], name[0], Joined(pieces[1..]));
      assert name == [name[0]] + name[1..];
    }
  }

  lemma UnescapeNothing()
    ensures UnescapeName("") == Some("")
  {
  }

  lemma {:induction false} UnescapedWrites(escaped: string) returns (pieces: seq<string>)
    requires UnescapeName(escaped).Some?
    ensures WritesEach(pieces, UnescapeName(escaped).value) && Joined(pieces) == escaped
    decreases |escaped|
  {
    pieces := [];
    if escaped != "" {
      var n := if escaped[0] == '=' then 3 else 1;
      var rest := UnescapedWrites(escaped[n..]);
      pieces := [escaped[..n]] + rest;
      var name := UnescapeName(escaped).value;
      assert escaped == escaped[..n] + escaped[n..] && pieces[1..] == rest;
      assert name[1..] == UnescapeName(escaped[n..]).value;
      forall i | 0 <= i < |name| ensures Writes(pieces[i], name[i]) {
        assert i > 0 ==> pieces[i] == rest[i - 1] && name[i] == name[1..][i - 1];
      }
    }
  }

  /** A name is unescaped from exactly the texts that write it character by character. */
  lemma UnescapeExactly(escaped: string, name: string)
    ensures UnescapeName(escaped) == Some(name) <==> WritesName(escaped, name)
  {
    hide UnescapeName, Joined, WritesEach;
    if WritesName(escaped, name) {
      var pieces :| WritesEach(pieces, name) && escaped == Joined(pieces);
      WrittenUnescapes(pieces, name);
    }
    if UnescapeName(escaped) == Some(name) {
      var pieces := UnescapedWrites(escaped);
    }
  }

  /** The escaped form of a name is the one way to write it without a raw comma. */
  lemma EscapeExactly(escaped: string, name: string)
    ensures escaped == EscapeName(name) <==> WritesName(escaped, name) && ',' !in escaped
  {
    hide EscapeName, UnescapeName, WritesName;
    UnescapeExactly(escaped, name);
    UnescapeEscape(name);
    if UnescapeName(escaped) == Some(name) {
      EscapeUnescape(escaped);
    }
    if escaped == EscapeName(name) {
      EscapeUnescape(escaped);
    }
  }

  // ---------- grammar ----------

  /** gs2-header of section 3.1 of RFC 7628, as this parser reads it: raw commas are tolerated. */
  ghost predicate HeaderDenotes(header: seq<Byte>, authzid: Option<string>) {
    match authzid
    case None => header == Ascii("n,,")
    case Some(name) =>
      exists escaped :: WritesName(escaped, name) && header == Ascii("n,a=") + Encode(escaped) + Ascii(",")
  }

  /** kvpair without its separator; empty fields are tolerated. */
  ghost predicate WellFormedField(field: seq<Byte>) {
    0x01 !in field && (field == [] || 0x3D in field)
  }

  ghost predicate IsAuthField(field: seq<Byte>) {
    Ascii("auth=") <= field
  }

  /** The value of an `auth` field: "Bearer " in any case, then a non-empty token. */
  ghost predicate BearerDenotes(field: seq<Byte>, token: string) {
    token != "" && exists scheme :: SpellsBearer(scheme) && field == Ascii("auth=") + scheme + Encode(token)
  }

  /** Each field followed by a separator. */
  function Terminated(fields: seq<seq<Byte>>): seq<Byte> {
    if fields == [] then [] else fields[0] + [0x01] + Terminated(fields[1..])
  }

  /** `last` is the last `auth` field, and it carries the token. */
  ghost predicate FieldsDenote(fields: seq<seq<Byte>>, last: nat, token: string) {
    && (forall i | 0 <= i < |fields| :: WellFormedField(fields[i]))
    && last < |fields|
    && BearerDenotes(fields[last], token)
    && (forall i | last < i < |fields| :: !IsAuthField(fields[i]))
  }

  /** One decomposition of a message: header, separator, terminated fields, separator. */
  ghost predicate Decomposes(m: seq<Byte>, r: ClientResponse, header: seq<Byte>, fields: seq<seq<Byte>>, last: nat) {
    && 0x01 !in header
    && HeaderDenotes(header, r.authzid)
    && FieldsDenote(fields, last, r.token)
    && m == header + [0x01] + Terminated(fields) + [0x01]
  }

  ghost predicate Grammar(m: seq<Byte>, r: ClientResponse) {
    exists header, fields, last :: Decomposes(m, r, header, fields, last)
  }

  // ---------- splitting ----------

  lemma PositionIs(bytes: seq<Byte>, b: Byte, i: nat)
    requires i < |bytes| && bytes[i] == b && b !in bytes[..i]
    ensures Position(bytes, b) == Some(i)
  {
    var p := Position(bytes, b).value;
    assert forall k | 0 <= k < p :: bytes[..p][k] == bytes[k];
    assert forall k | 0 <= k < i :: bytes[..i][k] == bytes[k];
  }

  lemma SplitAt(field: seq<Byte>, rest: seq<Byte>)
    requires KVSEP !in field
    ensures Split(field + [KVSEP] + rest, KVSEP) == [field] + Split(rest, KVSEP)
  {
    var bytes, n := field + [KVSEP] + rest, |field|;
    assert bytes[..n] == field && bytes[n] == KVSEP && bytes[n + 1..] == rest;
    PositionIs(bytes, KVSEP, n);
    hide Position;
  }

  lemma {:induction false} SplitTerminated(fields: seq<seq<Byte>>)
    requires forall f | f in fields :: KVSEP !in f
    ensures Split(Terminated(fields), KVSEP) == fields + [[]]
  {
    hide Position;
    if fields == [] {
    } else {
      SplitAt(fields[0], Terminated(fields[1..]));
      SplitTerminated(fields[1..]);
      assert [fields[0]] + (fields[1..] + [[]]) == fields + [[]];
    }
  }

  lemma CutAt<T>(s: seq<T>, i: nat)
    requires i < |s|
    ensures s == s[..i] + [s[i]] + s[i + 1..]
  {
  }

  lemma {:induction false} TerminatedSplit(bytes: seq<Byte>)
    requires bytes == [] || bytes[|bytes| - 1] == KVSEP
    ensures var fields := Split(bytes, KVSEP);
            fields[|fields| - 1] == [] && Terminated(fields[..|fields| - 1]) == bytes
    decreases |bytes|
  {
    if bytes == [] {
    } else {
      var i := Position(bytes, KVSEP).value;
      var rest := Split(bytes[i + 1..], KVSEP);
      TerminatedSplit(bytes[i + 1..]);
      CutAt(bytes, i);
      TerminatedCons(bytes[..i], rest[..|rest| - 1]);
      FrontOfCons(bytes[..i], rest);
    }
  }

  lemma TerminatedCons(field: seq<Byte>, fields: seq<seq<Byte>>)
    ensures Terminated([field] + fields) == field + [KVSEP] + Terminated(fields)
  {
    assert ([field] + fields)[1..] == fields;
  }

  lemma FrontOfCons<T>(head: T, tail: seq<T>)
    requires tail != []
    ensures ([head] + tail)[..|tail|] == [head] + tail[..|tail| - 1]
  {
  }

  // ---------- the field scan ----------

  lemma AuthFieldKey(field: seq<Byte>)
    requires field != [] && EQUALS in field
    ensures Position(field, EQUALS).Some?
    ensures var eq := Position(field, EQUALS).value;
            (field[..eq] == AUTH <==> IsAuthField(field)) && (IsAuthField(field) ==> eq == 4)
  {
    AsciiWords();
    hide Ascii;
    var eq := Position(field, EQUALS).value;
    assert field[..eq + 1] == field[..eq] + [EQUALS];
    if IsAuthField(field) {
      var key := AUTH + [EQUALS];
      assert field[..5][4] == key[4];
      assert field[..4] == field[..5][..4] == AUTH;
      PositionIs(field, EQUALS, 4);
    }
  }

  lemma {:induction false} ScanFindsLast(fields: seq<seq<Byte>>, last: nat)
    requires forall i | 0 <= i < |fields| :: WellFormedField(fields[i])
    requires last < |fields| && IsAuthField(fields[last])
    requires forall i | last < i < |fields| :: !IsAuthField(fields[i])
    ensures ScanFields(fields) == Ok(Some(fields[last][5..]))
  {
    var n := |fields| - 1;
    var front := fields[..n];
    ScanSucceeds(front);
    if fields[n] != [] {
      AuthFieldKey(fields[n]);
    }
    if last < n {
      ScanFindsLast(front, last);
    }
  }

  lemma {:induction false} ScanSucceeds(fields: seq<seq<Byte>>)
    requires forall i | 0 <= i < |fields| :: WellFormedField(fields[i])
    ensures ScanFields(fields).Ok?
  {
    if fields == [] {
    } else {
      ScanSucceeds(fields[..|fields| - 1]);
    }
  }

  lemma {:induction false} ScanFound(fields: seq<seq<Byte>>) returns (last: nat)
    requires forall f | f in fields :: KVSEP !in f
    requires ScanFields(fields).Ok?
    ensures forall i | 0 <= i < |fields| :: WellFormedField(fields[i])
    ensures ScanFields(fields).value.Some? ==>
              && last < |fields| && IsAuthField(fields[last])
              && ScanFields(fields).value == Some(fields[last][5..])
              && forall i | last < i < |fields| :: !IsAuthField(fields[i])
    ensures ScanFields(fields).value.None? ==> forall i | 0 <= i < |fields| :: !IsAuthField(fields[i])
  {
    last := 0;
    if fields != [] {
      var n := |fields| - 1;
      var front, field := fields[..n], fields[n];
      last := ScanFound(front);
      assert forall i | 0 <= i < n :: fields[i] == front[i];
      if field != [] {
        AuthFieldKey(field);
        if IsAuthField(field) {
          last := n;
        }
      }
    }
  }

  // ---------- parser and grammar agree ----------

  lemma AuthzidHeader(escaped: string)
    ensures var header := GS2_AUTHZID + Encode(escaped) + [COMMA];
            header != GS2_NO_AUTHZID && IsAuthzidHeader(header) && header[4..|header| - 1] == Encode(escaped)
  {
    var header := GS2_AUTHZID + Encode(escaped) + [COMMA];
    assert header[..4] == GS2_AUTHZID && header[|header| - 1..] == [COMMA] && header[2] == 0x61;
  }

  lemma AuthzidHeaderIs(header: seq<Byte>)
    requires IsAuthzidHeader(header)
    ensures header == GS2_AUTHZID + header[4..|header| - 1] + [COMMA]
  {
  }

  /** The header in the terms of the parser. */
  ghost predicate EscapedHeader(header: seq<Byte>, authzid: Option<string>) {
    match authzid
    case None => header == GS2_NO_AUTHZID
    case Some(name) =>
      exists escaped: string ::
        UnescapeName(escaped) == Some(name) && header == GS2_AUTHZID + Encode(escaped) + [COMMA]
  }

  lemma EscapedHeaderIs(header: seq<Byte>, authzid: Option<string>)
    ensures HeaderDenotes(header, authzid) <==> EscapedHeader(header, authzid)
  {
    AsciiWords();
    if authzid.Some? {
      forall escaped: string ensures UnescapeName(escaped) == authzid <==> WritesName(escaped, authzid.value) {
        UnescapeExactly(escaped, authzid.value);
      }
    }
    hide Ascii, UnescapeName, WritesName, Encode;
  }

  lemma HeaderParses(header: seq<Byte>, authzid: Option<string>)
    ensures HeaderDenotes(header, authzid) <==> ParseHeader(header) == Ok(authzid)
  {
    EscapedHeaderIs(header, authzid);
    hide HeaderDenotes, Encode, UnescapeName;
    if EscapedHeader(header, authzid) && authzid.Some? {
      var escaped :| UnescapeName(escaped) == authzid && header == GS2_AUTHZID + Encode(escaped) + [COMMA];
      AuthzidHeader(escaped);
      DecodeEncode(escaped);
    }
    if ParseHeader(header) == Ok(authzid) && authzid.Some? {
      AuthzidHeaderIs(header);
      EncodeDecode(header[4..|header| - 1]);
    }
  }

  lemma SchemeAndToken(scheme: seq<Byte>, token: string)
    requires EqIgnoreAsciiCase(scheme, BEARER) && token != ""
    ensures ParseBearer(Some(scheme + Encode(token))) == Ok(token)
  {
    var value := scheme + Encode(token);
    assert |BEARER| == 7 && value[..7] == scheme && value[7..] == Encode(token);
    DecodeEncode(token);
  }

  lemma BearerRead(value: seq<Byte>, token: string)
    requires ParseBearer(Some(value)) == Ok(token)
    ensures |value| >= 7 && EqIgnoreAsciiCase(value[..7], BEARER) && token != ""
    ensures value == value[..7] + Encode(token)
  {
    assert |BEARER| == 7;
    EncodeDecode(value[7..]);
  }

  lemma AfterKey(scheme: seq<Byte>, rest: seq<Byte>)
    ensures (AUTH + [EQUALS] + scheme + rest)[5..] == scheme + rest
  {
  }

  lemma BearerParses(field: seq<Byte>, token: string)
    requires IsAuthField(field)
    ensures BearerDenotes(field, token) <==> ParseBearer(Some(field[5..])) == Ok(token)
  {
    AsciiWords();
    hide Ascii, SpellsBearer, EqIgnoreAsciiCase, Encode;
    if BearerDenotes(field, token) {
      var scheme :| SpellsBearer(scheme) && field == AUTH + [EQUALS] + scheme + Encode(token);
      SpellsBearerIs(scheme);
      AfterKey(scheme, Encode(token));
      SchemeAndToken(scheme, token);
    }
    if ParseBearer(Some(field[5..])) == Ok(token) {
      var value := field[5..];
      BearerRead(value, token);
      SpellsBearerIs(value[..7]);
      assert field == AUTH + [EQUALS] + value[..7] + Encode(token) by {
        assert field == field[..5] + value && field[..5] == AUTH + [EQUALS];
      }
    }
  }

  lemma BearerIsAuthField(field: seq<Byte>, token: string)
    requires BearerDenotes(field, token)
    ensures IsAuthField(field)
  {
    hide Encode, SpellsBearer, Ascii;
  }

  /** A message laid out as in the grammar is cut at the same places by the parser. */
  lemma MessageParts(m: seq<Byte>, header: seq<Byte>, body: seq<Byte>)
    requires KVSEP !in header && m == header + [KVSEP] + body + [KVSEP]
    requires body != [] && body[|body| - 1] == KVSEP
    ensures Position(m, KVSEP) == Some(|header|)
    ensures m[..|header|] == header && m[|header| + 1..|m| - 1] == body
    ensures EndsWith(m, [KVSEP, KVSEP])
  {
    assert m[..|header|] == header && m[|header|] == KVSEP;
    PositionIs(m, KVSEP, |header|);
    assert m[|m| - 2..] == [KVSEP, KVSEP];
  }

  lemma GrammarParses(m: seq<Byte>, r: ClientResponse, header: seq<Byte>, fields: seq<seq<Byte>>, last: nat)
    requires Decomposes(m, r, header, fields, last)
    ensures Parse(m) == Ok(r)
  {
    TerminatedEnds(fields);
    MessageParts(m, header, Terminated(fields));
    HeaderParses(header, r.authzid);
    FieldsParse(fields, last, r.token);
  }

  lemma FieldsParse(fields: seq<seq<Byte>>, last: nat, token: string)
    requires FieldsDenote(fields, last, token)
    ensures ScanFields(Split(Terminated(fields), KVSEP)) == Ok(Some(fields[last][5..]))
    ensures ParseBearer(Some(fields[last][5..])) == Ok(token)
  {
    assert forall i | 0 <= i < |fields| :: WellFormedField(fields[i]) ==> KVSEP !in fields[i];
    SplitTerminated(fields);
    BearerIsAuthField(fields[last], token);
    BearerParses(fields[last], token);
    ScanFindsLast(fields + [[]], last);
  }

  lemma {:induction false} TerminatedEnds(fields: seq<seq<Byte>>)
    requires fields != []
    ensures var bytes := Terminated(fields); bytes != [] && bytes[|bytes| - 1] == KVSEP
  {
    if |fields| > 1 {
      TerminatedEnds(fields[1..]);
    }
  }

  lemma FieldsParsed(body: seq<Byte>, token: string) returns (fields: seq<seq<Byte>>, last: nat)
    requires body == [] || body[|body| - 1] == KVSEP
    requires ScanFields(Split(body, KVSEP)).Ok?
    requires ParseBearer(ScanFields(Split(body, KVSEP)).value) == Ok(token)
    ensures body == Terminated(fields) && FieldsDenote(fields, last, token)
  {
    TerminatedSplit(body);
    var all := Split(body, KVSEP);
    fields := all[..|all| - 1];
    last := FieldsFound(all, token);
  }

  /** The fields of a body, without the empty one after its final separator. */
  lemma FieldsFound(all: seq<seq<Byte>>, token: string) returns (last: nat)
    requires all != [] && all[|all| - 1] == [] && forall f | f in all :: KVSEP !in f
    requires ScanFields(all).Ok? && ParseBearer(ScanFields(all).value) == Ok(token)
    ensures FieldsDenote(all[..|all| - 1], last, token)
  {
    last := ScanFound(all);
    BearerParses(all[last], token);
    var fields := all[..|all| - 1];
    forall i | 0 <= i < |fields| ensures fields[i] == all[i] && WellFormedField(fields[i]) {
    }
  }

  /** The converse of MessageParts: the cut pieces make up the message. */
  lemma MessageCut(m: seq<Byte>, n: nat)
    requires Position(m, KVSEP) == Some(n) && EndsWith(m, [KVSEP, KVSEP])
    ensures n + 1 <= |m| - 1
    ensures m == m[..n] + [KVSEP] + m[n + 1..|m| - 1] + [KVSEP]
    ensures n + 1 < |m| - 1 ==> m[|m| - 2] == KVSEP
  {
    SliceInBounds(m, n);
    var k := |m| - 1;
    assert m[k - 1..][0] == m[k - 1] && m[k - 1..][1] == m[k];
    CutTwice(m, n);
  }

  lemma CutTwice<T>(s: seq<T>, n: nat)
    requires n < |s| - 1
    ensures s == s[..n] + [s[n]] + s[n + 1..|s| - 1] + [s[|s| - 1]]
  {
  }

  lemma ParsesGrammar(m: seq<Byte>)
    requires Parse(m).Ok?
    ensures Grammar(m, Parse(m).value)
  {
    hide ParseHeader, ScanFields, Split, ParseBearer, Terminated, FieldsDenote, HeaderDenotes;
    var r := Parse(m).value;
    var n := Position(m, KVSEP).value;
    HeaderParses(m[..n], r.authzid);
    MessageCut(m, n);
    var fields, last := FieldsParsed(m[n + 1..|m| - 1], r.token);
    assert Decomposes(m, r, m[..n], fields, last);
  }

  /** The parser succeeds with r on exactly the messages the grammar gives the meaning r. */
  lemma ParserRefinesGrammar(m: seq<Byte>, r: ClientResponse)
    ensures Parse(m) == Ok(r) <==> Grammar(m, r)
  {
    if Grammar(m, r) {
      var header, fields, last :| Decomposes(m, r, header, fields, last);
      GrammarParses(m, r, header, fields, last);
    }
    if Parse(m) == Ok(r) {
      ParsesGrammar(m);
    }
  }

  // ---------- refusals ----------

  /** Bytes that encode no string. */
  ghost predicate NoText(bytes: seq<Byte>) {
    forall s: string :: bytes != Encode(s)
  }

  ghost predicate NamedHeader(header: seq<Byte>, inner: seq<Byte>) {
    header == Ascii("n,a=") + inner + Ascii(",")
  }

  /** Why a header is refused: neither form, no UTF-8, or a stray '='. */
  ghost predicate HeaderRefused(header: seq<Byte>, e: Error) {
    && header != Ascii("n,,")
    && match e
       case InvalidGs2Header => forall inner :: !NamedHeader(header, inner)
       case InvalidUtf8 => exists inner :: NamedHeader(header, inner) && NoText(inner)
       case InvalidSaslName =>
         exists escaped: string :: NamedHeader(header, Encode(escaped)) && forall name :: !WritesName(escaped, name)
       case _ => false
  }

  /** Why an `auth` value is refused: another scheme, no UTF-8, or no token. */
  ghost predicate AuthRefused(value: seq<Byte>, e: Error) {
    if |value| < 7 || !SpellsBearer(value[..7]) then e == NotBearer
    else if NoText(value[7..]) then e == InvalidUtf8
    else value[7..] == [] && e == NotBearer
  }

  /** The last `auth` field is this one. */
  ghost predicate LastAuth(fields: seq<seq<Byte>>, last: nat) {
    last < |fields| && IsAuthField(fields[last]) && forall i | last < i < |fields| :: !IsAuthField(fields[i])
  }

  /** Why fields are refused: one without '=', none named `auth`, or the last of these. */
  ghost predicate FieldsRefused(fields: seq<seq<Byte>>, e: Error) {
    if exists f :: f in fields && f != [] && 0x3D !in f then e == InvalidKeyValue
    else if forall f | f in fields :: !IsAuthField(f) then e == MissingAuth
    else exists last: nat :: LastAuth(fields, last) && AuthRefused(fields[last][5..], e)
  }

  /** The body after the first separator: each field with its separator, and one more separator. */
  ghost predicate Body(rest: seq<Byte>, fields: seq<seq<Byte>>) {
    (forall f | f in fields :: 0x01 !in f) && rest == Terminated(fields) + [0x01]
  }

  /** Why a message is refused: the first of these, from left to right. */
  ghost predicate Refused(m: seq<Byte>, e: Error) {
    if 0x01 !in m then e == InvalidGs2Header
    else
      exists header, rest ::
        && 0x01 !in header && m == header + [0x01] + rest
        && if exists h :: HeaderRefused(header, h) then HeaderRefused(header, e)
           else if !EndsWith(m, [0x01, 0x01]) then e == MissingTerminator
           else exists fields :: Body(rest, fields) && FieldsRefused(fields, e)
  }

  lemma NoTextIs(bytes: seq<Byte>)
    ensures NoText(bytes) <==> Decode(bytes).None?
  {
    hide Encode, Decode;
    if Decode(bytes).Some? {
      EncodeDecode(bytes);
    }
    forall s: string | bytes == Encode(s) ensures Decode(bytes).Some? {
      DecodeEncode(s);
    }
  }

  lemma NamedHeaderIs(header: seq<Byte>, inner: seq<Byte>)
    ensures NamedHeader(header, inner) <==> IsAuthzidHeader(header) && inner == header[4..|header| - 1]
  {
    AsciiWords();
    hide Ascii;
    if NamedHeader(header, inner) {
      assert header[..4] == GS2_AUTHZID && header[|header| - 1..] == [COMMA];
      assert header[4..|header| - 1] == inner;
    }
    if IsAuthzidHeader(header) {
      AuthzidHeaderIs(header);
    }
  }

  lemma HeaderRefuses(header: seq<Byte>)
    ensures ParseHeader(header).Err? ==> HeaderRefused(header, ParseHeader(header).error)
    ensures ParseHeader(header).Ok? ==> forall e :: !HeaderRefused(header, e)
  {
    AsciiWords();
    hide Ascii, Encode, Decode, UnescapeName, WritesName, NamedHeader, NoText;
    OneInner(header);
    if IsAuthzidHeader(header) {
      InnerRefuses(header, header[4..|header| - 1]);
    }
  }

  lemma OneInner(header: seq<Byte>)
    ensures if IsAuthzidHeader(header)
            then forall inner :: NamedHeader(header, inner) <==> inner == header[4..|header| - 1]
            else forall inner :: !NamedHeader(header, inner)
  {
    hide NamedHeader;
    forall inner ensures NamedHeader(header, inner) <==> IsAuthzidHeader(header) && inner == header[4..|header| - 1] {
      NamedHeaderIs(header, inner);
    }
  }

  lemma InnerRefuses(header: seq<Byte>, inner: seq<Byte>)
    requires forall i :: NamedHeader(header, i) <==> i == inner
    ensures NoText(inner) <==> Decode(inner).None?
    ensures forall escaped: string | NamedHeader(header, Encode(escaped)) :: Decode(inner) == Some(escaped)
    ensures Decode(inner).Some? ==>
              && NamedHeader(header, Encode(Decode(inner).value))
              && ((forall name :: !WritesName(Decode(inner).value, name)) <==> UnescapeName(Decode(inner).value).None?)
  {
    hide Ascii, Encode, Decode, UnescapeName, WritesName, NamedHeader, NoText;
    NoTextIs(inner);
    forall escaped: string | NamedHeader(header, Encode(escaped)) ensures Decode(inner) == Some(escaped) {
      DecodeEncode(escaped);
    }
    if Decode(inner).Some? {
      var escaped := Decode(inner).value;
      EncodeDecode(inner);
      forall name ensures WritesName(escaped, name) <==> UnescapeName(escaped) == Some(name) {
        UnescapeExactly(escaped, name);
      }
    }
  }

  lemma AuthRefuses(value: seq<Byte>)
    requires ParseBearer(Some(value)).Err?
    ensures AuthRefused(value, ParseBearer(Some(value)).error)
  {
    if |value| >= 7 {
      SpellsBearerIs(value[..7]);
      NoTextIs(value[7..]);
      hide SpellsBearer, EqIgnoreAsciiCase, Encode, Decode, NoText;
      if Decode(value[7..]) == Some("") {
        EncodeDecode(value[7..]);
        EmptyEncodes("");
      }
    }
  }

  lemma {:induction false} ScanRefuses(fields: seq<seq<Byte>>)
    requires forall f | f in fields :: KVSEP !in f
    ensures ScanFields(fields).Err? <==> exists f :: f in fields && f != [] && 0x3D !in f
    ensures ScanFields(fields).Err? ==> ScanFields(fields).error == InvalidKeyValue
  {
    if fields == [] {
    } else {
      var front, last := fields[..|fields| - 1], fields[|fields| - 1];
      assert fields == front + [last];
      ScanRefuses(front);
    }
  }

  lemma BadField(fields: seq<seq<Byte>>)
    ensures (exists f :: f in fields + [[]] && f != [] && 0x3D !in f)
       <==> exists f :: f in fields && f != [] && 0x3D !in f
  {
    var all := fields + [[]];
    assert forall f :: f in all <==> f in fields || f == [];
  }

  /** The field list of the parser has one empty field more than the body has fields. */
  lemma FieldsRefuse(fields: seq<seq<Byte>>)
    requires forall f | f in fields + [[]] :: KVSEP !in f
    requires var scanned := ScanFields(fields + [[]]); scanned.Err? || ParseBearer(scanned.value).Err?
    ensures var scanned := ScanFields(fields + [[]]);
            FieldsRefused(fields, if scanned.Err? then scanned.error else ParseBearer(scanned.value).error)
  {
    hide ParseBearer, AuthRefused, IsAuthField, ScanFields, WellFormedField;
    ScanRefuses(fields + [[]]);
    BadField(fields);
    if ScanFields(fields + [[]]).Ok? {
      AuthFieldRefuses(fields);
    }
  }

  lemma AuthFieldRefuses(fields: seq<seq<Byte>>)
    requires forall f | f in fields + [[]] :: KVSEP !in f
    requires ScanFields(fields + [[]]).Ok? && ParseBearer(ScanFields(fields + [[]]).value).Err?
    ensures var e := ParseBearer(ScanFields(fields + [[]]).value).error;
            if forall f | f in fields :: !IsAuthField(f) then e == MissingAuth
            else exists last: nat :: LastAuth(fields, last) && AuthRefused(fields[last][5..], e)
  {
    hide ParseBearer, AuthRefused, IsAuthField, ScanFields, WellFormedField;
    var all := fields + [[]];
    var last := ScanFound(all);
    EmptyIsNoAuth();
    NoAuthMissing();
    assert forall i | 0 <= i < |fields| :: all[i] == fields[i];
    if ScanFields(all).value.Some? {
      AuthIsLong(all[last]);
      assert LastAuth(fields, last) && fields[last] in fields;
      AuthRefuses(fields[last][5..]);
    }
  }

  lemma AuthIsLong(field: seq<Byte>)
    requires IsAuthField(field)
    ensures |field| >= 5
  {
  }

  lemma NoAuthMissing()
    ensures ParseBearer(None) == Err(MissingAuth)
  {
  }

  lemma EmptyIsNoAuth()
    ensures !IsAuthField([])
  {
  }

  lemma SplitBody(body: seq<Byte>) returns (fields: seq<seq<Byte>>)
    requires body == [] || body[|body| - 1] == KVSEP
    ensures Split(body, KVSEP) == fields + [[]] && Body(body + [0x01], fields)
    ensures forall f | f in fields + [[]] :: KVSEP !in f
  {
    hide Split, Terminated;
    TerminatedSplit(body);
    var all := Split(body, KVSEP);
    fields := all[..|all| - 1];
    assert all == fields + [[]];
  }

  /** Past header and terminator, the fields are to blame. */
  lemma BodyRefuses(body: seq<Byte>)
    requires body == [] || body[|body| - 1] == KVSEP
    requires var scanned := ScanFields(Split(body, KVSEP)); scanned.Err? || ParseBearer(scanned.value).Err?
    ensures var scanned := ScanFields(Split(body, KVSEP));
            var e := if scanned.Err? then scanned.error else ParseBearer(scanned.value).error;
            exists fields :: Body(body + [0x01], fields) && FieldsRefused(fields, e)
  {
    hide ScanFields, Split, ParseBearer, FieldsRefused, Body;
    var fields := SplitBody(body);
    FieldsRefuse(fields);
  }

  lemma RestOf(m: seq<Byte>, n: nat)
    requires Position(m, KVSEP) == Some(n) && EndsWith(m, [KVSEP, KVSEP])
    ensures n + 1 <= |m| - 1 && m[n + 1..] == m[n + 1..|m| - 1] + [0x01]
    ensures var body := m[n + 1..|m| - 1]; body == [] || body[|body| - 1] == KVSEP
  {
    MessageCut(m, n);
    assert m[|m| - 2..][1] == KVSEP;
  }

  /** Every message that is not in the grammar is refused for the first thing that is wrong with it. */
  lemma ParserRefuses(m: seq<Byte>)
    requires Parse(m).Err?
    ensures Refused(m, Parse(m).error)
  {
    hide ParseHeader, ScanFields, Split, ParseBearer, Terminated, HeaderRefused, FieldsRefused, Body;
    if Position(m, KVSEP).Some? {
      var n := Position(m, KVSEP).value;
      CutAt(m, n);
      var header, rest := m[..n], m[n + 1..];
      assert 0x01 !in header && m == header + [0x01] + rest;
      HeaderRefuses(header);
      if ParseHeader(header).Ok? && EndsWith(m, [KVSEP, KVSEP]) {
        RestOf(m, n);
        BodyRefuses(m[n + 1..|m| - 1]);
      }
    }
  }

  // ---------- round trips ----------

  /** What the message format can carry: section 3.1 of RFC 7628 reserves %x01. */
  predicate Carries(authzid: Option<string>, token: string) {
    token != "" && '\U{1}' !in token && (authzid.Some? ==> '\U{1}' !in authzid.value)
  }

  lemma PrintedHeader(authzid: Option<string>)
    requires authzid.Some? ==> '\U{1}' !in authzid.value
    ensures KVSEP !in GS2Header(authzid) && HeaderDenotes(GS2Header(authzid), NonEmpty(authzid))
  {
    EscapedHeaderIs(GS2Header(authzid), NonEmpty(authzid));
    hide HeaderDenotes;
    if NonEmpty(authzid).Some? {
      var name := authzid.value;
      UnescapeEscape(name);
      EscapeKeepsChar(name, '\U{1}');
      AsciiByteIsChar(EscapeName(name), KVSEP);
    }
  }

  lemma SchemeIsText(scheme: seq<Byte>)
    requires SpellsBearer(scheme)
    ensures 0x01 !in scheme
  {
    forall i | 0 <= i < 7 ensures scheme[i] != 0x01 {
      assert SpellsLetter(scheme[i], "Bearer "[i]);
    }
  }

  lemma AbsentFromAll<T>(a: seq<T>, b: seq<T>, c: seq<T>, x: T)
    requires x !in a && x !in b && x !in c
    ensures x !in a + b + c
  {
  }

  lemma NoSeparator(scheme: seq<Byte>, token: string)
    requires SpellsBearer(scheme) && '\U{1}' !in token
    ensures var field := Ascii("auth=") + scheme + Encode(token);
            0x01 !in field && 0x3D in field
  {
    AsciiWords();
    AsciiByteIsChar(token, 0x01);
    SchemeIsText(scheme);
    hide Encode, Ascii, SpellsBearer;
    AbsentFromAll(AUTH + [EQUALS], scheme, Encode(token), 0x01);
    var field := AUTH + [EQUALS] + scheme + Encode(token);
    assert field[4] == 0x3D;
  }


  lemma PrintedField(token: string)
    requires token != "" && '\U{1}' !in token
    ensures FieldsDenote([AUTH + [EQUALS] + BEARER + Encode(token)], 0, token)
  {
    AsciiWords();
    SpellsBearerIs(BEARER);
    NoSeparator(BEARER, token);
    hide Ascii, Encode, SpellsBearer;
    assert BearerDenotes(AUTH + [EQUALS] + BEARER + Encode(token), token);
  }

  lemma Regroup<T>(a: seq<T>, b: seq<T>, c: seq<T>, x: T)
    ensures a + b + c + [x, x] == a + (b + c + [x] + []) + [x]
  {
    assert b + c + [x] + [] == b + c + [x];
  }

  lemma PrintedParses(authzid: Option<string>, token: string)
    requires Carries(authzid, token)
    ensures Parse(Build(authzid, token)) == Ok(ClientResponse(NonEmpty(authzid), token))
  {
    var header, field := GS2Header(authzid), AUTH + [EQUALS] + BEARER + Encode(token);
    PrintedHeader(authzid);
    PrintedField(token);
    TerminatedCons(field, []);
    Regroup(header + [KVSEP], AUTH + [EQUALS] + BEARER, Encode(token), KVSEP);
    assert [field] + [] == [field];
    GrammarParses(Build(authzid, token), ClientResponse(NonEmpty(authzid), token), header, [field], 0);
  }

  lemma ParsedCarries(m: seq<Byte>)
    requires Parse(m).Ok?
    ensures Carries(Parse(m).value.authzid, Parse(m).value.token)
  {
    hide Parse, UnescapeName, Encode;
    ParsesGrammar(m);
    var r := Parse(m).value;
    var header, fields, last :| Decomposes(m, r, header, fields, last);
    AsciiByteIsChar(r.token, KVSEP);
    assert WellFormedField(fields[last]);
    EscapedHeaderIs(header, r.authzid);
    if r.authzid.Some? {
      var escaped :| UnescapeName(escaped) == r.authzid && header == GS2_AUTHZID + Encode(escaped) + [COMMA];
      AsciiByteIsChar(escaped, KVSEP);
      UnescapeKeepsChar(escaped, '\U{1}');
    }
  }

  /** parse(build(a, t)) gives a and t back exactly when the format can carry them. */
  lemma RoundTrip(authzid: Option<string>, token: string)
    ensures Parse(Build(authzid, token)) == Ok(ClientResponse(NonEmpty(authzid), token))
       <==> Carries(authzid, token)
  {
    if Carries(authzid, token) {
      PrintedParses(authzid, token);
    }
    if Parse(Build(authzid, token)) == Ok(ClientResponse(NonEmpty(authzid), token)) {
      ParsedCarries(Build(authzid, token));
    }
  }

  /** The header "n,," without an authzid; otherwise "n,a=", the name without raw commas, and a comma. */
  ghost predicate PrintedHeaderIs(header: seq<Byte>, authzid: Option<string>) {
    if authzid.None? || authzid.value == "" then header == Ascii("n,,")
    else
      exists escaped ::
        WritesName(escaped, authzid.value) && ',' !in escaped && header == Ascii("n,a=") + Encode(escaped) + Ascii(",")
  }

  /** What is printed, byte by byte. */
  lemma PrintedExactly(authzid: Option<string>, token: string, m: seq<Byte>)
    ensures m == Build(authzid, token) <==>
              exists header ::
                PrintedHeaderIs(header, authzid)
                && m == header + [0x01] + Ascii("auth=Bearer ") + Encode(token) + [0x01, 0x01]
  {
    AsciiWords();
    forall header: seq<Byte> ensures PrintedHeaderIs(header, authzid) <==> header == GS2Header(authzid) {
      PrintedHeaderExactly(header, authzid);
    }
    hide Ascii, Encode, PrintedHeaderIs, GS2Header;
    if m == Build(authzid, token) {
      assert PrintedHeaderIs(GS2Header(authzid), authzid);
    }
  }

  lemma PrintedHeaderExactly(header: seq<Byte>, authzid: Option<string>)
    ensures PrintedHeaderIs(header, authzid) <==> header == GS2Header(authzid)
  {
    AsciiWords();
    hide Ascii, Encode, EscapeName, WritesName;
    if authzid.Some? {
      forall escaped: string
        ensures escaped == EscapeName(authzid.value) <==> WritesName(escaped, authzid.value) && ',' !in escaped
      {
        EscapeExactly(escaped, authzid.value);
      }
      assert WritesName(EscapeName(authzid.value), authzid.value);
    }
  }

  /** Whatever the case of the letters of "Bearer", the response means the same. */
  lemma AnyCaseAccepted(header: seq<Byte>, authzid: Option<string>, scheme: seq<Byte>, token: string)
    requires 0x01 !in header && HeaderDenotes(header, authzid)
    requires SpellsBearer(scheme) && token != "" && '\U{1}' !in token
    ensures Parse(header + [0x01] + Ascii("auth=") + scheme + Encode(token) + [0x01, 0x01])
         == Ok(ClientResponse(authzid, token))
  {
    hide Encode, HeaderDenotes, Parse, SpellsBearer;
    var field := Ascii("auth=") + scheme + Encode(token);
    NoSeparator(scheme, token);
    assert BearerDenotes(field, token);
    assert FieldsDenote([field], 0, token);
    TerminatedCons(field, []);
    assert [field] + [] == [field];
    Regroup(header + [0x01], Ascii("auth=") + scheme, Encode(token), 0x01);
    var m := header + [0x01] + Ascii("auth=") + scheme + Encode(token) + [0x01, 0x01];
    assert m == header + [0x01] + Terminated([field]) + [0x01] by {
      assert header + [0x01] + (Ascii("auth=") + scheme) == header + [0x01] + Ascii("auth=") + scheme;
    }
    GrammarParses(m, ClientResponse(authzid, token), header, [field], 0);
  }

  function Canonical(m: seq<Byte>): seq<Byte>
    requires Parse(m).Ok?
  {
    Build(Parse(m).value.authzid, Parse(m).value.token)
  }

  /** Reprinting any accepted message gives an accepted message with the same meaning, and a fixed point. */
  lemma CanonicalForm(m: seq<Byte>)
    requires Parse(m).Ok?
    ensures var r := Parse(m).value;
            Parse(Canonical(m)) == Ok(ClientResponse(NonEmpty(r.authzid), r.token))
    ensures Canonical(Canonical(m)) == Canonical(m)
  {
    ParsedCarries(m);
    PrintedParses(Parse(m).value.authzid, Parse(m).value.token);
  }

  // ---------- names with raw commas ----------

  /** A response whose authzid is written as given, escaped or not. */
  function WrittenWith(escaped: string, token: string): seq<Byte> {
    GS2_AUTHZID + Encode(escaped) + [COMMA] + [KVSEP] + (AUTH + [EQUALS] + BEARER) + Encode(token) + [KVSEP, KVSEP]
  }

  lemma WrittenParses(escaped: string, token: string)
    requires UnescapeName(escaped).Some? && '\U{1}' !in escaped && token != "" && '\U{1}' !in token
    ensures Parse(WrittenWith(escaped, token)) == Ok(ClientResponse(UnescapeName(escaped), token))
  {
    var header, field := GS2_AUTHZID + Encode(escaped) + [COMMA], AUTH + [EQUALS] + BEARER + Encode(token);
    AsciiByteIsChar(escaped, KVSEP);
    assert EscapedHeader(header, UnescapeName(escaped));
    EscapedHeaderIs(header, UnescapeName(escaped));
    hide HeaderDenotes;
    PrintedField(token);
    TerminatedCons(field, []);
    Regroup(header + [KVSEP], AUTH + [EQUALS] + BEARER, Encode(token), KVSEP);
    assert [field] + [] == [field];
    GrammarParses(WrittenWith(escaped, token), ClientResponse(UnescapeName(escaped), token), header, [field], 0);
  }

  lemma SameFront<T>(a: seq<T>, b: seq<T>, rest: seq<T>)
    ensures a + rest == b + rest <==> a == b
  {
    if a + rest == b + rest {
      assert a == (a + rest)[..|a|] && b == (b + rest)[..|b|];
    }
  }

  lemma SameHeader(name: string, escaped: string)
    ensures GS2_AUTHZID + Encode(name) + [COMMA] == GS2_AUTHZID + Encode(escaped) + [COMMA] <==> name == escaped
  {
    var a, b := GS2_AUTHZID + Encode(name) + [COMMA], GS2_AUTHZID + Encode(escaped) + [COMMA];
    if a == b {
      assert a[4..|a| - 1] == Encode(name) && b[4..|b| - 1] == Encode(escaped);
      DecodeEncode(name);
      DecodeEncode(escaped);
    }
  }

  lemma PrintedAgain(escaped: string, token: string)
    requires UnescapeName(escaped).Some?
    ensures Build(UnescapeName(escaped), token) == WrittenWith(escaped, token) <==> escaped != "" && ',' !in escaped
  {
    hide EscapeName, Encode, UnescapeName;
    var name := UnescapeName(escaped).value;
    var header := GS2_AUTHZID + Encode(escaped) + [COMMA];
    var rest := [KVSEP] + (AUTH + [EQUALS] + BEARER) + Encode(token) + [KVSEP, KVSEP];
    HeaderAndRest(header, token);
    HeaderAndRest(GS2Header(Some(name)), token);
    SameFront(GS2Header(Some(name)), header, rest);
    SameHeader(EscapeName(name), escaped);
    EscapeUnescape(escaped);
    NameIsEmpty(escaped);
    assert header[2] == 0x61 && GS2_NO_AUTHZID[2] == COMMA;
  }

  lemma HeaderAndRest(header: seq<Byte>, token: string)
    ensures header + [KVSEP] + (AUTH + [EQUALS] + BEARER) + Encode(token) + [KVSEP, KVSEP]
         == header + ([KVSEP] + (AUTH + [EQUALS] + BEARER) + Encode(token) + [KVSEP, KVSEP])
  {
    hide Encode;
  }

  /**
   The parser takes any authzid it can unescape, raw commas included; printing
   the meaning again gives the same bytes exactly if there is none, and a name.
   */
  lemma RawCommasAccepted(escaped: string, token: string, m: seq<Byte>)
    requires UnescapeName(escaped).Some? && '\U{1}' !in escaped && token != "" && '\U{1}' !in token
    requires m == WrittenWith(escaped, token)
    ensures Parse(m) == Ok(ClientResponse(UnescapeName(escaped), token))
    ensures Canonical(m) == m <==> escaped != "" && ',' !in escaped
  {
    WrittenParses(escaped, token);
    hide Parse, WrittenWith, Build, UnescapeName;
    PrintedAgain(escaped, token);
  }

  lemma NameIsEmpty(escaped: string)
    ensures UnescapeName(escaped) == Some("") <==> escaped == ""
  {
  }

  // ---------- which messages are their own canonical form ----------

  /** No authzid, or one that is not empty and holds no raw comma. */
  predicate PlainHeader(header: seq<Byte>) {
    || header == GS2_NO_AUTHZID
    || (IsAuthzidHeader(header) && |header| > 5 && COMMA !in header[4..|header| - 1])
  }

  /** One field only, which spells "auth=Bearer " in that very case. */
  predicate PlainBody(body: seq<Byte>) {
    && |body| >= 2
    && var field := body[..|body| - 2];
       StartsWith(field, AUTH + [EQUALS] + BEARER) && KVSEP !in field
  }

  lemma HeaderPlain(header: seq<Byte>, authzid: Option<string>)
    requires ParseHeader(header) == Ok(authzid)
    ensures GS2Header(authzid) == header <==> PlainHeader(header)
  {
    if authzid.Some? {
      hide Encode, Decode, UnescapeName, EscapeName;
      AuthzidHeaderIs(header);
      EncodeDecode(header[4..|header| - 1]);
      var escaped := Decode(header[4..|header| - 1]).value;
      AsciiByteIsChar(escaped, COMMA);
      NameIsEmpty(escaped);
      EmptyEncodes(escaped);
      SameHeader(EscapeName(authzid.value), escaped);
      EscapeUnescape(escaped);
    }
  }

  lemma EmptyEncodes(s: string)
    ensures Encode(s) == [] <==> s == ""
  {
  }

  /** The value of a single field that starts like the printed one. */
  lemma OneField(field: seq<Byte>)
    requires StartsWith(field, AUTH + [EQUALS] + BEARER) && KVSEP !in field
    ensures ScanFields(Split(field + [KVSEP], KVSEP)) == Ok(Some(field[5..])) && field[5..][..7] == BEARER
    ensures field == AUTH + [EQUALS] + field[5..]
  {
    SplitAt(field, []);
    assert field + [KVSEP] + [] == field + [KVSEP];
    assert Split([], KVSEP) == [[]];
    var prefix := AUTH + [EQUALS] + BEARER;
    assert field == prefix + field[12..];
    assert field[..4] == AUTH && field[4] == EQUALS;
    PositionIs(field, EQUALS, 4);
    ScanOne(field);
  }

  lemma ScanOne(field: seq<Byte>)
    requires field != [] && Position(field, EQUALS) == Some(4) && field[..4] == AUTH
    ensures ScanFields([field] + [[]]) == Ok(Some(field[5..]))
  {
    var fields: seq<seq<Byte>> := [field] + [[]];
    assert fields[..1] == [field] && [field][..0] == [];
    assert ScanFields([field]) == Ok(Some(field[5..]));
  }

  function PrintedBody(token: string): seq<Byte> {
    AUTH + [EQUALS] + BEARER + Encode(token) + [KVSEP, KVSEP]
  }

  lemma PrintedBodyPlain(token: string)
    requires '\U{1}' !in token
    ensures PlainBody(PrintedBody(token))
  {
    AsciiByteIsChar(token, KVSEP);
    hide Encode;
    var body, prefix := PrintedBody(token), AUTH + [EQUALS] + BEARER;
    assert body[..|body| - 2] == prefix + Encode(token);
    assert (prefix + Encode(token))[..|prefix|] == prefix;
  }

  lemma BodyPlain(body: seq<Byte>, token: string)
    requires |body| >= 2 && EndsWith(body, [KVSEP, KVSEP]) && ScanFields(Split(body[..|body| - 1], KVSEP)).Ok?
    requires ParseBearer(ScanFields(Split(body[..|body| - 1], KVSEP)).value) == Ok(token) && '\U{1}' !in token
    ensures body == PrintedBody(token) <==> PlainBody(body)
  {
    hide Split, ScanFields, ParseBearer, Encode;
    PrintedBodyPlain(token);
    if PlainBody(body) {
      var field := body[..|body| - 2];
      assert body == field + [KVSEP, KVSEP] && body[..|body| - 1] == field + [KVSEP];
      OneField(field);
      BearerRead(field[5..], token);
      assert field == AUTH + [EQUALS] + (BEARER + Encode(token));
      assert AUTH + [EQUALS] + (BEARER + Encode(token)) == AUTH + [EQUALS] + BEARER + Encode(token);
    }
  }

  /** Messages of a separator-free header and a body are equal part by part. */
  lemma SameParts(h: seq<Byte>, b: seq<Byte>, h': seq<Byte>, b': seq<Byte>)
    requires KVSEP !in h && KVSEP !in h'
    ensures h + [KVSEP] + b == h' + [KVSEP] + b' <==> h == h' && b == b'
  {
    var m, m' := h + [KVSEP] + b, h' + [KVSEP] + b';
    assert m[..|h|] == h && m'[..|h'|] == h' && m[|h|] == KVSEP && m'[|h'|] == KVSEP;
    assert m[|h| + 1..] == b && m'[|h'| + 1..] == b';
    PositionIs(m, KVSEP, |h|);
    PositionIs(m', KVSEP, |h'|);
  }

  lemma BuildParts(authzid: Option<string>, token: string)
    ensures Build(authzid, token) == GS2Header(authzid) + [KVSEP] + PrintedBody(token)
  {
    hide Encode, GS2Header;
    HeaderAndRest(GS2Header(authzid), token);
    var rest := [KVSEP] + (AUTH + [EQUALS] + BEARER) + Encode(token) + [KVSEP, KVSEP];
    assert rest == [KVSEP] + PrintedBody(token);
    assert GS2Header(authzid) + ([KVSEP] + PrintedBody(token)) == GS2Header(authzid) + [KVSEP] + PrintedBody(token);
  }

  /** The parts of an accepted message, and what they mean. */
  lemma AcceptedParts(m: seq<Byte>, n: nat)
    requires Parse(m).Ok? && Position(m, KVSEP) == Some(n)
    ensures n + 2 < |m| && m == m[..n] + [KVSEP] + m[n + 1..] && KVSEP !in m[..n]
    ensures ParseHeader(m[..n]) == Ok(Parse(m).value.authzid)
    ensures var body := m[n + 1..];
            && EndsWith(body, [KVSEP, KVSEP]) && ScanFields(Split(body[..|body| - 1], KVSEP)).Ok?
            && ParseBearer(ScanFields(Split(body[..|body| - 1], KVSEP)).value) == Ok(Parse(m).value.token)
  {
    SliceInBounds(m, n);
    hide ParseHeader, ScanFields, ParseBearer, Split, Position;
    CutAt(m, n);
    var body := m[n + 1..];
    assert body[..|body| - 1] == m[n + 1..|m| - 1];
    assert |body| == 1 ==> body[..|body| - 1] == [];
    NoFieldsFail();
    assert m[|m| - 2..] == body[|body| - 2..];
  }

  lemma NoFieldsFail()
    ensures ScanFields(Split([], KVSEP)) == Ok(None) && ParseBearer(None).Err?
  {
    assert Split([], KVSEP) == [[]];
    var fields: seq<seq<Byte>> := [[]];
    assert fields[..0] == [];
  }

  /** An accepted message is its own canonical form exactly if its header and its body are plain. */
  lemma CanonicalExactly(m: seq<Byte>, n: nat)
    requires Parse(m).Ok? && Position(m, KVSEP) == Some(n)
    ensures Canonical(m) == m <==> PlainHeader(m[..n]) && PlainBody(m[n + 1..])
  {
    AcceptedParts(m, n);
    ParsedCarries(m);
    var r := Parse(m).value;
    PrintedHeader(r.authzid);
    hide Parse, PlainHeader, PlainBody, GS2Header, Build, PrintedBody, ParseHeader, ScanFields, ParseBearer, Split;
    BuildParts(r.authzid, r.token);
    SameParts(GS2Header(r.authzid), PrintedBody(r.token), m[..n], m[n + 1..]);
    HeaderPlain(m[..n], r.authzid);
    BodyPlain(m[n + 1..], r.token);
  }
}
