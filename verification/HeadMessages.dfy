/** Response heads as a server writes them, and that they are read back. */
module HeadMessages {
  import opened Bytes
  import opened Text
  import opened Http
  import opened HttpHead
  import opened MultipartMessages

  /** A field that a response head accepts. */
  predicate HeadField(field: (bytes, bytes)) {
    ValidField(field) && field.0 != [] && forall b | b in field.0 :: IsHeaderNameByte(b)
  }

  predicate HeadFields(fields: seq<(bytes, bytes)>) {
    forall i | 0 <= i < |fields| :: HeadField(fields[i])
  }

  function StatusLine(minor: byte, status: nat, reason: bytes): bytes {
    (HTTP_1 + [minor]) + ([SPACE] + (PrintUnsigned(status, 10) + ([SPACE] + reason)))
  }

  /** The values that fields give to a name, in order. */
  function FieldValues(fields: seq<(bytes, bytes)>, name: bytes): seq<bytes> {
    if fields == [] then []
    else FieldValues(fields[..|fields| - 1], name) + if LowerAll(fields[|fields| - 1].0) == name
         then [fields[|fields| - 1].1] else []
  }

  /** A visible character that is no delimiter (section 5.6.2 of RFC 9110). */
  predicate TokenByte(b: byte) {
    33 <= b <= 126 && b as char !in "\"(),/:;<=>?@[\\]{}"
  }

  lemma NameByteIff(b: byte)
    ensures IsHeaderNameByte(b) <==> TokenByte(b)
  {
    assert |"\"(),/:;<=>?@[\\]{}"| == 17;
  }

  /** A line is a header line exactly if a name of such bytes stands in front of its first colon. */
  lemma HeaderLineIff(line: bytes, colon: nat)
    requires colon < |line| && line[colon] == ':' as int && forall i | 0 <= i < colon :: line[i] != ':' as int
    ensures ParseHeaderLine(line).Ok? <==> colon > 0 && forall i | 0 <= i < colon :: TokenByte(line[i])
    ensures ParseHeaderLine(line).Ok? ==>
              ParseHeaderLine(line).value == (LowerAll(line[..colon]), Trim(line[colon + 1..]))
  {
    hide IsHeaderNameByte, LowerAll, Trim;
    var name := line[..colon];
    assert line == name + line[colon..];
    FirstOfByte(name, line[colon..], COLON);
    forall b: byte
      ensures IsHeaderNameByte(b) <==> TokenByte(b)
    {
      NameByteIff(b);
    }
    assert forall i | 0 <= i < colon :: line[i] == name[i] && name[i] in name;
  }

  lemma NoColonNoHeader(line: bytes)
    requires ':' as int !in line
    ensures ParseHeaderLine(line) == Err(BadHead)
  {
  }

  /** A name of letters and dashes. */
  predicate PlainName(s: bytes) {
    s != [] && forall b | b in s :: b == DASH || 65 <= b <= 90 || 97 <= b <= 122
  }

  // ---- The status line ----

  /** A token has no white space and cannot be part of one. */
  predicate Token(s: bytes) {
    s != [] && forall b | b in s :: 33 <= b <= 126
  }

  lemma {:induction false} TokenEndsAtSpace(token: bytes, rest: bytes)
    requires (forall b | b in token :: 33 <= b <= 126) && (rest == [] || rest[0] == SPACE)
    ensures TokenEnd(token + rest) == |token|
  {
    if token == [] {
      assert token + rest == rest;
    } else {
      assert (token + rest)[0] == token[0] && (token + rest)[1..] == token[1..] + rest;
      assert token[0] in token && forall b | b in token[1..] :: b in token;
      assert LeadingSpace(token + rest) == 0;
      TokenEndsAtSpace(token[1..], rest);
    }
  }

  lemma TokenInFront(token: bytes, rest: bytes)
    requires Token(token) && (rest == [] || rest[0] == SPACE)
    ensures FirstToken(token + rest) == token && AfterToken(token + rest) == rest
  {
    TokenEndsAtSpace(token, rest);
    assert (token + rest)[0] == token[0] && token[0] in token && LeadingSpace(token + rest) == 0;
    assert TrimStart(token + rest) == token + rest;
  }

  lemma TokenBehindSpace(token: bytes, rest: bytes)
    requires Token(token) && (rest == [] || rest[0] == SPACE)
    ensures FirstToken([SPACE] + (token + rest)) == token
  {
    var s := [SPACE] + (token + rest);
    assert LeadingSpace(s) == 1 && s[1..] == token + rest;
    TokenInFront(token, rest);
    assert TrimStart(s) == TrimStart(token + rest);
  }

  lemma PrintedIsToken(n: nat)
    ensures Token(PrintUnsigned(n, 10))
  {
    PrintedDigits(n, 10);
    forall b | b in PrintUnsigned(n, 10)
      ensures 33 <= b <= 126
    {
      assert IsDigit(b, 10);
    }
  }

  /** A status line is read exactly if it begins with one of the two versions and a decimal status of 16 bits. */
  lemma StatusLineIff(version: bytes, status: bytes, rest: bytes)
    requires Token(version) && Token(status) && (rest == [] || rest[0] == SPACE)
    ensures ParseStatusLine(version + ([SPACE] + (status + rest))).Ok?
       <==> && (version == Ascii8("HTTP/1.0") || version == Ascii8("HTTP/1.1"))
            && exists n: nat, zeros: nat, plus: bool :: n < 65_536 && IsDecimal(status, n, zeros, plus)
  {
    hide FirstToken, AfterToken, IsDecimal;
    assert |"HTTP/1.0"| == |"HTTP/1.1"| == 8;
    assert Ascii8("HTTP/1.0") == HTTP_1 + [48] && Ascii8("HTTP/1.1") == HTTP_1 + [49];
    TokenInFront(version, [SPACE] + (status + rest));
    TokenBehindSpace(status, rest);
    if ParseUnsigned(status, 10, 65_536).Some? {
      ParsedIsDecimal(status, 65_536);
    }
    if n: nat, zeros: nat, plus: bool :| n < 65_536 && IsDecimal(status, n, zeros, plus) {
      DecimalParses(status, n, zeros, plus, 65_536);
    }
  }

  lemma StatusLineParses(minor: byte, status: nat, reason: bytes)
    requires (minor == 48 || minor == 49) && status < 65536
    ensures ParseStatusLine(StatusLine(minor, status, reason)) == Ok(status)
  {
    hide FirstToken, AfterToken;
    var version, code := HTTP_1 + [minor], PrintUnsigned(status, 10);
    var behind := [SPACE] + (code + ([SPACE] + reason));
    TokenInFront(version, behind);
    PrintedIsToken(status);
    TokenBehindSpace(code, [SPACE] + reason);
    PrintParse(status, 10, 65536);
  }

  lemma StatusLineIsPlain(minor: byte, status: nat, reason: bytes)
    requires (minor == 48 || minor == 49) && PlainLine(reason) && ValidUtf8(reason)
    ensures PlainLine(StatusLine(minor, status, reason)) && ValidUtf8(StatusLine(minor, status, reason))
  {
    hide ValidUtf8;
    var code := PrintUnsigned(status, 10);
    PrintedIsToken(status);
    var front := (HTTP_1 + [minor]) + ([SPACE] + (code + [SPACE]));
    assert forall b | b in front :: b < 128 && b != CR && b != LF;
    AsciiIsUtf8(front);
    Utf8Concat(front, reason);
    assert front + reason == StatusLine(minor, status, reason);
  }

  // ---- The fields ----

  lemma HeadFieldParses(field: (bytes, bytes))
    requires HeadField(field)
    ensures ParseHeaderLine(FieldLine(field)) == Ok((LowerAll(field.0), field.1))
  {
    hide ValidUtf8;
    var (name, value) := field;
    FirstOfByte(name, [COLON, SPACE] + value, COLON);
    assert FieldLine(field)[|name| + 1..] == [SPACE] + value;
    TrimOneSpace(value);
  }

  lemma {:induction false} FieldsGiveValues(fields: seq<(bytes, bytes)>, name: bytes)
    requires HeadFields(fields)
    ensures ValuesOf(FieldLines(fields), name) == FieldValues(fields, name)
  {
    hide HeadField, FieldLine, ParseHeaderLine;
    if fields != [] {
      var n := |fields| - 1;
      FieldsGiveValues(fields[..n], name);
      HeadFieldParses(fields[n]);
      assert FieldLines(fields)[..n] == FieldLines(fields[..n]);
    }
  }

  lemma FieldsAreHeaders(fields: seq<(bytes, bytes)>)
    requires HeadFields(fields)
    ensures ParseHeaderLines(FieldLines(fields)).Ok?
  {
    hide HeadField, FieldLine, ParseHeaderLine;
    HeadersReadIff(FieldLines(fields));
    forall k | 0 <= k < |fields|
      ensures ParseHeaderLine(FieldLines(fields)[k]).Ok?
    {
      HeadFieldParses(fields[k]);
    }
  }

  // ---- The whole head ----

  function HeadText(minor: byte, status: nat, reason: bytes, fields: seq<(bytes, bytes)>): bytes {
    JoinLines([StatusLine(minor, status, reason)] + FieldLines(fields))
  }

  /** A head is read back: its status, and for every name the values of all fields with that name, in order
      and separated by commas. */
  lemma HeadRoundTrip(minor: byte, status: nat, reason: bytes, fields: seq<(bytes, bytes)>, name: bytes)
    requires (minor == 48 || minor == 49) && status < 65536 && PlainLine(reason) && ValidUtf8(reason)
             && HeadFields(fields)
    ensures var head := ParseHead(HeadText(minor, status, reason, fields));
            var values := FieldValues(fields, name);
            && head.Ok? && head.value.status == status
            && (name in head.value.headers <==> values != [])
            && (values != [] ==> head.value.headers[name] == CommaSeparated(values))
  {
    hide StatusLine, FieldLine, ParseStatusLine, ValidUtf8, HeadField, JoinLines, SplitLines, CommaSeparated;
    var lines := [StatusLine(minor, status, reason)] + FieldLines(fields);
    StatusLineIsPlain(minor, status, reason);
    StatusLineParses(minor, status, reason);
    FieldLinesArePlain(fields);
    SplitJoined(lines);
    JoinedUtf8(lines);
    assert lines[1..] == FieldLines(fields);
    FieldsAreHeaders(fields);
    HeadersByName(FieldLines(fields), name);
    FieldsGiveValues(fields, name);
  }

  lemma FieldLinesArePlain(fields: seq<(bytes, bytes)>)
    requires HeadFields(fields)
    ensures forall l | l in FieldLines(fields) :: PlainLine(l) && ValidUtf8(l)
  {
    hide FieldLine, ValidUtf8;
    forall l | l in FieldLines(fields)
      ensures PlainLine(l) && ValidUtf8(l)
    {
      var i :| 0 <= i < |fields| && FieldLines(fields)[i] == l;
      assert HeadField(fields[i]);
      FieldLineIsPlain(fields[i]);
    }
  }
}
