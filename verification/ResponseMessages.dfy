/** Whole responses as a server writes them, from the first byte of the head to the last byte of the body, and
    what the client reads: every segmentation of the connection gives the body that was written. */
module ResponseMessages {
  import opened Bytes
  import opened Text
  import opened Http
  import opened HttpHead
  import opened HeadMessages
  import opened MultipartMessages
  import opened ChunkedMessages
  import opened Responses

  // ---- A printed head ----

  function PrintedFields(fields: seq<(bytes, bytes)>): bytes {
    if fields == [] then []
    else fields[0].0 + Ascii8(": ") + fields[0].1 + Ascii8("\r\n") + PrintedFields(fields[1..])
  }

  function PrintedHead(status: nat, reason: bytes, fields: seq<(bytes, bytes)>): bytes {
    Ascii8("HTTP/1.1 ") + PrintUnsigned(status, 10) + Ascii8(" ") + reason + Ascii8("\r\n")
    + PrintedFields(fields) + Ascii8("\r\n")
  }

  /** A head that a client can read: a status of 16 bits, well-formed fields, and at most 64 KiB in all. */
  predicate Readable(status: nat, reason: bytes, fields: seq<(bytes, bytes)>) {
    && status < 65536 && PlainLine(reason) && ValidUtf8(reason) && HeadFields(fields)
    && |PrintedHead(status, reason, fields)| <= 65536
  }

  /** The connection carries this head and this body, in reads of any size. */
  ghost predicate Sends(wire: Wire, status: nat, reason: bytes, fields: seq<(bytes, bytes)>, body: bytes) {
    ValidWire(wire) && Plain(FlatWire(wire)) == PrintedHead(status, reason, fields) + body
  }

  lemma Literals()
    ensures Ascii8("\r\n") == CRLF && Ascii8(": ") == [COLON, SPACE] && Ascii8(" ") == [SPACE]
    ensures Ascii8("\r\n") + Ascii8("\r\n") == CRLFCRLF && Ascii8("HTTP/1.1 ") == HTTP_1 + [49] + [SPACE]
  {
    assert |"\r\n"| == 2 && |": "| == 2 && |" "| == 1 && |"HTTP/1.1 "| == 9;
  }

  lemma {:induction false} FieldsPrinted(fields: seq<(bytes, bytes)>)
    ensures fields != [] ==> JoinLines(FieldLines(fields)) + CRLF == PrintedFields(fields)
  {
    Literals();
    if |fields| > 1 {
      FieldsPrinted(fields[1..]);
      assert FieldLines(fields)[1..] == FieldLines(fields[1..]);
    }
  }

  lemma HeadIsText(status: nat, reason: bytes, fields: seq<(bytes, bytes)>)
    ensures PrintedHead(status, reason, fields) == HeadText(49, status, reason, fields) + CRLFCRLF
  {
    hide PrintUnsigned, FieldLine;
    Literals();
    FieldsPrinted(fields);
    var lines := [StatusLine(49, status, reason)] + FieldLines(fields);
    assert lines[1..] == FieldLines(fields);
  }

  /** The head is found and read, wherever the reads end. */
  lemma HeadInFront(wire: Wire, status: nat, reason: bytes, fields: seq<(bytes, bytes)>, body: bytes)
    requires Readable(status, reason, fields) && Sends(wire, status, reason, fields, body)
    ensures var flat, n := FlatWire(wire), |PrintedHead(status, reason, fields)|;
            && 4 <= n <= |flat| && Plain(flat[n..]) == body
            && TakeHead(flat, Cuts(wire)) == Ok(n - 4)
            && ParseHead(Plain(flat)[..n - 4]) == ParseHead(HeadText(49, status, reason, fields))
  {
    hide HeadText, ParseHead, TakeHead, PrintedHead, FirstIndex, ValidUtf8, HeadField;
    var head, flat := HeadText(49, status, reason, fields), FlatWire(wire);
    HeadIsText(status, reason, fields);
    assert Plain(flat) == head + CRLFCRLF + body;
    HeadEnds(status, reason, fields, body);
    assert Plain(flat)[..|head|] == head;
    PlainSplit(flat, |head| + 4);
    ShortHeadTaken(wire, Plain(flat));
  }

  lemma HeadEnds(status: nat, reason: bytes, fields: seq<(bytes, bytes)>, body: bytes)
    requires Readable(status, reason, fields)
    ensures FirstIndex(HeadText(49, status, reason, fields) + CRLFCRLF + body, CRLFCRLF)
            == Some(|HeadText(49, status, reason, fields)|)
  {
    hide FirstIndex, ValidUtf8, PrintedHead, StatusLine;
    var lines := [StatusLine(49, status, reason)] + FieldLines(fields);
    StatusLineIsPlain(49, status, reason);
    StatusLineNotEmpty(status, reason);
    FieldLinesArePlain(fields);
    forall l | l in lines
      ensures PlainLine(l) && l != []
    {
      if l in FieldLines(fields) {
        var i :| 0 <= i < |fields| && l == FieldLines(fields)[i];
        assert |FieldLine(fields[i])| >= 2;
      }
    }
    BlankLineEndsBlock(lines, body);
  }

  lemma StatusLineNotEmpty(status: nat, reason: bytes)
    ensures StatusLine(49, status, reason) != []
  {
    hide PrintUnsigned;
  }

  // ---- What the fields say ----

  /** No field has this name, in whatever case. */
  predicate Without(fields: seq<(bytes, bytes)>, name: bytes) {
    forall i | 0 <= i < |fields| :: LowerAll(fields[i].0) != name
  }

  lemma {:induction false} NoValues(fields: seq<(bytes, bytes)>, name: bytes)
    requires Without(fields, name)
    ensures FieldValues(fields, name) == []
  {
    if fields != [] {
      NoValues(fields[..|fields| - 1], name);
    }
  }

  lemma {:induction false} OneValue(front: seq<(bytes, bytes)>, field: (bytes, bytes), back: seq<(bytes, bytes)>,
                                    name: bytes)
    requires Without(front, name) && Without(back, name) && LowerAll(field.0) == name
    ensures FieldValues(front + [field] + back, name) == [field.1]
  {
    var fields := front + [field] + back;
    if back == [] {
      assert fields[..|fields| - 1] == front;
      NoValues(front, name);
    } else {
      assert fields[..|fields| - 1] == front + [field] + back[..|back| - 1];
      OneValue(front, field, back[..|back| - 1], name);
    }
  }

  // ---- Names in the case in which servers write them ----

  lemma LengthTitle()
    ensures Ascii8("Content-Length") == [67, 111, 110, 116, 101, 110, 116, 45, 76, 101, 110, 103, 116, 104]
  {
  }

  lemma LengthNames()
    ensures LowerAll(Ascii8("Content-Length")) == CONTENT_LENGTH == Ascii8("content-length")
            && PlainName(Ascii8("Content-Length"))
  {
    assert Ascii8("content-length") == CONTENT_LENGTH;
    hide Ascii8;
    LengthTitle();
  }

  lemma CodingTitle()
    ensures Ascii8("Transfer-Encoding")
            == [84, 114, 97, 110, 115, 102, 101, 114, 45, 69, 110, 99, 111, 100, 105, 110, 103]
  {
  }

  lemma CodingLower()
    ensures Ascii8("transfer-encoding") == TRANSFER_ENCODING
  {
  }

  lemma CodingNames()
    ensures LowerAll(Ascii8("Transfer-Encoding")) == TRANSFER_ENCODING == Ascii8("transfer-encoding")
  {
    hide Ascii8;
    CodingTitle();
    CodingLower();
  }

  lemma ChunkedName()
    ensures Ascii8("chunked") == CHUNKED && COMMA !in CHUNKED && LowerAll(Trim(CHUNKED)) == CHUNKED
  {
    VisibleAsciiIsTrimmed(CHUNKED);
    TrimmedIsFixed(CHUNKED);
  }

  // ---- Which body a head announces ----

  /** A field in front of and behind which no field announces a body. */
  predicate OnlyOne(front: seq<(bytes, bytes)>, back: seq<(bytes, bytes)>) {
    && Without(front + back, Ascii8("content-length")) && Without(front + back, Ascii8("transfer-encoding"))
  }

  lemma WithoutParts(front: seq<(bytes, bytes)>, back: seq<(bytes, bytes)>, name: bytes)
    requires Without(front + back, name)
    ensures Without(front, name) && Without(back, name)
  {
    assert forall i | 0 <= i < |front| :: (front + back)[i] == front[i];
    assert forall i | 0 <= i < |back| :: (front + back)[|front| + i] == back[i];
  }

  lemma OtherName(front: seq<(bytes, bytes)>, field: (bytes, bytes), back: seq<(bytes, bytes)>, name: bytes)
    requires Without(front + back, name) && LowerAll(field.0) != name
    ensures Without(front + [field] + back, name)
  {
    WithoutParts(front, back, name);
  }

  /** The connection is answered with what its transfer mode makes of the bytes behind the head. */
  lemma AnswerBehindHead(wire: Wire, status: nat, reason: bytes, fields: seq<(bytes, bytes)>, body: bytes)
    requires Readable(status, reason, fields) && Sends(wire, status, reason, fields, body)
    ensures var flat, n := FlatWire(wire), |PrintedHead(status, reason, fields)|;
            var head := ParseHead(HeadText(49, status, reason, fields));
            && 4 <= n <= |flat| && Plain(flat[n..]) == body && head.Ok? && head.value.status == status
            && match SelectTransfer(head.value.headers)
               case Err(e) => HeadOf(flat, Cuts(wire)) == Err(e) && AnswerOf(wire).None?
               case Ok(transfer) =>
                 && AnswerOf(wire).Some? && AnswerOf(wire).value.head == head.value
                 && AnswerOf(wire).value.body == Decode(transfer, flat[n..], Cuts(wire))
  {
    hide HeadText, ParseHead, SelectTransfer, TakeHead, PrintedHead, Decode, Ends, HeadField, ValidUtf8;
    HeadInFront(wire, status, reason, fields, body);
    HeadRoundTrip(49, status, reason, fields, []);
  }

  lemma HeaderIs(status: nat, reason: bytes, fields: seq<(bytes, bytes)>, name: bytes, values: seq<bytes>)
    requires Readable(status, reason, fields) && FieldValues(fields, name) == values && |values| <= 1
    ensures var head := ParseHead(HeadText(49, status, reason, fields));
            && head.Ok? && (name in head.value.headers <==> values != [])
            && (values != [] ==> head.value.headers[name] == values[0])
  {
    hide HeadText, ParseHead, PrintedHead, HeadField, ValidUtf8;
    HeadRoundTrip(49, status, reason, fields, name);
  }

  lemma LengthSelected(status: nat, reason: bytes, front: seq<(bytes, bytes)>, value: bytes, back: seq<(bytes, bytes)>)
    requires Readable(status, reason, front + [(Ascii8("Content-Length"), value)] + back) && OnlyOne(front, back)
    ensures var head := ParseHead(HeadText(49, status, reason, front + [(Ascii8("Content-Length"), value)] + back));
            head.Ok? && SelectTransfer(head.value.headers)
                        == match ParseUnsigned(value, 10, 0x1_0000_0000_0000_0000)
                           case None => Err(BadContentLength)
                           case Some(n) => Ok(ContentLength(n))
  {
    hide Readable, HeadText, ParseHead, ParseUnsigned, FieldValues, LowerAll, Ascii8, Without;
    var field := (Ascii8("Content-Length"), value);
    var fields := front + [field] + back;
    LengthNames();
    CodingNames();
    WithoutParts(front, back, CONTENT_LENGTH);
    OneValue(front, field, back, CONTENT_LENGTH);
    OtherName(front, field, back, TRANSFER_ENCODING);
    NoValues(fields, TRANSFER_ENCODING);
    HeaderIs(status, reason, fields, CONTENT_LENGTH, [value]);
    HeaderIs(status, reason, fields, TRANSFER_ENCODING, []);
  }

  /** A body of declared length arrives whole, and the response completes with it. */
  lemma LengthResponse(wire: Wire, status: nat, reason: bytes, front: seq<(bytes, bytes)>,
                       back: seq<(bytes, bytes)>, body: bytes)
    requires var fields := front + [(Ascii8("Content-Length"), PrintUnsigned(|body|, 10))] + back;
             Readable(status, reason, fields) && Sends(wire, status, reason, fields, body)
    requires OnlyOne(front, back) && |body| < 0x1_0000_0000_0000_0000
    ensures AnswerOf(wire).Some? && AnswerOf(wire).value.head.status == status
    ensures Plain(AnswerOf(wire).value.body.payload) == body && AnswerOf(wire).value.body.end == Complete([])
  {
    hide Readable, Sends, HeadText, ParseHead, PrintUnsigned, ParseUnsigned, AnswerOf, HeadOf, OnlyOne, SelectTransfer;
    hide Decode, PrintedHead;
    var value := PrintUnsigned(|body|, 10);
    var fields := front + [(Ascii8("Content-Length"), value)] + back;
    LengthSelected(status, reason, front, value, back);
    PrintParse(|body|, 10, 0x1_0000_0000_0000_0000);
    AnswerBehindHead(wire, status, reason, fields, body);
    DeclaredBehindHead(FlatWire(wire)[|PrintedHead(status, reason, fields)|..], body, wire);
  }

  lemma DeclaredBehindHead(input: seq<TimedByte>, body: bytes, wire: Wire)
    requires Plain(input) == body
    ensures var decoded := Decode(ContentLength(|body|), input, Cuts(wire));
            Plain(decoded.payload) == body && decoded.end == Complete([])
  {
    assert |input| == |Plain(input)| && input[..|body|] == input;
    CutsBounds(wire);
  }

  /** A length is accepted exactly if it is a decimal number below 2^64. */
  lemma LengthAcceptedIff(wire: Wire, status: nat, reason: bytes, front: seq<(bytes, bytes)>, value: bytes,
                          back: seq<(bytes, bytes)>, body: bytes)
    requires var fields := front + [(Ascii8("Content-Length"), value)] + back;
             Readable(status, reason, fields) && Sends(wire, status, reason, fields, body)
    requires OnlyOne(front, back)
    ensures AnswerOf(wire).Some? <==>
              exists n: nat, zeros: nat, plus: bool ::
                n < 0x1_0000_0000_0000_0000 && IsDecimal(value, n, zeros, plus)
    ensures AnswerOf(wire).None? ==> HeadOf(FlatWire(wire), Cuts(wire)) == Err(BadContentLength)
  {
    hide Readable, Sends, HeadText, ParseHead, PrintUnsigned, ParseUnsigned, AnswerOf, HeadOf, OnlyOne, SelectTransfer;
    hide IsDecimal;
    LengthSelected(status, reason, front, value, back);
    AnswerBehindHead(wire, status, reason, front + [(Ascii8("Content-Length"), value)] + back, body);
    if ParseUnsigned(value, 10, 0x1_0000_0000_0000_0000).Some? {
      ParsedIsDecimal(value, 0x1_0000_0000_0000_0000);
    }
    forall n: nat, zeros: nat, plus: bool | n < 0x1_0000_0000_0000_0000 && IsDecimal(value, n, zeros, plus)
      ensures ParseUnsigned(value, 10, 0x1_0000_0000_0000_0000).Some?
    {
      DecimalParses(value, n, zeros, plus, 0x1_0000_0000_0000_0000);
    }
  }

  /** Without either field everything behind the head is the body. */
  lemma OpenResponse(wire: Wire, status: nat, reason: bytes, fields: seq<(bytes, bytes)>, body: bytes)
    requires Readable(status, reason, fields) && Sends(wire, status, reason, fields, body) && OnlyOne(fields, [])
    ensures AnswerOf(wire).Some? && AnswerOf(wire).value.head.status == status
    ensures Plain(AnswerOf(wire).value.body.payload) == body && AnswerOf(wire).value.body.end == Complete([])
  {
    hide Readable, Sends, HeadText, ParseHead, FieldValues, AnswerOf, HeadOf, LowerAll, Ascii8, Without;
    LengthNames();
    CodingNames();
    WithoutParts(fields, [], CONTENT_LENGTH);
    WithoutParts(fields, [], TRANSFER_ENCODING);
    NoValues(fields, CONTENT_LENGTH);
    NoValues(fields, TRANSFER_ENCODING);
    HeaderIs(status, reason, fields, CONTENT_LENGTH, []);
    HeaderIs(status, reason, fields, TRANSFER_ENCODING, []);
    AnswerBehindHead(wire, status, reason, fields, body);
  }

  /** A chunked body arrives as the data of its chunks, whatever the chunks and the reads are. */
  lemma ChunkedResponse(wire: Wire, status: nat, reason: bytes, front: seq<(bytes, bytes)>,
                        back: seq<(bytes, bytes)>, chunks: seq<Chunk>, last: Chunk, trailers: seq<bytes>)
    requires var fields := front + [(Ascii8("Transfer-Encoding"), Ascii8("chunked"))] + back;
             && Readable(status, reason, fields)
             && Sends(wire, status, reason, fields, EncodeChunked(chunks, last, trailers))
    requires OnlyOne(front, back) && ValidMessage(chunks, last, trailers)
    ensures AnswerOf(wire).Some? && AnswerOf(wire).value.head.status == status
    ensures Plain(AnswerOf(wire).value.body.payload) == ChunkData(chunks)
            && AnswerOf(wire).value.body.end == Complete([])
  {
    hide Readable, Sends, HeadText, ParseHead, FieldValues, AnswerOf, HeadOf, LowerAll, Ascii8, Without, Trim;
    hide ValidMessage, Decode, DecodeChunked, PrintedHead, EncodeChunked;
    var field := (Ascii8("Transfer-Encoding"), Ascii8("chunked"));
    var fields, body := front + [field] + back, EncodeChunked(chunks, last, trailers);
    LengthNames();
    CodingNames();
    ChunkedName();
    WithoutParts(front, back, TRANSFER_ENCODING);
    OneValue(front, field, back, TRANSFER_ENCODING);
    OtherName(front, field, back, CONTENT_LENGTH);
    NoValues(fields, CONTENT_LENGTH);
    HeaderIs(status, reason, fields, TRANSFER_ENCODING, [field.1]);
    HeaderIs(status, reason, fields, CONTENT_LENGTH, []);
    ItemAlone(CHUNKED);
    AnswerBehindHead(wire, status, reason, fields, body);
    var input := FlatWire(wire)[|PrintedHead(status, reason, fields)|..];
    ChunksBehindHead(chunks, last, trailers, input, wire);
    ChunkedMode(input, Cuts(wire));
  }

  lemma ChunkedMode(input: seq<TimedByte>, cuts: set<nat>)
    ensures Decode(Chunked(Size), input, cuts) == DecodeChunked(Size, input, cuts)
  {
    hide DecodeChunked;
  }

  lemma ItemAlone(value: bytes)
    requires COMMA !in value
    ensures SplitCommas(value) == [value]
  {
  }

  lemma ChunksBehindHead(chunks: seq<Chunk>, last: Chunk, trailers: seq<bytes>, input: seq<TimedByte>, wire: Wire)
    requires ValidMessage(chunks, last, trailers) && Plain(input) == EncodeChunked(chunks, last, trailers)
    ensures var decoded := DecodeChunked(Size, input, Cuts(wire));
            Plain(decoded.payload) == ChunkData(chunks) && decoded.end == Complete([])
  {
    hide EncodeChunked, Carried, DecodeChunked, FlatWire, Cuts;
    assert Plain(input) == EncodeChunked(chunks, last, trailers) + [];
    EncodedMessageDecodes(chunks, last, trailers, [], input, Cuts(wire));
    CutsBounds(wire);
    NothingBehind(Cuts(wire));
    assert input[|input|..] == [];
  }

  lemma NothingBehind(cuts: set<nat>)
    requires 0 in cuts
    ensures DecodeChunked(End, [], cuts) == Decoded([], Complete([]))
  {
  }

  // ---- Which heads are refused ----

  /** A head that announces both a length and a transfer coding is refused. */
  lemma BothRefused(wire: Wire, status: nat, reason: bytes, fields: seq<(bytes, bytes)>, body: bytes, i: nat, j: nat)
    requires Readable(status, reason, fields) && Sends(wire, status, reason, fields, body)
    requires i < |fields| && j < |fields|
    requires LowerAll(fields[i].0) == Ascii8("content-length") && LowerAll(fields[j].0) == Ascii8("transfer-encoding")
    ensures HeadOf(FlatWire(wire), Cuts(wire)) == Err(AmbiguousTransfer) && AnswerOf(wire).None?
  {
    hide Readable, Sends, HeadText, ParseHead, AnswerOf, HeadOf, LowerAll, Ascii8;
    LengthNames();
    CodingNames();
    ValueThere(fields, CONTENT_LENGTH, i);
    ValueThere(fields, TRANSFER_ENCODING, j);
    ReadableRoundTrip(status, reason, fields, CONTENT_LENGTH);
    ReadableRoundTrip(status, reason, fields, TRANSFER_ENCODING);
    AnswerBehindHead(wire, status, reason, fields, body);
  }

  lemma ReadableRoundTrip(status: nat, reason: bytes, fields: seq<(bytes, bytes)>, name: bytes)
    requires Readable(status, reason, fields)
    ensures var head := ParseHead(HeadText(49, status, reason, fields));
            head.Ok? && (name in head.value.headers <==> FieldValues(fields, name) != [])
  {
    hide HeadText, ParseHead, PrintedHead, HeadField, ValidUtf8;
    HeadRoundTrip(49, status, reason, fields, name);
  }

  lemma {:induction false} ValueThere(fields: seq<(bytes, bytes)>, name: bytes, i: nat)
    requires i < |fields| && LowerAll(fields[i].0) == name
    ensures FieldValues(fields, name) != []
  {
    if i < |fields| - 1 {
      ValueThere(fields[..|fields| - 1], name, i);
    }
  }

  /** Of single transfer codings only the chunked one is accepted, in any case of letters. */
  lemma CodingAcceptedIff(wire: Wire, status: nat, reason: bytes, front: seq<(bytes, bytes)>, coding: bytes,
                          back: seq<(bytes, bytes)>, body: bytes)
    requires var fields := front + [(Ascii8("Transfer-Encoding"), coding)] + back;
             Readable(status, reason, fields) && Sends(wire, status, reason, fields, body)
    requires OnlyOne(front, back) && 44 !in coding
    ensures AnswerOf(wire).Some? <==> LowerAll(coding) == Ascii8("chunked")
    ensures AnswerOf(wire).None? ==> HeadOf(FlatWire(wire), Cuts(wire)) == Err(UnsupportedTransfer)
  {
    hide Sends, HeadText, PrintedHead, ParseHead, FieldValues, AnswerOf, HeadOf, LowerAll, Ascii8, Without, Trim;
    hide ValidUtf8;
    var field := (Ascii8("Transfer-Encoding"), coding);
    var fields := front + [field] + back;
    LengthNames();
    CodingNames();
    ChunkedName();
    WithoutParts(front, back, TRANSFER_ENCODING);
    OneValue(front, field, back, TRANSFER_ENCODING);
    OtherName(front, field, back, CONTENT_LENGTH);
    NoValues(fields, CONTENT_LENGTH);
    HeaderIs(status, reason, fields, TRANSFER_ENCODING, [coding]);
    HeaderIs(status, reason, fields, CONTENT_LENGTH, []);
    assert HeadField(fields[|front|]);
    TrimmedIsFixed(coding);
    ItemAlone(coding);
    AnswerBehindHead(wire, status, reason, fields, body);
  }
}
