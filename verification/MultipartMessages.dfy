/** Whole multipart messages: the consumer loop over the reader, the encoder, and the round trip
    through both buffers for every segmentation. */
module MultipartMessages {
  import opened Bytes
  import opened Text
  import opened Http
  import opened Multipart

  // ---- The flat parse of all parts ----

  function ParseParts(lines: Boundaries, input: seq<TimedByte>): Option<seq<Part>>
    decreases |input|
  {
    match ParsePart(lines, input)
    case None => None
    case Some(flat) =>
      if flat.final then (if flat.rest == [] then Some([flat.part]) else None)
      else match ParseParts(lines, flat.rest)
        case None => None
        case Some(parts) => Some([flat.part] + parts)
  }

  function ParseAll(lines: Boundaries, input: seq<TimedByte>): Option<seq<Part>> {
    match ParseOpening(lines, input)
    case None => None
    case Some(rest) => ParseParts(lines, rest)
  }

  /** Every header block on the way is accepted, given where the segments of the body end. */
  predicate AllFit(lines: Boundaries, input: seq<TimedByte>, ends: set<nat>)
    decreases |input|
  {
    match ParsePart(lines, input)
    case None => true
    case Some(flat) => HeaderFits(flat, input, ends) && (flat.final || AllFit(lines, flat.rest, ends))
  }

  predicate Acceptable(lines: Boundaries, input: seq<TimedByte>, ends: set<nat>) {
    ParseAll(lines, input).Some? && AllFit(lines, ParseOpening(lines, input).value, ends)
  }

  /** The loop of the client: reads parts until the closing boundary. It succeeds exactly when the flat
      parse exists, its header blocks fit the segments and the body completes, and then with the parts of
      that parse. */
  method ReadAllParts(reader: MultipartReader) returns (r: Result<seq<Part>, MultipartError>)
    requires reader.Valid() && !reader.started && !reader.finished
    modifies reader`started, reader`finished, reader.buffer, reader.body.raw
    modifies reader.body`wire, reader.body`responseBytes, reader.body`eof, reader.body`transfer
    ensures r.Ok? <==> Acceptable(reader.lines, old(reader.Input()), reader.ends) && old(reader.End()).Complete?
    ensures r.Ok? ==> ParseAll(reader.lines, old(reader.Input())) == Some(r.value)
  {
    hide Decode, Ends, EndsKnown, TakenUpTo, ParsePart, ParseOpening, HeaderFits;
    var lines := reader.lines;
    ghost var end, ends := reader.End(), reader.ends;
    var first := reader.NextPart();
    if first.Err? {
      return Err(first.error);
    }
    var parts := [first.value.value];
    ghost var start := ParseOpening(lines, old(reader.Input())).value;
    while !reader.finished
      invariant reader.Valid() && reader.started && reader.End() == end && reader.lines == lines
      invariant reader.finished
                ==> end.Complete? && ParseParts(lines, start) == Some(parts) && AllFit(lines, start, ends)
      invariant !reader.finished ==> ParseParts(lines, start) == Prepend(parts, ParseParts(lines, reader.Input()))
      invariant !reader.finished ==> (AllFit(lines, start, ends) <==> AllFit(lines, reader.Input(), ends))
      decreases if reader.finished then 0 else 1 + |reader.Input()|
    {
      ghost var input := reader.Input();
      var next := reader.NextPart();
      if next.Err? {
        return Err(next.error);
      }
      PrependOne(parts, next.value.value, ParseParts(lines, reader.Input()));
      parts := parts + [next.value.value];
    }
    r := Ok(parts);
  }

  function Prepend(parts: seq<Part>, rest: Option<seq<Part>>): Option<seq<Part>> {
    match rest case None => None case Some(more) => Some(parts + more)
  }

  lemma PrependOne(parts: seq<Part>, part: Part, rest: Option<seq<Part>>)
    ensures Prepend(parts, Prepend([part], rest)) == Prepend(parts + [part], rest)
  {
    if rest.Some? {
      assert parts + ([part] + rest.value) == (parts + [part]) + rest.value;
    }
  }

  // ---- The encoder (section 5.1 of RFC 2046, with a Content-Length in every part) ----

  /** A part as a server writes it: its header fields in order, and its payload. */
  datatype WirePart = WirePart(fields: seq<(bytes, bytes)>, payload: bytes)

  predicate ValidField(field: (bytes, bytes)) {
    var (name, value) := field;
    && PlainLine(name) && PlainLine(value) && COLON !in name
    && (name != [] ==> name[0] != SPACE && name[0] != TAB)
    && ValidUtf8(name) && ValidUtf8(value) && Trimmed(value)
  }

  function FieldLine(field: (bytes, bytes)): bytes {
    field.0 + ([COLON, SPACE] + field.1)
  }

  function FieldLines(fields: seq<(bytes, bytes)>): (lines: seq<bytes>)
    ensures |lines| == |fields|
  {
    seq(|fields|, i requires 0 <= i < |fields| => FieldLine(fields[i]))
  }

  /** The map that fields with distinct names denote. */
  function FieldMap(fields: seq<(bytes, bytes)>): Headers {
    if fields == [] then map[]
    else var (name, value) := fields[|fields| - 1]; FieldMap(fields[..|fields| - 1])[LowerAll(name) := value]
  }

  predicate DistinctNames(fields: seq<(bytes, bytes)>) {
    forall i, j | 0 <= i < j < |fields| :: LowerAll(fields[i].0) != LowerAll(fields[j].0)
  }

  ghost predicate ValidPart(part: WirePart) {
    && part.fields != []
    && (forall f | f in part.fields :: ValidField(f))
    && DistinctNames(part.fields)
    && |part.payload| <= MAX_PART_PAYLOAD_BYTES
    && CONTENT_LENGTH in FieldMap(part.fields)
    && FieldMap(part.fields)[CONTENT_LENGTH] == PrintUnsigned(|part.payload|, 10)
    && |HeaderBlock(part)| + 4 <= MAX_PART_HEADER_BYTES + 1
  }

  function HeaderBlock(part: WirePart): bytes {
    JoinLines(FieldLines(part.fields))
  }

  function EncodePart(part: WirePart, boundaryLine: bytes): bytes {
    HeaderBlock(part) + CRLFCRLF + (part.payload + (CRLF + (boundaryLine + CRLF)))
  }

  function EncodeParts(parts: seq<WirePart>, lines: Boundaries): bytes {
    if parts == [] then []
    else if |parts| == 1 then EncodePart(parts[0], lines.close)
    else EncodePart(parts[0], lines.open) + EncodeParts(parts[1..], lines)
  }

  function EncodeMultipart(parts: seq<WirePart>, boundary: bytes): bytes {
    BoundaryLines(boundary).open + CRLF + EncodeParts(parts, BoundaryLines(boundary))
  }

  // ---- Header blocks ----

  lemma {:induction false} Utf8Concat(a: bytes, b: bytes)
    requires ValidUtf8(a) && ValidUtf8(b)
    ensures ValidUtf8(a + b)
  {
    if a == [] {
      assert a + b == b;
    } else {
      var n := ScalarLength(a);
      assert ScalarLength(a + b) == n;
      assert (a + b)[n..] == a[n..] + b;
      Utf8Concat(a[n..], b);
    }
  }

  lemma FieldLineIsPlain(field: (bytes, bytes))
    requires ValidField(field)
    ensures PlainLine(FieldLine(field)) && FieldLine(field) != [] && ValidUtf8(FieldLine(field))
  {
    hide ScalarLength;
    var (name, value) := field;
    AsciiIsUtf8([COLON, SPACE]);
    Utf8Concat([COLON, SPACE], value);
    Utf8Concat(name, [COLON, SPACE] + value);
  }

  lemma FieldLineParses(field: (bytes, bytes))
    requires ValidField(field)
    ensures ParsePartHeaderLine(FieldLine(field)) == Some((LowerAll(field.0), field.1))
  {
    hide ValidUtf8;
    var (name, value) := field;
    FirstOfByte(name, [COLON, SPACE] + value, COLON);
    assert FieldLine(field)[|name| + 1..] == [SPACE] + value;
    TrimOneSpace(value);
  }

  lemma TrimOneSpace(value: bytes)
    requires Trimmed(value)
    ensures Trim([SPACE] + value) == value
  {
    assert ([SPACE] + value)[1..] == value;
    TrimmedIsFixed(value);
  }

  lemma {:induction false} FieldsParse(fields: seq<(bytes, bytes)>)
    requires forall f | f in fields :: ValidField(f)
    requires DistinctNames(fields)
    ensures ParsePartHeaderLines(FieldLines(fields)) == Some(FieldMap(fields))
    ensures forall name | name in FieldMap(fields) :: exists i | 0 <= i < |fields| :: LowerAll(fields[i].0) == name
  {
    if fields != [] {
      var front, last := fields[..|fields| - 1], fields[|fields| - 1];
      FieldsParse(front);
      FieldLineParses(last);
      assert FieldLines(fields)[..|fields| - 1] == FieldLines(front);
      assert LowerAll(last.0) !in FieldMap(front);
    }
  }

  lemma {:induction false} JoinedUtf8(lines: seq<bytes>)
    requires lines != [] && forall l | l in lines :: ValidUtf8(l)
    ensures ValidUtf8(JoinLines(lines))
  {
    if |lines| > 1 {
      JoinedUtf8(lines[1..]);
      AsciiIsUtf8(CRLF);
      Utf8Concat(lines[0], CRLF);
      Utf8Concat(lines[0] + CRLF, JoinLines(lines[1..]));
    }
  }

  lemma HeaderBlockParses(part: WirePart)
    requires ValidPart(part)
    ensures PartHeaders(HeaderBlock(part)) == Some(FieldMap(part.fields))
    ensures DeclaredLength(FieldMap(part.fields)) == Some(|part.payload|)
  {
    var lines := FieldLines(part.fields);
    forall l | l in lines
      ensures PlainLine(l) && ValidUtf8(l)
    {
      var i :| 0 <= i < |lines| && lines[i] == l;
      FieldLineIsPlain(part.fields[i]);
    }
    FieldsParse(part.fields);
    SplitJoined(lines);
    JoinedUtf8(lines);
    PrintParse(|part.payload|, 10, U64_LIMIT);
  }

  lemma OccursShift(front: bytes, back: bytes, needle: bytes, q: int)
    requires 0 <= q
    ensures OccursAt(front + back, needle, |front| + q) <==> OccursAt(back, needle, q)
  {
    if q + |needle| <= |back| {
      assert (front + back)[|front| + q..|front| + q + |needle|] == back[q..q + |needle|];
    }
  }

  /** The blank line that ends a header block is its first one. */
  lemma {:induction false} BlankLineEndsBlock(lines: seq<bytes>, rest: bytes)
    requires lines != [] && forall l | l in lines :: PlainLine(l) && l != []
    ensures FirstIndex(JoinLines(lines) + CRLFCRLF + rest, CRLFCRLF) == Some(|JoinLines(lines)|)
  {
    var block := JoinLines(lines);
    var text := block + CRLFCRLF + rest;
    assert lines[0] in lines;
    assert text[|block|..|block| + 4] == CRLFCRLF;
    forall q | 0 <= q < |block|
      ensures !OccursAt(text, CRLFCRLF, q)
    {
      NoBlankLineInside(lines, rest, q);
    }
    FirstIndexUnique(text, CRLFCRLF, |block|);
  }

  lemma {:induction false} NoBlankLineInside(lines: seq<bytes>, rest: bytes, q: nat)
    requires lines != [] && (forall l | l in lines :: PlainLine(l) && l != []) && q < |JoinLines(lines)|
    ensures !OccursAt(JoinLines(lines) + CRLFCRLF + rest, CRLFCRLF, q)
    decreases |lines|
  {
    var text := JoinLines(lines) + CRLFCRLF + rest;
    var line := lines[0];
    assert line in lines;
    if q < |line| {
      assert text[q] == line[q] != CR;
    } else {
      var inner := JoinLines(lines[1..]);
      assert lines[1] in lines && inner != [] && inner[0] == lines[1][0];
      assert text == (line + CRLF) + (inner + CRLFCRLF + rest);
      if q < |line| + 2 {
        assert text[|line| + 1] == LF && text[|line| + 2] == inner[0];
      } else {
        OccursShift(line + CRLF, inner + CRLFCRLF + rest, CRLFCRLF, q - |line| - 2);
        NoBlankLineInside(lines[1..], rest, q - |line| - 2);
      }
    }
  }

  // ---- The round trip ----

  /** The parts a client must see: headers and payload as sent, and the arrival time of the read that
      carried the first payload byte. */
  ghost function Located(parts: seq<WirePart>, lines: Boundaries, input: seq<TimedByte>): seq<Part>
    requires parts != [] && |input| == |EncodeParts(parts, lines)|
  {
    var part := parts[0];
    var start := |HeaderBlock(part)| + 4;
    var first := Part(FieldMap(part.fields), part.payload, FirstArrival(input[start..start + |part.payload|]));
    if |parts| == 1 then [first]
    else [first] + Located(parts[1..], lines, input[|EncodePart(part, lines.open)|..])
  }

  lemma LineBlock(line: bytes, tail: bytes, input: seq<TimedByte>)
    requires PlainLine(line) && Plain(input) == line + CRLF + tail
    ensures |line| + 2 <= |input| && Plain(input[|line| + 2..]) == tail
    ensures TakeBlock(input, CRLF) == Some(Block(line, input[|line| + 2..]))
  {
    assert |input| == |Plain(input)|;
    PlainLineBreak(line, tail);
    PlainSplit(input, |line| + 2);
  }

  lemma PayloadInFront(
    lines: Boundaries, line: bytes, headers: Headers, payload: bytes, tail: bytes, input: seq<TimedByte>, header: nat)
    requires PlainLine(line) && (line == lines.open || line == lines.close)
    requires Plain(input) == payload + (CRLF + (line + CRLF + tail))
    ensures var end := |payload| + 2 + |line| + 2;
            && end <= |input| && Plain(input[end..]) == tail
            && ParsePayload(lines, headers, |payload|, input, header)
               == Some(FlatPart(Part(headers, payload, FirstArrival(input[..|payload|])), input[end..], line
                                == lines.close, header))
  {
    var n := |payload|;
    assert |input| == |Plain(input)|;
    PlainSplit(input, n);
    PlainSplit(input, n + 2);
    var after := input[n + 2..];
    assert Plain(input)[n..n + 2] == CRLF;
    assert Plain(after) == line + CRLF + tail;
    LineBlock(line, tail, after);
    assert after[|line| + 2..] == input[n + 2 + |line| + 2..];
  }

  lemma PartInFront(lines: Boundaries, line: bytes, part: WirePart, tail: bytes, input: seq<TimedByte>)
    requires ValidPart(part) && PlainLine(line) && (line == lines.open || line == lines.close)
    requires Plain(input) == EncodePart(part, line) + tail
    ensures var start := |HeaderBlock(part)| + 4;
            var end := |EncodePart(part, line)|;
            && start + |part.payload| <= end <= |input| && Plain(input[end..]) == tail
            && ParsePart(lines, input)
               == Some(FlatPart(Part(FieldMap(part.fields), part.payload,
                                     FirstArrival(input[start..start + |part.payload|])), input[end..],
                                    line == lines.close,
                                |HeaderBlock(part)|))
  {
    hide ParsePayload, TakeBlock, HeaderBlock, PartHeaders, DeclaredLength, FieldMap, DistinctNames, ValidField;
    hide PrintUnsigned;
    var block, n := HeaderBlock(part), |part.payload|;
    var start := |block| + 4;
    var behind := part.payload + (CRLF + (line + CRLF + tail));
    assert Plain(input) == block + CRLFCRLF + behind;
    HeaderBlockInFront(part, behind, input);
    HeaderBlockParses(part);
    var body := input[start..];
    PayloadInFront(lines, line, FieldMap(part.fields), part.payload, tail, body, |block|);
    assert body[..n] == input[start..start + n];
    assert body[n + 2 + |line| + 2..] == input[|EncodePart(part, line)|..];
  }

  lemma HeaderBlockEnds(part: WirePart, behind: bytes)
    requires ValidPart(part)
    ensures FirstIndex(HeaderBlock(part) + CRLFCRLF + behind, CRLFCRLF) == Some(|HeaderBlock(part)|)
  {
    var lines := FieldLines(part.fields);
    forall l | l in lines
      ensures PlainLine(l) && l != []
    {
      var i :| 0 <= i < |lines| && lines[i] == l;
      FieldLineIsPlain(part.fields[i]);
    }
    BlankLineEndsBlock(lines, behind);
  }

  lemma HeaderBlockInFront(part: WirePart, behind: bytes, input: seq<TimedByte>)
    requires ValidPart(part) && Plain(input) == HeaderBlock(part) + CRLFCRLF + behind
    ensures var start := |HeaderBlock(part)| + 4;
            start <= |input| && Plain(input[start..]) == behind
              && TakeBlock(input, CRLFCRLF) == Some(Block(HeaderBlock(part), input[start..]))
  {
    hide HeaderBlock;
    assert |input| == |Plain(input)|;
    HeaderBlockEnds(part, behind);
    PlainSplit(input, |HeaderBlock(part)| + 4);
    assert Plain(input)[..|HeaderBlock(part)|] == HeaderBlock(part);
  }

  /** Parsing the encoded parts returns exactly these parts, in order, with their arrival times. */
  lemma {:induction false} EncodedPartsParse(parts: seq<WirePart>, lines: Boundaries, input: seq<TimedByte>)
    requires parts != [] && forall p | p in parts :: ValidPart(p)
    requires PlainLine(lines.open) && PlainLine(lines.close) && lines.open != lines.close
    requires Plain(input) == EncodeParts(parts, lines)
    ensures |input| == |EncodeParts(parts, lines)|
    ensures ParseParts(lines, input) == Some(Located(parts, lines, input))
    ensures forall ends :: AllFit(lines, input, ends)
  {
    hide ParsePart, EncodePart, Fits;
    var part := parts[0];
    assert part in parts;
    forall ends
      ensures Fits(|HeaderBlock(part)|, |CRLFCRLF|, |input|, ends)
    {
      ShortFits(|HeaderBlock(part)|, |CRLFCRLF|, |input|, ends);
    }
    assert |input| == |Plain(input)|;
    if |parts| == 1 {
      assert Plain(input) == EncodePart(part, lines.close) + [];
      PartInFront(lines, lines.close, part, [], input);
      assert input[|input|..] == [];
    } else {
      PartInFront(lines, lines.open, part, EncodeParts(parts[1..], lines), input);
      EncodedPartsParse(parts[1..], lines, input[|EncodePart(part, lines.open)|..]);
    }
  }

  /** A visible character or a space, but none of those that section 5.1.1 of RFC 2046 leaves out. */
  predicate BoundaryByte(b: byte) {
    32 <= b <= 126 && b as char !in "!\"#$%&*;<>@[\\]^`{|}~"
  }

  lemma BoundaryByteIff(b: byte)
    ensures IsBoundaryByte(b) <==> BoundaryByte(b)
  {
    assert |"!\"#$%&*;<>@[\\]^`{|}~"| == 20;
  }

  lemma LegalBoundaryIff(boundary: bytes)
    ensures LegalBoundary(boundary) <==>
              && 1 <= |boundary| <= 70 && boundary[|boundary| - 1] != ' ' as int
              && forall i | 0 <= i < |boundary| :: BoundaryByte(boundary[i])
  {
    hide IsBoundaryByte;
    forall b: byte
      ensures IsBoundaryByte(b) <==> BoundaryByte(b)
    {
      BoundaryByteIff(b);
    }
    assert forall i | 0 <= i < |boundary| :: boundary[i] in boundary;
  }

  /** A header line of a part needs a colon and no white space in front; a line that begins with a space or a tab
      would continue the one before it, and is refused. */
  lemma PartHeaderLineIff(line: bytes)
    ensures ParsePartHeaderLine(line).Some?
       <==> ':' as int in line && line[0] != ' ' as int && line[0] != '\t' as int
  {
  }

  /** Payloads of up to 512 MiB are accepted, longer ones are not. */
  lemma LengthDeclaredIff(headers: Headers, n: nat)
    requires n < U64_LIMIT && CONTENT_LENGTH in headers && headers[CONTENT_LENGTH] == PrintUnsigned(n, 10)
    ensures DeclaredLength(headers) == if n <= 512 * 1024 * 1024 then Some(n) else None
  {
    hide PrintUnsigned, ParseUnsigned;
    PrintParse(n, 10, U64_LIMIT);
  }

  lemma BoundaryLinesArePlain(boundary: bytes)
    requires LegalBoundary(boundary)
    ensures PlainLine(BoundaryLines(boundary).open) && PlainLine(BoundaryLines(boundary).close)
    ensures BoundaryLines(boundary).open != BoundaryLines(boundary).close
  {
    assert forall b | b in boundary :: b != CR && b != LF;
    assert |BoundaryLines(boundary).open| != |BoundaryLines(boundary).close|;
  }

  /** A multipart message is read back part by part, whatever its payloads contain. */
  lemma MultipartRoundTrip(parts: seq<WirePart>, boundary: bytes, input: seq<TimedByte>)
    requires LegalBoundary(boundary) && parts != [] && forall p | p in parts :: ValidPart(p)
    requires Plain(input) == EncodeMultipart(parts, boundary)
    ensures var lines := BoundaryLines(boundary);
            var start := |lines.open| + 2;
            && |input| == start + |EncodeParts(parts, lines)|
            && ParseAll(lines, input) == Some(Located(parts, lines, input[start..]))
            && forall ends :: Acceptable(lines, input, ends)
  {
    hide ParsePart, EncodePart, AllFit, EncodeParts;
    var lines := BoundaryLines(boundary);
    assert |input| == |Plain(input)|;
    BoundaryLinesArePlain(boundary);
    LineBlock(lines.open, EncodeParts(parts, lines), input);
    EncodedPartsParse(parts, lines, input[|lines.open| + 2..]);
  }

  /** The whole stack: an encoded multipart message that the body decoder completes is returned part
      by part and in order, for every segmentation of the socket stream and every transfer coding. */
  method ReadMultipartBody(body: HttpBody, boundary: bytes, ghost parts: seq<WirePart>) returns (r: Result<seq<Part>,
                           MultipartError>)
    requires body.Ready() && LegalBoundary(boundary)
    requires parts != [] && forall p | p in parts :: ValidPart(p)
    requires Plain(body.Remaining().payload) == EncodeMultipart(parts, boundary) && body.Remaining().end.Complete?
    modifies body.raw, body`wire, body`responseBytes, body`eof, body`transfer
    ensures var lines := BoundaryLines(boundary);
            var input := old(body.Remaining().payload);
            && |input| == |lines.open| + 2 + |EncodeParts(parts, lines)|
            && r == Ok(Located(parts, lines, input[|lines.open| + 2..]))
  {
    hide Decode, Located, EncodeParts, ParseAll, Acceptable;
    var reader := new MultipartReader(body, boundary);
    MultipartRoundTrip(parts, boundary, body.Remaining().payload);
    r := ReadAllParts(reader);
  }
}
