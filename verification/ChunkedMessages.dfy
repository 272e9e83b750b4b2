/** What the chunked decoder guarantees about whole messages: it does not depend on how the socket
    cuts the bytes, and it inverts the chunked coding of section 7.1 of RFC 9112. */
module ChunkedMessages {
  import opened Bytes
  import opened Text
  import opened Http

  // ---- Segmentation independence ----

  /** The one cut that can decide whether a framing line is accepted: inside the line break of a
      line of exactly the maximal length. */
  ghost function LineCut(text: bytes, maximum: nat): set<nat> {
    match FirstIndex(text, CRLF)
    case None => {}
    case Some(p) => if p == maximum then {|text| - (p + 1)} else {}
  }

  /** The cuts that can decide one framing step. */
  ghost function StepCuts(state: ChunkState, text: bytes): set<nat> {
    match state
    case Size => LineCut(text, MAX_CHUNK_LINE_BYTES)
    case Trailers => LineCut(text, MAX_HEADER_BYTES)
    case End => {|text|}
    case _ => {}
  }

  /** Every place where a cut can influence the decode of `input`, were all lines at their limit
      accepted: inside the line break of such a line, and at the end of the message. */
  ghost function SensitiveCuts(state: ChunkState, input: seq<TimedByte>): set<nat>
    decreases |input|, StateRank(state)
  {
    StepCuts(state, Plain(input)) + (
      match StepChunked(state, input, {})
      case Stop(_) => {}
      case Next(next, n, _) => SensitiveCuts(next, input[n..]))
  }

  /** The same delivered bytes and the same end, whatever the arrival times. */
  ghost predicate SameOutcome(a: Decoded, b: Decoded) {
    && Plain(a.payload) == Plain(b.payload)
    && (a.end.Complete? ==> b.end.Complete? && Plain(a.end.rest) == Plain(b.end.rest))
    && (a.end.Broken? ==> b.end == a.end)
  }

  ghost predicate Agree(positions: set<nat>, cutsA: set<nat>, cutsB: set<nat>) {
    forall n | n in positions :: n in cutsA <==> n in cutsB
  }

  lemma SameTail(a: seq<TimedByte>, b: seq<TimedByte>, n: nat)
    requires Plain(a) == Plain(b) && n <= |a|
    ensures |b| == |a| && Plain(a[n..]) == Plain(b[n..]) == Plain(a)[n..] && Plain(a[..n]) == Plain(b[..n])
  {
    assert |Plain(a)| == |Plain(b)|;
    PlainSplit(a, n);
    PlainSplit(b, n);
  }

  lemma SameLine(a: seq<TimedByte>, b: seq<TimedByte>, maximum: nat, cutsA: set<nat>, cutsB: set<nat>)
    requires Plain(a) == Plain(b) && Agree(LineCut(Plain(a), maximum), cutsA, cutsB)
    ensures TakeLine(a, maximum, cutsA) == TakeLine(b, maximum, cutsB)
  {
    SameTail(a, b, 0);
  }

  lemma SameAfter(a: Decoded, b: Decoded, front: seq<TimedByte>, front': seq<TimedByte>)
    requires SameOutcome(a, b) && Plain(front) == Plain(front')
    ensures SameOutcome(a.After(front), b.After(front'))
  {
    PlainConcat(front, a.payload);
    PlainConcat(front', b.payload);
  }

  ghost predicate SameStep(a: ChunkStep, b: ChunkStep) {
    if a.Next? then b == a else b.Stop? && SameOutcome(a.decoded, b.decoded)
  }

  lemma StepsAgree(state: ChunkState, a: seq<TimedByte>, b: seq<TimedByte>, cutsA: set<nat>, cutsB: set<nat>)
    requires Plain(a) == Plain(b) && Agree(StepCuts(state, Plain(a)), cutsA, cutsB)
    ensures SameStep(StepChunked(state, a, cutsA), StepChunked(state, b, cutsB))
    ensures StepChunked(state, a, cutsA).Next? ==> StepChunked(state, a, {}) == StepChunked(state, a, cutsA)
  {
    SameTail(a, b, 0);
    if state == Size {
      SameLine(a, b, MAX_CHUNK_LINE_BYTES, cutsA, cutsB);
    } else if state == Trailers {
      SameLine(a, b, MAX_HEADER_BYTES, cutsA, cutsB);
    }
  }

  /** Two segmentations of the same bytes decode alike if they agree on the sensitive cuts. */
  lemma {:induction false} CutsMatterOnlyWhereSensitive(
    state: ChunkState, a: seq<TimedByte>, b: seq<TimedByte>, cutsA: set<nat>, cutsB: set<nat>)
    requires Plain(a) == Plain(b) && Agree(SensitiveCuts(state, a), cutsA, cutsB)
    ensures SameOutcome(DecodeChunked(state, a, cutsA), DecodeChunked(state, b, cutsB))
    decreases |a|, StateRank(state)
  {
    assert Agree(StepCuts(state, Plain(a)), cutsA, cutsB);
    StepsAgree(state, a, b, cutsA, cutsB);
    var step := StepChunked(state, a, cutsA);
    if step.Next? {
      var n := step.consumed;
      SameTail(a, b, n);
      assert Agree(SensitiveCuts(step.state, a[n..]), cutsA, cutsB);
      CutsMatterOnlyWhereSensitive(step.state, a[n..], b[n..], cutsA, cutsB);
      var (front, front') := if step.isPayload then (a[..n], b[..n]) else ([], []);
      SameAfter(DecodeChunked(step.state, a[n..], cutsA), DecodeChunked(step.state, b[n..], cutsB), front, front');
    }
  }

  /** A message whose framing lines stay below the limits and which nothing follows decodes to the
      same bytes and the same end however the socket cuts it. */
  lemma SegmentationIndependent(state: ChunkState, one: Wire, other: Wire)
    requires Plain(FlatWire(one)) == Plain(FlatWire(other))
    requires SensitiveCuts(state, FlatWire(one)) <= {0}
    ensures SameOutcome(DecodeChunked(state, FlatWire(one), Cuts(one)),
                        DecodeChunked(state, FlatWire(other), Cuts(other)))
  {
    CutsBounds(one);
    CutsBounds(other);
    CutsMatterOnlyWhereSensitive(state, FlatWire(one), FlatWire(other), Cuts(one), Cuts(other));
  }

  // ---- The chunked coding ----

  /** A chunk with its optional extension. */
  datatype Chunk = Chunk(data: bytes, extension: bytes)

  predicate ValidExtension(extension: bytes) {
    PlainLine(extension) && (extension == [] || extension[0] == SEMICOLON)
  }

  predicate ValidChunk(chunk: Chunk) {
    && 0 < |chunk.data| < U64_LIMIT
    && ValidExtension(chunk.extension)
    && |SizeLine(chunk)| < MAX_CHUNK_LINE_BYTES
  }

  predicate ValidTrailer(line: bytes) {
    PlainLine(line) && COLON in line && |line| < MAX_HEADER_BYTES
  }

  function SizeLine(chunk: Chunk): bytes {
    PrintUnsigned(|chunk.data|, 16) + chunk.extension
  }

  function EncodeTrailers(trailers: seq<bytes>): bytes {
    if trailers == [] then CRLF else trailers[0] + CRLF + EncodeTrailers(trailers[1..])
  }

  function EncodeChunked(chunks: seq<Chunk>, last: Chunk, trailers: seq<bytes>): bytes {
    if chunks == [] then SizeLine(last) + CRLF + EncodeTrailers(trailers)
    else SizeLine(chunks[0]) + CRLF + (chunks[0].data + (CRLF + EncodeChunked(chunks[1..], last, trailers)))
  }

  ghost predicate ValidMessage(chunks: seq<Chunk>, last: Chunk, trailers: seq<bytes>) {
    && (forall c | c in chunks :: ValidChunk(c))
    && last.data == [] && ValidExtension(last.extension) && |SizeLine(last)| < MAX_CHUNK_LINE_BYTES
    && (forall t | t in trailers :: ValidTrailer(t))
  }

  function ChunkData(chunks: seq<Chunk>): bytes {
    if chunks == [] then [] else chunks[0].data + ChunkData(chunks[1..])
  }

  /** The stamped bytes of `input` that carry the chunk data. */
  ghost function Carried(chunks: seq<Chunk>, last: Chunk, trailers: seq<bytes>, input: seq<TimedByte>): seq<TimedByte>
    requires |input| >= |EncodeChunked(chunks, last, trailers)|
  {
    if chunks == [] then []
    else
      var start := |SizeLine(chunks[0])| + 2;
      var end := start + |chunks[0].data|;
      input[start..end] + Carried(chunks[1..], last, trailers, input[end + 2..])
  }

  lemma SizeLineParses(chunk: Chunk)
    requires |chunk.data| < U64_LIMIT && ValidExtension(chunk.extension)
    ensures PlainLine(SizeLine(chunk)) && ChunkSize(SizeLine(chunk)) == Some(|chunk.data|)
  {
    var digits := PrintUnsigned(|chunk.data|, 16);
    PrintedIsPlainText(|chunk.data|, 16);
    PrintParse(|chunk.data|, 16, U64_LIMIT);
    AsciiIsUtf8(digits);
    TrimmedIsFixed(digits);
    var line := SizeLine(chunk);
    if chunk.extension == [] {
      assert line == digits;
    } else {
      assert line[|digits|] == SEMICOLON;
      FirstOfByte(digits, chunk.extension, SEMICOLON);
    }
  }

  /** A plain line at the front of the input, shorter than the limit, is taken whatever the cuts. */
  lemma LineInFront(line: bytes, rest: bytes, input: seq<TimedByte>, maximum: nat, cuts: set<nat>)
    requires PlainLine(line) && |line| < maximum && Plain(input) == line + CRLF + rest
    ensures TakeLine(input, maximum, cuts) == Ok(|line|)
    ensures Plain(input)[..|line|] == line && Plain(input[|line| + 2..]) == rest
  {
    PlainLineBreak(line, rest);
    SameTail(input, input, |line| + 2);
  }

  /** A chunk-size line is too long exactly if it is longer than 8 KiB, or just as long and cut inside its line
      break; a trailer line likewise at 64 KiB. */
  lemma LineTooLongIff(line: bytes, rest: bytes, input: seq<TimedByte>, cuts: set<nat>)
    requires PlainLine(line) && Plain(input) == line + CRLF + rest
    ensures StepChunked(Size, input, cuts) == Stop(Decoded([], Broken(LineTooLong)))
       <==> |line| > 8192 || (|line| == 8192 && |rest| + 1 in cuts)
    ensures StepChunked(Trailers, input, cuts) == Stop(Decoded([], Broken(LineTooLong)))
       <==> |line| > 65_536 || (|line| == 65_536 && |rest| + 1 in cuts)
  {
    hide ChunkSize, FirstIndex;
    PlainLineBreak(line, rest);
    assert |input| == |Plain(input)|;
  }

  lemma {:induction false} TrailersDecode(trailers: seq<bytes>, tail: bytes, input: seq<TimedByte>, cuts: set<nat>)
    requires forall t | t in trailers :: ValidTrailer(t)
    requires Plain(input) == EncodeTrailers(trailers) + tail
    ensures |input| == |EncodeTrailers(trailers)| + |tail|
    ensures DecodeChunked(Trailers, input, cuts) == DecodeChunked(End, input[|EncodeTrailers(trailers)|..], cuts)
  {
    hide DecodeChunked;
    assert |input| == |Plain(input)|;
    if trailers == [] {
      assert Plain(input) == [] + CRLF + tail;
      LineInFront([], tail, input, MAX_HEADER_BYTES, cuts);
      FramingStep(Trailers, input, cuts);
    } else {
      var line, more := trailers[0], EncodeTrailers(trailers[1..]);
      assert line in trailers;
      assert Plain(input) == line + CRLF + (more + tail);
      LineInFront(line, more + tail, input, MAX_HEADER_BYTES, cuts);
      FramingStep(Trailers, input, cuts);
      var later := input[|line| + 2..];
      TrailersDecode(trailers[1..], tail, later, cuts);
      assert later[|more|..] == input[|line| + 2 + |more|..];
    }
  }

  lemma DataInFront(data: bytes, rest: bytes, input: seq<TimedByte>, cuts: set<nat>)
    requires Plain(input) == data + (CRLF + rest)
    ensures |data| + 2 <= |input| && Plain(input[..|data|]) == data && Plain(input[|data| + 2..]) == rest
    ensures DecodeChunked(Data(|data|), input, cuts)
            == DecodeChunked(Size, input[|data| + 2..], cuts).After(input[..|data|])
  {
    var n := |data|;
    assert |input| == |Plain(input)|;
    SameTail(input, input, n);
    var after := input[n..];
    assert Plain(after) == CRLF + rest;
    SameTail(after, after, 2);
    assert Plain(after)[..2] == CRLF && Plain(after)[2..] == rest;
    assert after[2..] == input[n + 2..];
    FramingStep(DataCrlf, after, cuts);
  }

  lemma ChunkInFront(line: bytes, data: bytes, rest: bytes, input: seq<TimedByte>, cuts: set<nat>)
    requires PlainLine(line) && |line| < MAX_CHUNK_LINE_BYTES && ChunkSize(line) == Some(|data|) && data != []
    requires Plain(input) == line + CRLF + (data + (CRLF + rest))
    ensures var start := |line| + 2;
            var end := start + |data|;
            && end + 2 <= |input|
            && Plain(input[start..end]) == data
            && Plain(input[end + 2..]) == rest
            && DecodeChunked(Size, input, cuts) == DecodeChunked(Size, input[end + 2..], cuts).After(input[start..end])
  {
    hide DecodeChunked;
    var start := |line| + 2;
    var end := start + |data|;
    SizeInFront(line, data, data + (CRLF + rest), input, cuts);
    var later := input[start..];
    DataInFront(data, rest, later, cuts);
    assert later[..|data|] == input[start..end];
    assert later[|data| + 2..] == input[end + 2..];
  }

  lemma SizeInFront(line: bytes, data: bytes, rest: bytes, input: seq<TimedByte>, cuts: set<nat>)
    requires PlainLine(line) && |line| < MAX_CHUNK_LINE_BYTES && ChunkSize(line) == Some(|data|) && data != []
    requires Plain(input) == line + CRLF + rest
    ensures |line| + 2 <= |input| && Plain(input[|line| + 2..]) == rest
    ensures DecodeChunked(Size, input, cuts) == DecodeChunked(Data(|data|), input[|line| + 2..], cuts)
  {
    LineInFront(line, rest, input, MAX_CHUNK_LINE_BYTES, cuts);
    FramingStep(Size, input, cuts);
  }

  lemma LastChunkInFront(last: Chunk, trailers: seq<bytes>, tail: bytes, input: seq<TimedByte>, cuts: set<nat>)
    requires ValidMessage([], last, trailers)
    requires Plain(input) == EncodeChunked([], last, trailers) + tail
    ensures |input| == |EncodeChunked([], last, trailers)| + |tail|
    ensures DecodeChunked(Size, input, cuts) == DecodeChunked(End, input[|EncodeChunked([], last, trailers)|..], cuts)
  {
    hide DecodeChunked, ChunkSize, PrintUnsigned;
    var line, more := SizeLine(last), EncodeTrailers(trailers);
    assert |input| == |Plain(input)|;
    SizeLineParses(last);
    assert Plain(input) == line + CRLF + (more + tail);
    LineInFront(line, more + tail, input, MAX_CHUNK_LINE_BYTES, cuts);
    FramingStep(Size, input, cuts);
    var later := input[|line| + 2..];
    TrailersDecode(trailers, tail, later, cuts);
    assert later[|more|..] == input[|line| + 2 + |more|..];
  }

  /** Decoding an encoded message delivers exactly the bytes that carry the chunk data; what follows
      the message is either left unread or rejected, depending on whether a read ends there. */
  lemma {:induction false} EncodedMessageDecodes(
    chunks: seq<Chunk>, last: Chunk, trailers: seq<bytes>, tail: bytes, input: seq<TimedByte>, cuts: set<nat>)
    requires ValidMessage(chunks, last, trailers)
    requires Plain(input) == EncodeChunked(chunks, last, trailers) + tail
    ensures |input| == |EncodeChunked(chunks, last, trailers)| + |tail|
    ensures DecodeChunked(Size, input, cuts)
         == DecodeChunked(End, input[|EncodeChunked(chunks, last, trailers)|..],
                          cuts).After(Carried(chunks, last, trailers, input))
    ensures Plain(Carried(chunks, last, trailers, input)) == ChunkData(chunks)
  {
    hide DecodeChunked, StepChunked, ChunkSize, PrintUnsigned, EncodeTrailers, Plain;
    var whole := EncodeChunked(chunks, last, trailers);
    assert |input| == |Plain(input)|;
    if chunks == [] {
      LastChunkInFront(last, trailers, tail, input, cuts);
      AfterNothing(DecodeChunked(End, input[|whole|..], cuts));
    } else {
      var chunk, inner := chunks[0], EncodeChunked(chunks[1..], last, trailers);
      assert chunk in chunks && ValidMessage(chunks[1..], last, trailers);
      var start := |SizeLine(chunk)| + 2;
      var end := start + |chunk.data|;
      SizeLineParses(chunk);
      assert Plain(input) == SizeLine(chunk) + CRLF + (chunk.data + (CRLF + (inner + tail)));
      ChunkInFront(SizeLine(chunk), chunk.data, inner + tail, input, cuts);
      var later := input[end + 2..];
      EncodedMessageDecodes(chunks[1..], last, trailers, tail, later, cuts);
      assert later[|inner|..] == input[|whole|..];
      var carried := Carried(chunks[1..], last, trailers, later);
      Chain(DecodeChunked(Size, input, cuts), DecodeChunked(Size, later, cuts),
            DecodeChunked(End, later[|inner|..], cuts), input[start..end], carried);
      CarriedStep(chunks, last, trailers, input);
      PlainConcat(input[start..end], carried);
    }
  }

  lemma CarriedStep(chunks: seq<Chunk>, last: Chunk, trailers: seq<bytes>, input: seq<TimedByte>)
    requires chunks != [] && |input| >= |EncodeChunked(chunks, last, trailers)|
    ensures var start := |SizeLine(chunks[0])| + 2;
            var end := start + |chunks[0].data|;
            && end + 2 + |EncodeChunked(chunks[1..], last, trailers)| == |EncodeChunked(chunks, last, trailers)|
            && Carried(chunks, last, trailers, input)
                == input[start..end] + Carried(chunks[1..], last, trailers, input[end + 2..])
  {
  }

  lemma Chain(whole: Decoded, middle: Decoded, final: Decoded, front: seq<TimedByte>, carried: seq<TimedByte>)
    requires whole == middle.After(front) && middle == final.After(carried)
    ensures whole == final.After(front + carried)
  {
    AfterTwice(final, front, carried);
  }

  /** The round trip: a message that ends with the connection is delivered whole and completes, for
      every segmentation. */
  lemma ChunkedRoundTrip(chunks: seq<Chunk>, last: Chunk, trailers: seq<bytes>, wire: Wire)
    requires ValidMessage(chunks, last, trailers)
    requires Plain(FlatWire(wire)) == EncodeChunked(chunks, last, trailers)
    ensures var d := DecodeChunked(Size, FlatWire(wire), Cuts(wire));
            d.end == Complete([]) && Plain(d.payload) == ChunkData(chunks)
  {
    var input := FlatWire(wire);
    assert Plain(input) == EncodeChunked(chunks, last, trailers) + [];
    EncodedMessageDecodes(chunks, last, trailers, [], input, Cuts(wire));
    CutsBounds(wire);
  }

  /** Bytes after the end of a message are noticed exactly when no read ends with the message. */
  lemma TrailingBytesNoticedIff(chunks: seq<Chunk>, last: Chunk, trailers: seq<bytes>, tail: bytes, wire: Wire)
    requires ValidMessage(chunks, last, trailers)
    requires Plain(FlatWire(wire)) == EncodeChunked(chunks, last, trailers) + tail
    ensures DecodeChunked(Size, FlatWire(wire), Cuts(wire)).end == Broken(TrailingBytes) <==> |tail| !in Cuts(wire)
    ensures Plain(DecodeChunked(Size, FlatWire(wire), Cuts(wire)).payload) == ChunkData(chunks)
  {
    EncodedMessageDecodes(chunks, last, trailers, tail, FlatWire(wire), Cuts(wire));
    hide EncodeChunked, Carried, FlatWire, Cuts;
  }
}
