/** The multipart reader: re-buffers the decoded body and splits it into parts whose payload is
    delimited by its declared length, never by searching for the boundary. */
module Multipart {
  import opened Bytes
  import opened Text
  import opened TimedBuffers
  import opened Http

  const MAX_PART_HEADER_BYTES: nat := 64 * 1024
  const MAX_PART_PAYLOAD_BYTES: nat := 512 * 1024 * 1024

  datatype Part = Part(headers: Headers, payload: bytes, firstPayloadAt: Option<Instant>)

  datatype MultipartError = Body(error: HttpError) | Framing | TooLong | Ended

  // ---- Part headers ----

  function ParsePartHeaderLine(line: bytes): Option<(bytes, bytes)> {
    if line != [] && (line[0] == SPACE || line[0] == TAB) then None
    else match IndexOf(line, COLON)
      case None => None
      case Some(i) => Some((LowerAll(line[..i]), Trim(line[i + 1..])))
  }

  function ParsePartHeaderLines(lines: seq<bytes>): Option<Headers> {
    if lines == [] then Some(map[])
    else match ParsePartHeaderLines(lines[..|lines| - 1])
      case None => None
      case Some(earlier) =>
        match ParsePartHeaderLine(lines[|lines| - 1])
        case None => None
        case Some((name, value)) => if name in earlier then None else Some(earlier[name := value])
  }

  function PartHeaders(text: bytes): Option<Headers> {
    if ValidUtf8(text) then ParsePartHeaderLines(SplitLines(text)) else None
  }

  method ParsePartHeaders(text: bytes) returns (r: Option<Headers>)
    ensures r == PartHeaders(text)
  {
    if !ValidUtf8(text) {
      return None;
    }
    hide ParsePartHeaderLine, SplitLines, ValidUtf8;
    var lines := SplitLines(text);
    var headers: Headers := map[];
    for i := 0 to |lines|
      invariant ParsePartHeaderLines(lines[..i]) == Some(headers)
    {
      assert lines[..i + 1][..i] == lines[..i];
      var field := ParsePartHeaderLine(lines[i]);
      if field.None? || field.value.0 in headers {
        PartFailurePersists(lines, i + 1);
        return None;
      }
      headers := headers[field.value.0 := field.value.1];
    }
    assert lines[..|lines|] == lines;
    r := Some(headers);
  }

  lemma {:induction false} PartFailurePersists(lines: seq<bytes>, i: nat)
    requires i <= |lines| && ParsePartHeaderLines(lines[..i]).None?
    ensures ParsePartHeaderLines(lines).None?
  {
    if i == |lines| {
      assert lines[..i] == lines;
    } else {
      var front := lines[..|lines| - 1];
      assert front[..i] == lines[..i];
      PartFailurePersists(front, i);
    }
  }

  /** The payload length a part declares, if it declares an acceptable one. */
  function DeclaredLength(headers: Headers): (r: Option<nat>)
    ensures r.Some? ==> r.value <= MAX_PART_PAYLOAD_BYTES
  {
    if CONTENT_LENGTH !in headers then None
    else match ParseUnsigned(headers[CONTENT_LENGTH], 10, U64_LIMIT)
      case None => None
      case Some(n) => if n > MAX_PART_PAYLOAD_BYTES then None else Some(n)
  }

  // ---- The flat specification ----

  /** What is left of the input behind a delimited block, and the block. */
  datatype Block = Block(text: bytes, rest: seq<TimedByte>)

  function TakeBlock(input: seq<TimedByte>, delimiter: bytes): (r: Option<Block>)
    ensures r.Some? ==> |r.value.text| + |delimiter| + |r.value.rest| == |input|
  {
    match FirstIndex(Plain(input), delimiter)
    case None => None
    case Some(p) => Some(Block(Plain(input)[..p], input[p + |delimiter|..]))
  }

  /** A framing block of `length` bytes in front of `size` bytes of input is accepted: it is not too long
      itself, and no body segment ends behind the limit and in front of the end of its delimiter. */
  predicate Fits(length: nat, delimiter: nat, size: nat, ends: set<nat>) {
    length <= MAX_PART_HEADER_BYTES && forall n | n in ends
      && n <= size :: !(MAX_PART_HEADER_BYTES < size - n < length + delimiter)
  }

  /** A block whose delimiter begins to end within the limit is accepted for every segmentation. */
  lemma ShortFits(length: nat, delimiter: nat, size: nat, ends: set<nat>)
    requires 0 < delimiter && length + delimiter <= 65_536 + 1
    ensures Fits(length, delimiter, size, ends)
  {
  }

  /** Any other block that is not too long is refused for some segmentation. */
  lemma LongFitsNotAlways(length: nat, delimiter: nat, size: nat)
    requires 65_536 + 1 < length + delimiter <= size
    ensures exists ends: set<nat> :: !Fits(length, delimiter, size, ends)
  {
    var n: nat := size - (MAX_PART_HEADER_BYTES + 1);
    assert n in {n};
    assert !Fits(length, delimiter, size, {n});
  }

  datatype Boundaries = Boundaries(open: bytes, close: bytes)

  function BoundaryLines(boundary: bytes): Boundaries {
    Boundaries([DASH, DASH] + boundary, [DASH, DASH] + boundary + [DASH, DASH])
  }

  predicate IsBoundaryByte(b: byte) {
    || 48 <= b <= 57 || 65 <= b <= 90 || 97 <= b <= 122
    || 39 <= b <= 41 || 43 <= b <= 47 || b == 58 || b == 61 || b == 63 || b == 95 || b == SPACE
  }

  /** Section 5.1.1 of RFC 2046. */
  predicate LegalBoundary(boundary: bytes) {
    && 1 <= |boundary| <= 70
    && boundary[|boundary| - 1] != SPACE
    && forall b | b in boundary :: IsBoundaryByte(b)
  }

  /** One part at the front of `input`: its content, what follows its closing line, whether that line
      was the final one, and the length of its header block. */
  datatype FlatPart = FlatPart(part: Part, rest: seq<TimedByte>, final: bool, header: nat)

  function FirstArrival(ts: seq<TimedByte>): Option<Instant> {
    if ts == [] then None else Some(ts[0].at)
  }

  function ParsePayload(lines: Boundaries, headers: Headers, length: nat, input: seq<TimedByte>,
                        header: nat): (r: Option<FlatPart>)
    ensures r.Some? ==> |r.value.rest| < |input| && r.value.header == header
  {
    if |input| < length + 2 || Plain(input)[length..length + 2] != CRLF then None
    else match TakeBlock(input[length + 2..], CRLF)
      case None => None
      case Some(Block(line, rest)) =>
        if line != lines.open && line != lines.close then None
        else Some(FlatPart(Part(headers, Plain(input[..length]), FirstArrival(input[..length])), rest, line
                           == lines.close, header))
  }

  function ParsePart(lines: Boundaries, input: seq<TimedByte>): (r: Option<FlatPart>)
    ensures r.Some? ==> |r.value.rest| < |input|
  {
    match TakeBlock(input, CRLFCRLF)
    case None => None
    case Some(Block(text, rest)) =>
      match PartHeaders(text)
      case None => None
      case Some(headers) =>
        match DeclaredLength(headers)
        case None => None
        case Some(length) => ParsePayload(lines, headers, length, rest, |text|)
  }

  /** The header block of the part at the front of the input is accepted. */
  predicate HeaderFits(flat: FlatPart, input: seq<TimedByte>, ends: set<nat>) {
    Fits(flat.header, |CRLFCRLF|, |input|, ends)
  }

  /** The opening line is read before the first part. */
  function ParseOpening(lines: Boundaries, input: seq<TimedByte>): Option<seq<TimedByte>> {
    match TakeBlock(input, CRLF)
    case None => None
    case Some(Block(line, rest)) => if line == lines.open then Some(rest) else None
  }

  // ---- The reader ----

  class MultipartReader {
    const body: HttpBody
    const buffer: TimedBuffer
    const lines: Boundaries
    var started: bool
    var finished: bool
    /** Where the segments of the body end, by the payload bytes that follow them. */
    ghost const ends: set<nat>

    ghost predicate Sound()
      reads this, body, body.raw, buffer
    {
      && body.raw != buffer && body.Ready() && buffer.Valid() && |lines.close| == |lines.open| + 2 <= 74
      && EndsKnown(ends, body.RemainingEnds(), |body.Remaining().payload|)
      && (buffer.Contents() != [] ==> |body.Remaining().payload| in ends)
    }

    /** No segment ends inside the buffer: segments are taken only when they are needed. */
    ghost predicate Valid()
      reads this, body, body.raw, buffer
    {
      Sound() && TakenUpTo(ends, |Input()|, |body.Remaining().payload|)
    }

    /** The decoded body bytes that are still to be split. */
    ghost function Input(): seq<TimedByte>
      requires buffer.Valid() && body.raw.Valid()
      reads this, body, body.raw, buffer
    {
      buffer.Contents() + body.Remaining().payload
    }

    ghost function End(): BodyEnd
      requires body.raw.Valid()
      reads this, body, body.raw, buffer
    {
      body.Remaining().end
    }

    constructor (body: HttpBody, boundary: bytes)
      requires body.Ready() && LegalBoundary(boundary)
      ensures Valid() && this.body == body && fresh(buffer) && lines == BoundaryLines(boundary)
      ensures !started && !finished && Input() == body.Remaining().payload && End() == body.Remaining().end
      ensures ends == body.RemainingEnds()
    {
      hide Decode, Ends;
      this.body := body;
      ends := body.RemainingEnds();
      lines := BoundaryLines(boundary);
      started, finished := false, false;
      buffer := new TimedBuffer();
      new;
      body.RemainingEndsBehind();
    }

    ghost function EndError(): MultipartError
      requires body.raw.Valid()
      reads this, body, body.raw, buffer
    {
      match End() case Complete(_) => Ended case Broken(e) => Body(e)
    }

    /** Moves the next body segment into the buffer. */
    method Refill() returns (r: Result<(), MultipartError>)
      requires Sound()
      modifies body`wire, body`responseBytes, body`eof, body`transfer, body.raw, buffer
      ensures r.Ok? ==> Sound() && Input() == old(Input()) && End() == old(End()) && |body.Remaining().payload| in ends
      ensures r.Ok? ==> |body.Remaining().payload| < |old(body.Remaining().payload)|
      ensures r.Ok? ==> TakenUpTo(ends, |old(body.Remaining().payload)|, |body.Remaining().payload|)
      ensures r.Err? ==> old(buffer.Contents()) == old(Input()) && r.error == old(EndError())
    {
      hide Decode, Ends, FlatSegments, FlatWire;
      ghost var front, known, whole := buffer.Contents(), body.RemainingEnds(), |body.Remaining().payload|;
      var next := body.NextSegment();
      if next.Err? {
        return Err(Body(next.error));
      }
      if next.value.None? {
        return Err(Ended);
      }
      var segment := next.value.value;
      body.RemainingEndsBehind();
      EndTakenAway(ends, known, body.RemainingEnds(), whole, |body.Remaining().payload|);
      buffer.Push(segment.bytes, segment.arrived);
      ghost var pushed := Stamp(segment.bytes, segment.arrived);
      assert (front + pushed) + body.Remaining().payload == front + (pushed + body.Remaining().payload);
      r := Ok(());
    }

    /** Takes bytes that are already buffered. */
    method TakeBuffered(count: nat, ghost mark: nat) returns (r: bytes)
      requires Sound() && count <= buffer.len && |Input()| <= mark + count
      requires TakenUpTo(ends, mark, |body.Remaining().payload|)
      modifies buffer
      ensures r == Plain(old(Input()))[..count]
      ensures Valid() && Input() == old(Input())[count..] && End() == old(End())
    {
      hide Decode, Ends, EndsKnown, TakenUpTo, FlatSegments, SegmentEnds, FlatWire, AtCuts, CutsKnown, ReadUpTo;
      hide ValidWire, AllLive, HttpBody.Settled, TimedBuffer.Ends;
      ghost var buffered := buffer.Contents();
      var drained := buffer.DrainBytes(count);
      ExactFront(buffered, body.Remaining().payload, count);
      TakenLess(ends, mark, |Input()|, |body.Remaining().payload|);
      r := drained.value;
    }

    method ReadExact(count: nat) returns (r: Result<bytes, MultipartError>)
      requires Valid()
      modifies body`wire, body`responseBytes, body`eof, body`transfer, body.raw, buffer
      ensures r == if |old(Input())| < count then Err(old(EndError())) else Ok(Plain(old(Input()))[..count])
      ensures r.Ok? ==> Valid() && Input() == old(Input())[count..] && End() == old(End())
    {
      hide Decode, Ends, EndsKnown, TakenUpTo, FlatSegments, FlatWire;
      ghost var input, error, end := Input(), EndError(), End();
      ghost var mark: nat := |input|;
      while buffer.len < count
        invariant Sound() && Input() == input && EndError() == error && End() == end
        invariant TakenUpTo(ends, mark, |body.Remaining().payload|) && |input| <= mark + count
        decreases |body.Remaining().payload|
      {
        mark := |body.Remaining().payload|;
        var refill := Refill();
        if refill.Err? {
          return Err(refill.error);
        }
      }
      var taken := TakeBuffered(count, mark);
      r := Ok(taken);
    }

    /** Reads up to a delimiter. A block is too long if it exceeds the limit, or if a segment ends where more
        than the limit is buffered without the whole delimiter. */
    method ReadUntil(delimiter: bytes) returns (r: Result<bytes, MultipartError>)
      requires Valid() && RestartSafe(delimiter) && delimiter != []
      modifies body`wire, body`responseBytes, body`eof, body`transfer, body.raw, buffer
      ensures match TakeBlock(old(Input()), delimiter)
              case None => r == Err(if |old(Input())| > MAX_PART_HEADER_BYTES then TooLong else old(EndError()))
              case Some(Block(text, rest)) =>
                if Fits(|text|, |delimiter|, |old(Input())|, ends) then r == Ok(text) && Valid() && Input() == rest
                   && End() == old(End())
                else r == Err(TooLong)
    {
      hide Decode, Ends, EndsKnown, TakenUpTo, RestartSafe, Search, FirstIndex, FlatSegments, FlatWire, TakeBlock, Fits;
      hide PassedShort;
      ghost var input, error, end := Input(), EndError(), End();
      ghost var mark: nat := |input|;
      NothingPassed(ends, |input|, |body.Remaining().payload|);
      while true
        invariant Sound() && Input() == input && EndError() == error && End() == end
        invariant TakenUpTo(ends, mark, |body.Remaining().payload|) && MarkedInFront(input, delimiter, mark)
        invariant PassedShort(ends, |input|, |body.Remaining().payload|)
        decreases |body.Remaining().payload|
      {
        ghost var buffered, later := buffer.Contents(), body.Remaining().payload;
        var found := buffer.Find(delimiter);
        if found.Some? {
          r := CutBlock(delimiter, found.value, mark);
          return;
        }
        BlockNotYet(buffered, later, delimiter);
        if buffer.len > MAX_PART_HEADER_BYTES {
          NotFoundTooLong(buffered, later, delimiter, ends);
          return Err(TooLong);
        }
        mark := |later|;
        var refill := Refill();
        if refill.Err? {
          return Err(refill.error);
        }
        PassedMore(ends, |input|, |later|, |body.Remaining().payload|);
      }
    }

    /** Takes a block whose delimiter is already buffered at `position`. */
    method CutBlock(delimiter: bytes, position: nat, ghost mark: nat) returns (r: Result<bytes, MultipartError>)
      requires Sound() && FirstIndex(Plain(buffer.Contents()), delimiter) == Some(position)
      requires TakenUpTo(ends, mark, |body.Remaining().payload|) && MarkedInFront(Input(), delimiter, mark)
      requires PassedShort(ends, |Input()|, |body.Remaining().payload|)
      modifies buffer
      ensures match TakeBlock(old(Input()), delimiter)
              case None => false
              case Some(Block(text, rest)) =>
                if Fits(|text|, |delimiter|, |old(Input())|, ends) then r == Ok(text) && Valid() && Input() == rest
                   && End() == old(End())
                else r == Err(TooLong)
    {
      hide Decode, Ends, EndsKnown, TakenUpTo, FirstIndex, FlatSegments, FlatWire, Fits, PassedShort;
      ghost var input, buffered, later := Input(), buffer.Contents(), body.Remaining().payload;
      BlockFound(buffered, later, delimiter);
      FoundFits(position, |delimiter|, |input|, |later|, ends);
      if position > MAX_PART_HEADER_BYTES {
        return Err(TooLong);
      }
      var drained := buffer.DrainBytes(position + |delimiter|);
      TakenLess(ends, mark, |Input()|, |later|);
      r := Ok(drained.value[..position]);
    }

    /** Reads exactly the declared number of payload bytes, noting when the first of them arrived. */
    method ReadPayload(length: nat) returns (r: Result<(bytes, Option<Instant>), MultipartError>)
      requires Valid()
      modifies body`wire, body`responseBytes, body`eof, body`transfer, body.raw, buffer
      ensures r == if |old(Input())| < length then Err(old(EndError()))
                   else Ok((Plain(old(Input())[..length]), FirstArrival(old(Input())[..length])))
      ensures r.Ok? ==> Valid() && Input() == old(Input())[length..] && End() == old(End())
    {
      hide Decode, Ends, EndsKnown, TakenUpTo, FlatSegments, FlatWire;
      ghost var input, error, end := Input(), EndError(), End();
      ghost var taken: seq<TimedByte> := [];
      var payload: bytes := [];
      var remaining: nat := length;
      var firstPayloadAt: Option<Instant> := None;
      while remaining > 0
        invariant Valid() && EndError() == error && End() == end
        invariant input == taken + Input() && |taken| + remaining == length
        invariant payload == Plain(taken) && firstPayloadAt == FirstArrival(taken)
      {
        var filled := FillIfEmpty();
        if filled.Err? {
          return Err(filled.error);
        }
        var segment := Pop(remaining);
        firstPayloadAt := if firstPayloadAt.None? then Some(segment.arrived) else firstPayloadAt;
        remaining := remaining - |segment.bytes|;
        payload := payload + segment.bytes;
        Extended(taken, segment, Input());
        taken := taken + Stamp(segment.bytes, segment.arrived);
      }
      assert taken == input[..length];
      r := Ok((payload, firstPayloadAt));
    }

    method FillIfEmpty() returns (r: Result<(), MultipartError>)
      requires Valid()
      modifies body`wire, body`responseBytes, body`eof, body`transfer, body.raw, buffer
      ensures r.Ok? <==> old(Input()) != []
      ensures r.Ok? ==> Valid() && Input() == old(Input()) && End() == old(End()) && buffer.Contents() != []
      ensures r.Err? ==> r.error == old(EndError())
    {
      hide Decode, Ends, EndsKnown, TakenUpTo, FlatSegments, FlatWire;
      r := Ok(());
      var empty := buffer.IsEmpty();
      if empty {
        r := Refill();
      }
    }

    method Pop(maximum: nat) returns (segment: TimedBytes)
      requires Valid() && buffer.Contents() != [] && maximum > 0
      modifies buffer
      ensures Valid() && End() == old(End()) && 0 < |segment.bytes| <= maximum
      ensures old(Input()) == Stamp(segment.bytes, segment.arrived) + Input()
    {
      hide Decode, Ends, EndsKnown, TakenUpTo, FlatSegments, FlatWire;
      ghost var whole: nat := |Input()|;
      var popped := buffer.PopSegment(maximum);
      segment := popped.value;
      ghost var front := Stamp(segment.bytes, segment.arrived);
      assert (front + buffer.Contents()) + body.Remaining().payload
             == front + (buffer.Contents() + body.Remaining().payload);
      TakenLess(ends, whole, |Input()|, |body.Remaining().payload|);
    }

    /** After the closing boundary nothing may follow, in the buffer or in the body. */
    method FinishAfterClosingBoundary() returns (r: Result<(), MultipartError>)
      requires Valid()
      modifies body`wire, body`responseBytes, body`eof, body`transfer, body.raw
      ensures r.Ok? <==> old(Input()) == [] && old(End()).Complete?
      ensures r.Ok? ==> Valid() && Input() == [] && End() == old(End())
    {
      hide Decode, Ends;
      var empty := buffer.IsEmpty();
      if !empty {
        return Err(Framing);
      }
      var next := body.NextSegment();
      if next.Err? {
        return Err(Body(next.error));
      }
      // A delivered segment is never empty, so the first one already is an epilogue.
      if next.value.Some? {
        return Err(Framing);
      }
      body.RemainingEndsBehind();
      r := Ok(());
    }

    /** The outcome of reading one part, against the flat parse of the input before it. */
    ghost predicate ReadsPart(flat: Option<FlatPart>, fits: bool, end: BodyEnd, r: Result<Part, MultipartError>)
      reads this, body, body.raw, buffer
    {
      && (r.Ok? <==> flat.Some? && fits && (flat.value.final ==> flat.value.rest == [] && end.Complete?))
      && (r.Ok? ==>
            r.value == flat.value.part && Valid() && Input() == flat.value.rest && End() == end
              && finished == flat.value.final)
    }

    /** The part behind its headers: payload, line break and the boundary line that follows. */
    method ReadBody(headers: Headers, length: nat, ghost header: nat) returns (r: Result<Part, MultipartError>)
      requires Valid() && !finished
      modifies this`finished, body`wire, body`responseBytes, body`eof, body`transfer, body.raw, buffer
      ensures ReadsPart(ParsePayload(lines, headers, length, old(Input()), header), true, old(End()), r)
    {
      hide Decode, Ends, EndsKnown, TakenUpTo, RestartSafe;
      ghost var input, end := Input(), End();
      var payload := ReadPayload(length);
      if payload.Err? {
        return Err(payload.error);
      }
      var suffix := ReadExact(2);
      SliceBehind(input, length);
      if suffix.Err? {
        return Err(suffix.error);
      }
      if suffix.value != CRLF {
        return Err(Framing);
      }
      r := ReadBoundary(Part(headers, payload.value.0, payload.value.1));
    }

    /** The boundary line after a part decides whether the message goes on. */
    method ReadBoundary(part: Part) returns (r: Result<Part, MultipartError>)
      requires Valid() && !finished
      modifies this`finished, body`wire, body`responseBytes, body`eof, body`transfer, body.raw, buffer
      ensures match TakeBlock(old(Input()), CRLF)
              case None => r.Err?
              case Some(Block(line, rest)) =>
                && (r.Ok? <==> line == lines.open || (line == lines.close && rest == [] && old(End()).Complete?))
                && (r.Ok?
                    ==> r.value == part && Valid() && Input() == rest && End() == old(End())
                        && finished == (line == lines.close))
    {
      hide Decode, Ends, EndsKnown, TakenUpTo, RestartSafe, FirstIndex, Fits, TakeBlock;
      DelimitersAreRestartSafe();
      LinesFit(|Input()|);
      var next := ReadUntil(CRLF);
      if next.Err? {
        return Err(next.error);
      }
      if next.value == lines.close {
        var ended := FinishAfterClosingBoundary();
        if ended.Err? {
          return Err(ended.error);
        }
        finished := true;
      } else if next.value != lines.open {
        return Err(Framing);
      }
      r := Ok(part);
    }

    /** Boundary lines are far below the limit. */
    lemma LinesFit(size: nat)
      requires Sound()
      ensures Fits(|lines.open|, |CRLF|, size, ends) && Fits(|lines.close|, |CRLF|, size, ends)
    {
      hide Decode, Ends, EndsKnown;
      ShortFits(|lines.open|, |CRLF|, size, ends);
      ShortFits(|lines.close|, |CRLF|, size, ends);
    }

    method ReadPart() returns (r: Result<Part, MultipartError>)
      requires Valid() && !finished
      modifies this`finished, body`wire, body`responseBytes, body`eof, body`transfer, body.raw, buffer
      ensures var flat := ParsePart(lines, old(Input()));
              ReadsPart(flat, flat.Some? && HeaderFits(flat.value, old(Input()), ends), old(End()), r)
    {
      hide Decode, Ends, EndsKnown, TakenUpTo, RestartSafe, FirstIndex, PartHeaders, DeclaredLength, ParsePayload, Fits;
      hide TakeBlock;
      DelimitersAreRestartSafe();
      var headerBytes := ReadUntil(CRLFCRLF);
      if headerBytes.Err? {
        return Err(headerBytes.error);
      }
      var headers := ParsePartHeaders(headerBytes.value);
      if headers.None? {
        return Err(Framing);
      }
      var length := DeclaredLength(headers.value);
      if length.None? {
        return Err(Framing);
      }
      r := ReadBody(headers.value, length.value, |headerBytes.value|);
    }

    /** The next part, or nothing once the closing boundary has been read. */
    method NextPart() returns (r: Result<Option<Part>, MultipartError>)
      requires Valid()
      modifies this`started, this`finished, body`wire, body`responseBytes, body`eof, body`transfer, body.raw, buffer
      ensures old(finished)
              ==> r == Ok(None) && Valid() && Input() == old(Input()) && End() == old(End()) && finished
                  && started == old(started)
      ensures !old(finished) ==> r.Ok? ==> r.value.Some? && started
      ensures !old(finished) ==>
                var pending := if old(started) then Some(old(Input())) else ParseOpening(lines, old(Input()));
                match pending
                case None => r.Err?
                case Some(rest) =>
                  var flat := ParsePart(lines, rest);
                  ReadsPart(flat, flat.Some? && HeaderFits(flat.value, rest, ends), old(End()), Unwrapped(r))
    {
      hide Decode, Ends, EndsKnown, TakenUpTo, RestartSafe, ParsePart, FirstIndex, Fits, TakeBlock;
      if finished {
        return Ok(None);
      }
      if !started {
        DelimitersAreRestartSafe();
        LinesFit(|Input()|);
        var opening := ReadUntil(CRLF);
        if opening.Err? {
          return Err(opening.error);
        }
        if opening.value != lines.open {
          return Err(Framing);
        }
        started := true;
      }
      var part := ReadPart();
      r := if part.Err? then Err(part.error) else Ok(Some(part.value));
    }
  }

  // ---- Segment ends and the buffer ----

  /** Of all segment ends those are left that lie in what the body still has to deliver. */
  ghost predicate EndsKnown(ends: set<nat>, known: set<nat>, later: nat) {
    known == set n | n in ends && n < later
  }

  /** Every end in front of the last `mark` bytes is ahead of what is left of the body. */
  ghost predicate TakenUpTo(ends: set<nat>, mark: nat, later: nat) {
    forall n | n in ends && n < mark :: n <= later
  }

  lemma TakenLess(ends: set<nat>, mark: nat, less: nat, later: nat)
    requires TakenUpTo(ends, mark, later) && less <= mark
    ensures TakenUpTo(ends, less, later)
  {
  }

  lemma EndTakenAway(ends: set<nat>, before: set<nat>, after: set<nat>, whole: nat, later: nat)
    requires EndsKnown(ends, before, whole) && before == after + {later} && forall n | n in after :: n < later
    ensures EndsKnown(ends, after, later) && TakenUpTo(ends, whole, later) && later in ends
  {
    assert later in before;
    forall n | n in ends && n < whole
      ensures n <= later && (n < later ==> n in after)
    {
      assert n in before;
    }
    forall n | n in after
      ensures n in ends
    {
      assert n in before;
    }
  }

  /** Wherever a segment ended inside the buffer since a block was begun, no more than the limit was there. */
  ghost predicate PassedShort(ends: set<nat>, size: nat, later: nat) {
    forall n | n in ends && later < n < size :: size - n <= MAX_PART_HEADER_BYTES
  }

  lemma NothingPassed(ends: set<nat>, size: nat, later: nat)
    requires TakenUpTo(ends, size, later)
    ensures PassedShort(ends, size, later)
  {
  }

  lemma PassedMore(ends: set<nat>, size: nat, before: nat, later: nat)
    requires PassedShort(ends, size, before) && TakenUpTo(ends, before, later) && size - before <= MAX_PART_HEADER_BYTES
    ensures PassedShort(ends, size, later)
  {
  }

  /** The block with its delimiter reaches behind the mark. */
  ghost predicate MarkedInFront(input: seq<TimedByte>, delimiter: bytes, mark: nat) {
    match TakeBlock(input, delimiter)
    case None => true
    case Some(block) => |block.rest| <= mark
  }

  lemma FoundFits(length: nat, delimiter: nat, size: nat, later: nat, ends: set<nat>)
    requires length + delimiter + later <= size && PassedShort(ends, size, later)
    ensures Fits(length, delimiter, size, ends) <==> length <= MAX_PART_HEADER_BYTES
  {
  }

  lemma NotFoundTooLong(buffered: seq<TimedByte>, later: seq<TimedByte>, delimiter: bytes, ends: set<nat>)
    requires FirstIndex(Plain(buffered), delimiter).None? && |buffered| > MAX_PART_HEADER_BYTES && |later| in ends
    ensures match TakeBlock(buffered + later, delimiter)
            case None => true
            case Some(block) => !Fits(|block.text|, |delimiter|, |buffered + later|, ends)
  {
    hide TakeBlock;
    BlockNotYet(buffered, later, delimiter);
  }

  function Unwrapped(r: Result<Option<Part>, MultipartError>): Result<Part, MultipartError> {
    match r
    case Err(e) => Err(e)
    case Ok(None) => Err(Framing)
    case Ok(Some(part)) => Ok(part)
  }

  lemma Extended(taken: seq<TimedByte>, segment: TimedBytes, rest: seq<TimedByte>)
    requires segment.bytes != []
    ensures var more := Stamp(segment.bytes, segment.arrived);
            && taken + (more + rest) == (taken + more) + rest
            && Plain(taken) + segment.bytes == Plain(taken + more)
            && FirstArrival(taken + more) == if taken == [] then Some(segment.arrived) else FirstArrival(taken)
  {
    PlainConcat(taken, Stamp(segment.bytes, segment.arrived));
    PlainStamp(segment.bytes, segment.arrived);
  }

  lemma SliceBehind(input: seq<TimedByte>, length: nat)
    requires length <= |input|
    ensures |input[length..]| >= 2 ==> Plain(input[length..])[..2] == Plain(input)[length..length + 2]
    ensures |input[length..]| >= 2 ==> input[length..][2..] == input[length + 2..]
  {
  }

  lemma BlockFound(buffered: seq<TimedByte>, later: seq<TimedByte>, delimiter: bytes)
    requires FirstIndex(Plain(buffered), delimiter).Some?
    ensures var p := FirstIndex(Plain(buffered), delimiter).value;
            TakeBlock(buffered + later, delimiter)
                == Some(Block(Plain(buffered[..p + |delimiter|])[..p], buffered[p + |delimiter|..] + later))
  {
    var p := FirstIndex(Plain(buffered), delimiter).value;
    PlainConcat(buffered, later);
    FirstIndexPrefix(Plain(buffered), Plain(later), delimiter);
    assert Plain(buffered[..p + |delimiter|])[..p] == (Plain(buffered) + Plain(later))[..p];
    assert (buffered + later)[p + |delimiter|..] == buffered[p + |delimiter|..] + later;
  }

  lemma ExactFront(buffered: seq<TimedByte>, later: seq<TimedByte>, count: nat)
    requires count <= |buffered|
    ensures Plain(buffered[..count]) == Plain(buffered + later)[..count]
    ensures (buffered + later)[count..] == buffered[count..] + later
  {
    PlainConcat(buffered, later);
  }

  lemma BlockNotYet(buffered: seq<TimedByte>, later: seq<TimedByte>, delimiter: bytes)
    requires FirstIndex(Plain(buffered), delimiter).None?
    ensures match TakeBlock(buffered + later, delimiter)
            case None => true
            case Some(block) => later != [] && |buffered| < |block.text| + |delimiter|
  {
    PlainConcat(buffered, later);
    if FirstIndex(Plain(buffered + later), delimiter).Some? {
      FirstIndexBeyond(Plain(buffered), Plain(later), delimiter);
    }
    if later == [] {
      assert buffered + later == buffered;
    }
  }
}
