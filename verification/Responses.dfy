/** One request from its connection to the outcome that is recorded for it, in every response mode. */
module Responses {
  import opened Bytes
  import opened TimedBuffers
  import opened Http
  import opened PacketValidator
  import opened NativeStream
  import opened Runner
  import opened RawPcm
  import ContentType
  import HttpHead
  import Multipart
  import Wav

  // ---- What a connection answers ----

  /** The head of a response, what its body decodes to, and where the segments of the body end. */
  datatype Answer = Answer(head: HttpHead.ResponseHead, body: Decoded, ends: set<nat>)

  ghost function AnswerOf(connection: Wire): Option<Answer> {
    var flat, cuts := FlatWire(connection), Cuts(connection);
    match HttpHead.HeadOf(flat, cuts)
    case Err(_) => None
    case Ok((head, transfer)) =>
      var input := flat[HttpHead.TakeHead(flat, cuts).value + 4..];
      Some(Answer(head, Decode(transfer, input, cuts), Ends(transfer, input, cuts)))
  }

  lemma StepSameCuts(state: ChunkState, input: seq<TimedByte>, a: set<nat>, b: set<nat>)
    requires HttpHead.SameCuts(a, b, |input|)
    ensures StepChunked(state, input, a) == StepChunked(state, input, b)
    ensures forall k: nat | k <= |input| :: HttpHead.SameCuts(a, b, k)
  {
  }

  lemma {:induction false} ChunksSameCuts(state: ChunkState, input: seq<TimedByte>, a: set<nat>, b: set<nat>)
    requires HttpHead.SameCuts(a, b, |input|)
    ensures DecodeChunked(state, input, a) == DecodeChunked(state, input, b)
    ensures ChunkEnds(state, input, a) == ChunkEnds(state, input, b)
    decreases |input|, StateRank(state)
  {
    hide CutsInside, EndsInside, StepChunked, HttpHead.SameCuts;
    var step := StepChunked(state, input, a);
    StepSameCuts(state, input, a, b);
    InsideSameCuts(|input|, a, b);
    if step.Next? {
      var k := step.consumed;
      var tail := |DecodeChunked(step.state, input[k..], a).payload|;
      ChunksSameCuts(step.state, input[k..], a, b);
      StretchSameCuts(|input| - k, |input|, tail, a, b);
    }
  }

  lemma InsideSameCuts(size: nat, a: set<nat>, b: set<nat>)
    requires HttpHead.SameCuts(a, b, size)
    ensures EndsInside(a, size) == EndsInside(b, size)
  {
  }

  lemma StretchSameCuts(low: nat, high: nat, base: nat, a: set<nat>, b: set<nat>)
    requires HttpHead.SameCuts(a, b, high) && low <= high
    ensures CutsInside(a, low, high, base) == CutsInside(b, low, high, base)
  {
  }

  /** Cuts in front of the input do not matter to its decode. */
  lemma DecodeSameCuts(transfer: TransferMode, input: seq<TimedByte>, a: set<nat>, b: set<nat>)
    requires HttpHead.SameCuts(a, b, |input|)
    ensures Decode(transfer, input, a) == Decode(transfer, input, b)
            && Ends(transfer, input, a) == Ends(transfer, input, b)
  {
    hide DecodeChunked, ChunkEnds, CutsInside, EndsInside;
    InsideSameCuts(|input|, a, b);
    if transfer.Chunked? {
      ChunksSameCuts(transfer.state, input, a, b);
    } else if transfer.ContentLength? && transfer.length <= |input| {
      StretchSameCuts(|input| - transfer.length, |input|, 0, a, b);
    }
  }

  lemma {:induction false} ChunkPayloadIsShorter(state: ChunkState, input: seq<TimedByte>, cuts: set<nat>)
    ensures |DecodeChunked(state, input, cuts).payload| <= |input|
    decreases |input|, StateRank(state)
  {
    var step := StepChunked(state, input, cuts);
    if step.Next? {
      ChunkPayloadIsShorter(step.state, input[step.consumed..], cuts);
    }
  }

  lemma PayloadIsShorter(transfer: TransferMode, input: seq<TimedByte>, cuts: set<nat>)
    ensures |Decode(transfer, input, cuts).payload| <= |input|
  {
    hide DecodeChunked;
    if transfer.Chunked? {
      ChunkPayloadIsShorter(transfer.state, input, cuts);
    }
  }

  /** A connection whose clock does not run backwards and whose bytes can be counted in 64 bits. */
  ghost predicate Sane(connection: Wire, t0: Instant) {
    ValidWire(connection) && OrderedWire(connection, t0) && |FlatWire(connection)| < U64_LIMIT
  }

  lemma AnswerIsOrdered(connection: Wire, t0: Instant)
    requires Sane(connection, t0) && AnswerOf(connection).Some?
    ensures Ordered(AnswerOf(connection).value.body.payload, t0)
            && |AnswerOf(connection).value.body.payload| < U64_LIMIT
  {
    hide Decode, Ends, HttpHead.TakeHead, OrderedWire;
    var flat, cuts := FlatWire(connection), Cuts(connection);
    var (head, transfer) := HttpHead.HeadOf(flat, cuts).value;
    var input := flat[HttpHead.TakeHead(flat, cuts).value + 4..];
    FlatWireOrdered(connection, t0);
    BodyIsOrdered(transfer, input, cuts, t0);
    PayloadIsShorter(transfer, input, cuts);
  }

  // ---- A buffered WAV response ----

  /** Bytes `start` to `end` of the file came with one segment. */
  datatype Arrival = Arrival(start: nat, end: nat, at: Instant)

  function EndOf(arrivals: seq<Arrival>, i: nat): nat
    requires i <= |arrivals|
  {
    if i == 0 then 0 else arrivals[i - 1].end
  }

  /** The arrivals tile what was read and carry its times. */
  ghost predicate Covers(arrivals: seq<Arrival>, read: seq<TimedByte>) {
    && (forall i | 0 <= i < |arrivals| :: arrivals[i].start == EndOf(arrivals, i) <= arrivals[i].end <= |read|)
    && EndOf(arrivals, |arrivals|) == |read|
    && forall i, k | 0 <= i < |arrivals| && arrivals[i].start <= k < arrivals[i].end :: read[k].at == arrivals[i].at
  }

  lemma CoversMore(arrivals: seq<Arrival>, read: seq<TimedByte>, segment: TimedBytes)
    requires Covers(arrivals, read)
    ensures Covers(arrivals + [Arrival(|read|, |read| + |segment.bytes|, segment.arrived)],
                   read + Stamp(segment.bytes, segment.arrived))
  {
    var more := arrivals + [Arrival(|read|, |read| + |segment.bytes|, segment.arrived)];
    assert forall i | 0 <= i <= |arrivals| :: EndOf(more, i) == EndOf(arrivals, i);
  }

  /** The reading loop: the bytes of the body, and when each stretch of them arrived. */
  method CollectFile(body: HttpBody) returns (r: Result<(bytes, seq<Arrival>), HttpError>)
    requires body.Ready()
    modifies body.raw, body`wire, body`responseBytes, body`eof, body`transfer
    ensures match old(body.Remaining()).end
            case Complete(_) => r.Ok? && r.value.0 == Plain(old(body.Remaining()).payload)
              && Covers(r.value.1, old(body.Remaining()).payload)
            case Broken(e) => r == Err(e)
  {
    hide Decode, Ends, Covers, FlatSegments, FlatWire, SegmentEnds, CutsKnown, AtCuts, Cuts, ValidWire;
    ghost var whole, read := body.Remaining(), [];
    var wav: bytes, arrivals: seq<Arrival> := [], [];
    AfterNothing(whole);
    NothingCovered();
    while true
      invariant body.Ready() && whole == body.Remaining().After(read)
      invariant wav == Plain(read) && Covers(arrivals, read)
      decreases |body.Remaining().payload|
    {
      var next := body.NextSegment();
      if next.Err? {
        return Err(next.error);
      }
      if next.value.None? {
        assert read + [] == read;
        return Ok((wav, arrivals));
      }
      var segment := next.value.value;
      ghost var stamped := Stamp(segment.bytes, segment.arrived);
      CoversMore(arrivals, read, segment);
      AfterTwice(body.Remaining(), read, stamped);
      PlainConcat(read, stamped);
      var start := |wav|;
      wav := wav + segment.bytes;
      arrivals := arrivals + [Arrival(start, |wav|, segment.arrived)];
      read := read + stamped;
    }
  }

  lemma NothingCovered()
    ensures Covers([], [])
  {
  }

  /** The first arrival that covers an offset carries its time. */
  method FindArrival(arrivals: seq<Arrival>, offset: nat, ghost read: seq<TimedByte>) returns (at: Option<Instant>)
    requires Covers(arrivals, read)
    ensures at == if offset < |read| then Some(read[offset].at) else None
  {
    for i := 0 to |arrivals|
      invariant EndOf(arrivals, i) <= offset
    {
      if arrivals[i].start <= offset < arrivals[i].end {
        return Some(arrivals[i].at);
      }
    }
    at := None;
  }

  /** The reason that the head of a buffered response gives, if it is a known one. */
  function ReasonIn(headers: Headers): (reason: Option<FinishReason>)
    ensures reason.Some? ==> GoodReason(reason)
  {
    if Ascii8("x-finish-reason") !in headers then None
    else if headers[Ascii8("x-finish-reason")] == Ascii8("stop") then Some(FinishReason.Stop)
    else if headers[Ascii8("x-finish-reason")] == Ascii8("length") then Some(Length)
    else None
  }

  /** The file is a playable recording of this many samples, the first of them at `offset`. */
  ghost predicate Recording(file: bytes, samples: nat, offset: nat) {
    exists chunks, bytes ::
      Wav.IsRiffFile(file, chunks) && Wav.Playable(chunks)
        && Wav.InfoOf(Wav.WavInfo(samples, offset, bytes), file, chunks)
  }

  lemma RecordingHolds(file: bytes, chunks: seq<Wav.RiffChunk>, info: Wav.WavInfo)
    requires Wav.IsRiffFile(file, chunks) && Wav.Playable(chunks) && Wav.InfoOf(info, file, chunks)
    ensures Recording(file, info.sampleCount, info.dataOffset)
    ensures 0 < info.sampleCount <= MAX_REPORTABLE_SAMPLES && info.dataOffset < |file|
  {
    hide Wav.IsRiffFile, Wav.FormatOk, Wav.PayloadOffset;
    var i: nat :| Wav.DataAt(chunks, i) && info.dataBytes == |chunks[i].payload| == 2 * info.sampleCount
                  && Wav.PayloadIn(file, info.dataOffset, chunks[i].payload);
    assert Wav.ChunkOk(chunks[i]);
    assert Wav.WellFormed(chunks[i]);
  }

  /** The response is a recording, with a reason why it ended. */
  ghost predicate HoldsRecording(headers: Headers, decoded: Decoded, samples: nat, offset: nat) {
    decoded.end.Complete? && GoodReason(ReasonIn(headers)) && Recording(Plain(decoded.payload), samples, offset)
  }

  /** What is recorded for a recording: no packets, and the arrival of the first sample. */
  function WavOutcome(request: Request, samples: nat, firstPcmAt: Instant, t0: Instant,
                      reason: Option<FinishReason>): Outcome {
    Outcome(RequestRecord(request.index, request.workloadId, true, 0, Milliseconds(Since(firstPcmAt, t0)), samples,
                          SAMPLE_RATE_HZ, reason), [])
  }

  ghost predicate TellsWav(o: Outcome, payload: seq<TimedByte>, samples: nat, offset: nat, reason: Option<FinishReason>,
                           request: Request, t0: Instant) {
    0 < samples && offset < |payload| && GoodReason(reason)
      && o == WavOutcome(request, samples, payload[offset].at, t0, reason)
  }

  /** A buffered response succeeds exactly if it is a playable recording with a finish reason. */
  method ParseNativeWav(head: HttpHead.ResponseHead, body: HttpBody, request: Request, t0: Instant)
    returns (r: Option<Outcome>)
    requires body.Ready()
    modifies body.raw, body`wire, body`responseBytes, body`eof, body`transfer
    ensures match r
            case None => forall samples: nat,
                offset: nat :: !HoldsRecording(head.headers, old(body.Remaining()), samples, offset)
            case Some(o) => exists samples: nat, offset: nat ::
                              && HoldsRecording(head.headers, old(body.Remaining()), samples, offset)
                                                              && TellsWav(o, old(body.Remaining()).payload, samples,
                                                                    offset, ReasonIn(head.headers), request, t0)
  {
    hide Decode, Ends, Covers, ReasonIn, Recording, Milliseconds, Wav.IsRiffFile, Wav.Playable, Wav.InfoOf, WavOutcome;
    ghost var decoded := body.Remaining();
    var collected := CollectFile(body);
    if collected.Err? {
      return None;
    }
    var (wav, arrivals) := collected.value;
    var info, chunks := Wav.ValidateWav(wav);
    if info.Err? {
      RefusedIsNoRecording(wav);
      return None;
    }
    RecordingHolds(wav, chunks, info.value);
    var firstPcmAt := FindArrival(arrivals, info.value.dataOffset, decoded.payload);
    if ReasonIn(head.headers).None? {
      return None;
    }
    r := Some(WavOutcome(request, info.value.sampleCount, firstPcmAt.value, t0, ReasonIn(head.headers)));
    assert HoldsRecording(head.headers, decoded, info.value.sampleCount, info.value.dataOffset);
    assert TellsWav(r.value, decoded.payload, info.value.sampleCount, info.value.dataOffset, ReasonIn(head.headers),
                    request, t0);
  }

  lemma RefusedIsNoRecording(file: bytes)
    requires Wav.Refused(file)
    ensures forall samples: nat, offset: nat :: !Recording(file, samples, offset)
  {
    hide Wav.IsRiffFile, Wav.Playable, Wav.InfoOf;
  }

  // ---- A native response ----

  ghost predicate AnnouncedBy(contentType: bytes, boundary: bytes) {
    exists fields :: ContentType.Fields(fields) && contentType == ContentType.Join(fields)
                && ContentType.Announces(ContentType.TrimAll(fields), boundary)
  }

  lemma OneAnnounced(contentType: bytes, a: bytes, b: bytes)
    requires AnnouncedBy(contentType, a) && AnnouncedBy(contentType, b)
    ensures a == b
  {
    hide ContentType.Field, ContentType.Announces, ContentType.Join, ContentType.TrimAll;
    var fields :| ContentType.Fields(fields) && contentType == ContentType.Join(fields)
                   && ContentType.Announces(ContentType.TrimAll(fields), a);
    var others :| ContentType.Fields(others) && contentType == ContentType.Join(others)
                   && ContentType.Announces(ContentType.TrimAll(others), b);
    ContentType.JoinUnique(fields, others);
    ContentType.AnnouncesOne(ContentType.TrimAll(fields), a, b);
  }

  /** The parts of the body, split at this boundary, take the protocol to this complete state. */
  ghost predicate TakesTo(boundary: bytes, id: bytes, body: Decoded, ends: set<nat>,
                          parseEvent: bytes -> Option<JsonEvent>, p: Protocol) {
    var lines := Multipart.BoundaryLines(boundary);
    var start := Multipart.ParseOpening(lines, body.payload);
    && body.end.Complete? && VerdictOf(lines, start, NOTHING_SEEN, id, parseEvent) == Some(p)
    && Finished(p) && FitsFrom(lines, start, ends)
  }

  /** The response is a stream between announced boundaries that takes the protocol to this state. */
  ghost predicate HoldsStream(contentType: bytes, id: bytes, body: Decoded, ends: set<nat>,
                              parseEvent: bytes -> Option<JsonEvent>, p: Protocol) {
    exists boundary :: AnnouncedBy(contentType, boundary) && TakesTo(boundary, id, body, ends, parseEvent, p)
  }

  // ---- What a response reads as ----

  /** The three kinds of audio that a response can carry. */
  datatype Reading = StreamOf(end: Protocol) | WavOf(samples: nat, offset: nat, reason: Option<FinishReason>)
    | RawOf(samples: nat, rate: nat)

  ghost predicate NativeReads(headers: Headers, body: Decoded, ends: set<nat>, stream: bool,
                              parseEvent: bytes -> Option<JsonEvent>, reading: Reading) {
    && Ascii8("x-request-id") in headers && Ascii8("content-type") in headers
    && var contentType := headers[Ascii8("content-type")];
       match reading
       case StreamOf(p) => stream
         && HoldsStream(contentType, headers[Ascii8("x-request-id")], body, ends, parseEvent, p)
       case WavOf(samples, offset, reason) =>
         !stream && MediaTypeIs(contentType, "audio/wav") && HoldsRecording(headers, body, samples, offset)
           && reason == ReasonIn(headers)
       case RawOf(_, _) => false
  }

  /** What a successful answer carries. */
  ghost predicate ReadsAs(engine: Engine, stream: bool, answer: Option<Answer>, parseEvent: bytes -> Option<JsonEvent>,
                          reading: Reading) {
    && answer.Some? && 200 <= answer.value.head.status < 300
    && match engine
       case Native => NativeReads(answer.value.head.headers, answer.value.body, answer.value.ends, stream, parseEvent,
                                  reading)
       case Sglang =>
         && reading.RawOf? && AnnouncesRawPcm(answer.value.head.headers)
            && CarriesSamples(answer.value.body, reading.samples)
         && reading.rate == RateOf(answer.value.head.headers)
  }

  /** The outcome is what is to be recorded for this reading. */
  ghost predicate TellsReading(o: Outcome, payload: seq<TimedByte>, reading: Reading, request: Request, t0: Instant) {
    match reading
    case StreamOf(p) => Tells(o, p, request, t0)
    case WavOf(samples, offset, reason) => TellsWav(o, payload, samples, offset, reason, request, t0)
    case RawOf(samples, rate) => TellsRaw(o, payload, rate, request, t0) && o.request.samples == samples && rate > 0
  }

  /** The validator has nothing against raw audio, never accepts buffered audio, which has no packets, and
      accepts a stream whose codec frames can be counted. */
  predicate Verifiable(reading: Reading) {
    match reading
    case StreamOf(p) => CountsFrames(p.audio)
    case WavOf(_, _, _) => false
    case RawOf(_, _) => true
  }

  /** All that is said about an outcome: it is labelled with its request, it tells what the response reads
      as, and the validator accepts it exactly if that is verifiable. */
  ghost predicate Recounts(o: Outcome, payload: seq<TimedByte>, reading: Reading, engine: Engine, request: Request,
                           t0: Instant) {
    && o.request.success && o.request.samples > 0 && WellLabelled(o, request.index, engine)
       && TellsReading(o, payload, reading, request, t0)
    && (GroupAccepted(o.packets, o.request, engine) <==> Verifiable(reading))
  }

  lemma WavRecounts(o: Outcome, payload: seq<TimedByte>, samples: nat, offset: nat, reason: Option<FinishReason>,
                    request: Request, t0: Instant)
    requires TellsWav(o, payload, samples, offset, reason, request, t0)
    ensures Recounts(o, payload, WavOf(samples, offset, reason), Native, request, t0)
  {
    hide Milliseconds;
  }

  lemma RawRecounts(o: Outcome, payload: seq<TimedByte>, rate: nat, request: Request, t0: Instant)
    requires WellLabelled(o, request.index, Sglang) && GroupAccepted(o.packets, o.request, Sglang)
             && TellsRaw(o, payload, rate, request, t0)
    requires o.request.samples > 0 && rate > 0
    ensures Recounts(o, payload, RawOf(o.request.samples, rate), Sglang, request, t0)
  {
    hide WellLabelled, GroupAccepted, Milliseconds, Coalesced;
  }

  lemma StreamRecounts(o: Outcome, payload: seq<TimedByte>, p: Protocol, request: Request, t0: Instant)
    requires WellLabelled(o, request.index, Native) && Tells(o, p, request, t0) && o.request.samples > 0
    requires GroupAccepted(o.packets, o.request, Native) <==> CountsFrames(p.audio)
    ensures Recounts(o, payload, StreamOf(p), Native, request, t0)
  {
    hide WellLabelled, GroupAccepted, Emitted, TranscribesAll, Wrap, Milliseconds, CountsFrames;
  }

  method ParseNative(head: HttpHead.ResponseHead, body: HttpBody, request: Request, stream: bool, t0: Instant,
                     parseEvent: bytes -> Option<JsonEvent>)
    returns (r: Option<Outcome>, ghost reading: Reading)
    requires body.Ready()
    requires Ordered(body.Remaining().payload, t0) && |body.Remaining().payload| < U64_LIMIT
    modifies body.raw, body`wire, body`responseBytes, body`eof, body`transfer
    ensures match r
            case None => forall any :: !NativeReads(head.headers, old(body.Remaining()), old(body.RemainingEnds()),
                                                    stream, parseEvent, any)
            case Some(o) =>
              && NativeReads(head.headers, old(body.Remaining()), old(body.RemainingEnds()), stream, parseEvent,
                             reading)
              && Recounts(o, old(body.Remaining()).payload, reading, Native, request, t0)
  {
    hide Decode, Ends, Ordered, AnnouncedBy, HoldsStream, HoldsRecording, TellsWav, Recounts, MediaTypeIs;
    reading := RawOf(0, 0);
    ghost var decoded := body.Remaining();
    if Ascii8("x-request-id") !in head.headers || Ascii8("content-type") !in head.headers {
      return None, reading;
    }
    var contentType := head.headers[Ascii8("content-type")];
    if stream {
      ghost var p;
      r, p := ParseNativeStream(contentType, head.headers[Ascii8("x-request-id")], body, request, t0, parseEvent);
      reading := StreamOf(p);
    } else if !MediaTypeIs(contentType, "audio/wav") {
      return None, reading;
    } else {
      r := ParseNativeWav(head, body, request, t0);
      if r.Some? {
        ghost var samples: nat, offset: nat :| HoldsRecording(head.headers, decoded, samples, offset)
                                             && TellsWav(r.value, decoded.payload, samples, offset,
                                                         ReasonIn(head.headers), request, t0);
        WavRecounts(r.value, decoded.payload, samples, offset, ReasonIn(head.headers), request, t0);
        reading := WavOf(samples, offset, ReasonIn(head.headers));
      }
    }
  }

  method ParseNativeStream(contentType: bytes, id: bytes, body: HttpBody, request: Request, t0: Instant,
                           parseEvent: bytes -> Option<JsonEvent>)
    returns (r: Option<Outcome>, ghost p: Protocol)
    requires body.Ready()
    requires Ordered(body.Remaining().payload, t0) && |body.Remaining().payload| < U64_LIMIT
    modifies body.raw, body`wire, body`responseBytes, body`eof, body`transfer
    ensures match r
            case None => forall any :: !HoldsStream(contentType, id, old(body.Remaining()), old(body.RemainingEnds()),
                                                    parseEvent, any)
            case Some(o) =>
              && HoldsStream(contentType, id, old(body.Remaining()), old(body.RemainingEnds()), parseEvent, p)
              && Recounts(o, old(body.Remaining()).payload, StreamOf(p), Native, request, t0)
  {
    hide Decode, Ends, Ordered, Finished, VerdictOf, FitsFrom, WellLabelled, GroupAccepted, CodecFramesBefore;
    hide AnnouncedBy, Tells, Recounts, CountsFrames;
    hide ContentType.Fields, ContentType.Announces;
    p := NOTHING_SEEN;
    ghost var decoded, ends := body.Remaining(), body.RemainingEnds();
    var boundary, fields := ContentType.BoundaryFromContentType(contentType);
    if boundary.Err? {
      NoneAnnounced(contentType);
      return None, p;
    }
    Announced(contentType, fields, boundary.value);
    ghost var lines := Multipart.BoundaryLines(boundary.value);
    ghost var verdict := VerdictOf(lines, Multipart.ParseOpening(lines, decoded.payload), NOTHING_SEEN, id, parseEvent);
    ghost var items;
    r, items := ParseNativeMultipart(body, boundary.value, id, request, t0, parseEvent);
    if r.None? {
      forall other | AnnouncedBy(contentType, other)
        ensures other == boundary.value
      {
        OneAnnounced(contentType, boundary.value, other);
      }
    } else {
      p := verdict.value;
      assert TakesTo(boundary.value, id, decoded, ends, parseEvent, p);
      StreamRecounts(r.value, decoded.payload, p, request, t0);
    }
  }

  lemma Announced(contentType: bytes, fields: seq<bytes>, boundary: bytes)
    requires ContentType.Fields(fields) && contentType == ContentType.Join(fields)
             && ContentType.Announces(ContentType.TrimAll(fields), boundary)
    ensures AnnouncedBy(contentType, boundary) && Multipart.LegalBoundary(boundary)
  {
    hide ContentType.Fields;
  }

  lemma NoneAnnounced(contentType: bytes)
    requires forall fields, boundary | ContentType.Fields(fields) && contentType == ContentType.Join(fields) ::
               !ContentType.Announces(ContentType.TrimAll(fields), boundary)
    ensures forall boundary :: !AnnouncedBy(contentType, boundary)
  {
    hide ContentType.Fields, ContentType.Announces, ContentType.Join, ContentType.TrimAll;
  }

  lemma RecountsMeasured(o: Outcome, payload: seq<TimedByte>, reading: Reading, engine: Engine, request: Request,
                         t0: Instant)
    requires Recounts(o, payload, reading, engine, request, t0)
    ensures FullyMeasured(o.request)
  {
    hide WellLabelled, GroupAccepted, Emitted, TranscribesAll, Wrap, Coalesced, Describes, GoodReason;
  }

  /** A response reads as one thing only, as far as the validator is concerned. */
  lemma VerifiableOnce(engine: Engine, stream: bool, answer: Option<Answer>, parseEvent: bytes -> Option<JsonEvent>,
                       a: Reading, b: Reading)
    requires ReadsAs(engine, stream, answer, parseEvent, a) && ReadsAs(engine, stream, answer, parseEvent, b)
    ensures Verifiable(a) <==> Verifiable(b)
  {
    hide AnnouncedBy, VerdictOf, FitsFrom, Finished, CountsFrames, HoldsRecording, AnnouncesRawPcm;
    if a.StreamOf? && b.StreamOf? {
      var headers := answer.value.head.headers;
      var contentType, id := headers[Ascii8("content-type")], headers[Ascii8("x-request-id")];
      var x :| AnnouncedBy(contentType, x) && TakesTo(x, id, answer.value.body, answer.value.ends, parseEvent, a.end);
      var y :| AnnouncedBy(contentType, y) && TakesTo(y, id, answer.value.body, answer.value.ends, parseEvent, b.end);
      OneAnnounced(contentType, x, y);
    }
  }

  // ---- A connected request ----

  function FailedOutcome(request: Request): Outcome {
    Outcome(RequestRecord(request.index, request.workloadId, false, 0, 0.0, 0, 0, None), [])
  }

  lemma FailedIsLabelled(request: Request, engine: Engine)
    ensures WellLabelled(FailedOutcome(request), request.index, engine)
    ensures GroupAccepted([], FailedOutcome(request).request, engine)
  {
  }

  /** The payload of the response, if there is one. */
  ghost function PayloadOf(answer: Option<Answer>): seq<TimedByte> {
    if answer.None? then [] else answer.value.body.payload
  }

  /** A response with a good status is parsed by its engine's handler. */
  method ParseResponse(engine: Engine, head: HttpHead.ResponseHead, body: HttpBody, request: Request, stream: bool,
                       t0: Instant,
                       parseEvent: bytes -> Option<JsonEvent>, ghost answer: Answer)
    returns (r: Option<Outcome>, ghost reading: Reading)
    requires body.Ready() && 200 <= head.status < 300 && answer == Answer(head, body.Remaining(), body.RemainingEnds())
    requires Ordered(answer.body.payload, t0) && |answer.body.payload| < U64_LIMIT
    modifies body.raw, body`wire, body`responseBytes, body`eof, body`transfer
    ensures match r
            case None => forall any :: !ReadsAs(engine, stream, Some(answer), parseEvent, any)
            case Some(o) =>
              ReadsAs(engine, stream, Some(answer), parseEvent, reading)
                && Recounts(o, answer.body.payload, reading, engine, request, t0)
  {
    hide Decode, Ends, Ordered, NativeReads, AnnouncesRawPcm, RateOf, Recounts, TellsRaw, WellLabelled, GroupAccepted;
    reading := RawOf(0, 0);
    if engine == Native {
      r, reading := ParseNative(head, body, request, stream, t0, parseEvent);
    } else {
      r := ParseSglangRaw(head, body, request, t0);
      if r.Some? {
        RawRecounts(r.value, answer.body.payload, RateOf(head.headers), request, t0);
        reading := RawOf(r.value.request.samples, RateOf(head.headers));
      }
    }
  }

  /** A request fails exactly if its connection does not answer with audio. Otherwise its outcome tells what
      the answer reads as, and the validator accepts it exactly if that is verifiable. */
  ghost predicate Concludes(o: Outcome, engine: Engine, stream: bool, answer: Option<Answer>,
                            parseEvent: bytes -> Option<JsonEvent>,
                            request: Request, t0: Instant) {
    || (o == FailedOutcome(request) && forall any :: !ReadsAs(engine, stream, answer, parseEvent, any))
    || exists reading ::
         ReadsAs(engine, stream, answer, parseEvent, reading)
           && Recounts(o, PayloadOf(answer), reading, engine, request, t0)
  }

  method ExecuteConnected(engine: Engine, request: Request, stream: bool, connection: Wire, t0: Instant,
                          parseEvent: bytes -> Option<JsonEvent>) returns (o: Outcome)
    requires Sane(connection, t0)
    ensures Concludes(o, engine, stream, AnswerOf(connection), parseEvent, request, t0)
  {
    hide Decode, Ends, Ordered, OrderedWire, NativeReads, AnnouncesRawPcm, CarriesSamples, Recounts, FlatWire, Cuts;
    hide HttpHead.SameCuts, HttpHead.TakeHead, HttpHead.HeadOf, AnswerOf;
    var head, body := HttpHead.ReadHead(connection);
    AnswerRead(connection);
    if head.Err? {
      return FailedOutcome(request);
    }
    DecodeSameCuts(body.transfer, body.Pending(), body.cuts, Cuts(connection));
    AnswerIsOrdered(connection, t0);
    if head.value.status < 200 || head.value.status >= 300 {
      return FailedOutcome(request);
    }
    var parsed;
    ghost var what;
    parsed,
        what := ParseResponse(engine, head.value, body, request, stream, t0, parseEvent, AnswerOf(connection).value);
    if parsed.None? {
      return FailedOutcome(request);
    }
    return parsed.value;
  }

  lemma AnswerRead(connection: Wire)
    ensures match HttpHead.HeadOf(FlatWire(connection), Cuts(connection))
            case Err(_) => AnswerOf(connection).None?
            case Ok((head, transfer)) =>
              && HttpHead.TakeHead(FlatWire(connection), Cuts(connection)).Ok?
              && var input := FlatWire(connection)[
                   HttpHead.TakeHead(FlatWire(connection), Cuts(connection)).value + 4..];
                 AnswerOf(connection)
                     == Some(Answer(head, Decode(transfer, input, Cuts(connection)),
                                    Ends(transfer, input, Cuts(connection))))
  {
    hide HttpHead.TakeHead, HttpHead.ParseHead, HttpHead.SelectTransfer, Decode, Ends;
  }
}
