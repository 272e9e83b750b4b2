/** The client's response handlers: parts are dispatched to the stream protocol or raw segments to
    the PCM accounting, and the records that result meet the independent validator. */
module Runner {
  import opened Bytes
  import opened Text
  import opened Http
  import opened Multipart
  import opened MultipartMessages
  import opened PacketValidator
  import opened NativeStream

  // ---- Why the validator accepts native records ----

  ghost predicate NonDecreasing(times: seq<Instant>) {
    forall i, j | 0 <= i < j < |times| :: times[i] <= times[j]
  }

  /** The request record written for a stream whose counters ended at these totals. */
  function NativeRecord(request: Request, packets: seq<PacketRecord>, firstAudioAt: Instant, t0: Instant,
                        reason: Option<FinishReason>): RequestRecord {
    RequestRecord(
      request.index, request.workloadId, true, Wrap(|packets|), Milliseconds(Since(firstAudioAt, t0)),
      Wrap(SamplesBefore(packets, |packets|)), SAMPLE_RATE_HZ, reason)
  }

  lemma {:induction false} TotalsGrow(packets: seq<PacketRecord>, arrivals: seq<Instant>, i: nat, j: nat,
                                      request: Request, t0: Instant)
    requires i <= j <= |packets| == |arrivals|
    requires forall k | 0 <= k < |packets| :: Emitted(packets, arrivals, k, request, t0)
    ensures BytesBefore(packets, i) <= BytesBefore(packets, j)
            && CodecFramesBefore(packets, i) <= CodecFramesBefore(packets, j)
    ensures i <= BytesBefore(packets, i) == 2 * SamplesBefore(packets, i)
    decreases j
  {
    if j > i {
      TotalsGrow(packets, arrivals, i, j - 1, request, t0);
    } else if i > 0 {
      TotalsGrow(packets, arrivals, i - 1, i - 1, request, t0);
      assert Emitted(packets, arrivals, i - 1, request, t0);
    }
  }

  lemma MillisecondsDiffer(a: Instant, b: Instant, t0: Instant)
    requires t0 <= a <= b
    ensures Milliseconds(Since(b, a)) == Milliseconds(Since(b, t0)) - Milliseconds(Since(a, t0)) >= 0.0
  {
  }

  lemma Elapsed(a: Instant, t0: Instant)
    ensures Milliseconds(Since(a, t0)) >= 0.0
  {
  }

  lemma WrapSmall(n: nat)
    ensures Wrap(n) < U64_LIMIT && (n < U64_LIMIT <==> Wrap(n) == n)
  {
  }

  lemma SameIsClose(x: real)
    ensures CloseEnough(x, x)
  {
  }

  lemma EmittedInPlace(packets: seq<PacketRecord>, arrivals: seq<Instant>, i: nat, request: Request, t0: Instant,
                       reason: Option<FinishReason>)
    requires i < |packets| == |arrivals| && packets[|packets| - 1].isFinal == Some(true)
    requires forall k | 0 <= k < |packets| :: Emitted(packets, arrivals, k, request, t0)
    requires NonDecreasing(arrivals) && t0 <= arrivals[0] && BytesBefore(packets, |packets|) < U64_LIMIT
    ensures PacketAccepted(packets[i], Native)
    ensures InPlace(packets, i, NativeRecord(request, packets, arrivals[0], t0, reason), Native)
            <==> CodecFramesBefore(packets, i) < U64_LIMIT
  {
    hide CloseEnough, Milliseconds, Since, Wrap, BytesBefore, SamplesBefore, CodecFramesBefore, DigestText;
    TotalsGrow(packets, arrivals, i, |packets|, request, t0);
    assert Emitted(packets, arrivals, i, request, t0);
    WrapSmall(i);
    WrapSmall(BytesBefore(packets, i));
    WrapSmall(SamplesBefore(packets, i));
    WrapSmall(CodecFramesBefore(packets, i));
    Elapsed(arrivals[i], t0);
    SameIsClose(packets[i].arrivalMs);
    if i > 0 {
      assert Emitted(packets, arrivals, i - 1, request, t0);
      MillisecondsDiffer(arrivals[i - 1], arrivals[i], t0);
      SameIsClose(packets[i].interArrivalMs.value);
      assert arrivals[i - 1] <= arrivals[i];
    }
  }

  /** A completed native stream passes every packet check of the validator exactly when the codec
      frames before its last packet still fit the client's 64-bit counter. */
  lemma NativeGroupAcceptedIff(packets: seq<PacketRecord>, arrivals: seq<Instant>, request: Request, t0: Instant,
                               reason: Option<FinishReason>)
    requires packets != [] && |packets| == |arrivals| && packets[|packets| - 1].isFinal == Some(true)
    requires forall k | 0 <= k < |packets| :: Emitted(packets, arrivals, k, request, t0)
    requires NonDecreasing(arrivals) && t0 <= arrivals[0] && BytesBefore(packets, |packets|) < U64_LIMIT
    ensures forall p | p in packets :: PacketAccepted(p, Native)
    ensures GroupAccepted(packets, NativeRecord(request, packets, arrivals[0], t0, reason), Native)
       <==> CodecFramesBefore(packets, |packets| - 1) < U64_LIMIT
  {
    hide Emitted, InPlace, PacketAccepted, NonDecreasing, Wrap, BytesBefore, SamplesBefore, CodecFramesBefore;
    hide Milliseconds, Since;
    var record, n := NativeRecord(request, packets, arrivals[0], t0, reason), |packets|;
    forall i | 0 <= i < n
      ensures PacketAccepted(packets[i], Native)
      ensures InPlace(packets, i, record, Native) <==> CodecFramesBefore(packets, i) < U64_LIMIT
      ensures CodecFramesBefore(packets, i) <= CodecFramesBefore(packets, n - 1)
    {
      EmittedInPlace(packets, arrivals, i, request, t0, reason);
      TotalsGrow(packets, arrivals, i, n - 1, request, t0);
    }
    TotalsGrow(packets, arrivals, n, n, request, t0);
    WrapSmall(n);
    WrapSmall(SamplesBefore(packets, n));
    assert InPlace(packets, n - 1, record, Native) <==> CodecFramesBefore(packets, n - 1) < U64_LIMIT;
  }

  // ---- Arrival order through the parser ----

  /** Stamps never decrease, and none is before `since`. */
  ghost predicate Ordered(ts: seq<TimedByte>, since: Instant) {
    && (forall i, j | 0 <= i < j < |ts| :: ts[i].at <= ts[j].at)
    && (forall i | 0 <= i < |ts| :: since <= ts[i].at)
  }

  /** The part was cut from the front of `before`, and `after` is what follows it. */
  ghost predicate CutFrom(part: Part, before: seq<TimedByte>, after: seq<TimedByte>) {
    && |part.payload| + |after| <= |before|
    && after == before[|before| - |after|..]
    && (part.firstPayloadAt.Some?
        ==> exists k | 0 <= k < |before| - |after| :: before[k].at == part.firstPayloadAt.value)
  }

  lemma PartIsCut(lines: Boundaries, input: seq<TimedByte>)
    requires ParsePart(lines, input).Some?
    ensures CutFrom(ParsePart(lines, input).value.part, input, ParsePart(lines, input).value.rest)
  {
    hide PartHeaders, DeclaredLength, TakeBlock, ParsePayload, CutFrom;
    var block := TakeBlock(input, CRLFCRLF).value;
    var headers := PartHeaders(block.text).value;
    BlockIsCut(input, CRLFCRLF);
    PayloadIsCut(lines, headers, DeclaredLength(headers).value, block.rest, |block.text|);
    CutBehind(ParsePart(lines, input).value.part, input, block.rest, ParsePart(lines, input).value.rest);
  }

  lemma BlockIsCut(input: seq<TimedByte>, delimiter: bytes)
    requires TakeBlock(input, delimiter).Some?
    ensures var rest := TakeBlock(input, delimiter).value.rest; |rest| <= |input| && rest == input[|input| - |rest|..]
  {
    hide FirstIndex;
  }

  lemma PayloadIsCut(lines: Boundaries, headers: Headers, length: nat, input: seq<TimedByte>, header: nat)
    requires ParsePayload(lines, headers, length, input, header).Some?
    ensures var flat := ParsePayload(lines, headers, length, input, header).value; CutFrom(flat.part, input, flat.rest)
  {
    hide TakeBlock;
    var tail := input[length + 2..];
    BlockIsCut(tail, CRLF);
    if length > 0 {
      assert input[0].at == input[..length][0].at;
    }
  }

  lemma OpeningIsCut(lines: Boundaries, input: seq<TimedByte>)
    requires ParseOpening(lines, input).Some?
    ensures var rest := ParseOpening(lines, input).value; |rest| <= |input| && rest == input[|input| - |rest|..]
  {
  }

  lemma CutBehind(part: Part, input: seq<TimedByte>, middle: seq<TimedByte>, after: seq<TimedByte>)
    requires |middle| <= |input| && middle == input[|input| - |middle|..] && CutFrom(part, middle, after)
    ensures CutFrom(part, input, after)
  {
    if part.firstPayloadAt.Some? {
      var k :| 0 <= k < |middle| - |after| && middle[k].at == part.firstPayloadAt.value;
      assert input[|input| - |middle| + k].at == part.firstPayloadAt.value;
    }
  }

  // ---- Content types of parts ----

  function SplitOn(s: bytes, separator: byte): (fields: seq<bytes>)
    ensures fields != []
    decreases |s|
  {
    match IndexOf(s, separator)
    case None => [s]
    case Some(i) => [s[..i]] + SplitOn(s[i + 1..], separator)
  }

  predicate MediaTypeIs(value: bytes, expected: string) {
    LowerAll(Trim(SplitOn(value, SEMICOLON)[0])) == Ascii8(expected)
  }

  function TrimQuotes(s: bytes): bytes {
    if s != [] && s[0] == QUOTE then TrimQuotes(s[1..])
    else if s != [] && s[|s| - 1] == QUOTE then TrimQuotes(s[..|s| - 1])
    else s
  }

  function FindParameter(fields: seq<bytes>, name: string): Option<bytes> {
    if fields == [] then None
    else
      var field := Trim(fields[0]);
      match IndexOf(field, EQUALS)
      case None => FindParameter(fields[1..], name)
      case Some(i) =>
        if LowerAll(Trim(field[..i])) == Ascii8(name) then Some(TrimQuotes(Trim(field[i + 1..])))
        else FindParameter(fields[1..], name)
  }

  function Parameter(contentType: bytes, name: string): Option<bytes> {
    FindParameter(SplitOn(contentType, SEMICOLON)[1..], name)
  }

  function NumberParameter(contentType: bytes, name: string): Option<nat> {
    match Parameter(contentType, name) case None => None case Some(v) => ParseUnsigned(v, 10, U64_LIMIT)
  }

  predicate IsNativeAudioType(contentType: bytes) {
    && NumberParameter(contentType, "rate") == Some(SAMPLE_RATE_HZ)
    && NumberParameter(contentType, "channels") == Some(1)
    && Parameter(contentType, "format").Some? && LowerAll(Parameter(contentType, "format").value) == Ascii8("s16le")
  }

  datatype PartKind = EventPart | AudioPart | RefusedPart

  function KindOf(part: Part): PartKind {
    if Ascii8("content-type") !in part.headers then RefusedPart
    else
      var value := part.headers[Ascii8("content-type")];
      if MediaTypeIs(value, "application/json") then EventPart
      else if MediaTypeIs(value, "audio/pcm") && IsNativeAudioType(value) then AudioPart
      else RefusedPart
  }

  // ---- The native handler ----

  const MAX_REPORTABLE_SAMPLES: nat := 0xffff_ffff

  /** Packets and arrivals lie in the clock interval before the rest of the input, and packets and rest
      together fit in the bytes of the response. */
  ghost predicate Interleaves(packets: seq<PacketRecord>, arrivals: seq<Instant>, t0: Instant, rest: seq<TimedByte>,
                              total: nat) {
    && |packets| == |arrivals|
    && NonDecreasing(arrivals)
    && (arrivals != [] ==> t0 <= arrivals[0] && Ordered(rest, arrivals[|arrivals| - 1]))
    && Ordered(rest, t0)
    && BytesBefore(packets, |packets|) + |rest| <= total
  }

  ghost predicate Interleaved(state: NativeStreamState, rest: seq<TimedByte>, total: nat)
    reads state
  {
    Interleaves(state.packets, state.arrivals, state.t0, rest, total)
  }

  /** What one part does to the protocol; `None` ends the run. */
  function AfterPart(p: Protocol, id: bytes, part: Part, parseEvent: bytes -> Option<JsonEvent>): Option<Protocol> {
    match KindOf(part)
    case RefusedPart => None
    case EventPart => (match parseEvent(part.payload) case None => None case Some(event) => AfterEvent(p, id, event))
    case AudioPart => if AudioAllowed(p, part) then Some(AfterAudio(p, part)) else None
  }

  /** Dispatches one part to the protocol. */
  method HandlePart(state: NativeStreamState, part: Part, parseEvent: bytes -> Option<JsonEvent>,
                    ghost before: seq<TimedByte>, ghost after: seq<TimedByte>, ghost total: nat)
    returns (ok: bool, emitted: seq<PacketRecord>)
    requires state.Valid() && Interleaved(state, before, total) && CutFrom(part, before, after)
    modifies state
    ensures match AfterPart(old(state.Seen()), state.serverRequestId, part, parseEvent)
            case None => !ok
            case Some(p) => ok && state.Seen() == p
    ensures ok ==> state.Valid() && Interleaved(state, after, total) && state.packets == old(state.packets) + emitted
  {
    hide KindOf, ReadAudioHeader, RecordsFollow, Log, BytesBefore, AfterEvent, AfterAudio, Interleaves;
    hide NativeStreamState.Valid;
    InterleavesBehind(state.packets, state.arrivals, state.t0, part, before, after, total);
    ok, emitted := false, [];
    match KindOf(part) {
      case RefusedPart =>
      case EventPart =>
        var event := parseEvent(part.payload);
        if event.Some? {
          var handled := state.HandleJsonEvent(event.value);
          ok := handled.Ok?;
        }
      case AudioPart =>
        ghost var packets, arrivals := state.packets, state.arrivals;
        var handled := state.HandleAudioPart(part);
        ok := handled.Ok?;
        if ok {
          PayloadIsRecorded(state, part);
          InterleavesMore(packets, arrivals, state.t0, handled.value, part, before, after, total);
          emitted := [handled.value];
        }
    }
  }

  /** A part that adds no packet only shortens the input. */
  lemma InterleavesBehind(packets: seq<PacketRecord>, arrivals: seq<Instant>, t0: Instant, part: Part,
                          before: seq<TimedByte>, after: seq<TimedByte>, total: nat)
    requires Interleaves(packets, arrivals, t0, before, total) && CutFrom(part, before, after)
    ensures Interleaves(packets, arrivals, t0, after, total)
  {
    hide BytesBefore;
    OrderedBehind(part, before, after, t0);
    if arrivals != [] {
      OrderedBehind(part, before, after, arrivals[|arrivals| - 1]);
    }
  }

  lemma InterleavesMore(packets: seq<PacketRecord>, arrivals: seq<Instant>, t0: Instant, record: PacketRecord,
                        part: Part,
                        before: seq<TimedByte>, after: seq<TimedByte>, total: nat)
    requires Interleaves(packets, arrivals, t0, before, total) && CutFrom(part, before, after)
    requires part.firstPayloadAt.Some? && record.payloadBytes == |part.payload|
    ensures Interleaves(packets + [record], arrivals + [part.firstPayloadAt.value], t0, after, total)
  {
    hide BytesBefore;
    OrderedBehind(part, before, after, t0);
    if arrivals != [] {
      OrderedBehind(part, before, after, arrivals[|arrivals| - 1]);
    }
    TotalsExtend(packets, record);
  }

  lemma PayloadIsRecorded(state: NativeStreamState, part: Part)
    requires state.Valid() && state.payloads != [] && state.payloads[|state.payloads| - 1] == part.payload
    ensures state.packets != [] && state.packets[|state.packets| - 1].payloadBytes == |part.payload|
  {
    hide Emitted, NativeStreamState.CountersTrack, NativeStreamState.InOrder, PayloadDigest;
  }

  lemma OrderedBehind(part: Part, before: seq<TimedByte>, after: seq<TimedByte>, since: Instant)
    requires CutFrom(part, before, after) && Ordered(before, since)
    ensures Ordered(after, since)
    ensures part.firstPayloadAt.Some?
            ==> since <= part.firstPayloadAt.value && Ordered(after, part.firstPayloadAt.value)
  {
    var d := |before| - |after|;
    assert forall i | 0 <= i < |after| :: after[i] == before[d + i];
    if part.firstPayloadAt.Some? {
      var k :| 0 <= k < d && before[k].at == part.firstPayloadAt.value;
    }
  }

  // ---- What an outcome tells about the audio parts ----

  /** When the payload of each part began. */
  function ArrivalsOf(audio: seq<Part>): (r: seq<Instant>)
    ensures |r| == |audio|
  {
    seq(|audio|, i requires 0 <= i < |audio| => if audio[i].firstPayloadAt.None? then 0
        else audio[i].firstPayloadAt.value)
  }

  /** The outcome is made of these parts: one record for each, with the header fields, length and digest of
      the part and its place among the others, and a request record with their totals and the first arrival. */
  ghost predicate Tells(o: Outcome, p: Protocol, request: Request, t0: Instant) {
    var audio := p.audio;
    && audio != [] && GoodReason(p.reason) && TranscribesAll(o.packets, audio, ArrivalsOf(audio))
    && (forall k | 0 <= k < |o.packets| :: Emitted(o.packets, ArrivalsOf(audio), k, request, t0))
    && o.request == NativeRecord(request, o.packets, ArrivalsOf(audio)[0], t0, p.reason)
  }

  /** The codec frames before the last part fit the 64-bit counter. */
  predicate CountsFrames(audio: seq<Part>) {
    audio != [] && FramesIn(audio[..|audio| - 1]) < U64_LIMIT
  }

  // ---- A whole response, as a function of its bytes ----

  /** Where the protocol stands after all parts, if the framing holds and every part is allowed. */
  function Verdict(lines: Boundaries, input: seq<TimedByte>, p: Protocol, id: bytes,
                   parseEvent: bytes -> Option<JsonEvent>): Option<Protocol>
    decreases |input|
  {
    match ParsePart(lines, input)
    case None => None
    case Some(flat) =>
      match AfterPart(p, id, flat.part, parseEvent)
      case None => None
      case Some(q) =>
        if flat.final then (if flat.rest == [] then Some(q) else None)
        else Verdict(lines, flat.rest, q, id, parseEvent)
  }

  function VerdictOf(lines: Boundaries, input: Option<seq<TimedByte>>, p: Protocol, id: bytes,
                     parseEvent: bytes -> Option<JsonEvent>): Option<Protocol> {
    match input case None => None case Some(rest) => Verdict(lines, rest, p, id, parseEvent)
  }

  predicate FitsFrom(lines: Boundaries, input: Option<seq<TimedByte>>, ends: set<nat>) {
    input.Some? ==> AllFit(lines, input.value, ends)
  }

  /** One start, packets of which the last is final, one end, and a duration that can be reported. */
  predicate Finished(p: Protocol) {
    p.startSeen && p.endSeen && p.finalSeen && p.sample <= MAX_REPORTABLE_SAMPLES
  }

  /** The input from the next part on. */
  ghost function Pending(reader: MultipartReader): Option<seq<TimedByte>>
    requires reader.Valid()
    reads reader, reader.body, reader.body.raw, reader.buffer
  {
    if reader.started then Some(reader.Input()) else ParseOpening(reader.lines, reader.Input())
  }

  /** What handling the next part amounts to, against the flat parse. */
  predicate Stepped(lines: Boundaries, pending: Option<seq<TimedByte>>, ends: set<nat>, end: BodyEnd, p: Protocol,
                    id: bytes,
                    parseEvent: bytes -> Option<JsonEvent>, ok: bool, finished: bool, rest: seq<TimedByte>,
                        q: Protocol) {
    var flat := if pending.None? then None else ParsePart(lines, pending.value);
    && (ok
        <==> && flat.Some? && HeaderFits(flat.value, pending.value, ends)
             && (flat.value.final ==> flat.value.rest == [] && end.Complete?)
                && AfterPart(p, id, flat.value.part, parseEvent).Some?)
    && (ok
        ==> AfterPart(p, id, flat.value.part, parseEvent) == Some(q) && rest == flat.value.rest
            && finished == flat.value.final)
  }

  /** Reads the next part and hands it to the protocol. */
  method HandleNext(reader: MultipartReader, state: NativeStreamState, parseEvent: bytes -> Option<JsonEvent>,
                    ghost total: nat)
    returns (ok: bool, emitted: seq<PacketRecord>)
    requires reader.Valid() && !reader.finished && state.Valid() && Interleaved(state, reader.Input(), total)
    modifies state, reader`started, reader`finished, reader.buffer, reader.body.raw
    modifies reader.body`wire, reader.body`responseBytes, reader.body`eof, reader.body`transfer
    ensures ok ==> && reader.Valid() && reader.started && reader.End() == old(reader.End())
                   && state.Valid() && Interleaved(state, reader.Input(), total)
                      && state.packets == old(state.packets) + emitted
                   && |reader.Input()| < |old(reader.Input())|
                   && Stepped(reader.lines, old(Pending(reader)), reader.ends, old(reader.End()), old(state.Seen()),
                              state.serverRequestId, parseEvent,
                              true, reader.finished, reader.Input(), state.Seen())
    ensures !ok
            ==> Stepped(reader.lines, old(Pending(reader)), reader.ends, old(reader.End()), old(state.Seen()),
                        state.serverRequestId, parseEvent,
                            false, false, [], NOTHING_SEEN)
  {
    hide Decode, Ends, EndsKnown, TakenUpTo, HeaderFits, ParsePart, ParseOpening, CutFrom, Interleaves, AfterPart;
    hide NativeStreamState.Valid, NativeStreamState.Seen;
    ghost var input, lines, started := reader.Input(), reader.lines, reader.started;
    ghost var pending := Pending(reader);
    var next := reader.NextPart();
    if next.Err? {
      return false, [];
    }
    var part := next.value.value;
    if started {
      PartIsCut(lines, input);
    } else {
      OpeningIsCut(lines, input);
      PartIsCut(lines, pending.value);
      CutBehind(part, input, pending.value, reader.Input());
    }
    ok, emitted := HandlePart(state, part, parseEvent, input, reader.Input(), total);
  }

  /** Parses a whole native response. It succeeds exactly if its framing holds and fits and its parts take the
      protocol to a complete state: one start, at least one packet of which only the last is final, one end
      with the true totals, in this order. Then the outcome tells what the audio parts say, and the
      independent validator accepts it exactly if the codec frames before the last part fit 64 bits. */
  method ParseNativeMultipart(body: HttpBody, boundary: bytes, requestId: bytes, request: Request, t0: Instant,
                              parseEvent: bytes -> Option<JsonEvent>)
    returns (r: Option<Outcome>, ghost items: seq<StreamItem>)
    requires body.Ready() && LegalBoundary(boundary)
    requires Ordered(body.Remaining().payload, t0) && |body.Remaining().payload| < U64_LIMIT
    modifies body.raw, body`wire, body`responseBytes, body`eof, body`transfer
    ensures r.Some? ==>
              var Outcome(record, emitted) := r.value;
              && emitted != [] && record.success && record.workloadId == request.workloadId
              && record.samples > 0 && GoodReason(record.finishReason)
              && items == [Start] + PacketItems(emitted)
                  + [StreamItem.End(EndMetrics(Some(record.packetCount), Some(record.samples)))]
              && WellLabelled(r.value, request.index, Native)
    ensures var lines, decoded := BoundaryLines(boundary), old(body.Remaining());
            var start := ParseOpening(lines, decoded.payload);
            var verdict := VerdictOf(lines, start, NOTHING_SEEN, requestId, parseEvent);
            && (r.Some?
                <==> decoded.end.Complete? && verdict.Some? && Finished(verdict.value)
                     && FitsFrom(lines, start, old(body.RemainingEnds())))
            && (r.Some?
                ==> && r.value.request.packetCount == verdict.value.sequence
                    && r.value.request.samples == verdict.value.sample
                            && Tells(r.value, verdict.value, request, t0)
                            && (GroupAccepted(r.value.packets, r.value.request, Native)
                                <==> CountsFrames(verdict.value.audio)))
  {
    hide Decode, Ends, EndsKnown, TakenUpTo, ParsePart, ParseOpening, RecordsFollow, Log, BytesBefore, SamplesBefore,
        CodecFramesBefore, Interleaves, GroupAccepted,
         WellLabelled, AfterPart, Verdict, VerdictOf, FitsFrom, Stepped, Finished, Tells, CountsFrames,
             NativeStreamState.Valid;
    items := [];
    ghost var total := |body.Remaining().payload|;
    var reader := new MultipartReader(body, boundary);
    var state := new NativeStreamState(requestId, request, t0);
    NothingEmitted(state, reader.Input(), total);
    var packets: seq<PacketRecord> := [];
    ghost var lines, start, ends, end := reader.lines, Pending(reader), reader.ends, reader.End();
    while !reader.finished
      invariant packets == state.packets && state.Valid()
      invariant reader.Valid() && Interleaved(state, reader.Input(), total) && reader.End() == end
                && (reader.finished ==> reader.started)
      invariant fresh(state) && fresh(reader) && fresh(reader.buffer) && reader.body == body
      invariant Progress(lines, start, ends, end, requestId, parseEvent, reader.finished, Pending(reader), state.Seen())
      decreases |reader.Input()| + if reader.finished then 0 else 1
    {
      ghost var pending, p := Pending(reader), state.Seen();
      var ok, emitted := HandleNext(reader, state, parseEvent, total);
      if !ok {
        StepFails(lines, start, ends, end, requestId, parseEvent, pending, p);
        return None, items;
      }
      StepHolds(lines, start, ends, end, requestId, parseEvent, pending, p, reader.finished, reader.Input(),
                state.Seen());
      packets := packets + emitted;
    }
    ProgressEnds(lines, start, ends, end, requestId, parseEvent, Pending(reader), state.Seen());
    r, items := Conclude(state, packets, reader.Input(), total);
  }

  /** What is left to decide is the verdict from here; once finished, the verdict is known. */
  predicate Progress(lines: Boundaries, start: Option<seq<TimedByte>>, ends: set<nat>, end: BodyEnd, id: bytes,
                     parseEvent: bytes -> Option<JsonEvent>,
                     finished: bool, pending: Option<seq<TimedByte>>, p: Protocol) {
    if finished then VerdictOf(lines, start, NOTHING_SEEN, id, parseEvent) == Some(p) && end.Complete?
       && FitsFrom(lines, start, ends)
    else && VerdictOf(lines, start, NOTHING_SEEN, id, parseEvent) == VerdictOf(lines, pending, p, id, parseEvent)
         && (FitsFrom(lines, start, ends) <==> FitsFrom(lines, pending, ends))
  }

  lemma StepHolds(lines: Boundaries, start: Option<seq<TimedByte>>, ends: set<nat>, end: BodyEnd, id: bytes,
                  parseEvent: bytes -> Option<JsonEvent>,
                  pending: Option<seq<TimedByte>>, p: Protocol, finished: bool, rest: seq<TimedByte>, q: Protocol)
    requires Progress(lines, start, ends, end, id, parseEvent, false, pending, p)
    requires Stepped(lines, pending, ends, end, p, id, parseEvent, true, finished, rest, q)
    ensures Progress(lines, start, ends, end, id, parseEvent, finished, Some(rest), q)
  {
    hide ParsePart, AfterPart, HeaderFits;
  }

  lemma StepFails(lines: Boundaries, start: Option<seq<TimedByte>>, ends: set<nat>, end: BodyEnd, id: bytes,
                  parseEvent: bytes -> Option<JsonEvent>,
                  pending: Option<seq<TimedByte>>, p: Protocol)
    requires Progress(lines, start, ends, end, id, parseEvent, false, pending, p)
    requires Stepped(lines, pending, ends, end, p, id, parseEvent, false, false, [], NOTHING_SEEN)
    ensures !(end.Complete? && VerdictOf(lines, start, NOTHING_SEEN, id, parseEvent).Some?
              && FitsFrom(lines, start, ends))
  {
    hide ParsePart, AfterPart, HeaderFits;
  }

  lemma ProgressEnds(lines: Boundaries, start: Option<seq<TimedByte>>, ends: set<nat>, end: BodyEnd, id: bytes,
                     parseEvent: bytes -> Option<JsonEvent>,
                     pending: Option<seq<TimedByte>>, p: Protocol)
    requires Progress(lines, start, ends, end, id, parseEvent, true, pending, p)
    ensures VerdictOf(lines, start, NOTHING_SEEN, id, parseEvent) == Some(p) && end.Complete?
            && FitsFrom(lines, start, ends)
  {
  }

  lemma NothingEmitted(state: NativeStreamState, input: seq<TimedByte>, total: nat)
    requires state.Valid() && state.packets == [] && Ordered(input, state.t0) && |input| <= total
    ensures Interleaved(state, input, total)
  {
  }

  /** The checks after the last part, and the outcome they allow. */
  method Conclude(state: NativeStreamState, packets: seq<PacketRecord>, ghost rest: seq<TimedByte>, ghost total: nat)
    returns (r: Option<Outcome>, ghost items: seq<StreamItem>)
    requires state.Valid() && Interleaved(state, rest, total) && total < U64_LIMIT && packets == state.packets
    ensures r.Some? <==> Finished(state.Seen())
    ensures r.Some?
            ==> r.value.request.packetCount == state.Seen().sequence && r.value.request.samples == state.Seen().sample
    ensures r.Some? ==>
              var Outcome(record, emitted) := r.value;
              && emitted != [] && record.success && record.workloadId == state.request.workloadId
              && items == [Start] + PacketItems(emitted)
                  + [StreamItem.End(EndMetrics(Some(record.packetCount), Some(record.samples)))]
              && WellLabelled(r.value, state.request.index, Native)
              && Tells(r.value, state.Seen(), state.request, state.t0) && record.samples > 0
                 && GoodReason(record.finishReason)
              && (GroupAccepted(emitted, record, Native) <==> CountsFrames(state.parts))
  {
    hide BytesBefore, SamplesBefore, CodecFramesBefore, GroupAccepted, WellLabelled, Emitted, Log, PacketItems, Tells;
    hide CountsFrames, TranscribesAll;
    items := state.log;
    var complete := state.ValidateComplete();
    if complete.Err? || state.expectedSample > MAX_REPORTABLE_SAMPLES {
      return None, items;
    }
    var ttfa := Milliseconds(Since(state.firstAudioAt.value, state.t0));
    var record := RequestRecord(
      state.request.index, state.request.workloadId, true, state.expectedSequence, ttfa, state.expectedSample,
          SAMPLE_RATE_HZ, state.finishReason);
    EmittedByCompleteStream(state, rest, total);
    CompleteStreamTells(packets, state.Seen(), state.arrivals, state.request, state.t0);
    SomeSamples(packets, state.arrivals, state.request, state.t0);
    NativeGroupAcceptedIff(packets, state.arrivals, state.request, state.t0, state.finishReason);
    LabelsFollow(packets, state.arrivals, record, state.request, state.t0);
    r := Some(Outcome(record, packets));
  }

  /** The arrivals of the parts are those that the stream has noted. */
  lemma CompleteStreamTells(packets: seq<PacketRecord>, p: Protocol, arrivals: seq<Instant>, request: Request,
                            t0: Instant)
    requires packets != [] && TranscribesAll(packets, p.audio, arrivals) && GoodReason(p.reason)
    requires forall k | 0 <= k < |packets| :: Emitted(packets, arrivals, k, request, t0)
    ensures Tells(Outcome(NativeRecord(request, packets, arrivals[0], t0, p.reason), packets), p, request, t0)
    ensures CodecFramesBefore(packets, |packets| - 1) < U64_LIMIT <==> CountsFrames(p.audio)
  {
    hide Emitted, CodecFramesBefore, NativeRecord, FramesIn, Transcribes;
    FramesTranscribed(packets, p.audio, arrivals, |packets| - 1);
    ArrivalsTranscribed(packets, p.audio, arrivals);
  }

  lemma ArrivalsTranscribed(packets: seq<PacketRecord>, parts: seq<Part>, arrivals: seq<Instant>)
    requires TranscribesAll(packets, parts, arrivals)
    ensures arrivals == ArrivalsOf(parts)
  {
    hide ReadAudioHeader, PayloadDigest;
    forall i | 0 <= i < |arrivals|
      ensures arrivals[i] == ArrivalsOf(parts)[i]
    {
      assert Transcribes(packets[i], parts[i], arrivals[i]);
    }
  }

  lemma EmittedByCompleteStream(state: NativeStreamState, rest: seq<TimedByte>, total: nat)
    requires state.Valid() && Interleaved(state, rest, total) && state.packets != []
    ensures |state.packets| == |state.arrivals| && NonDecreasing(state.arrivals) && state.t0 <= state.arrivals[0]
    ensures forall k | 0 <= k < |state.packets| :: Emitted(state.packets, state.arrivals, k, state.request, state.t0)
    ensures BytesBefore(state.packets, |state.packets|) <= total
    ensures state.firstAudioAt == Some(state.arrivals[0]) && state.expectedSequence == Wrap(|state.packets|)
    ensures state.expectedSample == Wrap(SamplesBefore(state.packets, |state.packets|))
    ensures TranscribesAll(state.packets, state.parts, state.arrivals)
  {
    hide Emitted, Transcribes;
  }

  /** A stream of fewer than 2^64 bytes has a sample for every packet and counts them truly. */
  lemma SomeSamples(packets: seq<PacketRecord>, arrivals: seq<Instant>, request: Request, t0: Instant)
    requires packets != [] && |packets| == |arrivals| && BytesBefore(packets, |packets|) < U64_LIMIT
    requires forall k | 0 <= k < |packets| :: Emitted(packets, arrivals, k, request, t0)
    ensures Wrap(SamplesBefore(packets, |packets|)) > 0
  {
    hide Emitted, BytesBefore, SamplesBefore, Wrap;
    TotalsGrow(packets, arrivals, |packets|, |packets|, request, t0);
    WrapSmall(SamplesBefore(packets, |packets|));
  }

  lemma LabelsFollow(packets: seq<PacketRecord>, arrivals: seq<Instant>, record: RequestRecord, request: Request,
                     t0: Instant)
    requires packets != [] && |packets| == |arrivals| && record.requestIndex == request.index
    requires forall k | 0 <= k < |packets| :: Emitted(packets, arrivals, k, request, t0)
    requires BytesBefore(packets, |packets|) < U64_LIMIT && forall p | p in packets :: PacketAccepted(p, Native)
    ensures WellLabelled(Outcome(record, packets), request.index, Native)
  {
    hide PacketAccepted, Wrap, BytesBefore;
    forall i | 0 <= i < |packets|
      ensures packets[i].sequence == i && packets[i].requestIndex == request.index
    {
      assert Emitted(packets, arrivals, i, request, t0);
      TotalsGrow(packets, arrivals, i, |packets|, request, t0);
      WrapSmall(i);
    }
    hide Emitted;
  }

  // ---- The witness that the condition is needed ----

  /** The headers of an audio part, as a server prints them. */
  function PrintedHeader(h: AudioHeader): Headers {
    map[Ascii8("x-sequence") := PrintUnsigned(h.sequence, 10),
        Ascii8("x-first-codec-frame") := PrintUnsigned(h.firstCodecFrame, 10),
        Ascii8("x-first-sample") := PrintUnsigned(h.firstSample, 10),
        Ascii8("x-sample-count") := PrintUnsigned(h.sampleCount, 10),
        Ascii8("x-codec-frames") := PrintUnsigned(h.codecFrames, 10),
        Ascii8("x-final") := Ascii8(if h.isFinal then "true" else "false")]
  }

  predicate Fits64(h: AudioHeader) {
    h.sequence < U64_LIMIT && h.firstCodecFrame < U64_LIMIT && h.firstSample < U64_LIMIT && h.sampleCount < U64_LIMIT
      && h.codecFrames < U64_LIMIT
  }

  lemma HeaderRoundTrip(h: AudioHeader, payload: bytes, at: Instant)
    requires Fits64(h)
    ensures ReadAudioHeader(Part(PrintedHeader(h), payload, Some(at))) == Some(h)
  {
    hide PrintUnsigned, ParseUnsigned;
    var part := Part(PrintedHeader(h), payload, Some(at));
    NamesDiffer();
    PrintParse(h.sequence, 10, U64_LIMIT);
    PrintParse(h.firstCodecFrame, 10, U64_LIMIT);
    PrintParse(h.firstSample, 10, U64_LIMIT);
    PrintParse(h.sampleCount, 10, U64_LIMIT);
    PrintParse(h.codecFrames, 10, U64_LIMIT);
  }

  lemma NamesDiffer()
    ensures var a, b, c, d, e, f := Ascii8("x-sequence"), Ascii8("x-first-codec-frame"), Ascii8("x-first-sample"),
            Ascii8("x-sample-count"),
                                    Ascii8("x-codec-frames"), Ascii8("x-final");
            a != b && a != c && a != d && a != e && a != f && b != c && b != d && b != e && b != f && c != d && c != e
              && c != f
            && d != e && d != f && e != f && Ascii8("true") != Ascii8("false")
  {
    assert |"x-sequence"| == 10 && |"x-first-codec-frame"| == 19 && |"x-first-sample"| == 14 && |"x-sample-count"| == 14
           && |"x-codec-frames"| == 14 && |"x-final"| == 7 && |"true"| == 4 && |"false"| == 5;
    assert Ascii8("x-first-sample")[2] == 102 && Ascii8("x-sample-count")[2] == 115
           && Ascii8("x-codec-frames")[2] == 99;
  }

  const HALF: nat := 0x8000_0000_0000_0000

  /** Three one-sample parts whose headers announce 2^63, 2^63 and 1 codec frames. */
  function WitnessPart(i: nat, payload: bytes, at: Instant): Part
    requires i < 3
  {
    Part(PrintedHeader(AudioHeader(i, if i == 1 then HALF else 0, i, 1, if i == 2 then 1 else HALF, i == 2)), payload,
         Some(at))
  }

  lemma WitnessHeader(i: nat, payload: bytes, at: Instant)
    requires i < 3
    ensures ReadAudioHeader(WitnessPart(i, payload, at))
            == Some(AudioHeader(i, if i == 1 then HALF else 0, i, 1, if i == 2 then 1 else HALF, i == 2))
  {
    hide ReadAudioHeader, PrintedHeader;
    HeaderRoundTrip(AudioHeader(i, if i == 1 then HALF else 0, i, 1, if i == 2 then 1 else HALF, i == 2), payload, at);
  }

  /** The client's counter wraps to zero in front of the third part, whose header says so too: it accepts
      all three and the end event behind them. The frames before the last part are 2^64, so the validator,
      which counts without a limit, refuses the stream. */
  lemma CodecCounterCanWrap(id: bytes, payload: bytes, at: Instant, end: JsonEvent)
    requires |payload| == 2 && end.eventType == EndEvent && end.requestId == Some(id)
             && end.finishReason == Some(FinishReason.Stop)
    requires end.metrics == Some(EndMetrics(Some(3), Some(3)))
    ensures var a, b, c := WitnessPart(0, payload, at), WitnessPart(1, payload, at), WitnessPart(2, payload, at);
            var begun := NOTHING_SEEN.(startSeen := true);
            && AudioAllowed(begun, a) && AudioAllowed(AfterAudio(begun, a), b)
               && AudioAllowed(AfterAudio(AfterAudio(begun, a), b), c)
            && var last := AfterAudio(AfterAudio(AfterAudio(begun, a), b), c);
               && last.sequence == 3 && last.codecFrame == 1 && last.audio == [a, b, c]
               && EndAllowed(last, id, end) && Finished(last.(endSeen := true, reason := end.finishReason))
                  && !CountsFrames(last.audio)
  {
    hide ReadAudioHeader, WitnessPart;
    WitnessHeader(0, payload, at);
    WitnessHeader(1, payload, at);
    WitnessHeader(2, payload, at);
    WitnessWithPayload(0, payload, at);
    WitnessWithPayload(1, payload, at);
    WitnessWithPayload(2, payload, at);
    var a, b, c := WitnessPart(0, payload, at), WitnessPart(1, payload, at), WitnessPart(2, payload, at);
    assert [a, b, c][..2] == [a, b] && [a, b][..1] == [a] && [a][..0] == [];
    assert FramesIn([a]) == HALF && FramesIn([a, b]) == U64_LIMIT;
  }

  lemma WitnessWithPayload(i: nat, payload: bytes, at: Instant)
    requires i < 3
    ensures WitnessPart(i, payload, at).payload == payload && WitnessPart(i, payload, at).firstPayloadAt == Some(at)
  {
  }

  // ---- The decoder keeps the arrival order ----

  ghost predicate OrderedWire(wire: Wire, since: Instant) {
    && (forall i, j | 0 <= i < j < |wire| :: wire[i].arrived <= wire[j].arrived)
    && (forall i | 0 <= i < |wire| :: since <= wire[i].arrived)
  }

  lemma OrderedConcat(a: seq<TimedByte>, b: seq<TimedByte>, since: Instant)
    requires Ordered(a, since) && Ordered(b, since) && forall x, y | x in a && y in b :: x.at <= y.at
    ensures Ordered(a + b, since)
  {
  }

  lemma {:induction false} FlatWireOrdered(wire: Wire, since: Instant)
    requires OrderedWire(wire, since)
    ensures Ordered(FlatWire(wire), since)
    ensures forall x | x in FlatWire(wire) :: exists i | 0 <= i < |wire| :: x.at == wire[i].arrived
  {
    if wire != [] {
      var front, later := Stamp(wire[0].bytes, wire[0].arrived), FlatWire(wire[1..]);
      FlatWireOrdered(wire[1..], since);
      forall x | x in later
        ensures wire[0].arrived <= x.at && exists i | 0 <= i < |wire| :: x.at == wire[i].arrived
      {
        var i :| 0 <= i < |wire[1..]| && x.at == wire[1..][i].arrived;
        assert wire[1..][i] == wire[i + 1];
      }
      OrderedConcat(front, later, since);
    }
  }

  lemma {:induction false} PayloadComesFromInput(state: ChunkState, input: seq<TimedByte>, cuts: set<nat>)
    ensures forall x | x in DecodeChunked(state, input, cuts).payload :: x in input
    decreases |input|, StateRank(state)
  {
    var step := StepChunked(state, input, cuts);
    if step.Next? {
      PayloadComesFromInput(step.state, input[step.consumed..], cuts);
    }
  }

  /** The decoded payload is ordered in time whenever the input is. */
  lemma {:induction false} DecodeKeepsOrder(state: ChunkState, input: seq<TimedByte>, cuts: set<nat>, since: Instant)
    requires Ordered(input, since)
    ensures Ordered(DecodeChunked(state, input, cuts).payload, since)
    decreases |input|, StateRank(state)
  {
    var step := StepChunked(state, input, cuts);
    if step.Next? {
      var n := step.consumed;
      var front := if step.isPayload then input[..n] else [];
      DecodeKeepsOrder(step.state, input[n..], cuts, since);
      PayloadComesFromInput(step.state, input[n..], cuts);
      OrderedConcat(front, DecodeChunked(step.state, input[n..], cuts).payload, since);
    }
  }

  lemma BodyIsOrdered(transfer: TransferMode, input: seq<TimedByte>, cuts: set<nat>, since: Instant)
    requires Ordered(input, since)
    ensures Ordered(Decode(transfer, input, cuts).payload, since)
  {
    hide DecodeChunked;
    if transfer.Chunked? {
      DecodeKeepsOrder(transfer.state, input, cuts, since);
    }
  }
}
