/** The start / audio packets / end protocol of a native streaming response, as a state machine over
    the parts of the multipart body. Counters are 64-bit and wrap as the release build does. */
module NativeStream {
  import opened Bytes
  import opened Text
  import opened Fips180
  import opened Sha256Hasher
  import opened Multipart
  import opened PacketValidator

  const SAMPLE_RATE_HZ: nat := 24_000

  // ---- Events, already parsed from JSON ----

  datatype AudioDescription = AudioDescription(encoding: string, sampleRateHz: nat, channels: nat,
      samplesPerCodecFrame: nat)

  datatype EndMetrics = EndMetrics(emittedPackets: Option<nat>, emittedSamples: Option<nat>)

  /** Any other type is kept as such; it is never accepted. */
  datatype EventType = StartEvent | EndEvent | OtherEvent(name: string)

  datatype JsonEvent = JsonEvent(
    eventType: EventType, requestId: Option<bytes>, finishReason: Option<FinishReason>,
    metrics: Option<EndMetrics>, audio: Option<AudioDescription>)

  datatype StreamError =
    | WrongRequestId | BadAudioDescription | OutOfOrder | NoFinishReason | BadFinishReason | BadMetrics
    | OutsideInterval | EmptyPayload | BadHeader | Discontinuous | Incomplete

  predicate IsNativePcm(audio: AudioDescription) {
    audio.encoding == "pcm_s16le" && audio.sampleRateHz == SAMPLE_RATE_HZ && audio.channels == 1
      && audio.samplesPerCodecFrame == 1920
  }

  /** What the protocol has seen so far, in order. */
  datatype StreamItem = Start | Packet(record: PacketRecord) | End(metrics: EndMetrics)

  function PacketItems(packets: seq<PacketRecord>): seq<StreamItem> {
    seq(|packets|, i requires 0 <= i < |packets| => Packet(packets[i]))
  }

  // ---- Clock arithmetic ----

  function Since(later: Instant, earlier: Instant): nat {
    if later >= earlier then later - earlier else 0
  }

  function Milliseconds(nanoseconds: nat): real {
    nanoseconds as real / 1_000_000.0
  }

  function Wrap(n: nat): nat { n % U64_LIMIT }

  // ---- Part headers ----

  function PartNumber(part: Part, name: string): Option<nat> {
    if Ascii8(name) in part.headers then ParseUnsigned(part.headers[Ascii8(name)], 10, U64_LIMIT) else None
  }

  function PartFlag(part: Part, name: string): Option<bool> {
    if Ascii8(name) !in part.headers then None
    else if part.headers[Ascii8(name)] == Ascii8("true") then Some(true)
    else if part.headers[Ascii8(name)] == Ascii8("false") then Some(false)
    else None
  }

  datatype AudioHeader = AudioHeader(sequence: nat, firstCodecFrame: nat, firstSample: nat, sampleCount: nat,
                                     codecFrames: nat, isFinal: bool)

  function ReadAudioHeader(part: Part): Option<AudioHeader> {
    match (PartNumber(part, "x-sequence"), PartNumber(part, "x-first-codec-frame"), PartNumber(part, "x-first-sample"),
           PartNumber(part, "x-sample-count"), PartNumber(part, "x-codec-frames"), PartFlag(part, "x-final"))
    case (Some(s), Some(c), Some(f), Some(n), Some(k), Some(b)) => Some(AudioHeader(s, c, f, n, k, b))
    case _ => None
  }

  /** The digest field of a record. */
  function PayloadDigest(payload: bytes): bytes {
    if 8 * |payload| < U64_LIMIT then ToHex(Sha256(payload)) else ToHex(Zeros(32))
  }

  datatype Request = Request(index: nat, workloadId: bytes)

  /** What every emitted record says, given the records before it and the arrival times. */
  ghost predicate Emitted(packets: seq<PacketRecord>, arrivals: seq<Instant>, i: nat, request: Request, t0: Instant)
    requires i < |packets| == |arrivals|
  {
    var p := packets[i];
    && p.requestIndex == request.index && p.workloadId == request.workloadId && p.engine == Native
    && p.sequence == Wrap(i) && p.isFirst == (Wrap(i) == 0)
    && p.arrivalMs == Milliseconds(Since(arrivals[i], t0))
    && p.interArrivalMs == (if i == 0 then None else Some(Milliseconds(Since(arrivals[i], arrivals[i - 1]))))
    && p.payloadBytes > 0 && DigestText(p.payloadSha256)
    && p.byteOffset == Wrap(BytesBefore(packets, i))
    && p.firstSample == Some(Wrap(SamplesBefore(packets, i)))
    && p.firstCodecFrame == Some(Wrap(CodecFramesBefore(packets, i)))
    && p.sampleCount.Some? && 2 * p.sampleCount.value == p.payloadBytes
    && p.codecFrames.Some? && p.codecFrames.value > 0
    && p.isFinal.Some? && (p.isFinal.value ==> i == |packets| - 1)
  }

  ghost predicate RecordsFollow(packets: seq<PacketRecord>, arrivals: seq<Instant>, payloads: seq<bytes>,
                                request: Request, t0: Instant) {
    && |packets| == |arrivals| == |payloads|
    && (forall i | 0 <= i < |packets| :: Emitted(packets, arrivals, i, request, t0))
    && (forall i | 0 <= i < |packets| ::
          |payloads[i]| == packets[i].payloadBytes && packets[i].payloadSha256 == PayloadDigest(payloads[i]))
  }

  /** The codec frames that a part announces, and all of some parts together. */
  function FramesOf(part: Part): nat {
    match ReadAudioHeader(part) case None => 0 case Some(h) => h.codecFrames
  }

  function FramesIn(audio: seq<Part>): nat {
    if audio == [] then 0 else FramesIn(audio[..|audio| - 1]) + FramesOf(audio[|audio| - 1])
  }

  /** What a record takes over from its part. */
  predicate Transcribes(p: PacketRecord, part: Part, arrival: Instant) {
    && part.firstPayloadAt == Some(arrival)
    && p.payloadBytes == |part.payload| && p.payloadSha256 == PayloadDigest(part.payload)
    && p.firstCodecFrame.Some? && p.firstSample.Some? && p.sampleCount.Some? && p.codecFrames.Some? && p.isFinal.Some?
    && ReadAudioHeader(part)
        == Some(AudioHeader(p.sequence, p.firstCodecFrame.value, p.firstSample.value, p.sampleCount.value,
                                                 p.codecFrames.value, p.isFinal.value))
  }

  /** The records are those of the parts, one for one. */
  ghost predicate TranscribesAll(packets: seq<PacketRecord>, parts: seq<Part>, arrivals: seq<Instant>) {
    |packets| == |parts| == |arrivals|
      && forall i | 0 <= i < |packets| :: Transcribes(packets[i], parts[i], arrivals[i])
  }

  function Log(startSeen: bool, packets: seq<PacketRecord>, end: seq<StreamItem>): seq<StreamItem> {
    (if startSeen then [Start] else []) + PacketItems(packets) + end
  }

  // ---- The protocol as a function of what arrives ----

  /** Where a stream stands, the audio parts it has accepted, and the reason of its end. */
  datatype Protocol = Protocol(
    startSeen: bool, endSeen: bool, finalSeen: bool, sequence: nat, sample: nat, codecFrame: nat, audio: seq<Part>,
    reason: Option<FinishReason>)

  const NOTHING_SEEN: Protocol := Protocol(false, false, false, 0, 0, 0, [], None)

  predicate StartAllowed(p: Protocol, id: bytes, event: JsonEvent) {
    && event.requestId == Some(id) && event.eventType == StartEvent
    && !p.startSeen && p.sequence == 0 && !p.endSeen
    && event.audio.Some? && IsNativePcm(event.audio.value)
  }

  /** An end carries the totals. */
  predicate EndAllowed(p: Protocol, id: bytes, event: JsonEvent) {
    && event.requestId == Some(id) && event.eventType == EndEvent
    && p.startSeen && p.sequence > 0 && !p.endSeen
    && GoodReason(event.finishReason)
    && event.metrics == Some(EndMetrics(Some(p.sequence), Some(p.sample)))
  }

  /** Audio inside the interval, with a payload and headers that continue every running count exactly. */
  predicate AudioAllowed(p: Protocol, part: Part) {
    && p.startSeen && !p.endSeen && !p.finalSeen
    && part.firstPayloadAt.Some?
    && ReadAudioHeader(part).Some?
    && var h := ReadAudioHeader(part).value;
       && h.sequence == p.sequence && h.firstSample == p.sample && h.firstCodecFrame == p.codecFrame
       && h.sampleCount > 0 && h.codecFrames > 0
       && 2 * h.sampleCount < U64_LIMIT && 2 * h.sampleCount == |part.payload|
  }

  function AfterAudio(p: Protocol, part: Part): Protocol
    requires ReadAudioHeader(part).Some?
  {
    var h := ReadAudioHeader(part).value;
    Protocol(p.startSeen, p.endSeen, h.isFinal, Wrap(p.sequence + 1), Wrap(p.sample + h.sampleCount),
             Wrap(p.codecFrame + h.codecFrames),
             p.audio + [part], p.reason)
  }

  function AfterEvent(p: Protocol, id: bytes, event: JsonEvent): Option<Protocol> {
    if StartAllowed(p, id, event) then Some(p.(startSeen := true))
    else if EndAllowed(p, id, event) then Some(p.(endSeen := true, reason := event.finishReason))
    else None
  }

  class NativeStreamState {
    const serverRequestId: bytes
    const request: Request
    const t0: Instant
    var expectedSequence: nat
    var expectedSample: nat
    var expectedCodecFrame: nat
    var byteOffset: nat
    var firstAudioAt: Option<Instant>
    var previousAudioAt: Option<Instant>
    var startSeen: bool
    var endSeen: bool
    var finalSeen: bool
    var finishReason: Option<FinishReason>
    var endMetrics: Option<EndMetrics>
    /** The bytes fed to the audio digest. */
    var audioHashed: bytes
    /** History: the records emitted, their arrival times, payloads and parts, and all accepted items in order. */
    ghost var packets: seq<PacketRecord>
    ghost var arrivals: seq<Instant>
    ghost var payloads: seq<bytes>
    ghost var parts: seq<Part>
    ghost var log: seq<StreamItem>

    /** The counters are the totals of the records emitted so far. */
    ghost predicate CountersTrack()
      reads `expectedSequence, `expectedSample, `expectedCodecFrame, `byteOffset, `firstAudioAt, `previousAudioAt
      reads `audioHashed, `packets, `arrivals, `payloads
    {
      && |packets| == |arrivals|
      && expectedSequence == Wrap(|packets|)
      && expectedSample == Wrap(SamplesBefore(packets, |packets|))
      && expectedCodecFrame == Wrap(CodecFramesBefore(packets, |packets|))
      && byteOffset == Wrap(BytesBefore(packets, |packets|))
      && firstAudioAt == (if packets == [] then None else Some(arrivals[0]))
      && previousAudioAt == (if packets == [] then None else Some(arrivals[|packets| - 1]))
      && audioHashed == Flatten(payloads)
    }

    /** The items seen are a prefix of start, packets, end, and only the last packet can be final. */
    ghost predicate InOrder()
      reads this
    {
      && (endSeen ==> endMetrics.Some? && startSeen && expectedSequence > 0)
      && (endSeen ==> GoodReason(finishReason))
      && log == Log(startSeen, packets, if endSeen then [End(endMetrics.value)] else [])
      && (endSeen ==> endMetrics.value == EndMetrics(Some(expectedSequence), Some(expectedSample)))
      && (packets != [] ==> startSeen)
      && finalSeen == (packets != [] && packets[|packets| - 1].isFinal == Some(true))
    }

    ghost predicate Valid()
      reads this
    {
      && CountersTrack() && InOrder() && RecordsFollow(packets, arrivals, payloads, request, t0)
      && TranscribesAll(packets, parts, arrivals)
    }

    constructor (serverRequestId: bytes, request: Request, t0: Instant)
      ensures Valid() && log == [] && packets == [] && Seen() == NOTHING_SEEN
      ensures this.serverRequestId == serverRequestId && this.request == request && this.t0 == t0
    {
      this.serverRequestId, this.request, this.t0 := serverRequestId, request, t0;
      expectedSequence, expectedSample, expectedCodecFrame, byteOffset := 0, 0, 0, 0;
      firstAudioAt, previousAudioAt, startSeen, endSeen, finalSeen := None, None, false, false, false;
      finishReason, endMetrics, audioHashed := None, None, [];
      packets, arrivals, payloads, parts, log := [], [], [], [], [];
    }

    ghost function Seen(): Protocol
      reads `startSeen, `endSeen, `finalSeen, `expectedSequence, `expectedSample, `expectedCodecFrame, `parts,
          `finishReason
    {
      Protocol(startSeen, endSeen, finalSeen, expectedSequence, expectedSample, expectedCodecFrame, parts, finishReason)
    }

    /** A start or end event is accepted only in its place, and an end only with the true totals. */
    method HandleJsonEvent(event: JsonEvent) returns (r: Result<(), StreamError>)
      requires Valid()
      modifies this`startSeen, this`endSeen, this`finishReason, this`endMetrics, this`log
      ensures Valid()
      ensures match AfterEvent(old(Seen()), serverRequestId, event)
              case None => r.Err? && Seen() == old(Seen())
              case Some(after) => r.Ok? && Seen() == after
      ensures log == old(log) + if r.Err? then [] else if event.eventType == StartEvent then [Start]
              else [End(event.metrics.value)]
      ensures EndAllowed(old(Seen()), serverRequestId, event)
              ==> finishReason == event.finishReason && endMetrics == event.metrics
      ensures !EndAllowed(old(Seen()), serverRequestId, event)
              ==> finishReason == old(finishReason) && endMetrics == old(endMetrics)
    {
      hide Emitted, Wrap, IsNativePcm, PayloadDigest, Flatten, BytesBefore, SamplesBefore, CodecFramesBefore;
      hide TranscribesAll;
      if event.requestId != Some(serverRequestId) {
        return Err(WrongRequestId);
      }
      if event.eventType == StartEvent && !startSeen && expectedSequence == 0 && !endSeen {
        if event.audio.None? || !IsNativePcm(event.audio.value) {
          return Err(BadAudioDescription);
        }
        startSeen := true;
        log := log + [Start];
      } else if event.eventType == EndEvent && startSeen && expectedSequence > 0 && !endSeen {
        if event.finishReason.None? {
          return Err(NoFinishReason);
        }
        if event.finishReason.value != Stop && event.finishReason.value != Length {
          return Err(BadFinishReason);
        }
        if event.metrics.None? || event.metrics.value.emittedPackets != Some(expectedSequence)
           || event.metrics.value.emittedSamples != Some(expectedSample) {
          return Err(BadMetrics);
        }
        finishReason := event.finishReason;
        endMetrics := event.metrics;
        endSeen := true;
        log := log + [End(event.metrics.value)];
      } else {
        return Err(OutOfOrder);
      }
      r := Ok(());
    }

    /** An accepted audio part appends one record and nothing else; a refused one changes nothing. */
    method HandleAudioPart(part: Part) returns (r: Result<PacketRecord, StreamError>)
      requires Valid()
      modifies this
      ensures Valid() && finishReason == old(finishReason) && endMetrics == old(endMetrics)
      ensures r.Ok? <==> AudioAllowed(old(Seen()), part)
      ensures Seen() == if r.Ok? then AfterAudio(old(Seen()), part) else old(Seen())
      ensures r.Ok? ==>
                && packets == old(packets) + [r.value] && log == old(log) + [Packet(r.value)]
                && arrivals == old(arrivals) + [part.firstPayloadAt.value] && payloads == old(payloads) + [part.payload]
                && Transcribes(r.value, part, part.firstPayloadAt.value)
      ensures r.Err?
              ==> packets == old(packets) && log == old(log) && arrivals == old(arrivals) && payloads == old(payloads)
    {
      hide ReadAudioHeader, Wrap, PayloadDigest, Flatten, BytesBefore, SamplesBefore, CodecFramesBefore, Milliseconds;
      hide Since;
      if !startSeen || endSeen || finalSeen {
        return Err(OutsideInterval);
      }
      if part.firstPayloadAt.None? {
        return Err(EmptyPayload);
      }
      var arrival := part.firstPayloadAt.value;
      var header := ReadAudioHeader(part);
      if header.None? {
        return Err(BadHeader);
      }
      var h := header.value;
      if h.sequence != expectedSequence || h.firstSample != expectedSample || h.firstCodecFrame != expectedCodecFrame
         || h.sampleCount == 0 || h.codecFrames == 0 || 2 * h.sampleCount >= U64_LIMIT
            || 2 * h.sampleCount != |part.payload| {
        return Err(Discontinuous);
      }
      var record := PacketRecord(
        request.index, request.workloadId, Native, h.sequence,
        Milliseconds(Since(arrival, t0)),
        match previousAudioAt case None => None case Some(previous) => Some(Milliseconds(Since(arrival, previous))),
        |part.payload|, PayloadDigest(part.payload), byteOffset,
        Some(h.firstCodecFrame), Some(h.firstSample), Some(h.sampleCount), Some(h.codecFrames), h.sequence == 0,
            Some(h.isFinal));
      PrefixTotals(packets, [record], |packets|);
      PayloadDigestIsText(part.payload);
      Append(record, arrival, part);
      r := Ok(record);
    }

    /** Advances every counter past an accepted record. */
    method Append(record: PacketRecord, arrival: Instant, part: Part)
      requires Valid() && startSeen && !endSeen && !finalSeen && Transcribes(record, part, arrival)
      requires record.sampleCount.Some? && record.codecFrames.Some? && |packets| == |arrivals|
      requires Emitted(packets + [record], arrivals + [arrival], |packets|, request, t0)
      modifies this
      ensures Valid() && startSeen == old(startSeen) && endSeen == old(endSeen)
              && finalSeen == (record.isFinal == Some(true))
      ensures expectedSequence == Wrap(old(expectedSequence) + 1)
              && expectedSample == Wrap(old(expectedSample) + record.sampleCount.value)
      ensures expectedCodecFrame == Wrap(old(expectedCodecFrame) + record.codecFrames.value)
      ensures finishReason == old(finishReason) && endMetrics == old(endMetrics)
      ensures packets == old(packets) + [record] && log == old(log) + [Packet(record)]
      ensures arrivals == old(arrivals) + [arrival] && payloads == old(payloads) + [part.payload]
              && parts == old(parts) + [part]
    {
      hide NativeStreamState.CountersTrack, Emitted, RecordsFollow, Log, PacketItems, PayloadDigest, TranscribesAll;
      hide Transcribes;
      PayloadTranscribed(record, part, arrival);
      TranscribesMore(packets, parts, arrivals, record, part, arrival);
      RecordsExtend(packets, arrivals, payloads, record, arrival, part.payload, request, t0);
      LogExtends(packets, record);
      AdvanceCounters(record, arrival, part.payload);
      parts := parts + [part];
      finalSeen := record.isFinal == Some(true);
      log := log + [Packet(record)];
    }

    method AdvanceCounters(record: PacketRecord, arrival: Instant, payload: bytes)
      requires CountersTrack() && record.sampleCount.Some? && record.codecFrames.Some?
      modifies this`expectedSequence, this`expectedSample, this`expectedCodecFrame, this`byteOffset, this`firstAudioAt
      modifies this`previousAudioAt, this`audioHashed, this`packets, this`arrivals, this`payloads
      ensures CountersTrack() && packets == old(packets) + [record]
      ensures expectedSequence == Wrap(old(expectedSequence) + 1)
              && expectedSample == Wrap(old(expectedSample) + record.sampleCount.value)
      ensures expectedCodecFrame == Wrap(old(expectedCodecFrame) + record.codecFrames.value)
      ensures arrivals == old(arrivals) + [arrival] && payloads == old(payloads) + [payload]
    {
      hide Flatten, BytesBefore, SamplesBefore, CodecFramesBefore, Wrap;
      if firstAudioAt.None? {
        firstAudioAt := Some(arrival);
      }
      audioHashed := audioHashed + payload;
      FlattenAppend(payloads, payload);
      TotalsExtend(packets, record);
      WrapAdd(|packets|, 1);
      WrapAdd(SamplesBefore(packets, |packets|), record.sampleCount.value);
      WrapAdd(CodecFramesBefore(packets, |packets|), record.codecFrames.value);
      WrapAdd(BytesBefore(packets, |packets|), record.payloadBytes);
      expectedSequence := Wrap(expectedSequence + 1);
      expectedSample := Wrap(expectedSample + record.sampleCount.value);
      expectedCodecFrame := Wrap(expectedCodecFrame + record.codecFrames.value);
      byteOffset := Wrap(byteOffset + record.payloadBytes);
      previousAudioAt := Some(arrival);
      packets := packets + [record];
      arrivals := arrivals + [arrival];
      payloads := payloads + [payload];
    }

    /** A stream is complete only as one start, at least one packet of which only the last is final,
        and one end carrying the true totals. */
    method ValidateComplete() returns (r: Result<(), StreamError>)
      requires Valid()
      ensures r.Ok? <==> startSeen && endSeen && finalSeen
      ensures r.Ok? ==>
                && packets != [] && packets[|packets| - 1].isFinal == Some(true)
                && log == [Start] + PacketItems(packets)
                    + [End(EndMetrics(Some(expectedSequence), Some(expectedSample)))]
    {
      r := if !startSeen || !endSeen || !finalSeen || firstAudioAt.None? then Err(Incomplete) else Ok(());
    }
  }

  lemma PayloadTranscribed(record: PacketRecord, part: Part, arrival: Instant)
    requires Transcribes(record, part, arrival)
    ensures |part.payload| == record.payloadBytes && record.payloadSha256 == PayloadDigest(part.payload)
  {
    hide PayloadDigest, ReadAudioHeader;
  }

  lemma TranscribesMore(packets: seq<PacketRecord>, parts: seq<Part>, arrivals: seq<Instant>, record: PacketRecord,
                        part: Part, arrival: Instant)
    requires TranscribesAll(packets, parts, arrivals) && Transcribes(record, part, arrival)
    ensures TranscribesAll(packets + [record], parts + [part], arrivals + [arrival])
  {
    hide Transcribes;
  }

  /** The records count the frames that their parts announce. */
  lemma {:induction false} FramesTranscribed(packets: seq<PacketRecord>, parts: seq<Part>, arrivals: seq<Instant>,
                                             i: nat)
    requires TranscribesAll(packets, parts, arrivals) && i <= |packets|
    ensures CodecFramesBefore(packets, i) == FramesIn(parts[..i])
  {
    hide ReadAudioHeader, PayloadDigest, Transcribes;
    if i > 0 {
      FramesTranscribed(packets, parts, arrivals, i - 1);
      assert parts[..i][..i - 1] == parts[..i - 1];
      FrameTranscribed(packets[i - 1], parts[i - 1], arrivals[i - 1]);
    }
  }

  lemma FrameTranscribed(record: PacketRecord, part: Part, arrival: Instant)
    requires Transcribes(record, part, arrival)
    ensures OrZero(record.codecFrames) == FramesOf(part)
  {
    hide PayloadDigest, ReadAudioHeader;
  }

  lemma WrapAdd(a: nat, b: nat)
    ensures Wrap(Wrap(a) + b) == Wrap(a + b)
  {
  }

  lemma PayloadDigestIsText(payload: bytes)
    ensures DigestText(PayloadDigest(payload))
  {
    hide Sha256;
    PrintedDigestIsText(if 8 * |payload| < U64_LIMIT then Sha256(payload) else Zeros(32));
  }

  lemma {:induction false} PrefixTotals(packets: seq<PacketRecord>, more: seq<PacketRecord>, i: nat)
    requires i <= |packets|
    ensures BytesBefore(packets + more, i) == BytesBefore(packets, i)
    ensures SamplesBefore(packets + more, i) == SamplesBefore(packets, i)
    ensures CodecFramesBefore(packets + more, i) == CodecFramesBefore(packets, i)
  {
    if i > 0 {
      PrefixTotals(packets, more, i - 1);
    }
  }

  lemma TotalsExtend(packets: seq<PacketRecord>, record: PacketRecord)
    ensures var all, n := packets + [record], |packets|;
            && BytesBefore(all, n + 1) == BytesBefore(packets, n) + record.payloadBytes
            && SamplesBefore(all, n + 1) == SamplesBefore(packets, n) + OrZero(record.sampleCount)
            && CodecFramesBefore(all, n + 1) == CodecFramesBefore(packets, n) + OrZero(record.codecFrames)
  {
    PrefixTotals(packets, [record], |packets|);
  }

  lemma LogExtends(packets: seq<PacketRecord>, record: PacketRecord)
    ensures Log(true, packets + [record], []) == Log(true, packets, []) + [Packet(record)]
  {
    assert PacketItems(packets + [record]) == PacketItems(packets) + [Packet(record)];
  }

  lemma RecordsExtend(
    packets: seq<PacketRecord>, arrivals: seq<Instant>, payloads: seq<bytes>,
    record: PacketRecord, arrival: Instant, payload: bytes, request: Request, t0: Instant)
    requires RecordsFollow(packets, arrivals, payloads, request, t0)
    requires packets != [] ==> packets[|packets| - 1].isFinal != Some(true)
    requires Emitted(packets + [record], arrivals + [arrival], |packets|, request, t0)
    requires |payload| == record.payloadBytes && record.payloadSha256 == PayloadDigest(payload)
    ensures RecordsFollow(packets + [record], arrivals + [arrival], payloads + [payload], request, t0)
  {
    hide PayloadDigest;
    forall i | 0 <= i < |packets|
      ensures Emitted(packets + [record], arrivals + [arrival], i, request, t0)
    {
      assert Emitted(packets, arrivals, i, request, t0);
      PrefixTotals(packets, [record], i);
    }
  }
}
