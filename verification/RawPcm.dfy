/** The raw PCM handler: transport arrivals become records whose sample fields are filled in only when
    the arrival is aligned to samples, and the validator accepts all of them. */
module RawPcm {
  import opened Bytes
  import opened Text
  import opened TimedBuffers
  import opened Http
  import opened PacketValidator
  import opened NativeStream
  import opened Runner
  import HttpHead

  /** Arrivals of one read that were delivered in pieces are joined again. */
  function Coalesce(chunks: seq<TimedBytes>, segment: TimedBytes): seq<TimedBytes> {
    if segment.bytes == [] then chunks
    else if chunks != [] && chunks[|chunks| - 1].arrived == segment.arrived
    then chunks[..|chunks| - 1] + [TimedBytes(chunks[|chunks| - 1].bytes + segment.bytes, segment.arrived)]
    else chunks + [segment]
  }

  /** No empty chunk, and neighbours arrived at different times. */
  predicate Coalesced(chunks: seq<TimedBytes>) {
    && (forall i | 0 <= i < |chunks| :: chunks[i].bytes != [])
    && (forall i | 0 < i < |chunks| :: chunks[i - 1].arrived != chunks[i].arrived)
  }

  lemma StampConcat(a: bytes, b: bytes, at: Instant)
    ensures Stamp(a + b, at) == Stamp(a, at) + Stamp(b, at)
  {
  }

  lemma JoinedKeeps(front: seq<TimedBytes>, last: TimedBytes, more: bytes)
    ensures FlatWire(front + [TimedBytes(last.bytes + more, last.arrived)])
            == FlatWire(front + [last]) + Stamp(more, last.arrived)
  {
    hide FlatWire;
    FlatWireAppend(front, last);
    FlatWireAppend(front, TimedBytes(last.bytes + more, last.arrived));
    StampConcat(last.bytes, more, last.arrived);
  }

  lemma CoalesceKeeps(chunks: seq<TimedBytes>, segment: TimedBytes)
    requires Coalesced(chunks)
    ensures Coalesced(Coalesce(chunks, segment))
    ensures FlatWire(Coalesce(chunks, segment)) == FlatWire(chunks) + Stamp(segment.bytes, segment.arrived)
  {
    hide FlatWire;
    if segment.bytes == [] {
      assert Stamp(segment.bytes, segment.arrived) == [];
    } else if chunks != [] && chunks[|chunks| - 1].arrived == segment.arrived {
      var front, last := chunks[..|chunks| - 1], chunks[|chunks| - 1];
      assert chunks == front + [last];
      JoinedKeeps(front, last, segment.bytes);
    } else {
      FlatWireAppend(chunks, segment);
    }
  }

  /** The reading loop: the chunks are the payload, cut only where the arrival time changes. */
  method CollectChunks(body: HttpBody) returns (r: Result<seq<TimedBytes>, HttpError>)
    requires body.Ready()
    modifies body.raw, body`wire, body`responseBytes, body`eof, body`transfer
    ensures match old(body.Remaining()).end
            case Complete(_) => r.Ok? && Coalesced(r.value) && FlatWire(r.value) == old(body.Remaining()).payload
            case Broken(e) => r == Err(e)
  {
    hide Decode, Ends, Coalesce, Coalesced, FlatWire;
    ghost var whole := body.Remaining();
    var chunks: seq<TimedBytes> := [];
    NoChunks();
    AfterNothing(whole);
    while true
      invariant body.Ready() && Coalesced(chunks)
      invariant whole == body.Remaining().After(FlatWire(chunks))
      decreases |body.Remaining().payload|
    {
      var next := body.NextSegment();
      if next.Err? {
        return Err(next.error);
      }
      if next.value.None? {
        return Ok(chunks);
      }
      var segment := next.value.value;
      CoalesceKeeps(chunks, segment);
      AfterTwice(body.Remaining(), FlatWire(chunks), Stamp(segment.bytes, segment.arrived));
      chunks := Coalesce(chunks, segment);
    }
  }

  lemma NoChunks()
    ensures Coalesced([]) && FlatWire([]) == []
  {
  }

  /** Bytes in the first `i` chunks. */
  function ChunkBytesBefore(chunks: seq<TimedBytes>, i: nat): nat
    requires i <= |chunks|
  {
    if i == 0 then 0 else ChunkBytesBefore(chunks, i - 1) + |chunks[i - 1].bytes|
  }

  /** Model-level fields stay empty; sample fields are present exactly for aligned arrivals. */
  predicate SampleFieldsAligned(p: PacketRecord) {
    && p.firstCodecFrame.None? && p.codecFrames.None? && p.isFinal.None?
    && (if p.byteOffset % 2 == 0 && p.payloadBytes % 2 == 0
        then p.firstSample == Some(p.byteOffset / 2) && p.sampleCount == Some(p.payloadBytes / 2)
        else p.firstSample.None? && p.sampleCount.None?)
  }

  /** What the record of chunk `i` must say. */
  predicate Describes(p: PacketRecord, chunks: seq<TimedBytes>, i: nat, request: Request, t0: Instant)
    requires i < |chunks|
  {
    && p.requestIndex == request.index && p.workloadId == request.workloadId && p.engine == Sglang
    && p.sequence == i && p.isFirst == (i == 0)
    && p.arrivalMs == Milliseconds(Since(chunks[i].arrived, t0))
    && p.interArrivalMs == (if i == 0 then None
                            else Some(Milliseconds(Since(chunks[i].arrived, chunks[i - 1].arrived))))
    && p.payloadBytes == |chunks[i].bytes| && p.payloadSha256 == PayloadDigest(chunks[i].bytes)
    && p.byteOffset == ChunkBytesBefore(chunks, i)
    && SampleFieldsAligned(p)
  }

  /** The loop that writes one record per chunk with its running byte offset. */
  method RecordChunks(chunks: seq<TimedBytes>, request: Request, t0: Instant) returns (packets: seq<PacketRecord>)
    ensures |packets| == |chunks| && forall i | 0 <= i < |packets| :: Describes(packets[i], chunks, i, request, t0)
  {
    packets := [];
    var byteOffset: nat := 0;
    var previousAt: Option<Instant> := None;
    for sequence := 0 to |chunks|
      invariant |packets| == sequence && byteOffset == ChunkBytesBefore(chunks, sequence)
      invariant previousAt == if sequence == 0 then None else Some(chunks[sequence - 1].arrived)
      invariant forall i | 0 <= i < sequence :: Describes(packets[i], chunks, i, request, t0)
    {
      var packet := RecordChunk(chunks, sequence, byteOffset, previousAt, request, t0);
      hide Describes;
      packets := packets + [packet];
      byteOffset := byteOffset + |chunks[sequence].bytes|;
      previousAt := Some(chunks[sequence].arrived);
    }
  }

  method RecordChunk(chunks: seq<TimedBytes>, sequence: nat, byteOffset: nat, previousAt: Option<Instant>,
                     request: Request, t0: Instant)
    returns (packet: PacketRecord)
    requires sequence < |chunks| && byteOffset == ChunkBytesBefore(chunks, sequence)
    requires previousAt == if sequence == 0 then None else Some(chunks[sequence - 1].arrived)
    ensures Describes(packet, chunks, sequence, request, t0)
  {
    hide PayloadDigest, Milliseconds;
    var chunk := chunks[sequence];
    var payloadBytes := |chunk.bytes|;
    var aligned := byteOffset % 2 == 0 && payloadBytes % 2 == 0;
    packet := PacketRecord(
      request.index, request.workloadId, Sglang, sequence,
      Milliseconds(Since(chunk.arrived, t0)),
      match previousAt case None => None case Some(previous) => Some(Milliseconds(Since(chunk.arrived, previous))),
      payloadBytes, PayloadDigest(chunk.bytes), byteOffset,
      None, if aligned then Some(byteOffset / 2) else None, if aligned then Some(payloadBytes / 2) else None, None,
      sequence == 0, None);
  }

  // ---- The validator accepts every raw response ----

  lemma {:induction false} ChunkTotals(packets: seq<PacketRecord>, chunks: seq<TimedBytes>, i: nat, request: Request,
                                       t0: Instant)
    requires i <= |packets| == |chunks|
    requires forall k | 0 <= k < |packets| :: Describes(packets[k], chunks, k, request, t0)
    ensures BytesBefore(packets, i) == ChunkBytesBefore(chunks, i)
  {
    hide Milliseconds, PayloadDigest, SampleFieldsAligned, Since;
    if i > 0 {
      ChunkTotals(packets, chunks, i - 1, request, t0);
      assert Describes(packets[i - 1], chunks, i - 1, request, t0);
    }
  }

  lemma {:induction false} ChunkBytesAreFlat(chunks: seq<TimedBytes>, i: nat)
    requires i <= |chunks|
    ensures ChunkBytesBefore(chunks, i) == |FlatWire(chunks[..i])|
  {
    if i > 0 {
      ChunkBytesAreFlat(chunks, i - 1);
      assert chunks[..i] == chunks[..i - 1] + [chunks[i - 1]];
      FlatWireAppend(chunks[..i - 1], chunks[i - 1]);
    }
  }

  lemma RawInPlace(packets: seq<PacketRecord>, chunks: seq<TimedBytes>, i: nat, record: RequestRecord, request: Request,
                   t0: Instant)
    requires i < |packets| == |chunks| && Coalesced(chunks) && OrderedWire(chunks, t0)
    requires forall k | 0 <= k < |packets| :: Describes(packets[k], chunks, k, request, t0)
    requires record.workloadId == request.workloadId && record.ttfaMs == Milliseconds(Since(chunks[0].arrived, t0))
    ensures PacketAccepted(packets[i], Sglang) && InPlace(packets, i, record, Sglang)
  {
    hide CloseEnough, Milliseconds, Since, PayloadDigest, DigestText, ChunkBytesBefore, BytesBefore, Coalesced;
    assert Describes(packets[i], chunks, i, request, t0);
    ChunkTotals(packets, chunks, i, request, t0);
    PayloadDigestIsText(chunks[i].bytes);
    Elapsed(chunks[i].arrived, t0);
    NotEmpty(chunks, i);
    SameIsClose(packets[i].arrivalMs);
    if i > 0 {
      assert Describes(packets[i - 1], chunks, i - 1, request, t0);
      MillisecondsDiffer(chunks[i - 1].arrived, chunks[i].arrived, t0);
      SameIsClose(packets[i].interArrivalMs.value);
    }
  }

  lemma NotEmpty(chunks: seq<TimedBytes>, i: nat)
    requires Coalesced(chunks) && i < |chunks|
    ensures |chunks[i].bytes| >= 1
  {
  }

  const MAX_SAMPLE_RATE_HZ: nat := 768_000

  /** The sample rate that a response declares: the header if there is one, otherwise the parameter. */
  function DeclaredRate(headers: Headers, contentType: bytes): Option<nat> {
    var text := if Ascii8("x-sample-rate") in headers then Some(headers[Ascii8("x-sample-rate")])
        else Parameter(contentType, "rate");
    match text case None => None case Some(value) => ParseUnsigned(value, 10, U64_LIMIT)
  }

  /** The head announces raw PCM at a rate that can be reported. */
  predicate AnnouncesRawPcm(headers: Headers) {
    && Ascii8("content-type") in headers
    && var contentType := headers[Ascii8("content-type")];
       && (MediaTypeIs(contentType, "audio/pcm") || MediaTypeIs(contentType, "application/octet-stream"))
       && DeclaredRate(headers, contentType).Some?
       && 0 < DeclaredRate(headers, contentType).value <= MAX_SAMPLE_RATE_HZ
  }

  /** The rate of a response that announces raw PCM. */
  function RateOf(headers: Headers): (rate: nat)
    ensures AnnouncesRawPcm(headers) ==> rate > 0
  {
    if AnnouncesRawPcm(headers) then DeclaredRate(headers, headers[Ascii8("content-type")]).value else 0
  }

  /** The body is whole and holds exactly this positive and reportable number of samples. */
  predicate CarriesSamples(decoded: Decoded, samples: nat) {
    decoded.end.Complete? && |decoded.payload| == 2 * samples && 0 < samples <= MAX_REPORTABLE_SAMPLES
  }

  /** The outcome is made of this payload: cut where the arrival time changes, one record for each piece with
      its place, length, digest and arrival, and a request record with the totals. */
  ghost predicate TellsRaw(o: Outcome, payload: seq<TimedByte>, rate: nat, request: Request, t0: Instant) {
    exists chunks :: Coalesced(chunks) && FlatWire(chunks) == payload && DescribesAll(o, chunks, rate, request, t0)
  }

  ghost predicate DescribesAll(o: Outcome, chunks: seq<TimedBytes>, rate: nat, request: Request, t0: Instant) {
    && |o.packets| == |chunks| && RawRecord(o.request, chunks, rate, request, t0)
    && forall i | 0 <= i < |chunks| :: Describes(o.packets[i], chunks, i, request, t0)
  }

  /** There is only one way to cut a payload where its arrival time changes. */
  lemma {:induction false} CoalescedUnique(a: seq<TimedBytes>, b: seq<TimedBytes>)
    requires Coalesced(a) && Coalesced(b) && FlatWire(a) == FlatWire(b)
    ensures a == b
  {
    EmptyOnly(a);
    EmptyOnly(b);
    if a != [] {
      NotEmpty(a, 0);
      NotEmpty(b, 0);
      FrontNotLonger(a, b);
      FrontNotLonger(b, a);
      SameFront(a, b);
      TailCoalesced(a);
      TailCoalesced(b);
      CoalescedUnique(a[1..], b[1..]);
      assert a == [a[0]] + a[1..] && b == [b[0]] + b[1..];
    }
  }

  lemma EmptyOnly(a: seq<TimedBytes>)
    requires Coalesced(a)
    ensures FlatWire(a) == [] <==> a == []
  {
  }

  /** Behind the first piece the arrival time changes. */
  lemma {:induction false} BehindFront(a: seq<TimedBytes>)
    requires Coalesced(a) && a != [] && |FlatWire(a)| > |a[0].bytes|
    ensures FlatWire(a)[|a[0].bytes|].at != a[0].arrived
  {
    var n := |a[0].bytes|;
    assert FlatWire(a) == Stamp(a[0].bytes, a[0].arrived) + FlatWire(a[1..]);
    NotEmpty(a, 1);
    assert FlatWire(a[1..]) == Stamp(a[1].bytes, a[1].arrived) + FlatWire(a[1..][1..]);
    assert FlatWire(a)[n] == FlatWire(a[1..])[0];
  }

  lemma TailCoalesced(a: seq<TimedBytes>)
    requires Coalesced(a) && a != []
    ensures Coalesced(a[1..])
  {
  }

  /** The first piece of one cut does not go on behind a change of the arrival time. */
  lemma {:induction false} FrontNotLonger(a: seq<TimedBytes>, b: seq<TimedBytes>)
    requires Coalesced(a) && Coalesced(b) && FlatWire(a) == FlatWire(b) && a != [] && b != []
    ensures |a[0].bytes| >= |b[0].bytes|
  {
    var n := |a[0].bytes|;
    NotEmpty(a, 0);
    NotEmpty(b, 0);
    var flat := FlatWire(a);
    assert flat == Stamp(a[0].bytes, a[0].arrived) + FlatWire(a[1..])
           && flat == Stamp(b[0].bytes, b[0].arrived) + FlatWire(b[1..]);
    assert flat[0].at == a[0].arrived == b[0].arrived;
    if n < |b[0].bytes| {
      assert flat[n].at == b[0].arrived;
      BehindFront(a);
    }
  }

  lemma {:induction false} SameFront(a: seq<TimedBytes>, b: seq<TimedBytes>)
    requires FlatWire(a) == FlatWire(b) && a != [] && b != [] && |a[0].bytes| == |b[0].bytes| > 0
    ensures a[0] == b[0] && FlatWire(a[1..]) == FlatWire(b[1..])
  {
    var x, y := Stamp(a[0].bytes, a[0].arrived), Stamp(b[0].bytes, b[0].arrived);
    assert FlatWire(a) == x + FlatWire(a[1..]) && FlatWire(b) == y + FlatWire(b[1..]);
    assert x == (x + FlatWire(a[1..]))[..|x|] && y == (y + FlatWire(b[1..]))[..|x|];
    assert FlatWire(a[1..]) == (x + FlatWire(a[1..]))[|x|..] && FlatWire(b[1..]) == (y + FlatWire(b[1..]))[|x|..];
    assert x[0].at == y[0].at;
    assert Plain(x) == a[0].bytes by { PlainStamp(a[0].bytes, a[0].arrived); }
    assert Plain(y) == b[0].bytes by { PlainStamp(b[0].bytes, b[0].arrived); }
  }

  /** Parses a whole raw response. It succeeds exactly if its head announces raw PCM and its body is a
      reportable whole number of samples, and then the validator accepts its records, whatever the
      alignment of the arrivals. */
  method ParseSglangRaw(head: HttpHead.ResponseHead, body: HttpBody, request: Request, t0: Instant)
    returns (r: Option<Outcome>)
    requires body.Ready() && Ordered(body.Remaining().payload, t0)
    modifies body.raw, body`wire, body`responseBytes, body`eof, body`transfer
    ensures r.Some? ==>
              && AnnouncesRawPcm(head.headers) && CarriesSamples(old(body.Remaining()), r.value.request.samples)
              && TellsRaw(r.value, old(body.Remaining()).payload, RateOf(head.headers), request, t0)
                 && WellLabelled(r.value, request.index, Sglang)
              && GroupAccepted(r.value.packets, r.value.request, Sglang)
    ensures r.None? ==> forall n :: !(AnnouncesRawPcm(head.headers) && CarriesSamples(old(body.Remaining()), n))
  {
    hide Decode, Ends, Coalesced, Ordered, Describes, WellLabelled, GroupAccepted, AnnouncesRawPcm;
    ghost var payload := body.Remaining().payload;
    if !AnnouncesRawPcm(head.headers) {
      return None;
    }
    var collected := CollectChunks(body);
    if collected.Err? {
      return None;
    }
    var chunks := collected.value;
    ChunkBytesAreFlat(chunks, |chunks|);
    assert chunks[..|chunks|] == chunks;
    var totalBytes := ChunkBytesBefore(chunks, |chunks|);
    if totalBytes == 0 || totalBytes % 2 != 0 || totalBytes / 2 > MAX_REPORTABLE_SAMPLES {
      return None;
    }
    ChunksAreOrdered(chunks, t0);
    var packets := RecordChunks(chunks, request, t0);
    var record := RequestRecord(
      request.index, request.workloadId, true, |chunks|, Milliseconds(Since(chunks[0].arrived, t0)), totalBytes / 2,
      RateOf(head.headers), None);
    RawGroupAccepted(packets, chunks, record, RateOf(head.headers), request, t0);
    r := Some(Outcome(record, packets));
    assert DescribesAll(r.value, chunks, RateOf(head.headers), request, t0);
  }

  lemma {:induction false} ChunkInFlat(chunks: seq<TimedBytes>, i: nat)
    requires i < |chunks| && Coalesced(chunks)
    ensures exists k | 0 <= k < |FlatWire(chunks)| ::
              k == |FlatWire(chunks[..i])| && FlatWire(chunks)[k].at == chunks[i].arrived
  {
    var front, back := chunks[..i], chunks[i..];
    assert chunks == front + back;
    FlatWireConcat(front, back);
    var stamped := Stamp(back[0].bytes, back[0].arrived);
    assert FlatWire(back) == stamped + FlatWire(back[1..]);
    var k := |FlatWire(front)|;
    assert FlatWire(chunks)[k] == FlatWire(back)[0] == stamped[0];
  }

  lemma {:induction false} FlatWireConcat(a: Wire, b: Wire)
    ensures FlatWire(a + b) == FlatWire(a) + FlatWire(b)
  {
    if a == [] {
      assert a + b == b;
    } else {
      assert (a + b)[1..] == a[1..] + b;
      FlatWireConcat(a[1..], b);
    }
  }

  lemma {:induction false} PrefixLengths(chunks: seq<TimedBytes>, i: nat, j: nat)
    requires i < j <= |chunks| && Coalesced(chunks)
    ensures |FlatWire(chunks[..i])| < |FlatWire(chunks[..j])|
  {
    assert chunks[..j] == chunks[..i] + chunks[i..j];
    FlatWireConcat(chunks[..i], chunks[i..j]);
    assert FlatWire(chunks[i..j]) == Stamp(chunks[i].bytes, chunks[i].arrived) + FlatWire(chunks[i..j][1..]);
  }

  lemma ChunksAreOrdered(chunks: seq<TimedBytes>, t0: Instant)
    requires Coalesced(chunks) && Ordered(FlatWire(chunks), t0)
    ensures OrderedWire(chunks, t0)
  {
    forall i | 0 <= i < |chunks|
      ensures t0 <= chunks[i].arrived
    {
      ChunkInFlat(chunks, i);
    }
    forall i, j | 0 <= i < j < |chunks|
      ensures chunks[i].arrived <= chunks[j].arrived
    {
      ChunkInFlat(chunks, i);
      ChunkInFlat(chunks, j);
      PrefixLengths(chunks, i, j);
    }
  }

  /** The request record of a raw response. */
  predicate RawRecord(record: RequestRecord, chunks: seq<TimedBytes>, rate: nat, request: Request, t0: Instant) {
    && chunks != [] && ChunkBytesBefore(chunks, |chunks|) % 2 == 0
    && record.requestIndex == request.index && record.workloadId == request.workloadId && record.success
       && record.packetCount == |chunks|
    && record.ttfaMs == Milliseconds(Since(chunks[0].arrived, t0))
       && record.samples * 2 == ChunkBytesBefore(chunks, |chunks|)
    && record.sampleRateHz == rate && record.finishReason == None
  }

  lemma RawGroupAccepted(packets: seq<PacketRecord>, chunks: seq<TimedBytes>, record: RequestRecord, rate: nat,
                         request: Request, t0: Instant)
    requires |packets| == |chunks| && Coalesced(chunks) && OrderedWire(chunks, t0)
             && RawRecord(record, chunks, rate, request, t0)
    requires forall k | 0 <= k < |packets| :: Describes(packets[k], chunks, k, request, t0)
    ensures WellLabelled(Outcome(record, packets), request.index, Sglang) && GroupAccepted(packets, record, Sglang)
  {
    hide InPlace, PacketAccepted, Coalesced, OrderedWire, Describes;
    forall i | 0 <= i < |packets|
      ensures PacketAccepted(packets[i], Sglang) && InPlace(packets, i, record, Sglang)
      ensures LabelledAs(packets[i], i, request)
    {
      RawInPlace(packets, chunks, i, record, request, t0);
      DescribedIsNumbered(packets[i], chunks, i, request, t0);
    }
    ChunkTotals(packets, chunks, |packets|, request, t0);
    RawLabelled(packets, record, request);
  }

  lemma RawLabelled(packets: seq<PacketRecord>, record: RequestRecord, request: Request)
    requires record.requestIndex == request.index
    requires forall i | 0 <= i < |packets| :: PacketAccepted(packets[i], Sglang) && LabelledAs(packets[i], i, request)
    ensures WellLabelled(Outcome(record, packets), request.index, Sglang)
  {
    hide PacketAccepted;
  }

  predicate LabelledAs(p: PacketRecord, i: nat, request: Request) {
    p.sequence == i && p.requestIndex == request.index
  }

  lemma DescribedIsNumbered(p: PacketRecord, chunks: seq<TimedBytes>, i: nat, request: Request, t0: Instant)
    requires i < |chunks| && Describes(p, chunks, i, request, t0)
    ensures LabelledAs(p, i, request)
  {
  }
}
