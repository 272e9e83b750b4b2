/** Packet records, and the independent validator that recomputes every running offset from the records
    alone. */
module PacketValidator {
  import opened Bytes
  import opened Text
  import opened Sorting

  datatype Engine = Native | Sglang

  datatype PacketRecord = PacketRecord(
    requestIndex: nat, workloadId: bytes, engine: Engine, sequence: nat,
    arrivalMs: real, interArrivalMs: Option<real>,
    payloadBytes: nat, payloadSha256: bytes, byteOffset: nat,
    firstCodecFrame: Option<nat>, firstSample: Option<nat>, sampleCount: Option<nat>, codecFrames: Option<nat>,
    isFirst: bool, isFinal: Option<bool>)

  /** Any other reason is kept as such; it is never accepted. */
  datatype FinishReason = Stop | Length | OtherReason(name: string)

  predicate GoodReason(reason: Option<FinishReason>) {
    reason == Some(Stop) || reason == Some(Length)
  }

  /** What a request record says about the response; a failed request has zeros and no reason, and a raw
      stream has no reason. */
  datatype RequestRecord = RequestRecord(
    requestIndex: nat, workloadId: bytes, success: bool, packetCount: nat, ttfaMs: real, samples: nat,
    sampleRateHz: nat, finishReason: Option<FinishReason>)

  /** What a record of a success has to hold. */
  predicate FullyMeasured(r: RequestRecord) {
    r.success ==>
      r.samples > 0 && r.sampleRateHz > 0 && r.ttfaMs >= 0.0
      && (r.finishReason.Some? ==> GoodReason(r.finishReason))
  }

  // ---- Tolerances ----

  function Abs(x: real): real { if x < 0.0 then -x else x }
  function Max(x: real, y: real): real { if x < y then y else x }

  predicate IsClose(a: real, b: real, relative: real, absolute: real) {
    Abs(a - b) <= Max(relative * Max(Abs(a), Abs(b)), absolute)
  }

  predicate CloseEnough(a: real, b: real) {
    IsClose(a, b, 0.000000001, 0.000001)
  }

  /** Two measurements are close if they differ by no more than a millionth, or by no more than a billionth of the
      larger one. */
  lemma CloseIff(a: real, b: real)
    requires a >= 0.0 && b >= 0.0
    ensures var (less, more) := if a < b then (a, b) else (b, a);
            CloseEnough(a, b) <==> 1_000_000.0 * (more - less) <= 1.0 || 1_000_000_000.0 * (more - less) <= more
  {
    assert Abs(a - b) == if a < b then b - a else a - b;
  }

  // ---- The checks on one packet ----

  predicate PacketAccepted(p: PacketRecord, engine: Engine) {
    && p.engine == engine
    && p.arrivalMs >= 0.0 && (p.interArrivalMs.Some? ==> p.interArrivalMs.value >= 0.0)
    && p.payloadBytes >= 1 && DigestText(p.payloadSha256)
    && match engine
       case Native =>
         && p.payloadBytes % 2 == 0
         && p.firstCodecFrame.Some? && p.firstSample.Some? && p.sampleCount.Some? && p.codecFrames.Some?
            && p.isFinal.Some?
         && p.sampleCount.value > 0 && p.codecFrames.value > 0
         && p.sampleCount.value * 2 == p.payloadBytes
       case Sglang =>
         && p.firstCodecFrame.None? && p.codecFrames.None? && p.isFinal.None?
         && (if p.byteOffset % 2 == 0 && p.payloadBytes % 2 == 0
             then p.firstSample == Some(p.byteOffset / 2) && p.sampleCount == Some(p.payloadBytes / 2)
             else p.firstSample.None? && p.sampleCount.None?)
  }

  // ---- The checks on the packets of one request ----

  /** Bytes, samples and codec frames of the first `i` packets. */
  function BytesBefore(group: seq<PacketRecord>, i: nat): nat
    requires i <= |group|
  {
    if i == 0 then 0 else BytesBefore(group, i - 1) + group[i - 1].payloadBytes
  }

  function SamplesBefore(group: seq<PacketRecord>, i: nat): nat
    requires i <= |group|
  {
    if i == 0 then 0 else SamplesBefore(group, i - 1) + OrZero(group[i - 1].sampleCount)
  }

  function CodecFramesBefore(group: seq<PacketRecord>, i: nat): nat
    requires i <= |group|
  {
    if i == 0 then 0 else CodecFramesBefore(group, i - 1) + OrZero(group[i - 1].codecFrames)
  }

  function OrZero(x: Option<nat>): nat {
    match x case None => 0 case Some(n) => n
  }

  /** A packet in its place: contiguous with everything before it. */
  predicate InPlace(group: seq<PacketRecord>, i: nat, request: RequestRecord, engine: Engine)
    requires i < |group|
  {
    var p := group[i];
    && p.sequence == i
    && p.workloadId == request.workloadId
    && p.isFirst == (i == 0)
    && p.byteOffset == BytesBefore(group, i)
    && (i == 0 ==> p.interArrivalMs.None? && CloseEnough(p.arrivalMs, request.ttfaMs))
    && (i > 0 ==>
        && p.arrivalMs >= group[i - 1].arrivalMs
        && p.interArrivalMs.Some? && CloseEnough(p.interArrivalMs.value, p.arrivalMs - group[i - 1].arrivalMs))
    && (engine == Native ==>
        && p.firstSample == Some(SamplesBefore(group, i))
        && p.firstCodecFrame == Some(CodecFramesBefore(group, i))
        && p.isFinal == Some(i == |group| - 1))
  }

  predicate GroupAccepted(group: seq<PacketRecord>, request: RequestRecord, engine: Engine) {
    && |group| == request.packetCount
    && (!request.success ==> group == [])
    && (request.success ==>
        && (forall i | 0 <= i < |group| :: InPlace(group, i, request, engine))
        && BytesBefore(group, |group|) == request.samples * 2
        && (engine == Native ==> SamplesBefore(group, |group|) == request.samples))
  }

  /** The validating loop with its running offsets. */
  method ValidateGroup(group: seq<PacketRecord>, request: RequestRecord, engine: Engine) returns (ok: bool)
    requires forall p | p in group :: PacketAccepted(p, engine)
    ensures ok == GroupAccepted(group, request, engine)
  {
    if |group| != request.packetCount {
      return false;
    }
    if !request.success {
      return group == [];
    }
    var byteOffset: nat, sampleOffset: nat, codecOffset: nat := 0, 0, 0;
    var previousArrival: Option<real> := None;
    for sequence := 0 to |group|
      invariant byteOffset == BytesBefore(group, sequence)
      invariant engine == Native
                ==> sampleOffset == SamplesBefore(group, sequence) && codecOffset == CodecFramesBefore(group, sequence)
      invariant previousArrival == if sequence == 0 then None else Some(group[sequence - 1].arrivalMs)
      invariant forall i | 0 <= i < sequence :: InPlace(group, i, request, engine)
    {
      var packet := group[sequence];
      assert packet in group;
      if !PacketStep(packet, sequence, |group|, request, engine, byteOffset, sampleOffset, codecOffset,
                     previousArrival) {
        assert !InPlace(group, sequence, request, engine);
        return false;
      }
      if engine == Native {
        sampleOffset := sampleOffset + packet.sampleCount.value;
        codecOffset := codecOffset + packet.codecFrames.value;
      }
      byteOffset := byteOffset + packet.payloadBytes;
      previousArrival := Some(packet.arrivalMs);
    }
    ok := byteOffset == request.samples * 2 && (engine == Native ==> sampleOffset == request.samples);
  }

  /** The comparisons of one turn of the loop, in the validator's order. */
  predicate PacketStep(
    packet: PacketRecord, sequence: nat, count: nat, request: RequestRecord, engine: Engine,
    byteOffset: nat, sampleOffset: nat, codecOffset: nat, previousArrival: Option<real>)
  {
    && packet.sequence == sequence
    && packet.workloadId == request.workloadId
    && packet.isFirst == (sequence == 0)
    && packet.byteOffset == byteOffset
    && (match previousArrival
        case None => packet.interArrivalMs.None? && CloseEnough(packet.arrivalMs, request.ttfaMs)
        case Some(previous) =>
          && packet.arrivalMs - previous >= 0.0
          && packet.interArrivalMs.Some? && CloseEnough(packet.interArrivalMs.value, packet.arrivalMs - previous))
    && (engine == Native ==>
        && packet.firstSample == Some(sampleOffset)
        && packet.firstCodecFrame == Some(codecOffset)
        && packet.isFinal == Some(sequence as int == count - 1))
  }

  // ---- Grouping by request ----

  function PacketsOf(packets: seq<PacketRecord>, index: nat): seq<PacketRecord> {
    if packets == [] then []
    else PacketsOf(packets[..|packets| - 1], index) + (if packets[|packets| - 1].requestIndex == index
                                                       then [packets[|packets| - 1]] else [])
  }

  function SequenceNotAfter(a: PacketRecord, b: PacketRecord): bool { a.sequence <= b.sequence }

  function Group(packets: seq<PacketRecord>, index: nat): seq<PacketRecord> {
    Sort(PacketsOf(packets, index), SequenceNotAfter)
  }

  predicate AllGroupsAccepted(packets: seq<PacketRecord>, requests: seq<RequestRecord>, engine: Engine) {
    && (forall p | p in packets :: PacketAccepted(p, engine) && p.requestIndex < |requests|)
    && (forall r | 0 <= r < |requests| :: GroupAccepted(Group(packets, r), requests[r], engine))
  }

  function GroupIn(grouped: map<nat, seq<PacketRecord>>, index: nat): seq<PacketRecord> {
    if index in grouped then grouped[index] else []
  }

  ghost predicate Groups(grouped: map<nat, seq<PacketRecord>>, packets: seq<PacketRecord>) {
    forall r: nat :: GroupIn(grouped, r) == PacketsOf(packets, r)
  }

  lemma {:induction false} GroupMembers(packets: seq<PacketRecord>, index: nat)
    ensures forall p | p in PacketsOf(packets, index) :: p in packets
  {
    if packets != [] {
      GroupMembers(packets[..|packets| - 1], index);
    }
  }

  lemma GroupFromPackets(packets: seq<PacketRecord>, index: nat)
    ensures forall p | p in Group(packets, index) :: p in packets
  {
    hide Sort, PacketsOf;
    GroupMembers(packets, index);
    forall p | p in Group(packets, index)
      ensures p in packets
    {
      assert p in multiset(PacketsOf(packets, index));
    }
  }

  /** The grouping loop; it refuses a packet of an unknown request. */
  method GroupPackets(packets: seq<PacketRecord>, requests: nat) returns (grouped: Option<map<nat, seq<PacketRecord>>>)
    ensures grouped.Some? <==> forall p | p in packets :: p.requestIndex < requests
    ensures grouped.Some? ==> Groups(grouped.value, packets)
  {
    hide Groups;
    var groups: map<nat, seq<PacketRecord>> := map[];
    NoneGrouped();
    for k := 0 to |packets|
      invariant forall i | 0 <= i < k :: packets[i].requestIndex < requests
      invariant Groups(groups, packets[..k])
    {
      var index := packets[k].requestIndex;
      if index >= requests {
        assert packets[k] in packets;
        return None;
      }
      OneGrouped(groups, packets, k);
      groups := groups[index := GroupIn(groups, index) + [packets[k]]];
    }
    assert packets[..|packets|] == packets;
    grouped := Some(groups);
  }

  lemma NoneGrouped()
    ensures Groups(map[], [])
  {
  }

  lemma OneGrouped(groups: map<nat, seq<PacketRecord>>, packets: seq<PacketRecord>, k: nat)
    requires k < |packets| && Groups(groups, packets[..k])
    ensures var own := packets[k].requestIndex; Groups(groups[own := GroupIn(groups, own) + [packets[k]]],
                                                       packets[..k + 1])
  {
    var own := packets[k].requestIndex;
    var more := groups[own := GroupIn(groups, own) + [packets[k]]];
    forall r: nat
      ensures GroupIn(more, r) == PacketsOf(packets[..k + 1], r)
    {
      assert packets[..k + 1][..k] == packets[..k];
      assert GroupIn(groups, r) == PacketsOf(packets[..k], r);
    }
  }

  /** Checks every packet, groups them by request, and checks every group. */
  method ValidateRun(packets: seq<PacketRecord>, requests: seq<RequestRecord>, engine: Engine) returns (ok: bool)
    ensures ok == AllGroupsAccepted(packets, requests, engine)
  {
    hide PacketAccepted, GroupAccepted, Sort, PacketsOf, GroupIn;
    if exists p | p in packets :: !PacketAccepted(p, engine) {
      return false;
    }
    var grouped := GroupPackets(packets, |requests|);
    if grouped.None? {
      return false;
    }
    for r := 0 to |requests|
      invariant forall i | 0 <= i < r :: GroupAccepted(Group(packets, i), requests[i], engine)
    {
      var group := Sort(GroupIn(grouped.value, r), SequenceNotAfter);
      GroupFromPackets(packets, r);
      ok := ValidateGroup(group, requests[r], engine);
      if !ok {
        return;
      }
    }
    ok := true;
  }

  lemma {:induction false} PacketsOfConcat(a: seq<PacketRecord>, b: seq<PacketRecord>, index: nat)
    ensures PacketsOf(a + b, index) == PacketsOf(a, index) + PacketsOf(b, index)
  {
    if b == [] {
      assert a + b == a;
    } else {
      assert (a + b)[..|a + b| - 1] == a + b[..|b| - 1];
      PacketsOfConcat(a, b[..|b| - 1], index);
    }
  }

  lemma {:induction false} PacketsOfUniform(packets: seq<PacketRecord>, own: nat, index: nat)
    requires forall p | p in packets :: p.requestIndex == own
    ensures PacketsOf(packets, index) == if own == index then packets else []
  {
    if packets != [] {
      PacketsOfUniform(packets[..|packets| - 1], own, index);
      assert packets == packets[..|packets| - 1] + [packets[|packets| - 1]];
    }
  }

  /** What one request contributed to a run. */
  datatype Outcome = Outcome(request: RequestRecord, packets: seq<PacketRecord>)

  /** The outcome of request `index`: labelled with it throughout, the packets individually acceptable
      and numbered in order. */
  predicate WellLabelled(outcome: Outcome, index: nat, engine: Engine) {
    && outcome.request.requestIndex == index
    && (forall p | p in outcome.packets :: p.requestIndex == index && PacketAccepted(p, engine))
    && Numbered(outcome.packets)
  }

  predicate Numbered(packets: seq<PacketRecord>) {
    forall i | 0 <= i < |packets| :: packets[i].sequence == i
  }

  function AllPackets(outcomes: seq<Outcome>): seq<PacketRecord> {
    if outcomes == [] then [] else AllPackets(outcomes[..|outcomes| - 1]) + outcomes[|outcomes| - 1].packets
  }

  function AllRequests(outcomes: seq<Outcome>): (r: seq<RequestRecord>)
    ensures |r| == |outcomes|
  {
    seq(|outcomes|, i requires 0 <= i < |outcomes| => outcomes[i].request)
  }

  lemma NoPackets(index: nat)
    ensures PacketsOf([], index) == []
  {
  }

  lemma {:induction false} GroupsAreOutcomes(outcomes: seq<Outcome>, n: nat, index: nat, engine: Engine)
    requires n <= |outcomes|
    requires forall i | 0 <= i < |outcomes| :: WellLabelled(outcomes[i], i, engine)
    ensures PacketsOf(AllPackets(outcomes[..n]), index) == if index < n then outcomes[index].packets else []
  {
    hide PacketAccepted, PacketsOf;
    if n == 0 {
      NoPackets(index);
    } else {
      GroupsAreOutcomes(outcomes, n - 1, index, engine);
      assert WellLabelled(outcomes[n - 1], n - 1, engine);
      assert outcomes[..n][..n - 1] == outcomes[..n - 1];
      PacketsOfConcat(AllPackets(outcomes[..n - 1]), outcomes[n - 1].packets, index);
      PacketsOfUniform(outcomes[n - 1].packets, n - 1, index);
    }
  }

  lemma {:induction false} AllPacketsComeFromOutcomes(outcomes: seq<Outcome>, p: PacketRecord)
    requires p in AllPackets(outcomes)
    ensures exists i | 0 <= i < |outcomes| :: p in outcomes[i].packets
  {
    var last := outcomes[|outcomes| - 1];
    if p !in last.packets {
      AllPacketsComeFromOutcomes(outcomes[..|outcomes| - 1], p);
    }
  }

  lemma GroupIsOutcome(outcomes: seq<Outcome>, r: nat, engine: Engine)
    requires r < |outcomes| && forall i | 0 <= i < |outcomes| :: WellLabelled(outcomes[i], i, engine)
    ensures Group(AllPackets(outcomes), r) == outcomes[r].packets
  {
    GroupsAreOutcomes(outcomes, |outcomes|, r, engine);
    assert outcomes[..|outcomes|] == outcomes;
    assert WellLabelled(outcomes[r], r, engine);
    SortedIsFixed(outcomes[r].packets, SequenceNotAfter);
  }

  lemma {:induction false} EveryPacketAccepted(outcomes: seq<Outcome>, p: PacketRecord, engine: Engine)
    requires p in AllPackets(outcomes) && forall i | 0 <= i < |outcomes| :: WellLabelled(outcomes[i], i, engine)
    ensures PacketAccepted(p, engine) && p.requestIndex < |outcomes|
  {
    AllPacketsComeFromOutcomes(outcomes, p);
    var i :| 0 <= i < |outcomes| && p in outcomes[i].packets;
    assert WellLabelled(outcomes[i], i, engine);
  }

  /** Regrouping the packets of a whole run by request gives every request its own packets back, so
      the run is accepted exactly when each outcome is. */
  lemma RunAcceptedIff(outcomes: seq<Outcome>, engine: Engine)
    requires forall i | 0 <= i < |outcomes| :: WellLabelled(outcomes[i], i, engine)
    ensures AllGroupsAccepted(AllPackets(outcomes), AllRequests(outcomes), engine)
       <==> forall i | 0 <= i < |outcomes| :: GroupAccepted(outcomes[i].packets, outcomes[i].request, engine)
  {
    hide WellLabelled, GroupAccepted, Group, PacketAccepted, AllPackets;
    forall r | 0 <= r < |outcomes|
      ensures Group(AllPackets(outcomes), r) == outcomes[r].packets
    {
      GroupIsOutcome(outcomes, r, engine);
    }
    forall p | p in AllPackets(outcomes)
      ensures PacketAccepted(p, engine) && p.requestIndex < |outcomes|
    {
      EveryPacketAccepted(outcomes, p, engine);
    }
    assert forall r | 0 <= r < |outcomes| :: AllRequests(outcomes)[r] == outcomes[r].request;
  }
}
