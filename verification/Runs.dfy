/** A measured phase from its connections to the written reports: batches of requests, the records and
    packets they leave, and the independent validator over what was written. */
module Runs {
  import opened Bytes
  import opened Http
  import opened PacketValidator
  import opened NativeStream
  import opened Responses
  import opened Runner
  import opened Sorting
  import opened PhaseSummary
  import opened SummaryMeaning
  import opened SummaryValidator
  import opened Text

  /** A request of the phase: its sampling parameters, its connection, if one was made, whether its task was
      cut short by the time limit or a failure of the runtime, and how long it took. */
  datatype Attempt = Attempt(
    request: Request, sampling: Sampling, stream: bool, connection: Option<Wire>, interrupted: bool, t0: Instant,
        wallMs: real)

  ghost predicate Attemptable(a: Attempt) {
    && (a.connection.Some? ==> Sane(a.connection.value, a.t0))
    && DigestText(a.sampling.sha256) && a.wallMs >= 0.0
  }

  /** What the connection of an attempt answers, unless there is none or the task was cut short. */
  ghost function AnswerTo(a: Attempt): Option<Answer> {
    if a.connection.None? || a.interrupted then None else AnswerOf(a.connection.value)
  }

  /** The outcome that an attempt leaves: what its answer reads as, or a failure. */
  ghost predicate Leaves(a: Attempt, engine: Engine, parseEvent: bytes -> Option<JsonEvent>, o: Outcome) {
    Concludes(o, engine, a.stream, AnswerTo(a), parseEvent, a.request, a.t0)
  }

  /** Whatever the answer reads as is verifiable. */
  ghost predicate AnswersVerifiably(a: Attempt, engine: Engine, parseEvent: bytes -> Option<JsonEvent>) {
    forall reading | ReadsAs(engine, a.stream, AnswerTo(a), parseEvent, reading) :: Verifiable(reading)
  }

  /** Outcome `k` is that of attempt `order[k]`. */
  ghost predicate Collected(attempts: seq<Attempt>, engine: Engine, parseEvent: bytes -> Option<JsonEvent>,
                            order: seq<nat>, outcomes: seq<Outcome>) {
    && |order| == |outcomes|
    && forall k | 0 <= k < |order| ::
         order[k] < |attempts| && Leaves(attempts[order[k]], engine, parseEvent, outcomes[k])
  }

  /** The positions `start` to `end`, each once, in any order. */
  ghost predicate EachOnce(order: seq<nat>, start: nat, end: nat) {
    multiset(Range(start)) + multiset(order) == multiset(Range(end))
  }

  /** Each of the attempts `start` to `end` has exactly one outcome here, in some order. */
  ghost predicate OneEach(attempts: seq<Attempt>, start: nat, end: nat, engine: Engine,
                          parseEvent: bytes -> Option<JsonEvent>, outcomes: seq<Outcome>) {
    exists order :: EachOnce(order, start, end) && Collected(attempts, engine, parseEvent, order, outcomes)
  }

  lemma AllOnce(order: seq<nat>, end: nat)
    requires EachOnce(order, 0, end)
    ensures multiset(order) == multiset(Range(end))
  {
    assert Range(0) == [];
    assert multiset(order) == multiset(Range(0)) + multiset(order);
  }

  lemma OnceInTurn(order: seq<nat>, more: seq<nat>, start: nat, middle: nat, end: nat)
    requires EachOnce(order, start, middle) && EachOnce(more, middle, end)
    ensures EachOnce(order + more, start, end)
  {
    hide Range;
    assert multiset(order + more) == multiset(order) + multiset(more);
  }

  lemma CollectedInTurn(attempts: seq<Attempt>, engine: Engine, parseEvent: bytes -> Option<JsonEvent>,
                        order: seq<nat>, more: seq<nat>, earlier: seq<Outcome>, later: seq<Outcome>)
    requires Collected(attempts, engine, parseEvent, order, earlier)
             && Collected(attempts, engine, parseEvent, more, later)
    ensures Collected(attempts, engine, parseEvent, order + more, earlier + later)
  {
    hide Leaves;
  }

  lemma NoneEach(attempts: seq<Attempt>, engine: Engine, parseEvent: bytes -> Option<JsonEvent>)
    ensures OneEach(attempts, 0, 0, engine, parseEvent, [])
  {
    NoneCollected(attempts, engine, parseEvent);
    assert EachOnce([], 0, 0);
  }

  lemma EachInTurn(attempts: seq<Attempt>, start: nat, middle: nat, end: nat, engine: Engine,
                   parseEvent: bytes -> Option<JsonEvent>,
                   earlier: seq<Outcome>, later: seq<Outcome>)
    requires OneEach(attempts, start, middle, engine, parseEvent, earlier)
             && OneEach(attempts, middle, end, engine, parseEvent, later)
    ensures OneEach(attempts, start, end, engine, parseEvent, earlier + later)
  {
    hide EachOnce, Collected;
    var order :| EachOnce(order, start, middle) && Collected(attempts, engine, parseEvent, order, earlier);
    var more :| EachOnce(more, middle, end) && Collected(attempts, engine, parseEvent, more, later);
    OnceInTurn(order, more, start, middle, end);
    CollectedInTurn(attempts, engine, parseEvent, order, more, earlier, later);
  }

  // ---- One batch ----

  method ExecuteAttempt(a: Attempt, engine: Engine, parseEvent: bytes -> Option<JsonEvent>) returns (o: Outcome)
    requires Attemptable(a) && a.connection.Some?
    ensures Leaves(a, engine, parseEvent, o)
  {
    hide Recounts, ReadsAs, AnswerOf, Sane;
    if a.interrupted {
      NothingRead(engine, a.stream, parseEvent);
      return FailedOutcome(a.request);
    }
    o := ExecuteConnected(engine, a.request, a.stream, a.connection.value, a.t0, parseEvent);
  }

  lemma NothingRead(engine: Engine, stream: bool, parseEvent: bytes -> Option<JsonEvent>)
    ensures forall any :: !ReadsAs(engine, stream, None, parseEvent, any)
  {
  }

  lemma UnconnectedLeaves(a: Attempt, engine: Engine, parseEvent: bytes -> Option<JsonEvent>)
    requires a.connection.None?
    ensures Leaves(a, engine, parseEvent, FailedOutcome(a.request))
  {
    hide Recounts, ReadsAs;
    NothingRead(engine, a.stream, parseEvent);
  }

  lemma NoneCollected(attempts: seq<Attempt>, engine: Engine, parseEvent: bytes -> Option<JsonEvent>)
    ensures Collected(attempts, engine, parseEvent, [], [])
  {
  }

  lemma CollectedMore(attempts: seq<Attempt>, engine: Engine, parseEvent: bytes -> Option<JsonEvent>,
                      order: seq<nat>, outcomes: seq<Outcome>, k: nat, o: Outcome)
    requires Collected(attempts, engine, parseEvent, order, outcomes) && k < |attempts|
             && Leaves(attempts[k], engine, parseEvent, o)
    ensures Collected(attempts, engine, parseEvent, order + [k], outcomes + [o])
  {
    hide Leaves;
  }

  /** Of the attempts of a batch, those without a connection are reported at once. */
  method ConnectAll(attempts: seq<Attempt>, start: nat, end: nat, engine: Engine,
                    parseEvent: bytes -> Option<JsonEvent>)
    returns (connected: seq<nat>, refused: seq<Outcome>, ghost order: seq<nat>)
    requires start <= end <= |attempts|
    ensures Collected(attempts, engine, parseEvent, order, refused)
    ensures forall i | 0 <= i < |connected| :: connected[i] < |attempts| && attempts[connected[i]].connection.Some?
    ensures multiset(Range(start)) + multiset(order) + multiset(connected) == multiset(Range(end))
  {
    hide Leaves, Range, Collected;
    connected, refused, order := [], [], [];
    NoneCollected(attempts, engine, parseEvent);
    for k := start to end
      invariant Collected(attempts, engine, parseEvent, order, refused)
      invariant forall i | 0 <= i < |connected| :: connected[i] < |attempts| && attempts[connected[i]].connection.Some?
      invariant multiset(Range(start)) + multiset(order) + multiset(connected) == multiset(Range(k))
    {
      RangeNext(k);
      if attempts[k].connection.Some? {
        connected := connected + [k];
      } else {
        UnconnectedLeaves(attempts[k], engine, parseEvent);
        CollectedMore(attempts, engine, parseEvent, order, refused, k, FailedOutcome(attempts[k].request));
        refused := refused + [FailedOutcome(attempts[k].request)];
        order := order + [k];
      }
    }
  }

  /** One batch: every attempt leaves exactly one outcome, the connected ones after the others. */
  method RunBatch(attempts: seq<Attempt>, start: nat, end: nat, engine: Engine, parseEvent: bytes -> Option<JsonEvent>)
    returns (outcomes: seq<Outcome>)
    requires start <= end <= |attempts| && forall a | a in attempts :: Attemptable(a)
    ensures OneEach(attempts, start, end, engine, parseEvent, outcomes)
  {
    hide Leaves, Attemptable, Range, Collected;
    var connected;
    ghost var order;
    connected, outcomes, order := ConnectAll(attempts, start, end, engine, parseEvent);
    for k := 0 to |connected|
      invariant Collected(attempts, engine, parseEvent, order, outcomes)
      invariant multiset(Range(start)) + multiset(order) + multiset(connected[k..]) == multiset(Range(end))
    {
      assert connected[k..] == [connected[k]] + connected[k + 1..];
      var o := ExecuteAttempt(attempts[connected[k]], engine, parseEvent);
      CollectedMore(attempts, engine, parseEvent, order, outcomes, connected[k], o);
      outcomes := outcomes + [o];
      order := order + [connected[k]];
    }
    assert EachOnce(order, start, end);
  }

  /** The batches of a phase one after another: every attempt leaves exactly one outcome. */
  method RunPhase(attempts: seq<Attempt>, concurrency: nat, engine: Engine, parseEvent: bytes -> Option<JsonEvent>)
    returns (outcomes: seq<Outcome>)
    requires concurrency > 0 && forall a | a in attempts :: Attemptable(a)
    ensures OneEach(attempts, 0, |attempts|, engine, parseEvent, outcomes)
  {
    hide Leaves, Attemptable, OneEach;
    outcomes := [];
    var start: nat := 0;
    NoneEach(attempts, engine, parseEvent);
    while start < |attempts|
      invariant start <= |attempts| && OneEach(attempts, 0, start, engine, parseEvent, outcomes)
    {
      var end := if start + concurrency < |attempts| then start + concurrency else |attempts|;
      var batch := RunBatch(attempts, start, end, engine, parseEvent);
      EachInTurn(attempts, 0, start, end, engine, parseEvent, outcomes, batch);
      outcomes := outcomes + batch;
      start := end;
    }
  }

  // ---- The written reports ----

  function RequestNotAfter(a: RequestRecord, b: RequestRecord): bool { a.requestIndex <= b.requestIndex }

  function PacketNotAfter(a: PacketRecord, b: PacketRecord): bool {
    a.requestIndex < b.requestIndex || (a.requestIndex == b.requestIndex && a.sequence <= b.sequence)
  }

  lemma {:induction false} AllPacketsConcat(a: seq<Outcome>, b: seq<Outcome>)
    ensures AllPackets(a + b) == AllPackets(a) + AllPackets(b)
  {
    if b == [] {
      assert a + b == a;
    } else {
      assert (a + b)[..|a + b| - 1] == a + b[..|b| - 1];
      AllPacketsConcat(a, b[..|b| - 1]);
    }
  }

  /** Reordering outcomes only reorders their records and packets. */
  lemma {:induction false} ReorderedReports(a: seq<Outcome>, b: seq<Outcome>)
    requires multiset(a) == multiset(b)
    ensures multiset(AllPackets(a)) == multiset(AllPackets(b)) && multiset(AllRequests(a)) == multiset(AllRequests(b))
  {
    assert |multiset(a)| == |a| && |multiset(b)| == |b|;
    if a != [] {
      var n := |a| - 1;
      var last, front := a[n], a[..n];
      assert a == front + [last];
      assert last in multiset(b);
      var i :| 0 <= i < |b| && b[i] == last;
      var before, behind := b[..i], b[i + 1..];
      assert b == before + [last] + behind;
      assert multiset(front) + multiset{last} == multiset(before + behind) + multiset{last};
      FrontsAgree(front, before + behind, last);
      ReorderedReports(front, before + behind);
      PacketsTaken(before, last, behind);
      RequestsTaken(before, last, behind);
      RequestsTaken(front, last, []);
      assert front + [last] + [] == a && front + [] == front;
    }
  }

  lemma PacketsTaken(before: seq<Outcome>, o: Outcome, behind: seq<Outcome>)
    ensures multiset(AllPackets(before + [o] + behind)) == multiset(AllPackets(before + behind)) + multiset(o.packets)
  {
    AllPacketsConcat(before + [o], behind);
    AllPacketsConcat(before, [o]);
    AllPacketsConcat(before, behind);
    assert [o][..0] == [];
  }

  lemma RequestsConcat(a: seq<Outcome>, b: seq<Outcome>)
    ensures AllRequests(a + b) == AllRequests(a) + AllRequests(b)
  {
  }

  lemma OneRequest(o: Outcome)
    ensures AllRequests([o]) == [o.request]
  {
  }

  lemma RequestsTaken(before: seq<Outcome>, o: Outcome, behind: seq<Outcome>)
    ensures multiset(AllRequests(before + [o] + behind)) == multiset(AllRequests(before + behind)) + multiset{o.request}
  {
    hide AllRequests;
    RequestsConcat(before + [o], behind);
    RequestsConcat(before, [o]);
    RequestsConcat(before, behind);
    OneRequest(o);
  }

  ghost predicate AllWellLabelled(ends: seq<Outcome>, engine: Engine) {
    forall i | 0 <= i < |ends| :: WellLabelled(ends[i], i, engine)
  }

  lemma NothingSorted()
    ensures SortedBy([], PacketNotAfter)
  {
  }

  lemma SortedBehind(earlier: seq<PacketRecord>, own: seq<PacketRecord>, index: nat)
    requires SortedBy(earlier, PacketNotAfter) && forall p | p in earlier :: p.requestIndex < index
    requires Numbered(own) && forall p | p in own :: p.requestIndex == index
    ensures SortedBy(earlier + own, PacketNotAfter) && forall p | p in earlier + own :: p.requestIndex <= index
  {
  }

  lemma {:induction false} PacketsInOrder(ends: seq<Outcome>, engine: Engine)
    requires AllWellLabelled(ends, engine)
    ensures SortedBy(AllPackets(ends), PacketNotAfter)
    ensures forall p | p in AllPackets(ends) :: p.requestIndex < |ends|
  {
    hide PacketAccepted, SortedBy, Numbered;
    NothingSorted();
    if ends != [] {
      var n := |ends| - 1;
      var front := ends[..n];
      forall i | 0 <= i < n
        ensures WellLabelled(front[i], i, engine)
      {
        assert WellLabelled(ends[i], i, engine);
      }
      PacketsInOrder(front, engine);
      assert WellLabelled(ends[n], n, engine);
      SortedBehind(AllPackets(front), ends[n].packets, n);
    }
  }

  lemma PacketsApart(ends: seq<Outcome>, engine: Engine)
    requires AllWellLabelled(ends, engine)
    ensures Distinguishes(PacketNotAfter, AllPackets(ends))
  {
    hide PacketAccepted, AllPackets;
    forall x, y | x in AllPackets(ends) && y in AllPackets(ends) && PacketNotAfter(x, y) && PacketNotAfter(y, x)
      ensures x == y
    {
      AllPacketsComeFromOutcomes(ends, x);
      AllPacketsComeFromOutcomes(ends, y);
      var i :| 0 <= i < |ends| && x in ends[i].packets;
      var j :| 0 <= j < |ends| && y in ends[j].packets;
      assert WellLabelled(ends[i], i, engine) && WellLabelled(ends[j], j, engine);
    }
  }

  /** In whatever order the outcomes come in, the sorted reports are those of the requests in order. */
  lemma ReportsInOrder(outcomes: seq<Outcome>, ends: seq<Outcome>, engine: Engine)
    requires multiset(outcomes) == multiset(ends) && AllWellLabelled(ends, engine)
    ensures Sort(AllRequests(outcomes), RequestNotAfter) == AllRequests(ends)
    ensures Sort(AllPackets(outcomes), PacketNotAfter) == AllPackets(ends)
  {
    hide Sort, AllPackets, Distinguishes;
    ReorderedReports(outcomes, ends);
    SortSorts(AllPackets(outcomes), PacketNotAfter);
    PacketsInOrder(ends, engine);
    PacketsApart(ends, engine);
    SortedUnique(Sort(AllPackets(outcomes), PacketNotAfter), AllPackets(ends), PacketNotAfter);
    SortSorts(AllRequests(outcomes), RequestNotAfter);
    RequestsInOrder(ends, engine);
    SortedUnique(Sort(AllRequests(outcomes), RequestNotAfter), AllRequests(ends), RequestNotAfter);
  }

  lemma RequestsInOrder(ends: seq<Outcome>, engine: Engine)
    requires AllWellLabelled(ends, engine)
    ensures SortedBy(AllRequests(ends), RequestNotAfter) && Distinguishes(RequestNotAfter, AllRequests(ends))
  {
    hide PacketAccepted, Numbered;
    forall i | 0 <= i < |ends|
      ensures AllRequests(ends)[i].requestIndex == i
    {
      assert WellLabelled(ends[i], i, engine);
    }
  }

  /** Splits the outcomes and sorts both reports. */
  method WriteReports(outcomes: seq<Outcome>) returns (records: seq<RequestRecord>, packets: seq<PacketRecord>)
    ensures records == Sort(AllRequests(outcomes), RequestNotAfter)
            && packets == Sort(AllPackets(outcomes), PacketNotAfter)
  {
    records, packets := [], [];
    for k := 0 to |outcomes|
      invariant records == AllRequests(outcomes[..k]) && packets == AllPackets(outcomes[..k])
    {
      assert outcomes[..k + 1][..k] == outcomes[..k];
      records := records + [outcomes[k].request];
      packets := packets + outcomes[k].packets;
    }
    assert outcomes[..|outcomes|] == outcomes;
    records, packets := Sort(records, RequestNotAfter), Sort(packets, PacketNotAfter);
  }

  // ---- The whole run ----

  function Samplings(attempts: seq<Attempt>): (r: seq<Sampling>)
    ensures |r| == |attempts|
  {
    seq(|attempts|, i requires 0 <= i < |attempts| => attempts[i].sampling)
  }

  function Walls(attempts: seq<Attempt>): (r: seq<real>)
    ensures |r| == |attempts|
  {
    seq(|attempts|, i requires 0 <= i < |attempts| => attempts[i].wallMs)
  }

  /** The written reports of a phase: one record for each request in order, each telling, with its packets,
      what its connection answered, and the summary over the records. The validator accepts the packets
      exactly if every answer is verifiable, so those of every run of raw PCM; and it accepts the summary
      exactly if any time has passed. */
  method MeasuredPhase(attempts: seq<Attempt>, concurrency: nat, engine: Engine, parseEvent: bytes -> Option<JsonEvent>,
                       wallSeconds: real)
    returns (records: seq<RequestRecord>, packets: seq<PacketRecord>, summary: Summary)
    requires concurrency > 0 && forall a | a in attempts :: Attemptable(a)
    requires forall i | 0 <= i < |attempts| :: attempts[i].request.index == i
    ensures |records| == |attempts|
    ensures forall i | 0 <= i < |attempts| :: Leaves(attempts[i], engine, parseEvent,
                                                     Outcome(records[i], Group(packets, i)))
    ensures AllGroupsAccepted(packets, records, engine)
       <==> forall i | 0 <= i < |attempts| :: AnswersVerifiably(attempts[i], engine, parseEvent)
    ensures engine == Sglang ==> AllGroupsAccepted(packets, records, engine)
    ensures forall i | 0 <= i < |attempts| :: FullyMeasured(records[i]) && records[i].requestIndex == i
    ensures SummaryAccepted(summary, RecordsOf(records, Samplings(attempts), Walls(attempts))) <==> wallSeconds > 0.0
    ensures Tallies(summary, records, Samplings(attempts)) && Amounts(summary, records, Walls(attempts), wallSeconds)
            && Distributes(summary, records, Walls(attempts))
  {
    hide Tallies, Amounts, Distributes;
    hide SummaryAccepted, RecordOf, Summarize, FullyMeasured, DigestText;
    hide Leaves, Attemptable, Sort, Group, AllGroupsAccepted, GroupAccepted, AnswersVerifiably, WellLabelled, OneEach;
    var outcomes := RunPhase(attempts, concurrency, engine, parseEvent);
    ghost var ends := Sort(outcomes, OutcomeNotAfter);
    EndsAreLabelled(attempts, engine, parseEvent, outcomes);
    ReportsInOrder(outcomes, ends, engine);
    records, packets := WriteReports(outcomes);
    EndsAreReported(ends, engine);
    AttemptsSampled(attempts);
    forall i | 0 <= i < |attempts|
      ensures Leaves(attempts[i], engine, parseEvent, Outcome(records[i], Group(packets, i)))
      ensures GroupAccepted(ends[i].packets, ends[i].request, engine)
              <==> AnswersVerifiably(attempts[i], engine, parseEvent)
      ensures engine == Sglang ==> AnswersVerifiably(attempts[i], engine, parseEvent)
      ensures FullyMeasured(records[i]) && records[i].requestIndex == i
    {
      LeavesVerifiable(attempts[i], engine, parseEvent, ends[i]);
      IndexIsPosition(attempts[i], engine, parseEvent, ends[i]);
    }
    RunAcceptedIff(ends, engine);
    EveryPhaseIsAccepted(records, Samplings(attempts), Walls(attempts), wallSeconds);
    SummaryTallies(records, Samplings(attempts), Walls(attempts), wallSeconds);
    SummaryAmounts(records, Samplings(attempts), Walls(attempts), wallSeconds);
    SummaryDistributes(records, Samplings(attempts), Walls(attempts), wallSeconds);
    summary := Summarize(RecordsOf(records, Samplings(attempts), Walls(attempts)), |attempts|, wallSeconds);
  }

  lemma AttemptsSampled(attempts: seq<Attempt>)
    requires forall a | a in attempts :: Attemptable(a)
    ensures forall i | 0 <= i < |attempts| :: DigestText(Samplings(attempts)[i].sha256) && Walls(attempts)[i] >= 0.0
  {
    hide Sane, DigestText;
    forall i | 0 <= i < |attempts|
      ensures DigestText(Samplings(attempts)[i].sha256) && Walls(attempts)[i] >= 0.0
    {
      assert Attemptable(attempts[i]);
    }
  }

  lemma LeavesVerifiable(a: Attempt, engine: Engine, parseEvent: bytes -> Option<JsonEvent>, o: Outcome)
    requires Leaves(a, engine, parseEvent, o)
    ensures WellLabelled(o, a.request.index, engine) && FullyMeasured(o.request)
    ensures GroupAccepted(o.packets, o.request, engine) <==> AnswersVerifiably(a, engine, parseEvent)
    ensures engine == Sglang ==> AnswersVerifiably(a, engine, parseEvent)
  {
    hide GroupAccepted, WellLabelled, NativeReads, AnswerOf, TellsReading, CountsFrames;
    var answer := AnswerTo(a);
    FailedIsLabelled(a.request, engine);
    if reading :|
                 ReadsAs(engine, a.stream, answer, parseEvent, reading)
                   && Recounts(o, PayloadOf(answer), reading, engine, a.request, a.t0) {
      RecountsMeasured(o, PayloadOf(answer), reading, engine, a.request, a.t0);
      forall any | ReadsAs(engine, a.stream, answer, parseEvent, any)
        ensures Verifiable(any) <==> Verifiable(reading)
      {
        VerifiableOnce(engine, a.stream, answer, parseEvent, any, reading);
      }
    }
  }

  function OutcomeNotAfter(a: Outcome, b: Outcome): bool { a.request.requestIndex <= b.request.requestIndex }

  function OutcomeIndex(o: Outcome): nat { o.request.requestIndex }

  lemma IndexIsPosition(a: Attempt, engine: Engine, parseEvent: bytes -> Option<JsonEvent>, o: Outcome)
    requires Leaves(a, engine, parseEvent, o)
    ensures OutcomeIndex(o) == a.request.index
  {
    hide PacketAccepted, GroupAccepted, NativeReads, AnswerOf, TellsReading, CountsFrames;
    LeavesVerifiable(a, engine, parseEvent, o);
  }

  /** Sorted by index, the outcomes are those of the attempts in order. */
  lemma EndsAreLabelled(attempts: seq<Attempt>, engine: Engine, parseEvent: bytes -> Option<JsonEvent>,
                        outcomes: seq<Outcome>)
    requires OneEach(attempts, 0, |attempts|, engine, parseEvent, outcomes)
    requires forall i | 0 <= i < |attempts| :: attempts[i].request.index == i
    ensures var ends := Sort(outcomes, OutcomeNotAfter);
            && |ends| == |attempts| && AllWellLabelled(ends, engine)
            && forall i | 0 <= i < |ends| :: Leaves(attempts[i], engine, parseEvent, ends[i])
  {
    hide Leaves, Sort, WellLabelled, EachOnce;
    var order :| EachOnce(order, 0, |attempts|) && Collected(attempts, engine, parseEvent, order, outcomes);
    AllOnce(order, |attempts|);
    var ends := Sort(outcomes, OutcomeNotAfter);
    forall k | 0 <= k < |order|
      ensures OutcomeIndex(outcomes[k]) == order[k]
    {
      IndexIsPosition(attempts[order[k]], engine, parseEvent, outcomes[k]);
    }
    assert Keys(outcomes, OutcomeIndex) == order;
    SortedKeysAreRange(outcomes, OutcomeIndex, OutcomeNotAfter, |attempts|);
    forall i | 0 <= i < |ends|
      ensures Leaves(attempts[i], engine, parseEvent, ends[i]) && WellLabelled(ends[i], i, engine)
    {
      assert Keys(ends, OutcomeIndex)[i] == i;
      assert ends[i] in multiset(outcomes);
      var k :| 0 <= k < |outcomes| && outcomes[k] == ends[i];
      LeavesVerifiable(attempts[i], engine, parseEvent, ends[i]);
    }
  }

  lemma EndsAreReported(ends: seq<Outcome>, engine: Engine)
    requires AllWellLabelled(ends, engine)
    ensures forall i | 0 <= i < |ends| :: Outcome(AllRequests(ends)[i], Group(AllPackets(ends), i)) == ends[i]
  {
    hide WellLabelled, Group, AllPackets;
    forall i | 0 <= i < |ends|
      ensures Outcome(AllRequests(ends)[i], Group(AllPackets(ends), i)) == ends[i]
    {
      GroupIsOutcome(ends, i, engine);
    }
  }
}
