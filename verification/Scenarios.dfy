/** The scenario loop of the benchmark as it runs: it starts requests up to a limit, polls them in turn, and
    moves each finished one to the reports. It follows the course of the script. */
module Scenarios {
  import opened Bytes
  import opened ActiveRequests
  import opened ScenarioScript
  import opened Sorting
  import Wav

  datatype RequestReport = RequestReport(
    ordinal: nat, corpusId: bytes, finishReason: FinishReason, packets: u64, codecFrames: u64, samples: u64,
    progressiveStreaming: bool, exactCopyBounds: bool)

  /** The report on a request, from the packets it accepted and the times of its first packet and its end. */
  function ReportOn(ended: Ended, corpus: seq<bytes>): RequestReport
    requires corpus != []
  {
    var Slot(ordinal, started, firstAudio, packets) := ended.slot;
    var wall, ttfa := Elapsed(started, ended.at), Elapsed(started, if firstAudio.None? then ended.at
                                                          else firstAudio.value);
    RequestReport(
      ordinal, corpus[ordinal % |corpus|], CodecEos, Counter(|packets|), Counter(TotalFrames(packets)),
      Counter(TotalSamples(packets)), Counter(|packets|) > 1 && ttfa < wall, TailsUntouched(packets))
  }

  function Reports(done: seq<Ended>, corpus: seq<bytes>): (r: seq<RequestReport>)
    requires corpus != []
    ensures |r| == |done|
  {
    seq(|done|, i requires 0 <= i < |done| => ReportOn(done[i], corpus))
  }

  /** A request that ended well: contiguous packets, the last one final and no other, a natural end. */
  ghost predicate ReportOf(report: RequestReport, packets: PacketList, corpus: seq<bytes>)
    requires corpus != []
  {
    && Contiguous(packets) && packets != [] && packets[|packets| - 1].isFinal
    && report.finishReason == CodecEos && report.corpusId == corpus[report.ordinal % |corpus|]
    && report.packets == Counter(|packets|)
    && report.codecFrames == Counter(TotalFrames(packets))
    && report.samples == Counter(TotalSamples(packets))
    && (report.exactCopyBounds
        <==> forall k, i | 0 <= k < |packets| && packets[k].sampleCount <= i < |packets[k].buffer| ::
               packets[k].buffer[i] == -0x8000)
  }

  /** Whether a request streamed progressively, by the log: it emitted more than one packet, as a 64-bit counter
      counts them, and the first of them came earlier than its end. */
  ghost predicate Progressed(report: RequestReport, log: seq<Entry>) {
    exists begun, first, ended ::
      && BeginIn(log, report.ordinal) == Some(begun) && FirstPacketIn(log, report.ordinal) == Some(first)
      && EndIn(log, report.ordinal) == Some(ended)
      && (report.progressiveStreaming
          <==> |PacketsIn(log, report.ordinal)| % 0x1_0000_0000_0000_0000 > 1 && begun < ended && first < ended)
  }

  /** Exactly the first few requests are recorded, each with all the audio it emitted. */
  ghost predicate RecordedAs(ordinal: nat, packets: PacketList, config: Config, recordings: map<nat, bytes>) {
    && (ordinal in recordings <==> config.audioDir && ordinal < config.saveAudioCount)
    && (ordinal in recordings
        ==> Wav.IsRiffFile(recordings[ordinal], Wav.Recording(Wav.SAMPLE_RATE, AllAudio(packets))))
  }

  /** The recordings are those of the requests that ended. */
  ghost predicate Recorded(done: seq<Ended>, config: Config, recordings: map<nat, bytes>) {
    && (forall i | 0 <= i < |done| :: RecordedAs(done[i].slot.ordinal, done[i].slot.packets, config, recordings))
    && forall ordinal | ordinal in recordings :: ordinal in Completed(done)
  }

  lemma RecordedMore(done: seq<Ended>, ended: Ended, config: Config, recordings: map<nat, bytes>, more: map<nat, bytes>)
    requires Recorded(done, config, recordings) && ended.slot.ordinal !in Completed(done)
    requires RecordedAs(ended.slot.ordinal, ended.slot.packets, config, more)
    requires more == recordings
             || (ended.slot.ordinal in more && more == recordings[ended.slot.ordinal := more[ended.slot.ordinal]])
    ensures Recorded(done + [ended], config, more)
  {
    hide Wav.IsRiffFile, Wav.Recording, AllAudio;
    forall i | 0 <= i < |done|
      ensures RecordedAs(done[i].slot.ordinal, done[i].slot.packets, config, more)
    {
      assert Completed(done)[i] == done[i].slot.ordinal;
    }
    assert Completed(done + [ended]) == Completed(done) + [ended.slot.ordinal];
  }

  /** A request that is still active has no recording. */
  lemma NotYetRecorded(st: RunState, index: nat, config: Config, recordings: map<nat, bytes>)
    requires Conserved(SnapshotOf(st), config) && Recorded(st.done, config, recordings) && index < |st.active|
    ensures st.active[index].ordinal !in recordings && st.active[index].ordinal !in Completed(st.done)
  {
    hide Conserved, RecordedAs;
    OnceOnly(SnapshotOf(st), config, index);
    ActiveAt(st.active, index);
  }

  lemma AudioWasSeen(slot: Slot, finishReason: Option<FinishReason>, metrics: Option<Metrics>, destroyed: bool)
    requires EndFailure(slot, finishReason, metrics, destroyed).None?
    ensures slot.firstAudio.Some?
  {
    hide TotalFrames, TotalSamples;
  }

  lemma ReportsMore(done: seq<Ended>, ended: Ended, corpus: seq<bytes>)
    requires corpus != []
    ensures Reports(done + [ended], corpus) == Reports(done, corpus) + [ReportOn(ended, corpus)]
  {
    hide ReportOn;
  }

  ghost function SlotOf(request: ActiveRequest): Slot
    reads request
  {
    Slot(request.ordinal, request.started, request.callerTtfa, request.accepted)
  }

  ghost function Slots(active: seq<ActiveRequest>): (r: seq<Slot>)
    reads active
    ensures |r| == |active|
  {
    seq(|active|, i requires 0 <= i < |active| reads active => SlotOf(active[i]))
  }

  class ScenarioRun {
    const config: Config
    const corpus: seq<bytes>
    var active: seq<ActiveRequest>
    var completed: seq<RequestReport>
    var nextOrdinal: nat
    var recordings: map<nat, bytes>
    /** The requests that were taken out at their end. */
    ghost var done: seq<Ended>

    ghost function State(): RunState
      reads this, active
    {
      RunState(Slots(active), done, nextOrdinal)
    }

    ghost predicate Requests()
      reads this, active
    {
      && (forall i, j | 0 <= i < j < |active| :: active[i] != active[j])
      && forall i | 0 <= i < |active| :: Request(active[i])
    }

    ghost predicate Request(request: ActiveRequest)
      reads this, request
    {
      request.Valid() && (request.capturedAudio.Some? <==> request.ordinal < config.saveAudioCount)
    }

    ghost predicate Valid()
      reads this, active
    {
      && corpus != [] && Requests() && Conserved(SnapshotOf(State()), config)
      && completed == Reports(done, corpus) && Recorded(done, config, recordings)
    }

    constructor (config: Config, corpus: seq<bytes>)
      requires corpus != []
      ensures Valid() && this.config == config && this.corpus == corpus
      ensures State() == NOTHING_STARTED && active == []
    {
      this.config, this.corpus := config, corpus;
      active, completed, nextOrdinal, recordings, done := [], [], 0, map[], [];
      new;
      assert SnapshotOf(State()) == Snapshot([], [], 0);
    }

    method StartOne(at: Instant)
      requires Valid() && |active| < config.concurrency && nextOrdinal < config.count
      modifies this`active, this`nextOrdinal
      ensures Valid() && State() == AfterStart(old(State()), at)
      ensures |active| == |old(active)| + 1 && active[..|active| - 1] == old(active) && fresh(active[|active| - 1])
    {
      hide Conserved, ActiveRequest.Valid, Recorded;
      ghost var before := State();
      ConservedStart(SnapshotOf(before), config);
      StartChanges(before, at);
      var request := new ActiveRequest(nextOrdinal, nextOrdinal < config.saveAudioCount, at);
      assert Slots(active + [request]) == before.active + [Slot(nextOrdinal, at, None, [])];
      active := active + [request];
      nextOrdinal := nextOrdinal + 1;
      assert State() == AfterStart(before, at);
    }

    method AcceptAt(index: nat, p: Packet, now: Instant) returns (ok: bool)
      requires Valid() && index < |active| && Delivered(p)
      modifies active[index]
      ensures ok <==> Continues(old(active[index].accepted), p)
      ensures ok ==> Valid() && State() == AfterVisit(old(State()), index, Visit(now, Emitted(p)))
    {
      hide Conserved, ActiveRequest.Valid, Continues, Recorded, SnapshotOf;
      ghost var before := State();
      ok := active[index].AcceptPacket(p, now);
      if ok {
        assert forall i | 0 <= i < |active| && i != index :: Request(active[i]);
        assert Slots(active) == before.active[index := WithPacket(before.active[index], p, now)];
        VisitConserves(before, index, Visit(now, Emitted(p)), config);
      }
    }

    /** What has to be true of a request at its end, in the order the checks are made. */
    method CheckEnd(finished: ActiveRequest, finishReason: Option<FinishReason>, metrics: Option<Metrics>,
                    destroyed: bool)
      returns (error: Option<ScenarioError>)
      requires finished.Valid()
      ensures error == EndFailure(SlotOf(finished), finishReason, metrics, destroyed)
    {
      hide Contiguous, TotalFrames, TotalSamples, TailsUntouched, AllAudio, Counter;
      if !finished.sawFinal {
        return Some(NoFinalPacket);
      }
      if finished.callerTtfa.None? {
        return Some(NoAudio);
      }
      if finishReason.None? {
        return Some(QueryFailed);
      }
      if finishReason.value != CodecEos {
        return Some(UnnaturalFinish);
      }
      if metrics.None? {
        return Some(QueryFailed);
      }
      if metrics.value != Metrics(finished.nextSequence, finished.nextFrame, finished.nextSample) {
        return Some(MetricsMismatch);
      }
      return if destroyed then None else Some(QueryFailed);
    }

    /** Writes the captured audio, if there is any and a place for it. */
    method SaveAudio(finished: ActiveRequest) returns (ok: bool)
      requires Request(finished) && finished.ordinal !in recordings
      modifies this`recordings
      ensures ok <==> Savable(finished.ordinal, finished.accepted, config)
      ensures ok ==> RecordedAs(finished.ordinal, finished.accepted, config, recordings)
      ensures || recordings == old(recordings)
              || (finished.ordinal in recordings
                  && recordings == old(recordings)[finished.ordinal := recordings[finished.ordinal]])
    {
      hide Contiguous, TotalFrames, TotalSamples, TailsUntouched, AllAudio, Wav.IsRiffFile, Wav.Recording;
      if config.audioDir && finished.capturedAudio.Some? {
        var file := Wav.WritePcm16Mono(Wav.SAMPLE_RATE, finished.capturedAudio.value);
        if file.Err? {
          return false;
        }
        recordings := recordings[finished.ordinal := file.value];
      }
      return true;
    }

    method Report(finished: ActiveRequest, now: Instant) returns (report: RequestReport)
      requires finished.Valid() && finished.callerTtfa.Some? && corpus != []
      ensures report == ReportOn(Ended(SlotOf(finished), now), corpus)
    {
      hide Contiguous, TotalFrames, TotalSamples, TailsUntouched, AllAudio, Counter;
      var wall, ttfa := Elapsed(finished.started, now), Elapsed(finished.started, finished.callerTtfa.value);
      report := RequestReport(
        finished.ordinal, corpus[finished.ordinal % |corpus|], CodecEos, finished.nextSequence, finished.nextFrame,
        finished.nextSample, finished.nextSequence > 1 && ttfa < wall, finished.exactCopyBounds);
    }

    /** Takes a request that reached its end out of the active ones and reports on it. */
    method FinishAt(index: nat, now: Instant, finishReason: Option<FinishReason>, metrics: Option<Metrics>,
                    destroyed: bool)
      returns (error: Option<ScenarioError>)
      requires Valid() && index < |active|
      modifies this`active, this`completed, this`recordings, this`done
      ensures error == AtEnd(old(State()).active[index], finishReason, metrics, destroyed, config)
      ensures error.None? ==>
                && Valid() && active == SwapRemove(old(active), index)
                && State() == AfterVisit(old(State()), index, Visit(now, EndOfStream(finishReason, metrics, destroyed)))
    {
      hide Conserved, Recorded, RecordedAs, EndFailure, Savable, ActiveRequest.Valid, SwapRemove, SnapshotOf, ReportOn;
      ghost var before := State();
      var finished := active[index];
      assert Request(finished);
      NotYetRecorded(before, index, config, recordings);
      active := SwapRemove(active, index);
      error := CheckEnd(finished, finishReason, metrics, destroyed);
      if error.Some? {
        return;
      }
      AudioWasSeen(SlotOf(finished), finishReason, metrics, destroyed);
      ghost var earlier := recordings;
      var saved := SaveAudio(finished);
      if !saved {
        return Some(RecordingFailed);
      }
      var report := Report(finished, now);
      completed := completed + [report];
      done := done + [Ended(SlotOf(finished), now)];
      ReportsMore(before.done, Ended(SlotOf(finished), now), corpus);
      RecordedMore(before.done, Ended(SlotOf(finished), now), config, earlier, recordings);
      VisitConserves(before, index, Visit(now, EndOfStream(finishReason, metrics, destroyed)), config);
      RequestsRemain(old(active), index);
    }

    lemma RequestsRemain(was: seq<ActiveRequest>, index: nat)
      requires index < |was| && active == SwapRemove(was, index)
      requires forall i, j | 0 <= i < j < |was| :: was[i] != was[j]
      requires forall i | 0 <= i < |was| :: Request(was[i])
      ensures Requests() && Slots(active) == SwapRemove(Slots(was), index)
    {
      hide ActiveRequest.Valid;
    }

    /** Fills the free places until the runtime declines; the outcomes are taken from the script. */
    method FillSlots(starts: seq<StartOutcome>, from: nat, ghost visits: seq<Visit>)
      returns (r: Result<nat, ScenarioError>, ghost log: seq<Entry>, ghost trace: seq<Snapshot>)
      requires Valid() && from <= |starts| && |completed| < config.count
      modifies this`active, this`nextOrdinal
      ensures Valid() && completed == old(completed)
      ensures |active| >= |old(active)| && active[..|old(active)|] == old(active)
      ensures forall i | |old(active)| <= i < |active| :: fresh(active[i])
      ensures var course := CourseFrom(Filling, old(State()), starts[from..], visits, config);
              match r
              case Err(e) => course.failure == Some(e)
              case Ok(next) =>
                && from <= next <= |starts|
                   && (next == from ==> log == [] && TurnOf(Polling(0), State(), config) != TakeStart)
                && course == CourseFrom(Polling(0), State(), starts[next..], visits, config).After(log, trace)
    {
      hide Conserved, ActiveRequest.Valid, CourseFrom, SnapshotOf, AfterStart;
      ghost var course := CourseFrom(Filling, State(), starts[from..], visits, config);
      var s := from;
      log, trace := [], [];
      NothingBefore(course);
      while |active| < config.concurrency && nextOrdinal < config.count
        invariant Valid() && from <= s <= |starts| && completed == old(completed)
                  && (s == from ==> log == [] && State() == old(State()))
        invariant |active| >= |old(active)| && active[..|old(active)|] == old(active)
        invariant forall i | |old(active)| <= i < |active| :: fresh(active[i])
        invariant course == CourseFrom(Filling, State(), starts[s..], visits, config).After(log, trace)
        decreases |starts| - s
      {
        FillingTurn(State(), starts[s..], visits, config, log, trace);
        if s == |starts| {
          return Err(Unfinished), log, trace;
        }
        var outcome := starts[s];
        assert starts[s..][1..] == starts[s + 1..];
        s := s + 1;
        match outcome {
          case Started(at) =>
            ghost var was := active;
            log, trace := log + [Begun(nextOrdinal, at)], trace + [SnapshotOf(AfterStart(State(), at))];
            StartOne(at);
            assert active[..|old(active)|] == was[..|old(active)|];
          case StartBlocked =>
            return Ok(s), log + [Declined], trace + [SnapshotOf(State())];
          case StartFailed =>
            return Err(StartError), log, trace;
        }
      }
      SameTurn(Filling, Polling(0), State(), starts[s..], visits, config);
      return Ok(s), log, trace;
    }

    /** Visits every active request once, as the pass prescribes: a finished one is replaced by the last,
        which is visited next. */
    method PollPass(visits: seq<Visit>, from: nat, ghost starts: seq<StartOutcome>)
      returns (r: Result<nat, ScenarioError>, ghost pass: Option<Pass>)
      requires Valid() && from <= |visits|
      modifies this`active, this`completed, this`recordings, this`done, active
      ensures pass == PassFrom(0, old(State()), visits[from..], config)
      ensures match r
              case Err(e) => pass.None?
                && CourseFrom(Polling(0), old(State()), starts, visits[from..], config).failure == Some(e)
              case Ok(next) =>
                && pass.Some? && Valid() && State() == pass.value.after && next == from + |pass.value.log|
                && forall i | 0 <= i < |active| :: active[i] in old(active)
    {
      hide Conserved, ActiveRequest.Valid, Requests, SwapRemove, CourseFrom, PassFrom, SnapshotOf, AfterVisit, Recorded;
      hide Reports, Underway, Failure;
      pass := PassFrom(0, State(), visits[from..], config);
      ghost var course, log, trace := CourseFrom(Polling(0), State(), starts, visits[from..], config), [], [];
      PassBegins(State(), starts, visits[from..], config);
      var index: nat, v := 0, from;
      while index < |active|
        invariant Valid() && from <= v <= |visits| && v == from + |log|
        invariant forall i | 0 <= i < |active| :: active[i] in old(active)
        invariant Underway(course, pass, index, State(), starts, visits[v..], config, log, trace)
        decreases |active| - index, |visits| - v
      {
        PassTurn(course, pass, index, State(), starts, visits[v..], config, log, trace);
        if v == |visits| {
          return Err(Unfinished), pass;
        }
        var visit := visits[v];
        assert visits[v..][1..] == visits[v + 1..];
        v := v + 1;
        assert active[index] in active;
        log, trace := log + [Visited(active[index].ordinal, visit)],
            trace + [SnapshotOf(AfterVisit(State(), index, visit))];
        var failed := VisitOne(index, visit);
        if failed.Some? {
          return Err(failed.value), pass;
        }
        if !visit.outcome.EndOfStream? {
          index := index + 1;
        }
      }
      PassEnds(course, pass, index, State(), starts, visits[v..], config, log, trace);
      return Ok(v), pass;
    }

    /** One visit: it fails as the script prescribes, or has the effect of that visit. */
    method VisitOne(index: nat, visit: Visit) returns (error: Option<ScenarioError>)
      requires Valid() && index < |active|
      modifies this`active, this`completed, this`recordings, this`done, active[index]
      ensures error == Failure(old(State()).active[index], visit, config)
      ensures error.None? ==> Valid() && State() == AfterVisit(old(State()), index, visit)
      ensures error.None? ==> active == if visit.outcome.EndOfStream? then SwapRemove(old(active), index)
              else old(active)
    {
      hide Conserved, ActiveRequest.Valid, Requests, SwapRemove, TailUntouched, Continues, EndFailure, Savable;
      hide Recorded, Reports, SnapshotOf;
      if Elapsed(active[index].started, visit.now) > config.requestTimeout {
        return Some(TimedOut);
      }
      match visit.outcome {
        case Emitted(packet) =>
          if packet.sampleCount > |packet.buffer| {
            return Some(PollError);
          }
          var ok := AcceptAt(index, packet, visit.now);
          return if ok then None else Some(RefusedPacket);
        case PollBlocked =>
          return None;
        case PollFailed =>
          return Some(PollError);
        case EndOfStream(finishReason, metrics, destroyed) =>
          error := FinishAt(index, visit.now, finishReason, metrics, destroyed);
      }
    }
  }

  // ---- The reports in order ----

  function OrdinalOf(report: RequestReport): nat { report.ordinal }

  function NotAfter(a: RequestReport, b: RequestReport): bool { a.ordinal <= b.ordinal }

  function SortReports(reports: seq<RequestReport>): (r: seq<RequestReport>)
    ensures |r| == |reports| && multiset(r) == multiset(reports)
  {
    Sort(reports, NotAfter)
  }

  // ---- The whole scenario ----

  /** What the script makes of the scenario. */
  function CourseOf(starts: seq<StartOutcome>, visits: seq<Visit>, config: Config): Course {
    CourseFrom(Filling, NOTHING_STARTED, starts, visits, config)
  }

  /** What a successful run has to show for an ordinal: a report and perhaps a recording, both true of
      the packets that were emitted for it. */
  ghost predicate ShownFor(ordinal: nat, report: RequestReport, recordings: map<nat, bytes>, log: seq<Entry>,
                           corpus: seq<bytes>, config: Config)
    requires corpus != []
  {
    && report.ordinal == ordinal && ReportOf(report, PacketsIn(log, ordinal), corpus) && Progressed(report, log)
    && RecordedAs(ordinal, PacketsIn(log, ordinal), config, recordings)
  }

  lemma EndedIsShown(ended: Ended, recordings: map<nat, bytes>, log: seq<Entry>, corpus: seq<bytes>, config: Config)
    requires corpus != [] && EndSound(ended, config)
    requires RecordedAs(ended.slot.ordinal, ended.slot.packets, config, recordings)
    requires SlotLogged(ended.slot, log) && EndIn(log, ended.slot.ordinal) == Some(ended.at)
    ensures ShownFor(ended.slot.ordinal, ReportOn(ended, corpus), recordings, log, corpus, config)
  {
    hide Contiguous, TotalFrames, TotalSamples, AllAudio, Counter, RecordedAs, PacketsIn, Savable, TailsUntouched;
    hide BeginIn, FirstPacketIn, EndIn, Progressed;
    TailsMean(ended.slot.packets);
    EndedProgressed(ended, log, corpus);
  }

  lemma TailsMean(packets: PacketList)
    ensures TailsUntouched(packets)
       <==> forall k, i | 0 <= k < |packets| && packets[k].sampleCount <= i < |packets[k].buffer| ::
              packets[k].buffer[i] == -0x8000
  {
    if TailsUntouched(packets) {
      forall k, i | 0 <= k < |packets| && packets[k].sampleCount <= i < |packets[k].buffer|
        ensures packets[k].buffer[i] == -0x8000
      {
        assert TailUntouched(packets[k]);
      }
    }
  }

  lemma EndedProgressed(ended: Ended, log: seq<Entry>, corpus: seq<bytes>)
    requires corpus != [] && SlotSound(ended.slot) && ended.slot.packets != []
    requires SlotLogged(ended.slot, log) && EndIn(log, ended.slot.ordinal) == Some(ended.at)
    ensures Progressed(ReportOn(ended, corpus), log)
  {
    hide Contiguous, TotalFrames, TotalSamples, TailsUntouched, PacketsIn, BeginIn, FirstPacketIn, EndIn;
    var Slot(ordinal, begun, first, packets) := ended.slot;
    assert BeginIn(log, ordinal) == Some(begun) && FirstPacketIn(log, ordinal) == Some(first.value);
  }

  lemma StartingPoint(config: Config)
    ensures Conserved(SnapshotOf(NOTHING_STARTED), config) && Sound(NOTHING_STARTED, config)
            && Logged(NOTHING_STARTED, [])
  {
    assert Range(0) == [];
  }

  /** The reports of a run that is over, sorted: one for every ordinal, in order, each of them true. */
  lemma SortedReports(starts: seq<StartOutcome>, visits: seq<Visit>, config: Config, corpus: seq<bytes>,
                      recordings: map<nat, bytes>)
    requires corpus != [] && config.concurrency > 0 && CourseOf(starts, visits, config).failure.None?
    requires Recorded(CourseOf(starts, visits, config).last.done, config, recordings)
    ensures var c := CourseOf(starts, visits, config);
            var reports := SortReports(Reports(c.last.done, corpus));
            && |reports| == config.count
            && (forall o: nat | o < config.count :: ShownFor(o, reports[o], recordings, c.log, corpus, config))
            && forall o | o in recordings :: o < config.count
  {
    hide Conserved, Sound, Logged, ShownFor, SnapshotOf, CourseFrom, SortReports, Reports, Recorded;
    var c := CourseOf(starts, visits, config);
    StartingPoint(config);
    TraceIsChronicle(Filling, NOTHING_STARTED, starts, visits, config);
    HeldIsLogged(Filling, NOTHING_STARTED, starts, visits, config, []);
    assert [] + c.log == c.log;
    CourseSound(Filling, NOTHING_STARTED, starts, visits, config);
    EndIsOver(starts, visits, config);
    DoneInOrder(c.last, c.log, config, corpus, recordings);
  }

  /** A run that does not fail ends because it is over. */
  lemma EndIsOver(starts: seq<StartOutcome>, visits: seq<Visit>, config: Config)
    requires config.concurrency > 0 && CourseOf(starts, visits, config).failure.None?
    ensures var last := CourseOf(starts, visits, config).last;
              last.active == [] && last.next == |last.done| == config.count
  {
    hide Conserved, SnapshotOf, CourseFrom, StartsIn, VisitsIn, Failure, TurnOf;
    StartingPoint(config);
    LogFollowsScript(Filling, NOTHING_STARTED, starts, visits, config);
    TraceIsChronicle(Filling, NOTHING_STARTED, starts, visits, config);
    TurnAtEnd(Filling, NOTHING_STARTED, starts, visits, config);
    var c := CourseOf(starts, visits, config);
    var phase :| TurnOf(phase, c.last, config) == c.turn;
    OverIsDone(phase, c.last, config);
  }

  /** The sorted report on an ordinal is one of the reports, and is about that ordinal. */
  lemma SortedAt(reports: seq<RequestReport>, n: nat, o: nat) returns (i: nat)
    requires multiset(Keys(reports, OrdinalOf)) == multiset(Range(n)) && |reports| == n && o < n
    ensures i < n && SortReports(reports)[o] == reports[i] && reports[i].ordinal == o
  {
    hide Sort;
    SortedKeysAreRange(reports, OrdinalOf, NotAfter, n);
    var sorted := SortReports(reports);
    assert Keys(sorted, OrdinalOf)[o] == o;
    assert sorted[o] in multiset(reports);
    i :| 0 <= i < |reports| && reports[i] == sorted[o];
  }

  lemma DoneInOrder(last: RunState, log: seq<Entry>, config: Config, corpus: seq<bytes>, recordings: map<nat, bytes>)
    requires corpus != [] && Conserved(SnapshotOf(last), config) && Sound(last, config) && Logged(last, log)
    requires last.active == [] && last.next == |last.done| == config.count && Recorded(last.done, config, recordings)
    ensures var reports := SortReports(Reports(last.done, corpus));
            && |reports| == config.count
            && (forall o: nat | o < config.count :: ShownFor(o, reports[o], recordings, log, corpus, config))
            && forall o | o in recordings :: o < config.count
  {
    hide Conserved, ShownFor, Sort, SortReports, EndSound, RecordedAs, PacketsIn, SlotLogged;
    var reports := Reports(last.done, corpus);
    AllDone(SnapshotOf(last), config);
    assert Keys(reports, OrdinalOf) == Completed(last.done);
    var sorted := SortReports(reports);
    forall o: nat | o < config.count
      ensures ShownFor(o, sorted[o], recordings, log, corpus, config)
    {
      var i := SortedAt(reports, config.count, o);
      EndedIsShown(last.done[i], recordings, log, corpus, config);
    }
    forall o | o in recordings
      ensures o < config.count
    {
      assert o in multiset(Completed(last.done));
    }
  }

  /** Runs a scenario. It takes the course that the script prescribes and fails exactly where that does.
      Otherwise it reports on every ordinal from 0 to count - 1, in order, and what it reports and records
      is true of the packets that the script emitted for that ordinal. */
  method ExecuteScenario(config: Config, corpus: seq<bytes>, starts: seq<StartOutcome>, visits: seq<Visit>)
    returns (r: Result<(seq<RequestReport>, map<nat, bytes>), ScenarioError>)
    requires corpus != []
    ensures config.count == 0 || config.concurrency == 0 ==> r == Err(ZeroConfig)
    ensures config.count > 0 && config.concurrency > 0 ==>
              var course := CourseOf(starts, visits, config);
              match course.failure
              case Some(e) => r == Err(e)
              case None =>
                && r.Ok? && r.value.0 == SortReports(Reports(course.last.done, corpus)) && |r.value.0| == config.count
                && (forall o: nat | o < config.count :: ShownFor(o, r.value.0[o], r.value.1, course.log, corpus,
                                                                 config))
                && forall o | o in r.value.1 :: o < config.count
  {
    hide Conserved, ActiveRequest.Valid, ScenarioRun.Requests, CourseFrom, SnapshotOf, Recorded, ShownFor, Sort;
    hide PassFrom;
    if config.count == 0 || config.concurrency == 0 {
      return Err(ZeroConfig);
    }
    var run := new ScenarioRun(config, corpus);
    ghost var course, log, trace := CourseOf(starts, visits, config), [], [];
    var s: nat, v: nat := 0, 0;
    assert starts[0..] == starts && visits[0..] == visits;
    NothingBefore(course);
    while |run.completed| < config.count
      invariant run.Valid() && run.config == config && run.corpus == corpus && fresh(run)
      invariant forall i | 0 <= i < |run.active| :: fresh(run.active[i])
      invariant s <= |starts| && v <= |visits|
      invariant course == CourseFrom(Filling, run.State(), starts[s..], visits[v..], config).After(log, trace)
      decreases |starts| - s + |visits| - v
    {
      ghost var was, begun := run.active, run.State();
      var filled;
      ghost var more, snapshots;
      filled, more, snapshots := run.FillSlots(starts, s, visits[v..]);
      if filled.Err? {
        return Err(filled.error);
      }
      forall i | 0 <= i < |run.active|
        ensures fresh(run.active[i])
      {
        if i < |was| {
          assert was[i] in was && run.active[i] == run.active[..|was|][i];
        }
      }
      CourseAfterTwice(CourseFrom(Polling(0), run.State(), starts[filled.value..], visits[v..], config), more,
                       snapshots, log, trace);
      log, trace := log + more, trace + snapshots;
      ghost var polling := run.State();
      var polled;
      ghost var pass;
      polled, pass := run.PollPass(visits, v, starts[filled.value..]);
      if polled.Err? {
        return Err(polled.error);
      }
      PassGoesOn(polling, starts[filled.value..], visits[v..], config, log, trace);
      assert visits[v..][|pass.value.log|..] == visits[polled.value..];
      if filled.value == s {
        OverIsDone(Polling(0), polling, config);
        ProgressMade(polling, visits[v..], config);
      }
      log, trace := log + pass.value.log, trace + pass.value.trace;
      s, v := filled.value, polled.value;
    }
    RunIsOver(run.State(), starts[s..], visits[v..], config);
    SortedReports(starts, visits, config, corpus, run.recordings);
    return Ok((SortReports(run.completed), run.recordings));
  }

  /** After a pass the run goes on as if it came to fill places. */
  lemma PassGoesOn(st: RunState, starts: seq<StartOutcome>, visits: seq<Visit>, config: Config, log: seq<Entry>,
                   trace: seq<Snapshot>)
    requires PassFrom(0, st, visits, config).Some?
    ensures var p := PassFrom(0, st, visits, config).value;
            CourseFrom(Polling(0), st, starts, visits, config).After(log, trace)
              == CourseFrom(Filling, p.after, starts, visits[|p.log|..], config).After(log + p.log, trace + p.trace)
  {
    hide CourseFrom, PassFrom;
    var p := PassFrom(0, st, visits, config).value;
    PassInCourse(0, st, starts, visits, config);
    SameTurn(Polling(p.end), Filling, p.after, starts, visits[|p.log|..], config);
    CourseAfterTwice(CourseFrom(Filling, p.after, starts, visits[|p.log|..], config), p.log, p.trace, log, trace);
  }

  /** A pass over any requests at all takes an answer. */
  lemma ProgressMade(st: RunState, visits: seq<Visit>, config: Config)
    requires PassFrom(0, st, visits, config).Some? && st.active != []
    ensures PassFrom(0, st, visits, config).value.log != []
  {
  }

  lemma RunIsOver(st: RunState, starts: seq<StartOutcome>, visits: seq<Visit>, config: Config)
    requires |st.done| >= config.count
    ensures var c := CourseFrom(Filling, st, starts, visits, config); c.failure.None? && c.last == st
  {
  }

  // ---- What a report means ----

  /** A report counts 1920 samples for every frame exactly when that product fits 64 bits and the wraps of
      the frame check cancel out, which takes 2^32 of them. */
  lemma ReportedSamples(report: RequestReport, packets: PacketList, corpus: seq<bytes>)
    requires corpus != [] && ReportOf(report, packets, corpus)
    ensures report.samples == SAMPLES_PER_FRAME * report.codecFrames
       <==> SAMPLES_PER_FRAME * report.codecFrames < U64_LIMIT && TotalWraps(packets) % 0x1_0000_0000 == 0
  {
    hide Contiguous, TotalFrames, TotalSamples, AllFramesFit, TailsUntouched, TotalWraps;
    SamplesAtMost(packets);
    CountersAgree(TotalFrames(packets), TotalSamples(packets), TotalWraps(packets));
  }

  lemma CountersAgree(frames: nat, samples: nat, wraps: nat)
    requires samples == SAMPLES_PER_FRAME * frames - 0x1_0000_0000 * wraps
    ensures Counter(samples) == SAMPLES_PER_FRAME * Counter(frames)
       <==> SAMPLES_PER_FRAME * Counter(frames) < U64_LIMIT && wraps % 0x1_0000_0000 == 0
  {
    hide Counter;
    CounterSplit(frames);
    CounterSplit(samples);
    HalfSplit(wraps);
    WrapsCancel(Counter(samples), Counter(frames), wraps % 0x1_0000_0000,
                SAMPLES_PER_FRAME * (frames / U64_LIMIT) - wraps / 0x1_0000_0000 - samples / U64_LIMIT);
  }

  lemma CounterSplit(n: nat)
    ensures n == U64_LIMIT * (n / U64_LIMIT) + Counter(n)
  {
  }

  lemma HalfSplit(n: nat)
    ensures n == 0x1_0000_0000 * (n / 0x1_0000_0000) + n % 0x1_0000_0000 && 0 <= n % 0x1_0000_0000 < 0x1_0000_0000
  {
  }

  lemma WrapsCancel(samples: u64, frames: u64, rest: nat, turns: int)
    requires samples == SAMPLES_PER_FRAME * frames - 0x1_0000_0000 * rest + U64_LIMIT * turns && rest < 0x1_0000_0000
    ensures samples == SAMPLES_PER_FRAME * frames <==> SAMPLES_PER_FRAME * frames < U64_LIMIT && rest == 0
  {
  }

  /** With fewer than 2^32 wraps, that is when every packet's own frame count fits. */
  lemma FewWraps(packets: PacketList)
    requires Contiguous(packets) && TotalWraps(packets) < 0x1_0000_0000
    ensures TotalWraps(packets) % 0x1_0000_0000 == 0 <==> AllFramesFit(packets)
  {
    hide Contiguous, TotalFrames, TotalSamples, AllFramesFit, TotalWraps;
    SamplesAtMost(packets);
  }

  /** A recording is a file that the client of the HTTP benchmark accepts, exactly if its request emitted
      a sample; it did unless a frame check wrapped. */
  lemma RecordingIsPlayable(ordinal: nat, report: RequestReport, recordings: map<nat, bytes>, log: seq<Entry>,
                            corpus: seq<bytes>, config: Config)
    requires corpus != [] && ShownFor(ordinal, report, recordings, log, corpus, config) && ordinal in recordings
    ensures var chunks := Wav.Recording(Wav.SAMPLE_RATE, AllAudio(PacketsIn(log, ordinal)));
            && Wav.IsRiffFile(recordings[ordinal], chunks)
            && (Wav.Playable(chunks) <==> TotalSamples(PacketsIn(log, ordinal)) > 0)
            && (AllFramesFit(PacketsIn(log, ordinal)) ==> Wav.Playable(chunks))
  {
    hide Wav.IsRiffFile, Wav.Recording, Wav.Playable, AllFramesFit, TotalSamples, Contiguous, PacketsIn;
    var packets := PacketsIn(log, ordinal);
    SamplesAtMost(packets);
    SomeFrames(packets);
    Wav.RecordingPlayable(Wav.SAMPLE_RATE, AllAudio(packets));
  }

  lemma SomeFrames(packets: PacketList)
    requires Contiguous(packets) && packets != []
    ensures TotalFrames(packets) > 0
  {
  }
}
