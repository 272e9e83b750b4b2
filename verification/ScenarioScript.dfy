/** The scenario loop of the benchmark against a script of runtime answers, as a function of the script:
    which answer is taken next, what it does, where the run stops, and what was logged on the way. */
module ScenarioScript {
  import opened Bytes
  import opened ActiveRequests
  import opened Sorting
  import Wav

  datatype FinishReason = NoReason | CodecEos | MaxCodecFrames

  datatype Metrics = Metrics(emittedPackets: u64, generatedCodecFrames: u64, emittedSamples: u64)

  datatype StartOutcome = Started(at: Instant) | StartBlocked | StartFailed

  /** A closing query that failed is `None`. */
  datatype PollOutcome = Emitted(packet: Packet) | PollBlocked | PollFailed
                       | EndOfStream(finishReason: Option<FinishReason>, metrics: Option<Metrics>, destroyed: bool)

  /** One visit to a request: the time of the visit and what polling gave. */
  datatype Visit = Visit(now: Instant, outcome: PollOutcome)

  datatype Config = Config(count: nat, concurrency: nat, requestTimeout: nat, saveAudioCount: nat, audioDir: bool)

  datatype ScenarioError = ZeroConfig | StartError | TimedOut | PollError | RefusedPacket | NoFinalPacket | NoAudio
                         | UnnaturalFinish | MetricsMismatch | QueryFailed | RecordingFailed | Unfinished

  function Elapsed(since: Instant, now: Instant): nat { if now >= since then now - since else 0 }

  // ---- Removal by swapping ----

  /** The last element takes the place of the removed one. */
  function SwapRemove<T>(s: seq<T>, i: nat): (r: seq<T>)
    requires i < |s|
    ensures |r| == |s| - 1
    ensures forall k | 0 <= k < |r| :: r[k] == if k == i then s[|s| - 1] else s[k]
  {
    if i == |s| - 1 then s[..|s| - 1] else s[..|s| - 1][i := s[|s| - 1]]
  }

  lemma SwapRemoveKeeps<T>(s: seq<T>, i: nat)
    requires i < |s|
    ensures multiset(SwapRemove(s, i)) + multiset{s[i]} == multiset(s)
  {
    var last := |s| - 1;
    if i == last {
      assert s == s[..last] + [s[last]];
    } else {
      SwapSplit(s, i);
      MovedLast(s[..i], s[i], s[i + 1..last], s[last]);
    }
  }

  lemma SwapSplit<T>(s: seq<T>, i: nat)
    requires i < |s| - 1
    ensures s == s[..i] + [s[i]] + s[i + 1..|s| - 1] + [s[|s| - 1]]
    ensures SwapRemove(s, i) == s[..i] + [s[|s| - 1]] + s[i + 1..|s| - 1]
  {
  }

  lemma MovedLast<T>(front: seq<T>, x: T, back: seq<T>, y: T)
    ensures multiset(front + [y] + back) + multiset{x} == multiset(front + [x] + back + [y])
  {
    assert multiset(front + [y] + back) == multiset(front) + multiset{y} + multiset(back);
    assert multiset(front + [x] + back + [y]) == multiset(front) + multiset{x} + multiset(back) + multiset{y};
  }

  // ---- What a run holds ----

  /** A request that runs: when it started, when its first packet came, and its packets so far. */
  datatype Slot = Slot(ordinal: nat, started: Instant, firstAudio: Option<Instant>, packets: PacketList)

  /** A request that ended well, and when. */
  datatype Ended = Ended(slot: Slot, at: Instant)

  datatype RunState = RunState(active: seq<Slot>, done: seq<Ended>, next: nat)

  const NOTHING_STARTED: RunState := RunState([], [], 0)

  /** Where the loop stands: filling free places, or visiting the request at an index. */
  datatype Phase = Filling | Polling(index: nat)

  // ---- When an answer is welcome ----

  /** What the runtime has to say about a request at its end. */
  predicate EndsWell(packets: PacketList, finishReason: Option<FinishReason>, metrics: Option<Metrics>,
                     destroyed: bool) {
    && packets != [] && packets[|packets| - 1].isFinal && finishReason == Some(CodecEos) && destroyed
    && metrics == Some(Metrics(Counter(|packets|), Counter(TotalFrames(packets)), Counter(TotalSamples(packets))))
  }

  /** The audio of a recorded request has to fit a WAV file. */
  predicate Savable(ordinal: nat, packets: PacketList, config: Config) {
    config.audioDir && ordinal < config.saveAudioCount ==> Wav.Recordable(AllAudio(packets))
  }

  /** The visits that a run survives. */
  predicate Welcome(slot: Slot, visit: Visit, config: Config) {
    && visit.now <= slot.started + config.requestTimeout
    && match visit.outcome
       case Emitted(packet) => Delivered(packet) && Continues(slot.packets, packet)
       case PollBlocked => true
       case PollFailed => false
       case EndOfStream(finishReason, metrics, destroyed) =>
         EndsWell(slot.packets, finishReason, metrics, destroyed) && Savable(slot.ordinal, slot.packets, config)
  }

  /** The first check at its end that a request does not pass. */
  function EndFailure(slot: Slot, finishReason: Option<FinishReason>, metrics: Option<Metrics>,
                      destroyed: bool): Option<ScenarioError> {
    var packets := slot.packets;
    if packets == [] || !packets[|packets| - 1].isFinal then Some(NoFinalPacket)
    else if slot.firstAudio.None? then Some(NoAudio)
    else if finishReason.None? then Some(QueryFailed)
    else if finishReason.value != CodecEos then Some(UnnaturalFinish)
    else if metrics.None? then Some(QueryFailed)
    else if metrics.value != Metrics(Counter(|packets|), Counter(TotalFrames(packets)), Counter(TotalSamples(packets)))
    then Some(MetricsMismatch)
    else if destroyed then None else Some(QueryFailed)
  }

  function AtEnd(slot: Slot, finishReason: Option<FinishReason>, metrics: Option<Metrics>, destroyed: bool,
                 config: Config): Option<ScenarioError> {
    var failure := EndFailure(slot, finishReason, metrics, destroyed);
    if failure.Some? then failure else if Savable(slot.ordinal, slot.packets, config) then None
       else Some(RecordingFailed)
  }

  /** The error that a visit ends the run with. */
  function Failure(slot: Slot, visit: Visit, config: Config): Option<ScenarioError> {
    if Elapsed(slot.started, visit.now) > config.requestTimeout then Some(TimedOut)
    else match visit.outcome
      case Emitted(packet) =>
        if !Delivered(packet) then Some(PollError) else if Continues(slot.packets, packet) then None
           else Some(RefusedPacket)
      case PollBlocked => None
      case PollFailed => Some(PollError)
      case EndOfStream(finishReason, metrics, destroyed) => AtEnd(slot, finishReason, metrics, destroyed, config)
  }

  /** The failures are those of the visits that are not welcome. */
  lemma WelcomeIff(slot: Slot, visit: Visit, config: Config)
    requires slot.packets != [] ==> slot.firstAudio.Some?
    ensures Failure(slot, visit, config).None? <==> Welcome(slot, visit, config)
  {
    hide TotalFrames, TotalSamples, Continues, Savable, Delivered, Counter;
  }

  // ---- One turn ----

  /** What the loop does next. */
  datatype Turn = TakeStart | TakeVisit(index: nat) | Over

  /** A pass that has visited every request ends the run or goes back to filling. */
  function TurnOf(phase: Phase, st: RunState, config: Config): (turn: Turn)
    ensures turn.TakeVisit? ==> turn.index < |st.active|
  {
    if phase.Polling? && phase.index < |st.active| then TakeVisit(phase.index)
    else if |st.done| >= config.count then Over
    else if |st.active| < config.concurrency && st.next < config.count then TakeStart
    else if st.active == [] then Over
    else TakeVisit(0)
  }

  function AfterStart(st: RunState, at: Instant): RunState {
    RunState(st.active + [Slot(st.next, at, None, [])], st.done, st.next + 1)
  }

  function WithPacket(slot: Slot, packet: Packet, now: Instant): Slot
    requires Delivered(packet)
  {
    Slot(slot.ordinal, slot.started, if slot.firstAudio.None? then Some(now)
         else slot.firstAudio, slot.packets + [packet])
  }

  function AfterVisit(st: RunState, index: nat, visit: Visit): RunState
    requires index < |st.active|
  {
    match visit.outcome
    case Emitted(packet) =>
      if Delivered(packet) then st.(active := st.active[index := WithPacket(st.active[index], packet, visit.now)])
         else st
    case EndOfStream(_, _, _) =>
      RunState(SwapRemove(st.active, index), st.done + [Ended(st.active[index], visit.now)], st.next)
    case _ => st
  }

  /** After a removal the request that was swapped in is visited next. */
  function PhaseAfter(index: nat, visit: Visit): Phase {
    Polling(if visit.outcome.EndOfStream? then index else index + 1)
  }

  // ---- The whole run ----

  datatype Entry = Begun(ordinal: nat, at: Instant) | Declined | Visited(ordinal: nat, visit: Visit)

  /** What an outside observer sees of a state. */
  datatype Snapshot = Snapshot(active: seq<nat>, completed: seq<nat>, next: nat)

  function Active(active: seq<Slot>): (r: seq<nat>)
    ensures |r| == |active|
  {
    seq(|active|, i requires 0 <= i < |active| => active[i].ordinal)
  }

  function Completed(done: seq<Ended>): (r: seq<nat>)
    ensures |r| == |done|
  {
    seq(|done|, i requires 0 <= i < |done| => done[i].slot.ordinal)
  }

  function SnapshotOf(st: RunState): Snapshot {
    Snapshot(Active(st.active), Completed(st.done), st.next)
  }

  /** The log of a run, a snapshot after every entry, the state in which it stopped and what was to be
      done next, and why it failed, if it did. */
  datatype Course = Course(log: seq<Entry>, trace: seq<Snapshot>, last: RunState, turn: Turn,
                           failure: Option<ScenarioError>) {
    function After(log: seq<Entry>, trace: seq<Snapshot>): Course {
      Course(log + this.log, trace + this.trace, last, turn, failure)
    }
  }

  /** One turn: it takes an answer of the script and goes on, or it stops. */
  datatype Step = Go(entry: Entry, phase: Phase, st: RunState, starts: seq<StartOutcome>, visits: seq<Visit>)
    | Stop(failure: Option<ScenarioError>)

  function StepOf(phase: Phase, st: RunState, starts: seq<StartOutcome>, visits: seq<Visit>,
                  config: Config): (step: Step)
    ensures step.Go? ==> |step.starts| + |step.visits| < |starts| + |visits|
  {
    match TurnOf(phase, st, config)
    case Over => Stop(None)
    case TakeStart => (
      if starts == [] then Stop(Some(Unfinished))
      else match starts[0]
        case Started(at) => Go(Begun(st.next, at), Filling, AfterStart(st, at), starts[1..], visits)
        case StartBlocked => Go(Declined, Polling(0), st, starts[1..], visits)
        case StartFailed => Stop(Some(StartError)))
    case TakeVisit(i) =>
      if visits == [] then Stop(Some(Unfinished))
      else if Failure(st.active[i], visits[0], config).Some? then Stop(Failure(st.active[i], visits[0], config))
      else Go(Visited(st.active[i].ordinal, visits[0]), PhaseAfter(i, visits[0]), AfterVisit(st, i, visits[0]), starts,
              visits[1..])
  }

  /** The course from a state on; the snapshots are those after each entry. */
  function CourseFrom(phase: Phase, st: RunState, starts: seq<StartOutcome>, visits: seq<Visit>, config: Config): Course
    decreases |starts| + |visits|
  {
    match StepOf(phase, st, starts, visits, config)
    case Stop(failure) => Course([], [], st, TurnOf(phase, st, config), failure)
    case Go(entry, next, after, moreStarts, moreVisits) =>
      CourseFrom(next, after, moreStarts, moreVisits, config).After([entry], [SnapshotOf(after)])
  }

  /** Only what is to be done next matters, not how the loop came to it. */
  lemma SameTurn(phase: Phase, other: Phase, st: RunState, starts: seq<StartOutcome>, visits: seq<Visit>,
                 config: Config)
    requires TurnOf(phase, st, config) == TurnOf(other, st, config)
    ensures CourseFrom(phase, st, starts, visits, config) == CourseFrom(other, st, starts, visits, config)
  {
    hide AfterVisit, AfterStart, Failure, SnapshotOf;
  }

  // ---- The log is the script, as far as the run went ----

  function StartsIn(log: seq<Entry>): seq<StartOutcome> {
    if log == [] then []
    else
      (match log[0] case Begun(_, at) => [Started(at)] case Declined => [StartBlocked] case Visited(_, _) => [])
      + StartsIn(log[1..])
  }

  function VisitsIn(log: seq<Entry>): seq<Visit> {
    if log == [] then [] else (if log[0].Visited? then [log[0].visit] else []) + VisitsIn(log[1..])
  }

  /** Why a run stops where it does: it is over, or the next answer is missing or not welcome. */
  predicate StopsThere(turn: Turn, st: RunState, failure: Option<ScenarioError>, starts: seq<StartOutcome>,
                       visits: seq<Visit>, config: Config) {
    match turn
    case Over => failure.None?
    case TakeStart => if starts == [] then failure == Some(Unfinished)
      else starts[0] == StartFailed && failure == Some(StartError)
    case TakeVisit(i) =>
      if visits == [] then failure == Some(Unfinished)
      else i < |st.active| && failure.Some? && failure == Failure(st.active[i], visits[0], config)
  }

  /** A turn that goes on takes exactly the answer that its entry shows. */
  lemma StepTakes(phase: Phase, st: RunState, starts: seq<StartOutcome>, visits: seq<Visit>, config: Config)
    ensures match StepOf(phase, st, starts, visits, config)
            case Stop(failure) => StopsThere(TurnOf(phase, st, config), st, failure, starts, visits, config)
            case Go(entry, _, _, moreStarts, moreVisits) =>
              starts == StartsIn([entry]) + moreStarts && visits == VisitsIn([entry]) + moreVisits
  {
    hide AfterVisit, AfterStart, Failure;
  }

  lemma EntryFirst(entry: Entry, log: seq<Entry>)
    ensures StartsIn([entry] + log) == StartsIn([entry]) + StartsIn(log)
    ensures VisitsIn([entry] + log) == VisitsIn([entry]) + VisitsIn(log)
  {
    assert ([entry] + log)[1..] == log && [entry][1..] == [];
  }

  /** The log takes the answers of the script in order and leaves none out, and the run stops at the first
      one that it does not survive. */
  lemma {:induction false} LogFollowsScript(phase: Phase, st: RunState, starts: seq<StartOutcome>, visits: seq<Visit>,
                                            config: Config)
    ensures var c := CourseFrom(phase, st, starts, visits, config);
            && StartsIn(c.log) <= starts && VisitsIn(c.log) <= visits
            && StopsThere(c.turn, c.last, c.failure, starts[|StartsIn(c.log)|..], visits[|VisitsIn(c.log)|..], config)
    decreases |starts| + |visits|
  {
    hide StepOf, SnapshotOf, StopsThere, StartsIn, VisitsIn;
    StepTakes(phase, st, starts, visits, config);
    match StepOf(phase, st, starts, visits, config)
    case Stop(failure) =>
      NothingLogged();
      assert starts[0..] == starts && visits[0..] == visits;
    case Go(entry, next, after, moreStarts, moreVisits) =>
      LogFollowsScript(next, after, moreStarts, moreVisits, config);
      var rest := CourseFrom(next, after, moreStarts, moreVisits, config).log;
      EntryFirst(entry, rest);
      assert starts[|StartsIn([entry] + rest)|..] == moreStarts[|StartsIn(rest)|..];
      assert visits[|VisitsIn([entry] + rest)|..] == moreVisits[|VisitsIn(rest)|..];
  }

  lemma NothingLogged()
    ensures StartsIn([]) == [] && VisitsIn([]) == []
  {
  }

  // ---- Every ordinal is in one place ----

  /** Every ordinal that was handed out is active or completed, never both and never twice. */
  predicate Conserved(s: Snapshot, config: Config) {
    && |s.active| <= config.concurrency && s.next <= config.count
    && multiset(s.active) + multiset(s.completed) == multiset(Range(s.next))
  }

  /** The only changes: the next ordinal becomes active, or one active ordinal is completed. */
  predicate Changes(before: Snapshot, entry: Entry, after: Snapshot) {
    match entry
    case Begun(ordinal, _) => ordinal == before.next
      && after == Snapshot(before.active + [ordinal], before.completed, ordinal + 1)
    case Declined => after == before
    case Visited(ordinal, visit) =>
      exists i | 0 <= i < |before.active| ::
        before.active[i] == ordinal
        && after == if visit.outcome.EndOfStream?
           then Snapshot(SwapRemove(before.active, i), before.completed + [ordinal], before.next) else before
  }

  lemma ConservedStart(s: Snapshot, config: Config)
    requires Conserved(s, config) && |s.active| < config.concurrency && s.next < config.count
    ensures Conserved(Snapshot(s.active + [s.next], s.completed, s.next + 1), config)
  {
    RangeNext(s.next);
  }

  lemma ConservedFinish(s: Snapshot, config: Config, i: nat)
    requires Conserved(s, config) && i < |s.active|
    ensures Conserved(Snapshot(SwapRemove(s.active, i), s.completed + [s.active[i]], s.next), config)
  {
    SwapRemoveKeeps(s.active, i);
    assert multiset(s.completed + [s.active[i]]) == multiset(s.completed) + multiset{s.active[i]};
  }

  lemma ConservedCount(s: Snapshot, config: Config)
    requires Conserved(s, config)
    ensures |s.active| + |s.completed| == s.next
  {
    assert |multiset(s.active) + multiset(s.completed)| == |s.active| + |s.completed|;
    assert |multiset(Range(s.next))| == s.next;
  }

  lemma ActiveChanges(active: seq<Slot>, done: seq<Ended>, slot: Slot, ended: Ended, i: nat)
    requires i < |active|
    ensures Active(active + [slot]) == Active(active) + [slot.ordinal]
    ensures Active(SwapRemove(active, i)) == SwapRemove(Active(active), i)
    ensures slot.ordinal == active[i].ordinal ==> Active(active[i := slot]) == Active(active)
    ensures Completed(done + [ended]) == Completed(done) + [ended.slot.ordinal]
  {
  }

  lemma StartChanges(st: RunState, at: Instant)
    ensures SnapshotOf(AfterStart(st, at)) == Snapshot(Active(st.active) + [st.next], Completed(st.done), st.next + 1)
  {
  }

  lemma VisitChanges(st: RunState, i: nat, visit: Visit)
    requires i < |st.active|
    ensures Changes(SnapshotOf(st), Visited(st.active[i].ordinal, visit), SnapshotOf(AfterVisit(st, i, visit)))
  {
    hide Active, Completed, SwapRemove;
    ActiveAt(st.active, i);
    match visit.outcome
    case Emitted(packet) =>
      if Delivered(packet) {
        ActiveChanges(st.active, st.done, WithPacket(st.active[i], packet, visit.now), Ended(st.active[i], visit.now),
                      i);
      }
    case EndOfStream(_, _, _) => ActiveChanges(st.active, st.done, st.active[i], Ended(st.active[i], visit.now), i);
    case _ =>
  }

  lemma ActiveAt(active: seq<Slot>, i: nat)
    requires i < |active|
    ensures Active(active)[i] == active[i].ordinal
  {
  }

  /** A turn changes at most one place, and keeps every ordinal. */
  lemma StepConserves(phase: Phase, st: RunState, starts: seq<StartOutcome>, visits: seq<Visit>, config: Config)
    requires StepOf(phase, st, starts, visits, config).Go?
    ensures var step := StepOf(phase, st, starts, visits, config);
            && Changes(SnapshotOf(st), step.entry, SnapshotOf(step.st))
            && (Conserved(SnapshotOf(st), config) ==> Conserved(SnapshotOf(step.st), config))
  {
    hide AfterVisit, AfterStart, Active, Completed, SwapRemove, Failure, Conserved;
    match TurnOf(phase, st, config)
    case Over =>
    case TakeStart =>
      if starts[0].Started? {
        StartChanges(st, starts[0].at);
        if Conserved(SnapshotOf(st), config) {
          ConservedStart(SnapshotOf(st), config);
        }
      }
    case TakeVisit(i) =>
      VisitChanges(st, i, visits[0]);
      if Conserved(SnapshotOf(st), config) {
        VisitConserves(st, i, visits[0], config);
      }
  }

  lemma VisitConserves(st: RunState, i: nat, visit: Visit, config: Config)
    requires Conserved(SnapshotOf(st), config) && i < |st.active|
    ensures Conserved(SnapshotOf(AfterVisit(st, i, visit)), config)
  {
    hide Conserved, SnapshotOf, AfterVisit;
    VisitChanges(st, i, visit);
    ChangesConserve(SnapshotOf(st), Visited(st.active[i].ordinal, visit), SnapshotOf(AfterVisit(st, i, visit)), config);
  }

  lemma ChangesConserve(before: Snapshot, entry: Entry, after: Snapshot, config: Config)
    requires Changes(before, entry, after) && Conserved(before, config) && entry.Visited?
    ensures Conserved(after, config)
  {
    hide Conserved;
    var i :| 0 <= i < |before.active| && before.active[i] == entry.ordinal
             && after == if entry.visit.outcome.EndOfStream?
                then Snapshot(SwapRemove(before.active, i), before.completed + [entry.ordinal], before.next)
                else before;
    ConservedFinish(before, config, i);
  }

  /** Snapshot `k` of a chronicle is what entry `k` made of the one before. */
  predicate Chronicle(before: Snapshot, log: seq<Entry>, trace: seq<Snapshot>) {
    |log| == |trace| && forall k | 0 <= k < |log| :: Changes(([before] + trace)[k], log[k], trace[k])
  }

  lemma ChronicleFirst(before: Snapshot, entry: Entry, after: Snapshot, log: seq<Entry>, trace: seq<Snapshot>)
    requires Changes(before, entry, after) && Chronicle(after, log, trace)
    ensures Chronicle(before, [entry] + log, [after] + trace)
  {
    hide Changes;
    forall k | 0 <= k < |[entry] + log|
      ensures Changes(([before] + ([after] + trace))[k], ([entry] + log)[k], ([after] + trace)[k])
    {
      if k > 0 {
        assert Changes(([after] + trace)[k - 1], log[k - 1], trace[k - 1]);
      }
    }
  }

  /** The snapshots of a run follow from its log one change at a time, end with the state in which it
      stops, and conserve the ordinals if the first does. */
  lemma {:induction false} TraceIsChronicle(phase: Phase, st: RunState, starts: seq<StartOutcome>, visits: seq<Visit>,
                                            config: Config)
    ensures var c := CourseFrom(phase, st, starts, visits, config);
            && Chronicle(SnapshotOf(st), c.log, c.trace)
            && ([SnapshotOf(st)] + c.trace)[|c.trace|] == SnapshotOf(c.last)
            && (Conserved(SnapshotOf(st), config)
                ==> Conserved(SnapshotOf(c.last), config) && forall t | t in c.trace :: Conserved(t, config))
    decreases |starts| + |visits|
  {
    hide StepOf, SnapshotOf, Changes, Chronicle, Conserved;
    match StepOf(phase, st, starts, visits, config)
    case Stop(failure) => EmptyChronicle(SnapshotOf(st));
    case Go(entry, next, after, moreStarts, moreVisits) =>
      StepConserves(phase, st, starts, visits, config);
      TraceIsChronicle(next, after, moreStarts, moreVisits, config);
      var c := CourseFrom(next, after, moreStarts, moreVisits, config);
      ChronicleFirst(SnapshotOf(st), entry, SnapshotOf(after), c.log, c.trace);
  }

  lemma EmptyChronicle(before: Snapshot)
    ensures Chronicle(before, [], [])
  {
  }

  /** An active ordinal has not been completed, and is active once. */
  lemma OnceOnly(s: Snapshot, config: Config, index: nat)
    requires Conserved(s, config) && index < |s.active|
    ensures s.active[index] !in s.completed && s.active[index] < s.next
    ensures forall k | 0 <= k < |s.active| && s.active[k] == s.active[index] :: k == index
  {
    var o := s.active[index];
    RangeOnce(s.next, o);
    assert o in multiset(s.active);
    assert (multiset(s.active) + multiset(s.completed))[o] == multiset(s.active)[o] + multiset(s.completed)[o];
    assert multiset(s.completed)[o] == 0;
    forall k | 0 <= k < |s.active| && s.active[k] == o
      ensures k == index
    {
      if k != index {
        OccursTwice(s.active, k, index);
      }
    }
  }

  lemma OccursTwice(s: seq<nat>, i: nat, j: nat)
    requires i < |s| && j < |s| && i != j && s[i] == s[j]
    ensures multiset(s)[s[i]] >= 2
  {
    var (lo, hi) := if i < j then (i, j) else (j, i);
    assert s == s[..hi] + [s[hi]] + s[hi + 1..];
    assert s[lo] == s[..hi][lo];
    assert s[lo] in multiset(s[..hi]);
  }

  // ---- What the requests emitted ----

  /** The packets that were emitted for an ordinal, in the order of the log. */
  function PacketsIn(log: seq<Entry>, ordinal: nat): PacketList {
    if log == [] then [] else PacketsIn(log[..|log| - 1], ordinal) + Emission(log[|log| - 1], ordinal)
  }

  function Emission(entry: Entry, ordinal: nat): PacketList {
    if entry.Visited? && entry.ordinal == ordinal && entry.visit.outcome.Emitted?
       && Delivered(entry.visit.outcome.packet)
    then [entry.visit.outcome.packet] else []
  }

  // ---- When a request began, emitted its first packet, and ended ----

  function FirstOf(earlier: Option<Instant>, later: Option<Instant>): Option<Instant> {
    if earlier.Some? then earlier else later
  }

  /** The time of the entry that began a request. */
  function BeginIn(log: seq<Entry>, ordinal: nat): Option<Instant> {
    if log == [] then None
    else FirstOf(BeginIn(log[..|log| - 1], ordinal), BeginAt(log[|log| - 1], ordinal))
  }

  function BeginAt(entry: Entry, ordinal: nat): Option<Instant> {
    if entry.Begun? && entry.ordinal == ordinal then Some(entry.at) else None
  }

  /** The time of the first visit that gave a packet of the request. */
  function FirstPacketIn(log: seq<Entry>, ordinal: nat): Option<Instant> {
    if log == [] then None
    else FirstOf(FirstPacketIn(log[..|log| - 1], ordinal), PacketAt(log[|log| - 1], ordinal))
  }

  function PacketAt(entry: Entry, ordinal: nat): Option<Instant> {
    if entry.Visited? && entry.ordinal == ordinal && entry.visit.outcome.Emitted? then Some(entry.visit.now) else None
  }

  /** The time of the visit that found the request at its end. */
  function EndIn(log: seq<Entry>, ordinal: nat): Option<Instant> {
    if log == [] then None else FirstOf(EndIn(log[..|log| - 1], ordinal), EndedAt(log[|log| - 1], ordinal))
  }

  function EndedAt(entry: Entry, ordinal: nat): Option<Instant> {
    if entry.Visited? && entry.ordinal == ordinal && entry.visit.outcome.EndOfStream? then Some(entry.visit.now)
    else None
  }

  /** A request is what the log shows of it: its packets, its beginning and its first packet. */
  predicate SlotLogged(slot: Slot, log: seq<Entry>) {
    && slot.packets == PacketsIn(log, slot.ordinal)
    && BeginIn(log, slot.ordinal) == Some(slot.started) && FirstPacketIn(log, slot.ordinal) == slot.firstAudio
  }

  predicate Unseen(ordinal: nat, log: seq<Entry>) {
    && PacketsIn(log, ordinal) == [] && BeginIn(log, ordinal).None? && FirstPacketIn(log, ordinal).None?
    && EndIn(log, ordinal).None?
  }

  /** Every request holds exactly what the log shows of it, and later ones have not been seen yet. */
  ghost predicate Logged(st: RunState, log: seq<Entry>) {
    && (forall i | 0 <= i < |st.active| :: SlotLogged(st.active[i], log) && EndIn(log, st.active[i].ordinal).None?)
    && (forall i | 0 <= i < |st.done| ::
          SlotLogged(st.done[i].slot, log) && EndIn(log, st.done[i].slot.ordinal) == Some(st.done[i].at))
    && (forall o: nat | o >= st.next :: Unseen(o, log))
  }

  predicate About(entry: Entry, ordinal: nat) {
    !entry.Declined? && entry.ordinal == ordinal
  }

  lemma EntryAdded(log: seq<Entry>, entry: Entry, ordinal: nat)
    ensures PacketsIn(log + [entry], ordinal) == PacketsIn(log, ordinal) + Emission(entry, ordinal)
    ensures BeginIn(log + [entry], ordinal) == FirstOf(BeginIn(log, ordinal), BeginAt(entry, ordinal))
    ensures FirstPacketIn(log + [entry], ordinal) == FirstOf(FirstPacketIn(log, ordinal), PacketAt(entry, ordinal))
    ensures EndIn(log + [entry], ordinal) == FirstOf(EndIn(log, ordinal), EndedAt(entry, ordinal))
  {
    assert (log + [entry])[..|log|] == log;
  }

  /** An entry changes nothing for the requests it is not about. */
  lemma NotAbout(log: seq<Entry>, entry: Entry, slot: Slot)
    requires !About(entry, slot.ordinal)
    ensures SlotLogged(slot, log + [entry]) == SlotLogged(slot, log)
    ensures EndIn(log + [entry], slot.ordinal) == EndIn(log, slot.ordinal)
    ensures Unseen(slot.ordinal, log + [entry]) == Unseen(slot.ordinal, log)
  {
    hide PacketsIn, BeginIn, FirstPacketIn, EndIn;
    EntryAdded(log, entry, slot.ordinal);
    assert PacketsIn(log, slot.ordinal) + [] == PacketsIn(log, slot.ordinal);
  }

  lemma StillUnseen(log: seq<Entry>, entry: Entry, from: nat)
    requires forall o: nat | o >= from :: Unseen(o, log) && !About(entry, o)
    ensures forall o: nat | o >= from :: Unseen(o, log + [entry])
  {
    hide Unseen, SlotLogged, About;
    forall o: nat | o >= from
      ensures Unseen(o, log + [entry])
    {
      NotAbout(log, entry, Slot(o, 0, None, []));
    }
  }

  /** What a visit does to the request it visits. */
  lemma SlotVisited(log: seq<Entry>, slot: Slot, visit: Visit, config: Config)
    requires SlotLogged(slot, log) && EndIn(log, slot.ordinal).None? && Failure(slot, visit, config).None?
    ensures var more := log + [Visited(slot.ordinal, visit)];
            match visit.outcome
            case Emitted(packet) =>
              Delivered(packet) && SlotLogged(WithPacket(slot, packet, visit.now), more)
                && EndIn(more, slot.ordinal).None?
            case EndOfStream(_, _, _) => SlotLogged(slot, more) && EndIn(more, slot.ordinal) == Some(visit.now)
            case _ => SlotLogged(slot, more) && EndIn(more, slot.ordinal).None?
  {
    hide PacketsIn, BeginIn, FirstPacketIn, EndIn, AtEnd, Continues;
    EntryAdded(log, Visited(slot.ordinal, visit), slot.ordinal);
    assert slot.packets + [] == slot.packets;
  }

  /** One visit changes the request that is visited and no other. */
  lemma VisitLogged(st: RunState, i: nat, visit: Visit, log: seq<Entry>, config: Config)
    requires Logged(st, log) && Conserved(SnapshotOf(st), config) && i < |st.active|
             && Failure(st.active[i], visit, config).None?
    ensures Logged(AfterVisit(st, i, visit), log + [Visited(st.active[i].ordinal, visit)])
  {
    hide PacketsIn, BeginIn, FirstPacketIn, EndIn, Failure, Conserved, SwapRemove, Delivered, SlotLogged, Unseen;
    var entry := Visited(st.active[i].ordinal, visit);
    OnceOnly(SnapshotOf(st), config, i);
    SlotVisited(log, st.active[i], visit, config);
    forall k | 0 <= k < |st.done|
      ensures SlotLogged(st.done[k].slot, log + [entry])
              && EndIn(log + [entry], st.done[k].slot.ordinal) == Some(st.done[k].at)
    {
      assert Completed(st.done)[k] == st.done[k].slot.ordinal;
      NotAbout(log, entry, st.done[k].slot);
    }
    forall k | 0 <= k < |st.active| && k != i
      ensures SlotLogged(st.active[k], log + [entry]) && EndIn(log + [entry], st.active[k].ordinal).None?
    {
      assert Active(st.active)[k] == st.active[k].ordinal;
      NotAbout(log, entry, st.active[k]);
    }
    StillUnseen(log, entry, st.next);
  }

  lemma DeliveredIfWelcome(slot: Slot, visit: Visit, config: Config)
    requires Failure(slot, visit, config).None? && visit.outcome.Emitted?
    ensures Delivered(visit.outcome.packet) && Continues(slot.packets, visit.outcome.packet)
  {
    hide Continues;
  }

  lemma OthersLogged(st: RunState, log: seq<Entry>, entry: Entry, from: nat)
    requires Logged(st, log) && st.next <= from
    requires forall i | 0 <= i < |st.active| :: !About(entry, st.active[i].ordinal)
    requires forall i | 0 <= i < |st.done| :: !About(entry, st.done[i].slot.ordinal)
    requires forall o: nat | o >= from :: !About(entry, o)
    ensures Logged(st.(next := from), log + [entry])
  {
    hide SlotLogged, Unseen, EndIn, About;
    forall k | 0 <= k < |st.done|
      ensures SlotLogged(st.done[k].slot, log + [entry])
              && EndIn(log + [entry], st.done[k].slot.ordinal) == Some(st.done[k].at)
    {
      NotAbout(log, entry, st.done[k].slot);
    }
    forall k | 0 <= k < |st.active|
      ensures SlotLogged(st.active[k], log + [entry]) && EndIn(log + [entry], st.active[k].ordinal).None?
    {
      NotAbout(log, entry, st.active[k]);
    }
    StillUnseen(log, entry, from);
  }

  lemma StartLogged(st: RunState, at: Instant, log: seq<Entry>, config: Config)
    requires Logged(st, log) && Conserved(SnapshotOf(st), config)
    ensures Logged(AfterStart(st, at), log + [Begun(st.next, at)])
  {
    hide PacketsIn, BeginIn, FirstPacketIn, EndIn, SlotLogged, Conserved;
    var entry := Begun(st.next, at);
    BelowNext(st, config);
    OthersLogged(st, log, entry, st.next + 1);
    SlotBegun(log, st.next, at);
  }

  lemma SlotBegun(log: seq<Entry>, ordinal: nat, at: Instant)
    requires Unseen(ordinal, log)
    ensures SlotLogged(Slot(ordinal, at, None, []), log + [Begun(ordinal, at)])
            && EndIn(log + [Begun(ordinal, at)], ordinal).None?
  {
    hide PacketsIn, BeginIn, FirstPacketIn, EndIn;
    EntryAdded(log, Begun(ordinal, at), ordinal);
  }

  lemma BelowNext(st: RunState, config: Config)
    requires Conserved(SnapshotOf(st), config)
    ensures forall i | 0 <= i < |st.active| :: st.active[i].ordinal < st.next
    ensures forall i | 0 <= i < |st.done| :: st.done[i].slot.ordinal < st.next
  {
    var s := SnapshotOf(st);
    forall i | 0 <= i < |st.active|
      ensures st.active[i].ordinal < st.next
    {
      assert s.active[i] == st.active[i].ordinal && s.active[i] in multiset(s.active) + multiset(s.completed);
      RangeOnce(s.next, s.active[i]);
    }
    forall i | 0 <= i < |st.done|
      ensures st.done[i].slot.ordinal < st.next
    {
      assert s.completed[i] == st.done[i].slot.ordinal && s.completed[i] in multiset(s.active) + multiset(s.completed);
      RangeOnce(s.next, s.completed[i]);
    }
  }

  lemma DeclineLogged(st: RunState, log: seq<Entry>)
    requires Logged(st, log)
    ensures Logged(st, log + [Declined])
  {
    hide Logged;
    OthersLogged(st, log, Declined, st.next);
  }

  lemma StepLogged(phase: Phase, st: RunState, starts: seq<StartOutcome>, visits: seq<Visit>, config: Config,
                   log: seq<Entry>)
    requires StepOf(phase, st, starts, visits, config).Go? && Logged(st, log) && Conserved(SnapshotOf(st), config)
    ensures var step := StepOf(phase, st, starts, visits, config); Logged(step.st, log + [step.entry])
  {
    hide Logged, AfterVisit, AfterStart, Failure, Conserved, SnapshotOf;
    match TurnOf(phase, st, config)
    case Over =>
    case TakeStart => if starts[0].Started? { StartLogged(st, starts[0].at, log, config); }
      else { DeclineLogged(st, log); }
    case TakeVisit(i) => VisitLogged(st, i, visits[0], log, config);
  }

  /** Whatever a request holds when the run stops was emitted for it according to the log, and nothing
      that was emitted for it is missing. */
  lemma {:induction false} HeldIsLogged(phase: Phase, st: RunState, starts: seq<StartOutcome>, visits: seq<Visit>,
                                        config: Config, log: seq<Entry>)
    requires Logged(st, log) && Conserved(SnapshotOf(st), config)
    ensures var c := CourseFrom(phase, st, starts, visits, config); Logged(c.last, log + c.log)
    decreases |starts| + |visits|
  {
    hide StepOf, SnapshotOf, Logged, Conserved;
    match StepOf(phase, st, starts, visits, config)
    case Stop(failure) => assert log + [] == log;
    case Go(entry, next, after, moreStarts, moreVisits) =>
      StepLogged(phase, st, starts, visits, config, log);
      StepConserves(phase, st, starts, visits, config);
      HeldIsLogged(next, after, moreStarts, moreVisits, config, log + [entry]);
      var rest := CourseFrom(next, after, moreStarts, moreVisits, config).log;
      assert log + [entry] + rest == log + ([entry] + rest);
  }

  // ---- What a request has to be ----

  predicate SlotSound(slot: Slot) {
    Contiguous(slot.packets) && (slot.firstAudio.Some? <==> slot.packets != [])
  }

  /** Ended requests have a final packet, and a place in a file if they are to be saved. */
  predicate EndSound(ended: Ended, config: Config) {
    var packets := ended.slot.packets;
    SlotSound(ended.slot) && packets != [] && packets[|packets| - 1].isFinal
      && Savable(ended.slot.ordinal, packets, config)
  }

  predicate Sound(st: RunState, config: Config) {
    && (forall i | 0 <= i < |st.active| :: SlotSound(st.active[i]))
    && (forall i | 0 <= i < |st.done| :: EndSound(st.done[i], config))
  }

  lemma PacketSound(slot: Slot, packet: Packet, now: Instant)
    requires SlotSound(slot) && Delivered(packet) && Continues(slot.packets, packet)
    ensures SlotSound(WithPacket(slot, packet, now))
  {
    hide TotalFrames, TotalSamples, AllAudio, TailsUntouched, Continues;
    AcceptedTotals(slot.packets, packet);
  }

  lemma EndIsSound(slot: Slot, visit: Visit, config: Config)
    requires SlotSound(slot) && Failure(slot, visit, config).None? && visit.outcome.EndOfStream?
    ensures EndSound(Ended(slot, visit.now), config)
  {
    hide TotalFrames, TotalSamples, Contiguous, Savable;
  }

  lemma VisitSound(st: RunState, i: nat, visit: Visit, config: Config)
    requires Sound(st, config) && i < |st.active| && Failure(st.active[i], visit, config).None?
    ensures Sound(AfterVisit(st, i, visit), config)
  {
    hide SlotSound, EndSound, Failure, Delivered, SwapRemove;
    if visit.outcome.Emitted? {
      DeliveredIfWelcome(st.active[i], visit, config);
      PacketSound(st.active[i], visit.outcome.packet, visit.now);
    } else if visit.outcome.EndOfStream? {
      EndIsSound(st.active[i], visit, config);
    }
  }

  lemma NewIsSound(ordinal: nat, at: Instant)
    ensures SlotSound(Slot(ordinal, at, None, []))
  {
  }

  lemma StepSound(phase: Phase, st: RunState, starts: seq<StartOutcome>, visits: seq<Visit>, config: Config)
    requires StepOf(phase, st, starts, visits, config).Go? && Sound(st, config)
    ensures Sound(StepOf(phase, st, starts, visits, config).st, config)
  {
    hide SlotSound, EndSound, Failure, AfterVisit;
    match TurnOf(phase, st, config)
    case Over =>
    case TakeStart => if starts[0].Started? { NewIsSound(st.next, starts[0].at); }
    case TakeVisit(i) => VisitSound(st, i, visits[0], config);
  }

  lemma {:induction false} CourseSound(phase: Phase, st: RunState, starts: seq<StartOutcome>, visits: seq<Visit>,
                                       config: Config)
    requires Sound(st, config)
    ensures Sound(CourseFrom(phase, st, starts, visits, config).last, config)
    decreases |starts| + |visits|
  {
    hide StepOf, SnapshotOf, Sound;
    match StepOf(phase, st, starts, visits, config)
    case Stop(failure) =>
    case Go(entry, next, after, moreStarts, moreVisits) =>
      StepSound(phase, st, starts, visits, config);
      CourseSound(next, after, moreStarts, moreVisits, config);
  }

  // ---- The end of a run ----

  /** A run is over only when every request has been completed. */
  lemma OverIsDone(phase: Phase, st: RunState, config: Config)
    requires Conserved(SnapshotOf(st), config) && config.concurrency > 0
    ensures TurnOf(phase, st, config) == Over ==> st.active == [] && st.next == |st.done| == config.count
    ensures |st.done| >= config.count ==> st.active == [] && st.next == config.count
  {
    ConservedCount(SnapshotOf(st), config);
  }

  ghost predicate TurnIn(turn: Turn, st: RunState, config: Config) {
    exists p :: TurnOf(p, st, config) == turn
  }

  lemma TurnThere(phase: Phase, st: RunState, config: Config)
    ensures TurnIn(TurnOf(phase, st, config), st, config)
  {
    hide TurnOf;
  }

  /** The turn at which a run stops is that of the state in which it stops. */
  lemma {:induction false} TurnAtEnd(phase: Phase, st: RunState, starts: seq<StartOutcome>, visits: seq<Visit>,
                                     config: Config)
    ensures var c := CourseFrom(phase, st, starts, visits, config); TurnIn(c.turn, c.last, config)
    decreases |starts| + |visits|
  {
    hide StepOf, SnapshotOf, TurnOf, TurnIn;
    match StepOf(phase, st, starts, visits, config)
    case Stop(failure) =>
      var c := CourseFrom(phase, st, starts, visits, config);
      assert TurnOf(phase, c.last, config) == c.turn;
      TurnThere(phase, st, config);
    case Go(entry, next, after, moreStarts, moreVisits) => TurnAtEnd(next, after, moreStarts, moreVisits, config);
  }

  lemma AllDone(s: Snapshot, config: Config)
    requires Conserved(s, config) && s.active == []
    ensures multiset(s.completed) == multiset(Range(s.next))
  {
    assert multiset(s.active) == multiset{};
  }

  // ---- One pass ----

  /** A pass over the requests from an index on: its log, the state it leaves, and the index behind the
      last request. There is none if the script runs out or an answer is not welcome. */
  datatype Pass = Pass(log: seq<Entry>, trace: seq<Snapshot>, end: nat, after: RunState)

  function PassFrom(index: nat, st: RunState, visits: seq<Visit>, config: Config): (pass: Option<Pass>)
    ensures pass.Some? ==> |pass.value.log| <= |visits| && pass.value.end >= |pass.value.after.active|
    decreases |visits|
  {
    if index >= |st.active| then Some(Pass([], [], index, st))
    else if visits == [] || Failure(st.active[index], visits[0], config).Some? then None
    else
      var after := AfterVisit(st, index, visits[0]);
      match PassFrom(PhaseAfter(index, visits[0]).index, after, visits[1..], config)
      case None => None
      case Some(rest) =>
        Some(Pass([Visited(st.active[index].ordinal, visits[0])] + rest.log, [SnapshotOf(after)] + rest.trace, rest.end,
                  rest.after))
  }

  /** The ordinals that a log visits. */
  function OrdinalsIn(log: seq<Entry>): seq<nat> {
    if log == [] then [] else (if log[0].Visited? then [log[0].ordinal] else []) + OrdinalsIn(log[1..])
  }

  lemma OrdinalFirst(entry: Entry, log: seq<Entry>)
    requires entry.Visited?
    ensures multiset(OrdinalsIn([entry] + log)) == multiset{entry.ordinal} + multiset(OrdinalsIn(log))
  {
    assert ([entry] + log)[1..] == log;
  }

  /** Although removal moves the last request forward, a pass visits every request exactly once. */
  lemma {:induction false} PassVisitsEachOnce(index: nat, st: RunState, visits: seq<Visit>, config: Config)
    requires index <= |st.active| && PassFrom(index, st, visits, config).Some?
    ensures multiset(OrdinalsIn(PassFrom(index, st, visits, config).value.log)) == multiset(Active(st.active)[index..])
    decreases |visits|
  {
    hide Active, AfterVisit, Failure, SnapshotOf, OrdinalsIn;
    if index == |st.active| {
      NoOrdinals();
    } else {
      var visit := visits[0];
      StillToVisit(index, st, visit);
      PassVisitsEachOnce(PhaseAfter(index, visit).index, AfterVisit(st, index, visit), visits[1..], config);
      OrdinalFirst(Visited(st.active[index].ordinal, visit),
                   PassFrom(PhaseAfter(index, visit).index, AfterVisit(st, index, visit), visits[1..],
                            config).value.log);
    }
  }

  lemma NoOrdinals()
    ensures OrdinalsIn([]) == []
  {
  }

  /** Whom a pass has still to visit: one fewer after every visit. */
  lemma StillToVisit(index: nat, st: RunState, visit: Visit)
    requires index < |st.active|
    ensures PhaseAfter(index, visit).index <= |AfterVisit(st, index, visit).active|
    ensures multiset(Active(st.active)[index..])
         == multiset{st.active[index].ordinal}
             + multiset(Active(AfterVisit(st, index, visit).active)[PhaseAfter(index, visit).index..])
  {
    hide SwapRemove, Active;
    var all := Active(st.active);
    ActiveAt(st.active, index);
    assert all[index..] == [all[index]] + all[index + 1..];
    if visit.outcome.EndOfStream? {
      ActiveChanges(st.active, st.done, st.active[index], Ended(st.active[index], visit.now), index);
      SwapRemoveRest(all, index);
    } else if visit.outcome.Emitted? && Delivered(visit.outcome.packet) {
      var slot := WithPacket(st.active[index], visit.outcome.packet, visit.now);
      ActiveChanges(st.active, st.done, slot, Ended(slot, visit.now), index);
    }
  }

  lemma SwapRemoveRest(s: seq<nat>, i: nat)
    requires i < |s|
    ensures multiset(s[i..]) == multiset{s[i]} + multiset(SwapRemove(s, i)[i..])
  {
    SwapRemoveKeeps(s[i..], 0);
    assert SwapRemove(s[i..], 0) == SwapRemove(s, i)[i..];
  }

  /** The course of a run that begins a pass goes through that pass. */
  lemma {:induction false} PassInCourse(index: nat, st: RunState, starts: seq<StartOutcome>, visits: seq<Visit>,
                                        config: Config)
    requires PassFrom(index, st, visits, config).Some?
    ensures var p := PassFrom(index, st, visits, config).value;
              CourseFrom(Polling(index), st, starts, visits, config)
              == CourseFrom(Polling(p.end), p.after, starts, visits[|p.log|..], config).After(p.log, p.trace)
    decreases |visits|
  {
    hide AfterVisit, Failure, SnapshotOf;
    var p := PassFrom(index, st, visits, config).value;
    var rest := CourseFrom(Polling(p.end), p.after, starts, visits[|p.log|..], config);
    if index >= |st.active| {
      assert visits[0..] == visits;
      assert rest.After([], []) == rest;
    } else {
      var next, after := PhaseAfter(index, visits[0]).index, AfterVisit(st, index, visits[0]);
      PassInCourse(next, after, starts, visits[1..], config);
      var later := PassFrom(next, after, visits[1..], config).value;
      assert visits[1..][|later.log|..] == visits[|p.log|..];
      CourseAfterTwice(rest, later.log, later.trace, [p.log[0]], [p.trace[0]]);
    }
  }

  lemma NothingBefore(c: Course)
    ensures c.After([], []) == c
  {
  }

  /** A filling turn, seen from what went before. */
  lemma FillingTurn(st: RunState, starts: seq<StartOutcome>, visits: seq<Visit>, config: Config, log: seq<Entry>,
                    trace: seq<Snapshot>)
    requires |st.done| < config.count && |st.active| < config.concurrency && st.next < config.count
    ensures var c := CourseFrom(Filling, st, starts, visits, config).After(log, trace);
            if starts == [] then c.failure == Some(Unfinished)
            else match starts[0]
              case Started(at) =>
                c == CourseFrom(Filling, AfterStart(st, at), starts[1..], visits, config)
                       .After(log + [Begun(st.next, at)], trace + [SnapshotOf(AfterStart(st, at))])
              case StartBlocked =>
                c == CourseFrom(Polling(0), st, starts[1..], visits, config).After(log + [Declined],
                      trace + [SnapshotOf(st)])
              case StartFailed => c.failure == Some(StartError)
  {
    hide AfterStart, AfterVisit, Failure, SnapshotOf;
    if starts != [] && starts[0].Started? {
      var after := AfterStart(st, starts[0].at);
      CourseAfterTwice(CourseFrom(Filling, after, starts[1..], visits, config), [Begun(st.next, starts[0].at)],
                       [SnapshotOf(after)], log, trace);
    } else if starts != [] && starts[0].StartBlocked? {
      CourseAfterTwice(CourseFrom(Polling(0), st, starts[1..], visits, config), [Declined], [SnapshotOf(st)], log,
                       trace);
    }
  }

  function PassAfter(log: seq<Entry>, trace: seq<Snapshot>, rest: Option<Pass>): Option<Pass> {
    match rest
    case None => None
    case Some(p) => Some(Pass(log + p.log, trace + p.trace, p.end, p.after))
  }

  /** A run and its present pass, from where a pass stands and what it has logged. */
  predicate Underway(course: Course, pass: Option<Pass>, index: nat, st: RunState, starts: seq<StartOutcome>,
                     visits: seq<Visit>,
                     config: Config, log: seq<Entry>, trace: seq<Snapshot>) {
    && course == CourseFrom(Polling(index), st, starts, visits, config).After(log, trace)
    && pass == PassAfter(log, trace, PassFrom(index, st, visits, config))
  }

  lemma PassBegins(st: RunState, starts: seq<StartOutcome>, visits: seq<Visit>, config: Config)
    ensures Underway(CourseFrom(Polling(0), st, starts, visits, config), PassFrom(0, st, visits, config), 0, st, starts,
                     visits, config, [], [])
  {
    hide CourseFrom, PassFrom;
    var pass := PassFrom(0, st, visits, config);
    if pass.Some? {
      assert [] + pass.value.log == pass.value.log && [] + pass.value.trace == pass.value.trace;
    }
    NothingBefore(CourseFrom(Polling(0), st, starts, visits, config));
  }

  lemma PassEnds(course: Course, pass: Option<Pass>, index: nat, st: RunState, starts: seq<StartOutcome>,
                 visits: seq<Visit>,
                 config: Config, log: seq<Entry>, trace: seq<Snapshot>)
    requires Underway(course, pass, index, st, starts, visits, config, log, trace) && index >= |st.active|
    ensures pass == Some(Pass(log, trace, index, st))
  {
    hide CourseFrom;
    assert log + [] == log && trace + [] == trace;
  }

  /** A visiting turn: the script is used up, or the answer is not welcome, or the pass goes on. */
  lemma PassTurn(course: Course, pass: Option<Pass>, index: nat, st: RunState, starts: seq<StartOutcome>,
                 visits: seq<Visit>,
                 config: Config, log: seq<Entry>, trace: seq<Snapshot>)
    requires Underway(course, pass, index, st, starts, visits, config, log, trace) && index < |st.active|
    ensures if visits == [] then pass.None? && course.failure == Some(Unfinished)
            else if Failure(st.active[index], visits[0], config).Some?
            then pass.None? && course.failure == Failure(st.active[index], visits[0], config)
            else
              var after := AfterVisit(st, index, visits[0]);
              Underway(course, pass, PhaseAfter(index, visits[0]).index, after, starts, visits[1..], config,
                       log + [Visited(st.active[index].ordinal, visits[0])], trace + [SnapshotOf(after)])
  {
    hide AfterVisit, Failure, SnapshotOf;
    if visits != [] && Failure(st.active[index], visits[0], config).None? {
      var after, next := AfterVisit(st, index, visits[0]), PhaseAfter(index, visits[0]);
      var entry := Visited(st.active[index].ordinal, visits[0]);
      CourseAfterTwice(CourseFrom(next, after, starts, visits[1..], config), [entry], [SnapshotOf(after)], log, trace);
      var rest := PassFrom(next.index, after, visits[1..], config);
      if rest.Some? {
        assert log + ([entry] + rest.value.log) == log + [entry] + rest.value.log;
        assert trace + ([SnapshotOf(after)] + rest.value.trace) == trace + [SnapshotOf(after)] + rest.value.trace;
      }
    }
  }

  lemma CourseAfterTwice(c: Course, log: seq<Entry>, trace: seq<Snapshot>, log': seq<Entry>, trace': seq<Snapshot>)
    ensures c.After(log, trace).After(log', trace') == c.After(log' + log, trace' + trace)
  {
    assert log' + (log + c.log) == log' + log + c.log && trace' + (trace + c.trace) == trace' + trace + c.trace;
  }
}
