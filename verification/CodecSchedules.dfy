/** Schedules that feed whole streams to decoder sessions packet by packet: one stream alone, several
    streams interleaved on their own sessions, and batches. None of them can be told from decoding
    each stream in one packet. */
module CodecSchedules {
  import opened Bytes
  import opened CodecReference
  import opened Totals

  /** What the runs report; `OutOfRange` is a slice past the end of a stream, which aborts the run. */
  datatype ScheduleError = InvalidShape | Exceeds | OutOfRange | Refused | Incomplete

  const MAX_BATCH_STREAMS: nat := 6

  /** A schedule that covers a stream of `length` frames with packets a session accepts. */
  predicate Complete(schedule: seq<nat>, length: nat) {
    Total(schedule) == length && forall i | 0 <= i < |schedule| :: schedule[i] > 0
  }

  // ---- Cutting is invisible, for any number of packets ----

  function PacketOutputs(packets: seq<seq<Frame>>, c: Carry): seq<i16> {
    if packets == [] then [] else Decoded(packets[0], c) + PacketOutputs(packets[1..], After(packets[0], c))
  }

  function AfterPackets(packets: seq<seq<Frame>>, c: Carry): Carry {
    if packets == [] then c else AfterPackets(packets[1..], After(packets[0], c))
  }

  lemma NothingDecoded(c: Carry)
    ensures Decoded([], c) == [] && After([], c) == c
  {
    DecodedLength([], c);
    var values := Centers([]);
    assert After([], c).tails == c.tails by {
      forall k | 0 <= k < 4
        ensures After([], c).tails[k] == c.tails[k]
      {
        StageLength([], c, k);
      }
    }
  }

  lemma {:induction false} OneShot(packets: seq<seq<Frame>>, c: Carry)
    ensures PacketOutputs(packets, c) == Decoded(Flatten(packets), c)
    ensures AfterPackets(packets, c) == After(Flatten(packets), c)
  {
    hide Decoded, After;
    if packets == [] {
      NothingDecoded(c);
    } else {
      OneShot(packets[1..], After(packets[0], c));
      PacketBoundaryInvariance(packets[0], Flatten(packets[1..]), c);
    }
  }

  /** Any two ways of cutting the same stream into packets give the same samples and the same state. */
  lemma ScheduleIndependence(one: seq<seq<Frame>>, other: seq<seq<Frame>>, c: Carry)
    requires Flatten(one) == Flatten(other)
    ensures PacketOutputs(one, c) == PacketOutputs(other, c) && AfterPackets(one, c) == AfterPackets(other, c)
  {
    OneShot(one, c);
    OneShot(other, c);
  }

  /** Decoding one more packet of a stream of which `position` frames are done. */
  lemma NextPacket(stream: seq<Frame>, position: nat, end: nat, c: Carry)
    requires position <= end <= |stream|
    ensures Decoded(stream[..end], c)
            == Decoded(stream[..position], c) + Decoded(stream[position..end], After(stream[..position], c))
    ensures After(stream[..end], c) == After(stream[position..end], After(stream[..position], c))
  {
    hide Decoded, After;
    assert stream[..position] + stream[position..end] == stream[..end];
    PacketBoundaryInvariance(stream[..position], stream[position..end], c);
  }

  // ---- One stream on one session ----

  method RunOneSchedule(session: ReferenceState, stream: seq<Frame>, schedule: seq<nat>)
    returns (r: Result<seq<i16>, ScheduleError>)
    requires session.Valid()
    modifies session
    ensures session.Valid() && (r.Ok? <==> Complete(schedule, |stream|))
    ensures r.Ok? ==> r.value == Decoded(stream, old(session.Carried()))
    ensures r.Ok? ==> session.Carried() == After(stream, old(session.Carried()))
  {
    hide Decoded, After;
    var position: nat := 0;
    var output: seq<i16> := [];
    ghost var c := session.Carried();
    NothingDecoded(c);
    assert stream[..0] == [] && schedule[..0] == [];
    for step := 0 to |schedule|
      invariant session.Valid() && position == Total(schedule[..step]) <= |stream|
      invariant forall i | 0 <= i < step :: schedule[i] > 0
      invariant output == Decoded(stream[..position], c) && session.Carried() == After(stream[..position], c)
    {
      TotalNext(schedule, step);
      TotalGrows(schedule, step + 1);
      var end := position + schedule[step];
      if end > |stream| {
        return Err(Exceeds);
      }
      if end == position {
        return Err(Refused);
      }
      NextPacket(stream, position, end, c);
      var packet := session.Process(stream[position..end]);
      output := output + packet;
      position := end;
    }
    assert schedule[..|schedule|] == schedule && stream[..|stream|] == stream;
    if position != |stream| {
      return Err(Incomplete);
    }
    return Ok(output);
  }

  /** A session is reset between streams, so each one starts fresh. Pairing stops at the shorter list. */
  method RunStandaloneSchedules(streams: seq<seq<Frame>>, schedules: seq<seq<nat>>)
    returns (r: Result<seq<seq<i16>>, ScheduleError>)
    ensures r.Ok? <==> forall i | 0 <= i < |streams| && i < |schedules| :: Complete(schedules[i], |streams[i]|)
    ensures r.Ok? ==> |r.value| == (if |streams| <= |schedules| then |streams| else |schedules|)
                      && forall i | 0 <= i < |r.value| :: r.value[i] == Decoded(streams[i], FRESH)
  {
    hide Decoded, After, Complete;
    var session := new ReferenceState();
    var outputs: seq<seq<i16>> := [];
    var pairs := if |streams| <= |schedules| then |streams| else |schedules|;
    for index := 0 to pairs
      invariant session.Valid() && (index == 0 ==> session.Carried() == FRESH) && |outputs| == index
      invariant forall i | 0 <= i < index ::
                  Complete(schedules[i], |streams[i]|) && outputs[i] == Decoded(streams[i], FRESH)
    {
      if index != 0 {
        session.Reset();
      }
      var pcm :- RunOneSchedule(session, streams[index], schedules[index]);
      outputs := outputs + [pcm];
    }
    return Ok(outputs);
  }

  // ---- Several streams, one session each ----

  predicate SameShape(sessions: nat, streams: nat, schedules: seq<seq<nat>>) {
    sessions == streams == |schedules| > 0 && forall i | 0 <= i < |schedules| :: |schedules[i]| == |schedules[0]|
  }

  predicate Fits(schedule: seq<nat>, steps: nat, length: nat) {
    steps <= |schedule| && Total(schedule[..steps]) <= length && forall i | 0 <= i < steps :: schedule[i] > 0
  }

  /** Where a stream stands after so many steps of its schedule. */
  predicate LaneAt(stream: seq<Frame>, schedule: seq<nat>, steps: nat, c: Carry, position: nat, output: seq<i16>,
                   carried: Carry) {
    && Fits(schedule, steps, |stream|)
    && position == Total(schedule[..steps])
    && output == Decoded(stream[..position], c)
    && carried == After(stream[..position], c)
  }

  lemma LaneStart(stream: seq<Frame>, schedule: seq<nat>, c: Carry)
    ensures LaneAt(stream, schedule, 0, c, 0, [], c)
  {
    hide Decoded, After;
    NothingDecoded(c);
    assert schedule[..0] == [] && stream[..0] == [];
  }

  lemma LaneStep(stream: seq<Frame>, schedule: seq<nat>, steps: nat, c: Carry, position: nat, output: seq<i16>,
                 carried: Carry)
    requires LaneAt(stream, schedule, steps, c, position, output, carried) && steps < |schedule|
    requires position + schedule[steps] <= |stream| && schedule[steps] > 0
    ensures var packet := stream[position..position + schedule[steps]];
            LaneAt(stream, schedule, steps + 1, c, position + schedule[steps], output + Decoded(packet, carried),
                   After(packet, carried))
  {
    hide Decoded, After;
    TotalNext(schedule, steps);
    NextPacket(stream, position, position + schedule[steps], c);
  }

  lemma LaneBlocked(stream: seq<Frame>, schedule: seq<nat>, steps: nat, c: Carry, position: nat, output: seq<i16>,
                    carried: Carry)
    requires LaneAt(stream, schedule, steps, c, position, output, carried) && steps < |schedule|
    requires position + schedule[steps] > |stream| || schedule[steps] == 0
    ensures !Complete(schedule, |stream|)
  {
    hide Decoded, After;
    TotalNext(schedule, steps);
    TotalGrows(schedule, steps + 1);
  }

  lemma LaneEnd(stream: seq<Frame>, schedule: seq<nat>, c: Carry, position: nat, output: seq<i16>, carried: Carry)
    requires LaneAt(stream, schedule, |schedule|, c, position, output, carried)
    ensures Complete(schedule, |stream|) <==> position == |stream|
    ensures position == |stream| ==> output == Decoded(stream, c) && carried == After(stream, c)
  {
    hide Decoded, After;
    assert schedule[..|schedule|] == schedule && stream[..|stream|] == stream;
  }

  ghost predicate Distinct(sessions: seq<ReferenceState>) {
    forall i, j | 0 <= i < j < |sessions| :: sessions[i] != sessions[j]
  }

  ghost predicate AllValid(sessions: seq<ReferenceState>)
    reads sessions
  {
    forall i | 0 <= i < |sessions| :: sessions[i].Valid()
  }

  ghost function Carries(sessions: seq<ReferenceState>): (r: seq<Carry>)
    requires AllValid(sessions)
    reads sessions
    ensures |r| == |sessions|
  {
    seq(|sessions|, i requires 0 <= i < |sessions| && AllValid(sessions) reads sessions => sessions[i].Carried())
  }

  /** Lanes in front of `done` have taken one step more than the others. */
  ghost predicate Lanes(streams: seq<seq<Frame>>, schedules: seq<seq<nat>>, starts: seq<Carry>, steps: nat, done: nat,
                        positions: seq<nat>, outputs: seq<seq<i16>>, carries: seq<Carry>) {
    && |streams| == |schedules| == |starts| == |positions| == |outputs| == |carries|
    && forall i | 0 <= i < |streams| ::
         LaneAt(streams[i], schedules[i], if i < done then steps + 1
                else steps, starts[i], positions[i], outputs[i], carries[i])
  }

  ghost predicate AllComplete(streams: seq<seq<Frame>>, schedules: seq<seq<nat>>)
    requires |streams| == |schedules|
  {
    forall i | 0 <= i < |streams| :: Complete(schedules[i], |streams[i]|)
  }

  /** Every stream comes out, and leaves its session, as if it had been decoded alone and at once. */
  ghost predicate EachOneShot(streams: seq<seq<Frame>>, starts: seq<Carry>, outputs: seq<seq<i16>>,
                              carries: seq<Carry>) {
    && |streams| == |starts| == |outputs| == |carries|
    && forall i | 0 <= i < |streams| ::
         outputs[i] == Decoded(streams[i], starts[i]) && carries[i] == After(streams[i], starts[i])
  }

  lemma LanesStart(streams: seq<seq<Frame>>, schedules: seq<seq<nat>>, starts: seq<Carry>, positions: seq<nat>,
                   outputs: seq<seq<i16>>)
    requires |streams| == |schedules| == |starts| == |positions| == |outputs|
    requires forall i | 0 <= i < |streams| :: positions[i] == 0 && outputs[i] == []
    ensures Lanes(streams, schedules, starts, 0, 0, positions, outputs, starts)
  {
    hide LaneAt;
    forall i | 0 <= i < |streams|
      ensures LaneAt(streams[i], schedules[i], 0, starts[i], positions[i], outputs[i], starts[i])
    {
      LaneStart(streams[i], schedules[i], starts[i]);
    }
  }

  lemma LanesEnd(streams: seq<seq<Frame>>, schedules: seq<seq<nat>>, starts: seq<Carry>, steps: nat,
                 positions: seq<nat>, outputs: seq<seq<i16>>, carries: seq<Carry>)
    requires Lanes(streams, schedules, starts, steps, 0, positions, outputs, carries)
    requires forall i | 0 <= i < |schedules| :: |schedules[i]| == steps
    ensures AllComplete(streams, schedules) <==> forall i | 0 <= i < |streams| :: positions[i] == |streams[i]|
    ensures AllComplete(streams, schedules) ==> EachOneShot(streams, starts, outputs, carries)
  {
    hide LaneAt, Complete, Decoded, After;
    forall i | 0 <= i < |streams|
      ensures Complete(schedules[i], |streams[i]|) <==> positions[i] == |streams[i]|
      ensures positions[i] == |streams[i]|
              ==> outputs[i] == Decoded(streams[i], starts[i]) && carries[i] == After(streams[i], starts[i])
    {
      LaneEnd(streams[i], schedules[i], starts[i], positions[i], outputs[i], carries[i]);
    }
  }

  /** Feeds one packet to one session; the other sessions keep their state. */
  method Feed(sessions: seq<ReferenceState>, index: nat, packet: seq<Frame>) returns (pcm: seq<i16>)
    requires AllValid(sessions) && Distinct(sessions) && index < |sessions| && packet != []
    modifies sessions[index]
    ensures AllValid(sessions) && pcm == Decoded(packet, old(sessions[index].Carried()))
    ensures Carries(sessions) == old(Carries(sessions))[index := After(packet, old(sessions[index].Carried()))]
  {
    hide Decoded, After;
    ghost var before := Carries(sessions);
    pcm := sessions[index].Process(packet);
    forall i | 0 <= i < |sessions|
      ensures sessions[i].Valid() && (i != index ==> sessions[i].Carried() == before[i])
    {
    }
  }

  method RunInterleaved(sessions: seq<ReferenceState>, streams: seq<seq<Frame>>, schedules: seq<seq<nat>>)
    returns (r: Result<seq<seq<i16>>, ScheduleError>)
    requires AllValid(sessions) && Distinct(sessions)
    modifies sessions
    ensures AllValid(sessions)
    ensures r.Ok? <==> && |sessions| == |streams| == |schedules| && sessions != []
                       && (forall i | 0 <= i < |schedules| :: |schedules[i]| == |schedules[0]|)
                       && AllComplete(streams, schedules)
    ensures r.Ok? ==> EachOneShot(streams, old(Carries(sessions)), r.value, Carries(sessions))
  {
    hide Decoded, After, LaneAt, Complete;
    if !SameShape(|sessions|, |streams|, schedules) {
      return Err(InvalidShape);
    }
    var positions: seq<nat> := seq(|sessions|, _ => 0);
    var outputs: seq<seq<i16>> := seq(|sessions|, _ => []);
    ghost var starts := Carries(sessions);
    LanesStart(streams, schedules, starts, positions, outputs);
    for step := 0 to |schedules[0]|
      invariant AllValid(sessions)
      invariant Lanes(streams, schedules, starts, step, 0, positions, outputs, Carries(sessions))
    {
      for index := 0 to |sessions|
        invariant AllValid(sessions)
        invariant Lanes(streams, schedules, starts, step, index, positions, outputs, Carries(sessions))
      {
        ghost var carried := Carries(sessions)[index];
        var start := positions[index];
        var end := start + schedules[index][step];
        if end > |streams[index]| || end == start {
          LaneBlocked(streams[index], schedules[index], step, starts[index], start, outputs[index], carried);
          return Err(if end == start then Refused else OutOfRange);
        }
        LaneStep(streams[index], schedules[index], step, starts[index], start, outputs[index], carried);
        var pcm := Feed(sessions, index, streams[index][start..end]);
        outputs := outputs[index := outputs[index] + pcm];
        positions := positions[index := end];
      }
    }
    LanesEnd(streams, schedules, starts, |schedules[0]|, positions, outputs, Carries(sessions));
    if exists i | 0 <= i < |streams| :: positions[i] != |streams[i]| {
      return Err(Incomplete);
    }
    return Ok(outputs);
  }

  /** One batch step: a packet for every session, or a refusal that leaves every session alone. */
  method ProcessBatch(sessions: seq<ReferenceState>, packets: seq<seq<Frame>>)
    returns (r: Result<seq<seq<i16>>, ScheduleError>)
    requires AllValid(sessions) && Distinct(sessions)
    modifies sessions
    ensures AllValid(sessions)
    ensures r.Ok?
            <==> 1 <= |sessions| <= 6 && |packets| == |sessions|
                 && forall i | 0 <= i < |packets| :: packets[i] != []
    ensures r.Err? ==> Carries(sessions) == old(Carries(sessions))
    ensures r.Ok? ==> BatchOf(packets, old(Carries(sessions)), r.value, Carries(sessions))
  {
    hide Decoded, After;
    if |sessions| == 0 || |sessions| > MAX_BATCH_STREAMS || |packets| != |sessions| {
      return Err(Refused);
    }
    if exists i | 0 <= i < |packets| :: packets[i] == [] {
      return Err(Refused);
    }
    ghost var before := Carries(sessions);
    var batch: seq<seq<i16>> := [];
    for index := 0 to |sessions|
      invariant AllValid(sessions) && |batch| == index
      invariant forall i | 0 <= i < index ::
                  batch[i] == Decoded(packets[i], before[i]) && Carries(sessions)[i] == After(packets[i], before[i])
      invariant forall i | index <= i < |sessions| :: Carries(sessions)[i] == before[i]
    {
      var pcm := Feed(sessions, index, packets[index]);
      batch := batch + [pcm];
    }
    return Ok(batch);
  }

  ghost predicate BatchOf(packets: seq<seq<Frame>>, before: seq<Carry>, pcm: seq<seq<i16>>, after: seq<Carry>) {
    && |packets| == |before| == |pcm| == |after|
    && forall i | 0 <= i < |packets| ::
         pcm[i] == Decoded(packets[i], before[i]) && after[i] == After(packets[i], before[i])
  }

  /** The packets of one step. */
  function StepPackets(streams: seq<seq<Frame>>, schedules: seq<seq<nat>>, positions: seq<nat>,
                       step: nat): (r: seq<seq<Frame>>)
    requires |streams| == |schedules| == |positions|
    requires forall i | 0 <= i < |streams| :: step < |schedules[i]| && positions[i] + schedules[i][step] <= |streams[i]|
    ensures |r| == |streams|
  {
    seq(|streams|, i requires 0 <= i < |streams| => streams[i][positions[i]..positions[i] + schedules[i][step]])
  }

  lemma LanesStep(streams: seq<seq<Frame>>, schedules: seq<seq<nat>>, starts: seq<Carry>, step: nat,
                  positions: seq<nat>, outputs: seq<seq<i16>>, before: seq<Carry>, pcm: seq<seq<i16>>,
                  after: seq<Carry>)
    requires Lanes(streams, schedules, starts, step, 0, positions, outputs, before)
    requires forall i | 0 <= i < |streams| ::
               step < |schedules[i]| && positions[i] + schedules[i][step] <= |streams[i]| && schedules[i][step] > 0
    requires BatchOf(StepPackets(streams, schedules, positions, step), before, pcm, after)
    ensures Lanes(streams, schedules, starts, step + 1, 0, Moved(positions, schedules, step), Extended(outputs, pcm),
                  after)
  {
    hide Decoded, After, LaneAt;
    forall i | 0 <= i < |streams|
      ensures LaneAt(streams[i], schedules[i], step + 1, starts[i], positions[i] + schedules[i][step],
                     outputs[i] + pcm[i], after[i])
    {
      LaneStep(streams[i], schedules[i], step, starts[i], positions[i], outputs[i], before[i]);
    }
  }

  function Moved(positions: seq<nat>, schedules: seq<seq<nat>>, step: nat): seq<nat>
    requires |positions| == |schedules| && forall i | 0 <= i < |schedules| :: step < |schedules[i]|
  {
    seq(|positions|, i requires 0 <= i < |positions| => positions[i] + schedules[i][step])
  }

  function Extended(outputs: seq<seq<i16>>, pcm: seq<seq<i16>>): seq<seq<i16>>
    requires |outputs| == |pcm|
  {
    seq(|outputs|, i requires 0 <= i < |outputs| => outputs[i] + pcm[i])
  }

  /** One step of every stream's schedule, as one batch. */
  method RunBatchStep(sessions: seq<ReferenceState>, streams: seq<seq<Frame>>, schedules: seq<seq<nat>>, step: nat,
                      positions: seq<nat>, outputs: seq<seq<i16>>, ghost starts: seq<Carry>)
    returns (r: Result<(seq<nat>, seq<seq<i16>>), ScheduleError>)
    requires AllValid(sessions) && Distinct(sessions) && SameShape(|sessions|, |streams|, schedules)
             && step < |schedules[0]|
    requires Lanes(streams, schedules, starts, step, 0, positions, outputs, Carries(sessions))
    modifies sessions
    ensures AllValid(sessions)
    ensures r.Ok? ==> |sessions| <= MAX_BATCH_STREAMS
    ensures r.Ok? ==> Lanes(streams, schedules, starts, step + 1, 0, r.value.0, r.value.1, Carries(sessions))
    ensures r.Err? ==> !AllComplete(streams, schedules) || |sessions| > MAX_BATCH_STREAMS
  {
    hide Decoded, After, LaneAt, Complete;
    ghost var before := Carries(sessions);
    if exists i | 0 <= i < |streams| :: positions[i] + schedules[i][step] > |streams[i]| {
      ghost var i :| 0 <= i < |streams| && positions[i] + schedules[i][step] > |streams[i]|;
      LaneBlocked(streams[i], schedules[i], step, starts[i], positions[i], outputs[i], before[i]);
      return Err(OutOfRange);
    }
    var packets := StepPackets(streams, schedules, positions, step);
    var batch := ProcessBatch(sessions, packets);
    if batch.Err? {
      if |sessions| <= MAX_BATCH_STREAMS {
        ghost var i :| 0 <= i < |packets| && packets[i] == [];
        LaneBlocked(streams[i], schedules[i], step, starts[i], positions[i], outputs[i], before[i]);
      }
      return Err(batch.error);
    }
    assert forall i | 0 <= i < |packets| :: packets[i] != [] && |packets[i]| == schedules[i][step];
    LanesStep(streams, schedules, starts, step, positions, outputs, before, batch.value, Carries(sessions));
    return Ok((Moved(positions, schedules, step), Extended(outputs, batch.value)));
  }

  method RunBatchSchedule(sessions: seq<ReferenceState>, streams: seq<seq<Frame>>, schedules: seq<seq<nat>>)
    returns (r: Result<seq<seq<i16>>, ScheduleError>)
    requires AllValid(sessions) && Distinct(sessions)
    modifies sessions
    ensures AllValid(sessions)
    ensures r.Ok? <==> && |sessions| == |streams| == |schedules| && sessions != []
                       && (forall i | 0 <= i < |schedules| :: |schedules[i]| == |schedules[0]|)
                       && AllComplete(streams, schedules) && (schedules[0] != [] ==> |sessions| <= 6)
    ensures r.Ok? ==> EachOneShot(streams, old(Carries(sessions)), r.value, Carries(sessions))
  {
    hide Decoded, After, LaneAt, Lanes, AllComplete, EachOneShot;
    if !SameShape(|sessions|, |streams|, schedules) {
      return Err(InvalidShape);
    }
    var positions: seq<nat> := seq(|sessions|, _ => 0);
    var outputs: seq<seq<i16>> := seq(|sessions|, _ => []);
    ghost var starts := Carries(sessions);
    LanesStart(streams, schedules, starts, positions, outputs);
    for step := 0 to |schedules[0]|
      invariant AllValid(sessions) && (step > 0 ==> |sessions| <= MAX_BATCH_STREAMS)
      invariant |positions| == |outputs| == |streams|
      invariant Lanes(streams, schedules, starts, step, 0, positions, outputs, Carries(sessions))
    {
      var next := RunBatchStep(sessions, streams, schedules, step, positions, outputs, starts);
      if next.Err? {
        return Err(next.error);
      }
      positions, outputs := next.value.0, next.value.1;
      LanesShape(streams, schedules, starts, step + 1, positions, outputs, Carries(sessions));
    }
    LanesEnd(streams, schedules, starts, |schedules[0]|, positions, outputs, Carries(sessions));
    if exists i | 0 <= i < |streams| :: positions[i] != |streams[i]| {
      return Err(Incomplete);
    }
    return Ok(outputs);
  }

  lemma LanesShape(streams: seq<seq<Frame>>, schedules: seq<seq<nat>>, starts: seq<Carry>, steps: nat,
                   positions: seq<nat>, outputs: seq<seq<i16>>, carries: seq<Carry>)
    requires Lanes(streams, schedules, starts, steps, 0, positions, outputs, carries)
    ensures |positions| == |outputs| == |streams|
  {
  }
}
