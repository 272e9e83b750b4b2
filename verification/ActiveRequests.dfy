/** One running request of a benchmark scenario: every packet it emits has to continue where the packet
    before it ended. Arithmetic is that of a release build: 32- and 64-bit results wrap. */
module ActiveRequests {
  import opened Bytes
  import opened LittleEndian
  import Wav

  type u64 = n: int | 0 <= n < U64_LIMIT

  const SAMPLES_PER_FRAME: nat := 1920
  const PCM_SENTINEL: Wav.Sample := -0x8000

  /** The descriptor of an emitted packet together with the caller's buffer after the poll. */
  datatype Packet = Packet(requestId: u64, sequence: u64, firstCodecFrame: u64, firstSample: u64, codecFrames: u32,
                           sampleCount: u32, sampleRate: u32, channels: u32, isFinal: bool, buffer: seq<Wav.Sample>)

  /** What a poll delivers fits the buffer it was given. */
  predicate Delivered(p: Packet) { p.sampleCount <= |p.buffer| }

  function Audio(p: Packet): (r: seq<Wav.Sample>)
    requires Delivered(p)
    ensures |r| == p.sampleCount
  {
    p.buffer[..p.sampleCount]
  }

  /** Nothing behind the delivered samples was written. */
  predicate TailUntouched(p: Packet) {
    forall i | p.sampleCount <= i < |p.buffer| :: p.buffer[i] == PCM_SENTINEL
  }

  type PacketList = ps: seq<Packet> | forall k | 0 <= k < |ps| :: Delivered(ps[k])

  function TotalFrames(packets: PacketList): nat {
    if packets == [] then 0 else TotalFrames(packets[..|packets| - 1]) + packets[|packets| - 1].codecFrames
  }

  function TotalSamples(packets: PacketList): nat {
    if packets == [] then 0 else TotalSamples(packets[..|packets| - 1]) + packets[|packets| - 1].sampleCount
  }

  function AllAudio(packets: PacketList): (r: seq<Wav.Sample>)
    ensures |r| == TotalSamples(packets)
  {
    if packets == [] then [] else AllAudio(packets[..|packets| - 1]) + Audio(packets[|packets| - 1])
  }

  predicate TailsUntouched(packets: PacketList) {
    forall k | 0 <= k < |packets| :: TailUntouched(packets[k])
  }

  /** A 64-bit counter, and its step. */
  function Counter(n: nat): u64 { n % U64_LIMIT }

  function Advance(counter: u64, n: nat): u64 { (counter + n) % U64_LIMIT }

  /** The multiplication of the frame check, in 32 bits. */
  function Samples32(codecFrames: u32): u32 { codecFrames * SAMPLES_PER_FRAME % 0x1_0000_0000 }

  /** `p` may follow the packets accepted so far. */
  predicate Continues(packets: PacketList, p: Packet) {
    && p.codecFrames > 0 && p.sampleRate == Wav.SAMPLE_RATE && p.channels == 1
    && p.sampleCount == Samples32(p.codecFrames)
    && p.sequence == Counter(|packets|)
    && p.firstCodecFrame == Counter(TotalFrames(packets))
    && p.firstSample == Counter(TotalSamples(packets))
    && (packets != [] ==> p.requestId == packets[0].requestId && !packets[|packets| - 1].isFinal)
  }

  predicate Contiguous(packets: PacketList) {
    packets == []
      || (Contiguous(packets[..|packets| - 1]) && Continues(packets[..|packets| - 1], packets[|packets| - 1]))
  }

  /** Packet `k` carries on where the packets before it end: its number, its first frame and its first sample are
      their totals, as 64-bit counters hold them, and it has 1920 samples for each frame, as 32 bits hold them. */
  predicate CarriesOn(packets: PacketList, k: nat)
    requires k < |packets|
  {
    var p := packets[k];
    && p.codecFrames > 0 && p.sampleRate == 24_000 && p.channels == 1 && p.requestId == packets[0].requestId
    && p.sampleCount == 1920 * p.codecFrames % 0x1_0000_0000
    && p.sequence == k % 0x1_0000_0000_0000_0000
    && p.firstCodecFrame == TotalFrames(packets[..k]) % 0x1_0000_0000_0000_0000
    && p.firstSample == TotalSamples(packets[..k]) % 0x1_0000_0000_0000_0000
    && (p.isFinal ==> k == |packets| - 1)
  }

  lemma {:induction false} ContiguousIff(packets: PacketList)
    ensures Contiguous(packets) <==> forall k | 0 <= k < |packets| :: CarriesOn(packets, k)
  {
    hide TotalFrames, TotalSamples;
    if packets != [] {
      var front := packets[..|packets| - 1];
      var last := |front|;
      ContiguousIff(front);
      assert forall k | 0 <= k < last :: front[..k] == packets[..k] && front[k] == packets[k];
      assert CarriesOn(packets, last) && (front != [] ==> !front[last - 1].isFinal)
             <==> Continues(front, packets[last]);
      if Contiguous(packets) {
        forall k | 0 <= k < last
          ensures CarriesOn(packets, k)
        {
          assert CarriesOn(front, k);
        }
      }
      if forall k | 0 <= k < |packets| :: CarriesOn(packets, k) {
        forall k | 0 <= k < last
          ensures CarriesOn(front, k)
        {
          assert CarriesOn(packets, k);
        }
        assert front != [] ==> CarriesOn(packets, last - 1);
      }
    }
  }

  lemma WrapAdd(a: nat, b: nat)
    ensures Advance(Counter(a), b) == Counter(a + b)
  {
    var q := a / U64_LIMIT;
    assert a + b == a % U64_LIMIT + b + q * U64_LIMIT;
    Cycles(a % U64_LIMIT + b, q);
  }

  lemma {:induction false} Cycles(a: nat, q: nat)
    ensures (a + q * U64_LIMIT) % U64_LIMIT == a % U64_LIMIT
  {
    if q > 0 {
      Cycles(a, q - 1);
      assert a + q * U64_LIMIT == a + (q - 1) * U64_LIMIT + U64_LIMIT;
    }
  }

  /** Only the last packet of a contiguous run can be final, and all carry one request id. */
  lemma {:induction false} OnlyLastIsFinal(packets: PacketList, k: nat)
    requires Contiguous(packets) && k < |packets|
    ensures packets[k].requestId == packets[0].requestId
    ensures k < |packets| - 1 ==> !packets[k].isFinal
  {
    if k < |packets| - 1 {
      OnlyLastIsFinal(packets[..|packets| - 1], k);
    }
  }

  predicate FramesFit(p: Packet) { p.codecFrames * SAMPLES_PER_FRAME < 0x1_0000_0000 }

  /** No packet claims more frames than 32 bits of samples can hold. */
  predicate AllFramesFit(packets: PacketList) {
    forall k | 0 <= k < |packets| :: FramesFit(packets[k])
  }

  /** How often the frame check of a packet wraps, and of all packets together. */
  function Wraps(codecFrames: u32): nat { codecFrames * SAMPLES_PER_FRAME / 0x1_0000_0000 }

  function TotalWraps(packets: PacketList): nat {
    if packets == [] then 0 else TotalWraps(packets[..|packets| - 1]) + Wraps(packets[|packets| - 1].codecFrames)
  }

  /** Every wrap costs 2^32 samples; without one, samples are 1920 per frame. */
  lemma {:induction false} SamplesAtMost(packets: PacketList)
    requires Contiguous(packets)
    ensures TotalSamples(packets) == SAMPLES_PER_FRAME * TotalFrames(packets) - 0x1_0000_0000 * TotalWraps(packets)
    ensures TotalSamples(packets) <= SAMPLES_PER_FRAME * TotalFrames(packets)
    ensures TotalSamples(packets) == SAMPLES_PER_FRAME * TotalFrames(packets) <==> AllFramesFit(packets)
    ensures TotalWraps(packets) == 0 <==> AllFramesFit(packets)
  {
    hide Samples32, Wraps;
    if packets != [] {
      var front, last := packets[..|packets| - 1], packets[|packets| - 1];
      SamplesAtMost(front);
      OnePacket(last.codecFrames);
      if AllFramesFit(packets) {
        assert FramesFit(packets[|packets| - 1]);
      } else {
        var k :| 0 <= k < |packets| && !FramesFit(packets[k]);
        assert k == |packets| - 1 || !FramesFit(front[k]);
      }
    }
  }

  lemma OnePacket(codecFrames: u32)
    ensures Samples32(codecFrames) == SAMPLES_PER_FRAME * codecFrames - 0x1_0000_0000 * Wraps(codecFrames)
    ensures Wraps(codecFrames) == 0 <==> codecFrames * SAMPLES_PER_FRAME < 0x1_0000_0000
  {
  }

  /** The frame check multiplies in 32 bits, so a packet can claim 2^25 frames and carry no samples. */
  lemma FrameCheckCanWrap()
    ensures exists p: Packet :: Delivered(p) && Continues([], p) && p.codecFrames > 0 && p.sampleCount == 0
  {
    var p := Packet(7, 0, 0, 0, 0x200_0000, 0, Wav.SAMPLE_RATE, 1, true, []);
    assert p.codecFrames * SAMPLES_PER_FRAME == 15 * 0x1_0000_0000;
    assert Delivered(p) && Continues([], p);
  }

  class ActiveRequest {
    const ordinal: nat
    const started: Instant
    var callerTtfa: Option<Instant>
    var requestId: Option<u64>
    var nextSequence: u64
    var nextFrame: u64
    var nextSample: u64
    var sawFinal: bool
    var exactCopyBounds: bool
    var capturedAudio: Option<seq<Wav.Sample>>
    ghost var accepted: PacketList

    ghost predicate Valid()
      reads this
    {
      Consistent(accepted, callerTtfa.Some?, requestId, nextSequence, nextFrame, nextSample, sawFinal, exactCopyBounds,
                 capturedAudio)
    }

    constructor (ordinal: nat, capture: bool, started: Instant)
      ensures Valid() && accepted == [] && callerTtfa == None && capturedAudio.Some? == capture
      ensures this.ordinal == ordinal && this.started == started
    {
      this.ordinal, this.started := ordinal, started;
      callerTtfa, requestId := None, None;
      nextSequence, nextFrame, nextSample := 0, 0, 0;
      sawFinal, exactCopyBounds := false, true;
      capturedAudio := if capture then Some([]) else None;
      accepted := [];
    }

    /** Accepts exactly the packets that continue the ones before. A refused packet changes nothing. */
    method AcceptPacket(p: Packet, at: Instant) returns (ok: bool)
      requires Valid() && Delivered(p)
      modifies this
      ensures Valid() && capturedAudio.Some? == old(capturedAudio.Some?)
      ensures ok <==> Continues(old(accepted), p)
      ensures accepted == if ok then old(accepted) + [p] else old(accepted)
      ensures callerTtfa == if ok && old(callerTtfa).None? then Some(at) else old(callerTtfa)
    {
      hide TotalFrames, TotalSamples, AllAudio, TailsUntouched, Contiguous, Samples32, Counter;
      if p.codecFrames == 0 {
        return false;
      }
      if p.sampleRate != Wav.SAMPLE_RATE || p.channels != 1 {
        return false;
      }
      if p.sampleCount != Samples32(p.codecFrames) {
        return false;
      }
      if p.sequence != nextSequence || p.firstCodecFrame != nextFrame || p.firstSample != nextSample {
        return false;
      }
      if requestId.Some? && requestId.value != p.requestId {
        return false;
      }
      if sawFinal {
        return false;
      }
      Record(p, at);
      return true;
    }

    /** Moves the positions past an accepted packet. */
    method Record(p: Packet, at: Instant)
      requires Valid() && Delivered(p) && Continues(accepted, p)
      modifies this
      ensures Valid() && capturedAudio.Some? == old(capturedAudio.Some?)
      ensures accepted == old(accepted) + [p]
      ensures callerTtfa == if old(callerTtfa).None? then Some(at) else old(callerTtfa)
    {
      hide Consistent, TailUntouched, Continues, Advance, Audio, Delivered;
      ConsistentNext(accepted, p, callerTtfa.Some?, requestId, nextSequence, nextFrame, nextSample, sawFinal,
                     exactCopyBounds, capturedAudio);
      Note(p, at);
      nextSequence := Advance(nextSequence, 1);
      nextFrame := Advance(nextFrame, p.codecFrames);
      nextSample := Advance(nextSample, p.sampleCount);
      sawFinal := p.isFinal;
      accepted := accepted + [p];
    }

    /** What the first packet settles, and what every packet adds. */
    method Note(p: Packet, at: Instant)
      requires Delivered(p)
      modifies this`requestId, this`callerTtfa, this`exactCopyBounds, this`capturedAudio
      ensures requestId == if old(requestId).None? then Some(p.requestId) else old(requestId)
      ensures callerTtfa == if old(callerTtfa).None? then Some(at) else old(callerTtfa)
      ensures exactCopyBounds == (old(exactCopyBounds) && TailUntouched(p))
      ensures capturedAudio == if old(capturedAudio).Some? then Some(old(capturedAudio).value + Audio(p)) else None
    {
      hide TailUntouched, Audio, Delivered;
      if requestId.None? {
        requestId := Some(p.requestId);
      }
      if callerTtfa.None? {
        callerTtfa := Some(at);
      }
      exactCopyBounds := exactCopyBounds && TailUntouched(p);
      if capturedAudio.Some? {
        capturedAudio := Some(capturedAudio.value + Audio(p));
      }
    }
  }

  /** The fields of a request, by the packets it accepted. */
  predicate Consistent(accepted: PacketList, audioSeen: bool, requestId: Option<u64>, nextSequence: u64, nextFrame: u64,
                       nextSample: u64,
                       sawFinal: bool, exactCopyBounds: bool, capturedAudio: Option<seq<Wav.Sample>>) {
    && Contiguous(accepted)
    && (audioSeen <==> accepted != [])
    && requestId == (if accepted == [] then None else Some(accepted[0].requestId))
    && nextSequence == Counter(|accepted|)
    && nextFrame == Counter(TotalFrames(accepted))
    && nextSample == Counter(TotalSamples(accepted))
    && sawFinal == (accepted != [] && accepted[|accepted| - 1].isFinal)
    && exactCopyBounds == TailsUntouched(accepted)
    && (capturedAudio.Some? ==> capturedAudio.value == AllAudio(accepted))
  }

  lemma ConsistentNext(accepted: PacketList, p: Packet, audioSeen: bool, requestId: Option<u64>, nextSequence: u64,
                       nextFrame: u64,
                       nextSample: u64, sawFinal: bool, exactCopyBounds: bool, capturedAudio: Option<seq<Wav.Sample>>)
    requires Delivered(p) && Continues(accepted, p)
    requires Consistent(accepted, audioSeen, requestId, nextSequence, nextFrame, nextSample, sawFinal, exactCopyBounds,
                        capturedAudio)
    ensures Consistent(accepted + [p], true, if requestId.None? then Some(p.requestId)
                       else requestId, Advance(nextSequence, 1),
                       Advance(nextFrame, p.codecFrames), Advance(nextSample, p.sampleCount), p.isFinal,
                       exactCopyBounds && TailUntouched(p),
                       if capturedAudio.Some? then Some(capturedAudio.value + Audio(p)) else None)
  {
    hide TotalFrames, TotalSamples, AllAudio, TailUntouched, TailsUntouched, Contiguous, Continues, Counter, Advance;
    hide Audio, Delivered;
    AcceptedTotals(accepted, p);
  }

  lemma AcceptedTotals(packets: PacketList, p: Packet)
    requires Delivered(p)
    ensures Contiguous(packets) && Continues(packets, p) ==> Contiguous(packets + [p])
    ensures TotalFrames(packets + [p]) == TotalFrames(packets) + p.codecFrames
    ensures TotalSamples(packets + [p]) == TotalSamples(packets) + p.sampleCount
    ensures AllAudio(packets + [p]) == AllAudio(packets) + Audio(p)
    ensures TailsUntouched(packets + [p]) == (TailsUntouched(packets) && TailUntouched(p))
    ensures Advance(Counter(|packets|), 1) == Counter(|packets + [p]|)
    ensures Advance(Counter(TotalFrames(packets)), p.codecFrames) == Counter(TotalFrames(packets + [p]))
    ensures Advance(Counter(TotalSamples(packets)), p.sampleCount) == Counter(TotalSamples(packets + [p]))
  {
    hide TailUntouched, Counter, Advance, Audio, Delivered;
    assert (packets + [p])[..|packets|] == packets;
    WrapAdd(|packets|, 1);
    WrapAdd(TotalFrames(packets), p.codecFrames);
    WrapAdd(TotalSamples(packets), p.sampleCount);
    if TailsUntouched(packets + [p]) {
      assert TailUntouched((packets + [p])[|packets|]);
      forall k | 0 <= k < |packets|
        ensures TailUntouched(packets[k])
      {
        assert TailUntouched((packets + [p])[k]);
      }
    }
  }
}
