/** The incremental decoder reference: a causal filter, two repeats and four overlap stages whose
    state is carried from packet to packet. The value types carry the arithmetic bounds, so every
    32-bit operation below is checked not to overflow. */
module CodecReference {
  newtype i32 = x: int | -0x8000_0000 <= x < 0x8000_0000
  newtype i16 = x: int | -0x8000 <= x < 0x8000

  /** A frame value after centring, and a level anywhere behind the filter. The second range cannot be
      narrowed: `RangeIsReached`. */
  type Centered = x: i32 | -2048 <= x <= 2047
  type Level = x: i32 | -3071 <= x <= 3070

  type Code = c: int | 0 <= c < 65536
  type Frame = f: seq<Code> | |f| == 16 witness seq(16, _ => 0)

  const SAMPLES_PER_FRAME: nat := 1920

  /** Division that rounds towards zero. */
  function TruncDiv4(x: i32): (q: i32)
    requires x > -0x8000_0000
    ensures x >= 0 ==> 4 * q as int <= x as int < 4 * q as int + 4
    ensures x <= 0 ==> 4 * q as int - 4 < x as int <= 4 * q as int
  {
    if x >= 0 then x / 4 else -((-x) / 4)
  }

  // ---- One frame ----

  function WeightedSum(frame: Frame, n: nat): (s: i32)
    requires n <= 16
    ensures 0 <= s as int <= 2047 * 16 * n
  {
    if n == 0 then 0
    else
      TermBound(frame[n - 1] % 2048, n);
      WeightedSum(frame, n - 1) + (frame[n - 1] % 2048 * n) as i32
  }

  lemma TermBound(code: nat, n: nat)
    requires code <= 2047 && n <= 16
    ensures 0 <= code * n <= 2047 * 16
  {
  }

  function Center(frame: Frame): Centered {
    WeightedSum(frame, 16) % 4096 - 2048
  }

  function FilterValue(value: Centered, recent: Centered, older: Centered): Level {
    TruncDiv4(3 * value + 2 * recent - older)
  }

  function OverlapValue(value: Level, previous: Level): Level {
    TruncDiv4(3 * value + previous)
  }

  function Clamp16(x: i32): i16 {
    if x < -32768 then -32768 else if x > 32767 then 32767 else x as i16
  }

  function Sample(value: Level): i16 {
    Clamp16(value * 8)
  }

  /** The clamp never acts: every sample is exactly eight times its level. */
  lemma ClampIsIdle(value: Level)
    ensures Sample(value) as int == 8 * value as int && -24568 <= Sample(value) <= 24560
  {
  }

  /** Both ends of the level range occur in a run of three frames from the fresh state. */
  lemma RangeIsReached()
    ensures exists f: seq<Frame> :: |f| == 3 && Filtered(Centers(f), 0, 0)[2] == 3070
    ensures exists f: seq<Frame> :: |f| == 3 && Filtered(Centers(f), 0, 0)[2] == -3071
  {
    hide WeightedSum, Center, Filtered;
    ExtremeCenters();
    var up, down: seq<Frame> := [QUIET, LOUD, LOUD], [LOUD, QUIET, QUIET];
    assert Centers(up) == [-2048, 2047, 2047] && Centers(down) == [2047, -2048, -2048];
    ThirdFiltered(Centers(up));
    ThirdFiltered(Centers(down));
    assert |up| == 3 && |down| == 3;
  }

  const QUIET: Frame := seq(16, _ => 0)
  const LOUD: Frame := [2047, 1024] + seq(14, _ => 0)

  lemma ExtremeCenters()
    ensures Center(QUIET) == -2048 && Center(LOUD) == 2047
  {
    SilenceAdds(QUIET, 0, 16);
    SilenceAdds(LOUD, 2, 16);
    assert WeightedSum(LOUD, 1) == 2047;
    assert WeightedSum(LOUD, 2) == 4095;
  }

  lemma {:induction false} SilenceAdds(frame: Frame, from: nat, n: nat)
    requires from <= n <= 16 && forall i | from <= i < n :: frame[i] == 0
    ensures WeightedSum(frame, n) == WeightedSum(frame, from)
  {
    if from < n {
      SilenceAdds(frame, from, n - 1);
    }
  }

  lemma ThirdFiltered(values: seq<Centered>)
    requires |values| == 3
    ensures Filtered(values, 0, 0)[2] == FilterValue(values[2], values[1], values[0])
  {
    assert values[1..][1..] == values[2..];
    var last := Filtered(values[2..], values[1], values[0]);
    assert Filtered(values[1..], values[0], 0) == [FilterValue(values[1], values[0], 0)] + last;
  }

  // ---- The stages on whole packets ----

  function Centers(frames: seq<Frame>): (c: seq<Centered>)
    ensures |c| == |frames|
  {
    seq(|frames|, i requires 0 <= i < |frames| => Center(frames[i]))
  }

  function Filtered(values: seq<Centered>, recent: Centered, older: Centered): (r: seq<Level>)
    ensures |r| == |values|
  {
    if values == [] then [] else [FilterValue(values[0], recent, older)] + Filtered(values[1..], values[0], recent)
  }

  function Twice(values: seq<Level>): (r: seq<Level>)
    ensures |r| == 2 * |values|
  {
    if values == [] then [] else [values[0], values[0]] + Twice(values[1..])
  }

  function Fill(value: Level, n: nat): (r: seq<Level>)
    ensures |r| == n && forall i | 0 <= i < n :: r[i] == value
  {
    seq(n, _ => value)
  }

  function Block(value: Level, previous: seq<Level>): (r: seq<Level>)
    ensures |r| == |previous|
  {
    seq(|previous|, j requires 0 <= j < |previous| => OverlapValue(value, previous[j]))
  }

  function Overlapped(values: seq<Level>, tail: seq<Level>): (r: seq<Level>)
    ensures |r| == |values| * |tail|
  {
    if values == [] then [] else Block(values[0], tail) + Overlapped(values[1..], Fill(values[0], |tail|))
  }

  function NextTail(values: seq<Level>, tail: seq<Level>): (r: seq<Level>)
    ensures |r| == |tail|
  {
    if values == [] then tail else Fill(values[|values| - 1], |tail|)
  }

  function Samples(values: seq<Level>): (r: seq<i16>)
    ensures |r| == |values|
  {
    seq(|values|, i requires 0 <= i < |values| => Sample(values[i]))
  }

  // ---- The carried state ----

  const STRIDES: seq<nat> := [8, 5, 4, 3]

  function Stride(k: nat): nat
    requires k < 4
  {
    STRIDES[k]
  }

  predicate TailShapes(tails: seq<seq<Level>>) {
    |tails| == 4 && forall k | 0 <= k < 4 :: |tails[k]| == Stride(k)
  }

  datatype CarryState = CarryState(recent: Centered, older: Centered, tails: seq<seq<Level>>)

  type Carry = c: CarryState | TailShapes(c.tails) witness CarryState(0, 0, FRESH_TAILS)

  const FRESH_TAILS: seq<seq<Level>> := [Fill(0, 8), Fill(0, 5), Fill(0, 4), Fill(0, 3)]
  const FRESH: Carry := CarryState(0, 0, FRESH_TAILS)

  /** The values that enter overlap stage `k`; those of stage 4 are the output levels. */
  function Stage(frames: seq<Frame>, c: Carry, k: nat): seq<Level>
    requires k <= 4
  {
    if k == 0 then Twice(Twice(Filtered(Centers(frames), c.recent, c.older)))
    else Overlapped(Stage(frames, c, k - 1), c.tails[k - 1])
  }

  function Decoded(frames: seq<Frame>, c: Carry): seq<i16> {
    Samples(Stage(frames, c, 4))
  }

  function Recent(values: seq<Centered>, recent: Centered): Centered {
    if values == [] then recent else values[|values| - 1]
  }

  function Older(values: seq<Centered>, recent: Centered, older: Centered): Centered {
    if values == [] then older else Recent(values[..|values| - 1], recent)
  }

  function After(frames: seq<Frame>, c: Carry): Carry {
    var values := Centers(frames);
    CarryState(Recent(values, c.recent), Older(values, c.recent, c.older),
      seq(4, k requires 0 <= k < 4 => NextTail(Stage(frames, c, k), c.tails[k])))
  }

  function Expansion(k: nat): nat
    requires k <= 4
  {
    if k == 0 then 4 else Expansion(k - 1) * Stride(k - 1)
  }

  lemma {:induction false} StageLength(frames: seq<Frame>, c: Carry, k: nat)
    requires k <= 4
    ensures |Stage(frames, c, k)| == Expansion(k) * |frames|
  {
    if k > 0 {
      StageLength(frames, c, k - 1);
      Reorder(Expansion(k - 1), |frames|, Stride(k - 1));
    }
  }

  lemma Reorder(e: nat, n: nat, s: nat)
    ensures (e * n) * s == (e * s) * n
  {
  }

  lemma Expansions()
    ensures Expansion(0) == 4 && Expansion(1) == 32 && Expansion(2) == 160 && Expansion(3) == 640
    ensures Expansion(4) == SAMPLES_PER_FRAME
  {
    assert Expansion(1) == 32 && Expansion(2) == 160 && Expansion(3) == 640;
  }

  lemma StageNotEmpty(frames: seq<Frame>, c: Carry, k: nat)
    requires k <= 4 && frames != []
    ensures Stage(frames, c, k) != []
  {
    hide Stage, Expansion;
    StageLength(frames, c, k);
    Expansions();
  }

  lemma FirstStage(frames: seq<Frame>, c: Carry)
    ensures Stage(frames, c, 0) == Twice(Twice(Filtered(Centers(frames), c.recent, c.older)))
  {
  }

  /** Every frame becomes exactly 1920 samples. */
  lemma DecodedLength(frames: seq<Frame>, c: Carry)
    ensures |Decoded(frames, c)| == SAMPLES_PER_FRAME * |frames|
  {
    hide Stage, Expansion;
    StageLength(frames, c, 4);
    Expansions();
  }

  // ---- Packet-boundary invariance, stage by stage ----

  lemma CentersConcat(f: seq<Frame>, g: seq<Frame>)
    ensures Centers(f + g) == Centers(f) + Centers(g)
  {
  }

  lemma OlderBehind(f: seq<Centered>, recent: Centered, older: Centered)
    requires f != []
    ensures Recent(f[1..], f[0]) == Recent(f, recent)
    ensures Older(f[1..], f[0], recent) == Older(f, recent, older)
  {
    if |f| > 1 {
      assert f[1..][..|f| - 2] == f[1..|f| - 1];
    }
  }

  lemma {:induction false} FilteredConcat(f: seq<Centered>, g: seq<Centered>, recent: Centered, older: Centered)
    ensures Filtered(f + g, recent, older)
            == Filtered(f, recent, older) + Filtered(g, Recent(f, recent), Older(f, recent, older))
  {
    hide FilterValue;
    if f == [] {
      assert f + g == g;
    } else {
      assert (f + g)[1..] == f[1..] + g;
      FilteredConcat(f[1..], g, f[0], recent);
      OlderBehind(f, recent, older);
    }
  }

  lemma {:induction false} TwiceConcat(f: seq<Level>, g: seq<Level>)
    ensures Twice(f + g) == Twice(f) + Twice(g)
  {
    if f == [] {
      assert f + g == g;
    } else {
      assert (f + g)[1..] == f[1..] + g;
      TwiceConcat(f[1..], g);
    }
  }

  lemma {:induction false} OverlappedConcat(f: seq<Level>, g: seq<Level>, tail: seq<Level>)
    ensures Overlapped(f + g, tail) == Overlapped(f, tail) + Overlapped(g, NextTail(f, tail))
  {
    hide Block;
    if f == [] {
      assert f + g == g;
    } else {
      assert (f + g)[1..] == f[1..] + g;
      OverlappedConcat(f[1..], g, Fill(f[0], |tail|));
      assert NextTail(f[1..], Fill(f[0], |tail|)) == NextTail(f, tail);
    }
  }

  lemma NextTailConcat(f: seq<Level>, g: seq<Level>, tail: seq<Level>)
    ensures NextTail(f + g, tail) == NextTail(g, NextTail(f, tail))
  {
  }

  lemma SamplesConcat(f: seq<Level>, g: seq<Level>)
    ensures Samples(f + g) == Samples(f) + Samples(g)
  {
  }

  lemma {:induction false} StageConcat(f: seq<Frame>, g: seq<Frame>, c: Carry, k: nat)
    requires k <= 4
    ensures Stage(f + g, c, k) == Stage(f, c, k) + Stage(g, After(f, c), k)
  {
    hide Centers, Filtered, Twice, Overlapped, NextTail, Recent, Older;
    var d := After(f, c);
    if k == 0 {
      var a, b := Centers(f), Centers(g);
      CentersConcat(f, g);
      FilteredConcat(a, b, c.recent, c.older);
      TwiceConcat(Filtered(a, c.recent, c.older), Filtered(b, d.recent, d.older));
      TwiceConcat(Twice(Filtered(a, c.recent, c.older)), Twice(Filtered(b, d.recent, d.older)));
    } else {
      StageConcat(f, g, c, k - 1);
      OverlappedConcat(Stage(f, c, k - 1), Stage(g, d, k - 1), c.tails[k - 1]);
    }
  }

  /** Where a stream is cut into packets is invisible: the output is the concatenation and the carried
      state is the same, from any state. */
  lemma PacketBoundaryInvariance(f: seq<Frame>, g: seq<Frame>, c: Carry)
    ensures Decoded(f + g, c) == Decoded(f, c) + Decoded(g, After(f, c))
    ensures After(f + g, c) == After(g, After(f, c))
  {
    hide Centers, Stage, NextTail, Samples, Recent, Older;
    var d := After(f, c);
    CentersConcat(f, g);
    RecentConcat(Centers(f), Centers(g), c.recent, c.older);
    forall k | 0 <= k < 4
      ensures After(f + g, c).tails[k] == After(g, d).tails[k]
    {
      StageConcat(f, g, c, k);
      NextTailConcat(Stage(f, c, k), Stage(g, d, k), c.tails[k]);
    }
    StageConcat(f, g, c, 4);
    SamplesConcat(Stage(f, c, 4), Stage(g, d, 4));
  }

  lemma RecentConcat(f: seq<Centered>, g: seq<Centered>, recent: Centered, older: Centered)
    ensures Recent(f + g, recent) == Recent(g, Recent(f, recent))
    ensures Older(f + g, recent, older) == Older(g, Recent(f, recent), Older(f, recent, older))
  {
    if g == [] {
      assert f + g == f;
    } else {
      assert (f + g)[..|f + g| - 1] == f + g[..|g| - 1];
    }
  }

  // ---- What the decoder computes, value by value ----

  /** A quarter of `x`, rounded towards zero. */
  predicate Quarter(q: int, x: int) {
    if x >= 0 then 4 * q <= x < 4 * q + 4 else 4 * q - 4 < x <= 4 * q
  }

  /** The low 11 bits of a code. */
  function Low(f: Frame, k: nat): nat
    requires k < 16
  {
    f[k] % 2048
  }

  /** The low bits of the codes, weighted by their places from 1 to 16, modulo 4096 and centred. */
  predicate CentreOf(c: int, f: Frame) {
    c == (Low(f, 0) + 2 * Low(f, 1) + 3 * Low(f, 2) + 4 * Low(f, 3)
          + 5 * Low(f, 4) + 6 * Low(f, 5) + 7 * Low(f, 6) + 8 * Low(f, 7)
          + 9 * Low(f, 8) + 10 * Low(f, 9) + 11 * Low(f, 10) + 12 * Low(f, 11)
          + 13 * Low(f, 12) + 14 * Low(f, 13) + 15 * Low(f, 14) + 16 * Low(f, 15)) % 4096 - 2048
  }

  predicate CentresOf(centers: seq<Centered>, frames: seq<Frame>) {
    |centers| == |frames| && forall i | 0 <= i < |frames| :: CentreOf(centers[i] as int, frames[i])
  }

  /** The centres behind the two before the packet. */
  function History(centers: seq<Centered>, c: CarryState): (h: seq<Centered>)
    ensures |h| == |centers| + 2
  {
    [c.older, c.recent] + centers
  }

  /** A causal filter: every value from its centre and the two before it, with weights 3, 2 and -1. */
  predicate FilterOf(filtered: seq<Level>, h: seq<Centered>) {
    && |h| == |filtered| + 2
    && forall i | 0 <= i < |filtered| ::
         Quarter(filtered[i] as int, 3 * h[i + 2] as int + 2 * h[i + 1] as int - h[i] as int)
  }

  predicate FourTimes(repeated: seq<Level>, values: seq<Level>) {
    |repeated| == 4 * |values| && forall i | 0 <= i < |repeated| :: repeated[i] == values[i / 4]
  }

  function PhaseOf(i: nat, stride: nat, phase: nat): nat { i * stride + phase }

  lemma MoreTimes(a: nat, b: nat, c: nat)
    requires a <= b
    ensures a * c <= b * c
  {
  }

  /** Every value becomes as many phases as the stage before left, each from three parts of the value and one
      part of the value before it; in front of the first value that is what was left. */
  predicate BlendOf(blended: seq<Level>, values: seq<Level>, left: seq<Level>) {
    |blended| == |values| * |left|
    && forall i, phase | 0 <= i < |values| && 0 <= phase < |left| :: BlendedAt(blended, values, left, i, phase)
  }

  predicate BlendedAt(blended: seq<Level>, values: seq<Level>, left: seq<Level>, i: nat, phase: nat)
    requires i < |values| && phase < |left|
  {
    var k := PhaseOf(i, |left|, phase);
    var previous := if i == 0 then left[phase] else values[i - 1];
    k < |blended| && Quarter(blended[k] as int, 3 * values[i] as int + previous as int)
  }

  /** The last value of a stage is left in all phases. */
  predicate Leaves(left: seq<Level>, values: seq<Level>, stride: nat) {
    values != [] && |left| == stride && forall phase | 0 <= phase < stride :: left[phase] == values[|values| - 1]
  }

  /** The values on the way from the frames of a packet to its samples. */
  datatype Signals = Signals(centers: seq<Centered>, filtered: seq<Level>, repeated: seq<Level>, first: seq<Level>,
                             second: seq<Level>, third: seq<Level>, last: seq<Level>)

  ghost predicate Explains(v: Signals, frames: seq<Frame>, before: CarryState, pcm: seq<i16>, after: CarryState) {
    && |before.tails| == 4 && |before.tails[0]| == 8 && |before.tails[1]| == 5 && |before.tails[2]| == 4
    && |before.tails[3]| == 3
    && CentresOf(v.centers, frames) && FilterOf(v.filtered, History(v.centers, before))
    && FourTimes(v.repeated, v.filtered)
    && BlendOf(v.first, v.repeated, before.tails[0]) && BlendOf(v.second, v.first, before.tails[1])
    && BlendOf(v.third, v.second, before.tails[2]) && BlendOf(v.last, v.third, before.tails[3])
    && |pcm| == |v.last| && (forall i | 0 <= i < |pcm| :: pcm[i] as int == 8 * v.last[i] as int)
    && after.older == History(v.centers, before)[|frames|] && after.recent == History(v.centers, before)[|frames| + 1]
    && |after.tails| == 4
    && Leaves(after.tails[0], v.repeated, 8) && Leaves(after.tails[1], v.first, 5)
    && Leaves(after.tails[2], v.second, 4) && Leaves(after.tails[3], v.third, 3)
  }

  lemma QuarterOnce(q: int, r: int, x: int)
    requires Quarter(q, x) && Quarter(r, x)
    ensures q == r
  {
  }

  lemma FilterOnce(f: seq<Level>, g: seq<Level>, h: seq<Centered>)
    requires FilterOf(f, h) && FilterOf(g, h)
    ensures f == g
  {
    hide Quarter;
    forall i | 0 <= i < |f|
      ensures f[i] == g[i]
    {
      QuarterOnce(f[i] as int, g[i] as int, 3 * h[i + 2] as int + 2 * h[i + 1] as int - h[i] as int);
    }
  }

  lemma PhaseBack(k: nat, stride: nat)
    requires stride > 0
    ensures PhaseOf(k / stride, stride, k % stride) == k
  {
  }

  lemma BlendOnce(f: seq<Level>, g: seq<Level>, values: seq<Level>, left: seq<Level>)
    requires BlendOf(f, values, left) && BlendOf(g, values, left) && left != []
    ensures f == g
  {
    hide Quarter, PhaseOf;
    forall k | 0 <= k < |f|
      ensures f[k] == g[k]
    {
      var i, phase := k / |left|, k % |left|;
      PhaseBack(k, |left|);
      IndexOfPhase(k, |values|, |left|);
      assert BlendedAt(f, values, left, i, phase) && BlendedAt(g, values, left, i, phase);
      QuarterOnce(f[k] as int, g[k] as int,
                  3 * values[i] as int + (if i == 0 then left[phase] else values[i - 1]) as int);
    }
  }

  lemma IndexOfPhase(k: nat, n: nat, stride: nat)
    requires stride > 0 && k < n * stride
    ensures k / stride < n
  {
    assert k == k / stride * stride + k % stride;
    if n <= k / stride {
      MoreTimes(n, k / stride, stride);
      assert false;
    }
  }

  /** The explanation fixes the samples and the state behind the packet. */
  lemma ExplainedOnce(v: Signals, w: Signals, frames: seq<Frame>, before: Carry, pcm: seq<i16>, other: seq<i16>,
                      after: CarryState, otherAfter: CarryState)
    requires Explains(v, frames, before, pcm, after) && Explains(w, frames, before, other, otherAfter)
    ensures pcm == other && after == otherAfter
  {
    hide Quarter, FilterOf, BlendOf, CentreOf;
    CentresOnce(v.centers, w.centers, frames);
    FilterOnce(v.filtered, w.filtered, History(v.centers, before));
    assert v.repeated == w.repeated;
    BlendOnce(v.first, w.first, v.repeated, before.tails[0]);
    BlendOnce(v.second, w.second, v.first, before.tails[1]);
    BlendOnce(v.third, w.third, v.second, before.tails[2]);
    BlendOnce(v.last, w.last, v.third, before.tails[3]);
    assert after.tails[0] == otherAfter.tails[0] && after.tails[1] == otherAfter.tails[1];
    assert after.tails[2] == otherAfter.tails[2] && after.tails[3] == otherAfter.tails[3];
  }

  lemma CentresOnce(a: seq<Centered>, b: seq<Centered>, frames: seq<Frame>)
    requires CentresOf(a, frames) && CentresOf(b, frames)
    ensures a == b
  {
  }

  // ---- The stages compute it ----

  lemma CentreMeans(f: Frame)
    ensures CentreOf(Center(f) as int, f)
  {
    WeightedSums(f);
  }

  lemma WeightedSums(f: Frame)
    ensures WeightedSum(f, 16) as int
         == Low(f, 0) + 2 * Low(f, 1) + 3 * Low(f, 2) + 4 * Low(f, 3)
            + 5 * Low(f, 4) + 6 * Low(f, 5) + 7 * Low(f, 6) + 8 * Low(f, 7)
            + 9 * Low(f, 8) + 10 * Low(f, 9) + 11 * Low(f, 10) + 12 * Low(f, 11)
            + 13 * Low(f, 12) + 14 * Low(f, 13) + 15 * Low(f, 14) + 16 * Low(f, 15)
  {
    assert WeightedSum(f, 2) as int == WeightedSum(f, 0) as int + 1 * Low(f, 0) + 2 * Low(f, 1);
    assert WeightedSum(f, 4) as int == WeightedSum(f, 2) as int + 3 * Low(f, 2) + 4 * Low(f, 3);
    assert WeightedSum(f, 6) as int == WeightedSum(f, 4) as int + 5 * Low(f, 4) + 6 * Low(f, 5);
    assert WeightedSum(f, 8) as int == WeightedSum(f, 6) as int + 7 * Low(f, 6) + 8 * Low(f, 7);
    assert WeightedSum(f, 10) as int == WeightedSum(f, 8) as int + 9 * Low(f, 8) + 10 * Low(f, 9);
    assert WeightedSum(f, 12) as int == WeightedSum(f, 10) as int + 11 * Low(f, 10) + 12 * Low(f, 11);
    assert WeightedSum(f, 14) as int == WeightedSum(f, 12) as int + 13 * Low(f, 12) + 14 * Low(f, 13);
    assert WeightedSum(f, 16) as int == WeightedSum(f, 14) as int + 15 * Low(f, 14) + 16 * Low(f, 15);
  }

  lemma FilterMeans(value: Centered, recent: Centered, older: Centered)
    ensures Quarter(FilterValue(value, recent, older) as int, 3 * value as int + 2 * recent as int - older as int)
  {
  }

  lemma {:induction false} FilteredMeans(values: seq<Centered>, recent: Centered, older: Centered)
    ensures FilterOf(Filtered(values, recent, older), [older, recent] + values)
  {
    hide Quarter, FilterValue;
    if values != [] {
      FilteredMeans(values[1..], values[0], recent);
      FilterMeans(values[0], recent, older);
      assert [recent, values[0]] + values[1..] == ([older, recent] + values)[1..];
    }
  }

  lemma {:induction false} TwiceAt(values: seq<Level>, k: nat)
    requires k < 2 * |values|
    ensures Twice(values)[k] == values[k / 2]
  {
    if k >= 2 {
      TwiceAt(values[1..], k - 2);
      assert Twice(values)[k] == Twice(values[1..])[k - 2];
    }
  }

  lemma TwiceMeans(values: seq<Level>)
    ensures FourTimes(Twice(Twice(values)), values)
  {
    hide Twice;
    forall k | 0 <= k < 4 * |values|
      ensures Twice(Twice(values))[k] == values[k / 4]
    {
      TwiceAt(Twice(values), k);
      TwiceAt(values, k / 2);
    }
  }

  lemma OverlapMeans(value: Level, previous: Level)
    ensures Quarter(OverlapValue(value, previous) as int, 3 * value as int + previous as int)
  {
  }

  lemma {:induction false} OverlappedMeans(values: seq<Level>, left: seq<Level>)
    ensures BlendOf(Overlapped(values, left), values, left)
  {
    hide BlendOf, OverlapValue;
    if values == [] {
      NothingBlended(left);
    } else {
      OverlappedMeans(values[1..], Fill(values[0], |left|));
      BlendMore(Overlapped(values[1..], Fill(values[0], |left|)), values, left);
    }
  }

  lemma NothingBlended(left: seq<Level>)
    ensures BlendOf([], [], left)
  {
  }

  lemma BlendMore(rest: seq<Level>, values: seq<Level>, left: seq<Level>)
    requires values != [] && BlendOf(rest, values[1..], Fill(values[0], |left|))
    ensures BlendOf(Block(values[0], left) + rest, values, left)
  {
    hide BlendedAt;
    BlendLength(rest, values, left);
    forall i, phase | 0 <= i < |values| && 0 <= phase < |left|
      ensures BlendedAt(Block(values[0], left) + rest, values, left, i, phase)
    {
      if i == 0 {
        BlendedFirst(rest, values, left, phase);
      } else {
        assert BlendedAt(rest, values[1..], Fill(values[0], |left|), i - 1, phase);
        BlendedLater(rest, values, left, i, phase);
      }
    }
  }

  lemma BlendedFirst(rest: seq<Level>, values: seq<Level>, left: seq<Level>, phase: nat)
    requires values != [] && phase < |left|
    ensures BlendedAt(Block(values[0], left) + rest, values, left, 0, phase)
  {
    hide Quarter, OverlapValue;
    OverlapMeans(values[0], left[phase]);
  }

  lemma BlendedLater(rest: seq<Level>, values: seq<Level>, left: seq<Level>, i: nat, phase: nat)
    requires 0 < i < |values| && phase < |left| && BlendedAt(rest, values[1..], Fill(values[0], |left|), i - 1, phase)
    ensures BlendedAt(Block(values[0], left) + rest, values, left, i, phase)
  {
    hide Quarter, OverlapValue, PhaseOf;
    PhaseBehind(i, |left|, phase);
  }

  lemma BlendLength(rest: seq<Level>, values: seq<Level>, left: seq<Level>)
    requires values != [] && BlendOf(rest, values[1..], Fill(values[0], |left|))
    ensures |Block(values[0], left) + rest| == |values| * |left|
  {
    assert |values| * |left| == |left| + (|values| - 1) * |left|;
  }

  lemma PhaseBehind(i: nat, stride: nat, phase: nat)
    requires i > 0
    ensures PhaseOf(i, stride, phase) == stride + PhaseOf(i - 1, stride, phase)
  {
  }

  lemma LeavesLast(values: seq<Level>, tail: seq<Level>)
    requires values != []
    ensures Leaves(NextTail(values, tail), values, |tail|)
  {
  }

  /** One packet, from the codes to the samples and to the state behind it. */
  lemma DecodedMeans(frames: seq<Frame>, c: Carry) returns (v: Signals)
    requires frames != []
    ensures Explains(v, frames, c, Decoded(frames, c), After(frames, c))
  {
    hide Filtered, Twice, Overlapped, NextTail, FilterOf, BlendOf, Quarter, CentreOf, Center;
    v := Signals(Centers(frames), Filtered(Centers(frames), c.recent, c.older), Stage(frames, c, 0),
                 Stage(frames, c, 1), Stage(frames, c, 2), Stage(frames, c, 3), Stage(frames, c, 4));
    forall i | 0 <= i < |frames|
      ensures CentreOf(v.centers[i] as int, frames[i])
    {
      CentreMeans(frames[i]);
    }
    FilteredMeans(v.centers, c.recent, c.older);
    TwiceMeans(v.filtered);
    FirstStage(frames, c);
    StagesMean(frames, c);
    AfterMeans(frames, c);
    forall i | 0 <= i < |v.last|
      ensures Decoded(frames, c)[i] as int == 8 * v.last[i] as int
    {
      ClampIsIdle(v.last[i]);
    }
  }

  lemma StagesMean(frames: seq<Frame>, c: Carry)
    ensures forall k | 0 <= k < 4 :: BlendOf(Stage(frames, c, k + 1), Stage(frames, c, k), c.tails[k])
  {
    hide Overlapped, BlendOf;
    forall k | 0 <= k < 4
      ensures BlendOf(Stage(frames, c, k + 1), Stage(frames, c, k), c.tails[k])
    {
      OverlappedMeans(Stage(frames, c, k), c.tails[k]);
    }
  }

  lemma AfterMeans(frames: seq<Frame>, c: Carry)
    requires frames != []
    ensures var after, h := After(frames, c), History(Centers(frames), c);
            && after.older == h[|frames|] && after.recent == h[|frames| + 1]
            && Leaves(after.tails[0], Stage(frames, c, 0), 8) && Leaves(after.tails[1], Stage(frames, c, 1), 5)
            && Leaves(after.tails[2], Stage(frames, c, 2), 4) && Leaves(after.tails[3], Stage(frames, c, 3), 3)
  {
    hide Stage, NextTail, Center;
    forall k | 0 <= k < 4
      ensures Leaves(After(frames, c).tails[k], Stage(frames, c, k), Stride(k))
    {
      StageNotEmpty(frames, c, k);
      LeavesLast(Stage(frames, c, k), c.tails[k]);
    }
    assert Stride(0) == 8 && Stride(1) == 5 && Stride(2) == 4 && Stride(3) == 3;
  }

  // ---- The stateful reference ----

  /** Every value `count` times, in order. */
  function Repeated(values: seq<Level>, count: nat): (r: seq<Level>) {
    if values == [] then [] else seq(count, _ => values[0]) + Repeated(values[1..], count)
  }

  lemma {:induction false} RepeatedTwice(values: seq<Level>)
    ensures Repeated(values, 2) == Twice(values)
  {
    if values != [] {
      RepeatedTwice(values[1..]);
      assert seq(2, _ => values[0]) == [values[0], values[0]];
    }
  }

  method Repeat(input: seq<Level>, count: nat) returns (output: seq<Level>)
    ensures output == Repeated(input, count)
    ensures count == 2 ==> output == Twice(input)
  {
    output := [];
    assert input[0..] == input;
    for i := 0 to |input|
      invariant output + Repeated(input[i..], count) == Repeated(input, count)
    {
      assert input[i..][1..] == input[i + 1..];
      var repeated: seq<Level> := seq(count, _ => input[i]);
      assert Repeated(input[i..], count) == repeated + Repeated(input[i + 1..], count);
      output := output + repeated;
    }
    assert input[|input|..] == [];
    RepeatedTwice(input);
  }

  /** Blends every value with its predecessor; the first one with the tail of the previous packet. */
  method TransposeOverlap(input: seq<Level>, priorTail: seq<Level>) returns (output: seq<Level>, tail: seq<Level>)
    requires input != []
    ensures output == Overlapped(input, priorTail) && tail == NextTail(input, priorTail)
  {
    hide Block, OverlapValue;
    output := [];
    for index := 0 to |input|
      invariant output == Overlapped(input[..index], priorTail)
    {
      var phases := Phases(input, priorTail, index);
      OverlappedSnoc(input, priorTail, index);
      output := output + phases;
    }
    assert input[..|input|] == input;
    tail := Fill(input[|input| - 1], |priorTail|);
  }

  /** What value `index` of a packet is blended with. */
  function Carrying(input: seq<Level>, priorTail: seq<Level>, index: nat): (r: seq<Level>)
    requires index < |input|
    ensures |r| == |priorTail|
  {
    if index == 0 then priorTail else Fill(input[index - 1], |priorTail|)
  }

  method Phases(input: seq<Level>, priorTail: seq<Level>, index: nat) returns (output: seq<Level>)
    requires index < |input|
    ensures output == Block(input[index], Carrying(input, priorTail, index))
  {
    output := [];
    for phase := 0 to |priorTail|
      invariant output == Block(input[index], Carrying(input, priorTail, index))[..phase]
    {
      var previous := if index == 0 then priorTail[phase] else input[index - 1];
      output := output + [OverlapValue(input[index], previous)];
    }
  }

  lemma OverlappedSnoc(input: seq<Level>, priorTail: seq<Level>, index: nat)
    requires index < |input|
    ensures Overlapped(input[..index + 1], priorTail)
         == Overlapped(input[..index], priorTail) + Block(input[index], Carrying(input, priorTail, index))
  {
    hide Block;
    var f, g := input[..index], [input[index]];
    OverlappedConcat(f, g, priorTail);
    assert f + g == input[..index + 1];
    assert NextTail(f, priorTail) == Carrying(input, priorTail, index);
    OverlappedOne(input[index], NextTail(f, priorTail));
  }

  lemma OverlappedOne(value: Level, tail: seq<Level>)
    ensures Overlapped([value], tail) == Block(value, tail)
  {
    var rest := Fill(value, |tail|);
    assert [value][1..] == [] && Overlapped([], rest) == [];
    assert Block(value, tail) + [] == Block(value, tail);
  }

  /** Nothing was decoded yet. */
  predicate Silent(c: CarryState) {
    c.recent == 0 && c.older == 0 && forall k, phase | 0 <= k < |c.tails| && 0 <= phase < |c.tails[k]| ::
      c.tails[k][phase] == 0
  }

  /** The decoder's state between packets; a session is assumed to behave like it. */
  class ReferenceState {
    var preconv: seq<Centered>
    var transposeTails: seq<seq<Level>>

    predicate Valid()
      reads this
    {
      |preconv| == 2 && TailShapes(transposeTails)
    }

    function Carried(): Carry
      requires Valid()
      reads this
    {
      CarryState(preconv[0], preconv[1], transposeTails)
    }

    constructor ()
      ensures Valid() && Carried() == FRESH && Silent(Carried())
    {
      preconv, transposeTails := [0, 0], FRESH_TAILS;
    }

    method Reset()
      modifies this
      ensures Valid() && Carried() == FRESH && Silent(Carried())
    {
      preconv, transposeTails := [0, 0], FRESH_TAILS;
    }

    /** Decodes one packet and carries the state to the next. An empty packet is refused. */
    method Process(frames: seq<Frame>) returns (pcm: seq<i16>)
      requires Valid() && frames != []
      modifies this
      ensures Valid() && Carried() == After(frames, old(Carried()))
      ensures pcm == Decoded(frames, old(Carried())) && |pcm| == SAMPLES_PER_FRAME * |frames|
      ensures exists v :: Explains(v, frames, old(Carried()), pcm, Carried())
    {
      hide Stage, Twice, Filtered, Explains;
      ghost var before := Carried();
      ghost var signals := DecodedMeans(frames, before);
      DecodedLength(frames, before);
      var values := FilterPacket(frames);
      values := Repeat(values, 2);
      values := Repeat(values, 2);
      FirstStage(frames, before);
      values := RunStages(values, frames, before);
      pcm := seq(|values|, i requires 0 <= i < |values| => Sample(values[i]));
    }

    method RunStages(input: seq<Level>, ghost frames: seq<Frame>, ghost before: Carry) returns (values: seq<Level>)
      requires Valid() && frames != [] && transposeTails == before.tails && input == Stage(frames, before, 0)
      modifies this`transposeTails
      ensures Valid() && values == Stage(frames, before, 4) && transposeTails == After(frames, before).tails
    {
      hide Overlapped, NextTail, Centers, Filtered, Twice, Recent, Older;
      values := input;
      for stage := 0 to 4
        invariant Valid() && values == Stage(frames, before, stage)
        invariant forall k | 0 <= k < stage :: transposeTails[k] == NextTail(Stage(frames, before, k), before.tails[k])
        invariant forall k | stage <= k < 4 :: transposeTails[k] == before.tails[k]
      {
        StageNotEmpty(frames, before, stage);
        var tail;
        values, tail := TransposeOverlap(values, transposeTails[stage]);
        transposeTails := transposeTails[stage := tail];
      }
    }

    method FilterPacket(frames: seq<Frame>) returns (values: seq<Level>)
      requires Valid()
      modifies this`preconv
      ensures values == Filtered(Centers(frames), old(preconv[0]), old(preconv[1])) && |preconv| == 2
      ensures preconv[0] == Recent(Centers(frames), old(preconv[0]))
              && preconv[1] == Older(Centers(frames), old(preconv[0]), old(preconv[1]))
    {
      values := [];
      ghost var centers, first, second := Centers(frames), preconv[0], preconv[1];
      assert centers[0..] == centers;
      for i := 0 to |frames|
        invariant |preconv| == 2
        invariant preconv[0] == Recent(centers[..i], first) && preconv[1] == Older(centers[..i], first, second)
        invariant values + Filtered(centers[i..], preconv[0], preconv[1]) == Filtered(centers, first, second)
      {
        assert centers[i..][1..] == centers[i + 1..] && centers[..i + 1][..i] == centers[..i];
        var centered := Center(frames[i]);
        var filtered := FilterValue(centered, preconv[0], preconv[1]);
        preconv := [centered, preconv[0]];
        values := values + [filtered];
      }
      assert centers[..|frames|] == centers && centers[|frames|..] == [];
    }
  }
}
