/** Conversion of 32-bit floats to bfloat16 by integer arithmetic on their bits, against
    roundTiesToEven (section 4.3.1 of IEEE 754-2019). */
module Bf16 {
  import opened Bytes
  import opened LittleEndian
  import opened WeightContract
  import opened TensorIndex

  /** The bits of a 32-bit float, and of a bfloat16, as numbers. */
  type Bits32 = u32
  type Bits16 = u16

  const SIGN32: nat := 0x8000_0000
  const SIGN16: nat := 0x8000
  const INFINITY32: nat := 0x7f80_0000
  const INFINITY16: nat := 0x7f80
  const FRACTION: nat := 0x80_0000

  function Magnitude32(bits: Bits32): nat { bits % SIGN32 }
  function Magnitude16(bits: Bits16): nat { bits % SIGN16 }
  predicate Negative32(bits: Bits32) { bits >= SIGN32 }
  predicate Negative16(bits: Bits16) { bits >= SIGN16 }

  predicate IsFinite(bits: Bits32) { Magnitude32(bits) < INFINITY32 }
  predicate IsNan16(bits: Bits16) { Magnitude16(bits) > INFINITY16 }

  // ---- Values ----

  function Pow2(n: nat): (p: nat)
    ensures p > 0
  {
    if n == 0 then 1 else 2 * Pow2(n - 1)
  }

  /** The absolute value that a magnitude denotes, as a multiple of the smallest positive 32-bit float.
      Infinity stands for the power of two after the largest finite value, as rounding takes it. */
  function Value(magnitude: nat): nat {
    var exponent := magnitude / FRACTION;
    if exponent == 0 then magnitude else (FRACTION + magnitude % FRACTION) * Pow2(exponent - 1)
  }

  /** The distance from a magnitude to the next one. */
  function Step(magnitude: nat): (p: nat)
    ensures p > 0
  {
    var exponent := magnitude / FRACTION;
    if exponent == 0 then 1 else Pow2(exponent - 1)
  }

  lemma ValueStep(magnitude: nat)
    ensures Value(magnitude + 1) == Value(magnitude) + Step(magnitude)
  {
    var exponent, fraction := magnitude / FRACTION, magnitude % FRACTION;
    NextMagnitude(magnitude);
    if fraction + 1 < FRACTION {
      if exponent > 0 {
        assert (FRACTION + fraction + 1) * Pow2(exponent - 1)
               == (FRACTION + fraction) * Pow2(exponent - 1) + Pow2(exponent - 1);
      }
    } else if exponent > 0 {
      var p := Pow2(exponent - 1);
      assert Pow2(exponent) == 2 * p;
      assert FRACTION * (2 * p) == (FRACTION + fraction) * p + p;
    }
  }

  lemma NextMagnitude(magnitude: nat)
    ensures var exponent, fraction := magnitude / FRACTION, magnitude % FRACTION;
            if fraction + 1 < FRACTION then (magnitude + 1) / FRACTION == exponent
               && (magnitude + 1) % FRACTION == fraction + 1
            else (magnitude + 1) / FRACTION == exponent + 1 && (magnitude + 1) % FRACTION == 0
  {
  }

  lemma {:induction false} ValueIncreases(a: nat, b: nat)
    requires a < b
    ensures Value(a) < Value(b)
    decreases b
  {
    hide Value;
    ValueStep(b - 1);
    if a < b - 1 {
      ValueIncreases(a, b - 1);
    }
  }

  /** Between two neighbouring bfloat16 magnitudes the values are evenly spaced. */
  lemma {:induction false} EvenlySpaced(high: nat, low: nat)
    requires low <= 0x1_0000
    ensures Value(0x1_0000 * high + low) == Value(0x1_0000 * high) + low * Step(0x1_0000 * high)
  {
    hide Value, Step;
    var from := 0x1_0000 * high;
    if low > 0 {
      EvenlySpaced(high, low - 1);
      ValueStep(from + low - 1);
      SameStep(high, low - 1);
      assert low * Step(from) == (low - 1) * Step(from) + Step(from);
    }
  }

  lemma SameStep(high: nat, low: nat)
    requires low < 0x1_0000
    ensures Step(0x1_0000 * high + low) == Step(0x1_0000 * high)
  {
    assert (0x1_0000 * high + low) / FRACTION == high / 128;
    assert 0x1_0000 * high / FRACTION == high / 128;
  }

  // ---- Which words are finite ----

  /** A word is finite exactly if its eight exponent bits are not all ones, and exactly if its absolute value
      is below 2^128, the power of two after the largest float; the unit of values is 2^-149. */
  lemma FiniteIff(bits: Bits32)
    ensures IsFinite(bits) <==> bits / 0x80_0000 % 256 != 255
    ensures IsFinite(bits) <==> Value(Magnitude32(bits)) < Pow2(128 + 149)
  {
    hide Value;
    ExponentBits(bits);
    var limit := 255 * 0x80_0000;
    TopValue();
    if Magnitude32(bits) < limit {
      ValueIncreases(Magnitude32(bits), limit);
    } else if Magnitude32(bits) > limit {
      ValueIncreases(limit, Magnitude32(bits));
    }
  }

  lemma ExponentBits(bits: Bits32)
    ensures bits / 0x80_0000 % 256 == Magnitude32(bits) / 0x80_0000
    ensures Magnitude32(bits) < 255 * 0x80_0000 <==> bits / 0x80_0000 % 256 != 255
    ensures IsFinite(bits) <==> Magnitude32(bits) < 255 * 0x80_0000
  {
  }

  lemma TopValue()
    ensures Value(255 * 0x80_0000) == Pow2(128 + 149)
  {
    hide Pow2;
    Scaled(254);
  }

  lemma Scaled(n: nat)
    ensures 0x80_0000 * Pow2(n) == Pow2(n + 23)
  {
    Times256(n);
    Times256(n + 8);
    Times16(n + 16);
    Times4(n + 20);
    assert Pow2(n + 23) == 2 * Pow2(n + 22);
  }

  lemma Times256(n: nat)
    ensures Pow2(n + 8) == 0x100 * Pow2(n)
  {
    Times16(n);
    Times16(n + 4);
  }

  lemma Times16(n: nat)
    ensures Pow2(n + 4) == 16 * Pow2(n)
  {
    Times4(n);
    Times4(n + 2);
  }

  lemma Times4(n: nat)
    ensures Pow2(n + 2) == 4 * Pow2(n)
  {
    assert Pow2(n + 1) == 2 * Pow2(n);
  }

  /** The four bytes of a word, least significant first, and its exponent bits in the upper two of them. */
  lemma WordExponent(data: bytes, at: nat)
    requires at + 4 <= |data|
    ensures Read32(data, at) / 0x80_0000 % 256 == data[at + 3] % 128 * 2 + data[at + 2] / 128
  {
    var a: int, b: int, c: int, d: int := data[at], data[at + 1], data[at + 2], data[at + 3];
    assert Read32(data, at) == a + 0x100 * b + 0x1_0000 * c + 0x100_0000 * d;
    assert Read32(data, at) / 0x80_0000 == 2 * d + c / 128;
  }

  // ---- The conversion ----

  function LowHalf(bits: Bits32): nat { bits % 0x1_0000 }
  function HighHalf(bits: Bits32): Bits16 { bits / 0x1_0000 }

  /** Addition wraps in 32 bits. */
  function ToBf16(bits: Bits32): Bits16 {
    HighHalf((bits + 0x7fff + HighHalf(bits) % 2) % 0x1_0000_0000)
  }

  /** Which half the low bits fall in decides; the half itself goes to the even side. */
  function RoundsUp(bits: Bits32): bool {
    LowHalf(bits) > 0x8000 || (LowHalf(bits) == 0x8000 && HighHalf(bits) % 2 == 1)
  }

  lemma ConversionInParts(bits: Bits32)
    requires IsFinite(bits)
    ensures bits + 0x7fff + HighHalf(bits) % 2 < 0x1_0000_0000
    ensures ToBf16(bits) as int == HighHalf(bits) + if RoundsUp(bits) then 1 else 0
    ensures Negative16(ToBf16(bits)) == Negative32(bits)
    ensures Magnitude16(ToBf16(bits)) == Magnitude32(bits) / 0x1_0000 + if RoundsUp(bits) then 1 else 0
  {
    hide Negative16, Magnitude16, Negative32, Magnitude32;
    Carried(bits);
    SplitSign(bits);
    FiniteMagnitude(bits);
    SignedHalf(ToBf16(bits), Negative32(bits), Magnitude32(bits) / 0x1_0000 + if RoundsUp(bits) then 1 else 0);
  }

  lemma Carried(bits: Bits32)
    requires IsFinite(bits)
    ensures bits + 0x7fff + HighHalf(bits) % 2 < 0x1_0000_0000
    ensures ToBf16(bits) as int == HighHalf(bits) + if RoundsUp(bits) then 1 else 0
  {
    var high, low := bits / 0x1_0000, bits % 0x1_0000;
    var sum := low + 0x7fff + high % 2;
    assert bits == 0x1_0000 * high + low;
    CarryHalf(high, sum);
  }

  lemma FiniteMagnitude(bits: Bits32)
    requires IsFinite(bits)
    ensures Magnitude32(bits) / 0x1_0000 < INFINITY16
  {
  }

  lemma SignedHalf(half: Bits16, negative: bool, magnitude: nat)
    requires magnitude < SIGN16 && half == (if negative then SIGN16 else 0) + magnitude
    ensures Negative16(half) == negative && Magnitude16(half) == magnitude
  {
  }

  lemma CarryHalf(high: nat, sum: nat)
    requires sum < 0x2_0000
    ensures (0x1_0000 * high + sum) / 0x1_0000 == high + if sum >= 0x1_0000 then 1 else 0
  {
  }

  lemma SplitSign(bits: Bits32)
    ensures HighHalf(bits) == (if Negative32(bits) then SIGN16 else 0) + Magnitude32(bits) / 0x1_0000
  {
    assert if bits >= SIGN32 then bits == SIGN32 + Magnitude32(bits) else bits == Magnitude32(bits);
  }

  /** The sign is kept, nothing wraps and no NaN appears; the result is infinite exactly from halfway
      between the largest finite bfloat16 and the next power of two on. */
  lemma FiniteConverts(bits: Bits32)
    requires IsFinite(bits)
    ensures bits + 0x7fff + HighHalf(bits) % 2 < 0x1_0000_0000
    ensures Negative16(ToBf16(bits)) == Negative32(bits) && !IsNan16(ToBf16(bits))
    ensures Magnitude16(ToBf16(bits)) == INFINITY16 <==> Magnitude32(bits) >= 0x7f7f_8000
  {
    ConversionInParts(bits);
    SplitMagnitude(bits);
  }

  lemma SplitMagnitude(bits: Bits32)
    ensures Magnitude32(bits) == 0x1_0000 * (Magnitude32(bits) / 0x1_0000) + LowHalf(bits)
    ensures HighHalf(bits) % 2 == Magnitude32(bits) / 0x1_0000 % 2
  {
    assert bits == Magnitude32(bits) || bits == SIGN32 + Magnitude32(bits);
  }

  /** A larger magnitude never converts to a smaller one. */
  lemma Monotone(a: Bits32, b: Bits32)
    requires IsFinite(a) && IsFinite(b) && Magnitude32(a) <= Magnitude32(b)
    ensures Magnitude16(ToBf16(a)) <= Magnitude16(ToBf16(b))
  {
    ConversionInParts(a);
    ConversionInParts(b);
    SplitMagnitude(a);
    SplitMagnitude(b);
  }

  // ---- Nearest, ties to even ----

  function Gap(a: int, b: int): nat { if a <= b then b - a else a - b }

  function Signed(negative: bool, value: nat): int { if negative then 0 - value else value }

  function Value32(bits: Bits32): int { Signed(Negative32(bits), Value(Magnitude32(bits))) }
  function Value16(bits: Bits16): int { Signed(Negative16(bits), Value(0x1_0000 * Magnitude16(bits))) }

  /** Distances from a magnitude to its two bfloat16 neighbours and to everything beyond them. */
  lemma Neighbours(high: nat, low: nat, other: nat)
    requires low < 0x1_0000
    ensures var v := Value(0x1_0000 * high + low);
            && v == Value(0x1_0000 * high) + low * Step(0x1_0000 * high)
            && Value(0x1_0000 * (high + 1)) == v + (0x1_0000 - low) * Step(0x1_0000 * high)
            && (other < high ==> Value(0x1_0000 * other) < Value(0x1_0000 * high))
            && (other > high + 1 ==> Value(0x1_0000 * other) > Value(0x1_0000 * (high + 1)))
  {
    hide Value, Step;
    EvenlySpaced(high, low);
    EvenlySpaced(high, 0x1_0000);
    assert 0x1_0000 * Step(0x1_0000 * high) == low * Step(0x1_0000 * high) + (0x1_0000 - low) * Step(0x1_0000 * high);
    if other < high {
      ValueIncreases(0x1_0000 * other, 0x1_0000 * high);
    } else if other > high + 1 {
      ValueIncreases(0x1_0000 * (high + 1), 0x1_0000 * other);
    }
  }

  lemma Closer(low: nat, step: nat)
    requires low < 0x1_0000 && step > 0
    ensures low < 0x8000 ==> low * step < (0x1_0000 - low) * step
    ensures low > 0x8000 ==> low * step > (0x1_0000 - low) * step
    ensures low == 0x8000 ==> low * step == (0x1_0000 - low) * step
  {
  }

  function Chosen(high: nat, low: nat): nat {
    if low > 0x8000 || (low == 0x8000 && high % 2 == 1) then high + 1 else high
  }

  /** Magnitudes: the chosen neighbour is nearest, and wins a tie only by being even. */
  lemma NearestMagnitude(high: nat, low: nat, other: nat)
    requires low < 0x1_0000
    ensures var chosen, v := Chosen(high, low), Value(0x1_0000 * high + low);
            && Gap(Value(0x1_0000 * chosen), v) <= Gap(Value(0x1_0000 * other), v)
            && (Gap(Value(0x1_0000 * chosen), v) == Gap(Value(0x1_0000 * other), v) && other != chosen
                ==> chosen % 2 == 0)
  {
    hide Value, Step;
    Neighbours(high, low, other);
    Closer(low, Step(0x1_0000 * high));
    Pick(high, low, other, Value(0x1_0000 * high), low * Step(0x1_0000 * high),
         (0x1_0000 - low) * Step(0x1_0000 * high),
         Value(0x1_0000 * other));
  }

  lemma Pick(high: nat, low: nat, other: nat, below: nat, down: nat, up: nat, candidate: nat)
    requires low < 0x8000 ==> down < up
    requires low > 0x8000 ==> down > up
    requires low == 0x8000 ==> down == up
    requires other < high ==> candidate < below
    requires other > high + 1 ==> candidate > below + down + up
    requires other == high ==> candidate == below
    requires other == high + 1 ==> candidate == below + down + up
    ensures var chosen, v := Chosen(high, low), below + down;
            var picked := if chosen == high then below else below + down + up;
            && Gap(picked, v) <= Gap(candidate, v)
            && (Gap(picked, v) == Gap(candidate, v) && other != chosen ==> chosen % 2 == 0)
  {
  }

  /** What is nearest among magnitudes is nearest among signed values. */
  lemma SignsDoNotMatter(negative: bool, otherNegative: bool, picked: nat, candidate: nat, v: nat)
    requires Gap(picked, v) <= Gap(candidate, v) && Gap(picked, v) <= v
    ensures Gap(Signed(negative, picked), Signed(negative, v)) == Gap(picked, v)
    ensures Gap(picked, v) <= Gap(Signed(otherNegative, candidate), Signed(negative, v))
    ensures negative != otherNegative && Gap(picked, v) == Gap(Signed(otherNegative, candidate), Signed(negative, v))
            ==> Gap(picked, v) == v
    ensures negative == otherNegative
            ==> Gap(Signed(otherNegative, candidate), Signed(negative, v)) == Gap(candidate, v)
  {
  }

  /** Every finite value converts to the nearest bfloat16, infinities included, of either sign; on a tie
      to the one whose last bit is zero. */
  lemma RoundsTiesToEven(bits: Bits32, other: Bits16)
    requires IsFinite(bits) && !IsNan16(other)
    ensures Gap(Value16(ToBf16(bits)), Value32(bits)) <= Gap(Value16(other), Value32(bits))
    ensures Gap(Value16(ToBf16(bits)), Value32(bits)) == Gap(Value16(other), Value32(bits)) && other != ToBf16(bits)
            ==> ToBf16(bits) % 2 == 0
  {
    hide Value, Step, Gap, Signed, ToBf16, RoundsUp, HighHalf, IsFinite, Negative32, Negative16;
    var high, low, result := Magnitude32(bits) / 0x1_0000, LowHalf(bits), ToBf16(bits);
    ConversionInParts(bits);
    SplitMagnitude(bits);
    ChosenHalf(bits);
    NearestMagnitude(high, low, Magnitude16(other));
    NearestMagnitude(high, low, 0);
    GapToZero(Value(Magnitude32(bits)));
    SignsDoNotMatter(Negative32(bits), Negative16(other), Value(0x1_0000 * Magnitude16(result)),
                     Value(0x1_0000 * Magnitude16(other)), Value(Magnitude32(bits)));
    if Magnitude16(other) == Magnitude16(result) && Negative16(other) == Negative32(bits) {
      SameBits(other, result);
    }
  }

  lemma ChosenHalf(bits: Bits32)
    requires IsFinite(bits)
    ensures Magnitude16(ToBf16(bits)) == Chosen(Magnitude32(bits) / 0x1_0000, LowHalf(bits))
    ensures ToBf16(bits) % 2 == Chosen(Magnitude32(bits) / 0x1_0000, LowHalf(bits)) % 2
  {
    hide ToBf16, Magnitude16;
    ConversionInParts(bits);
    SplitMagnitude(bits);
    assert ToBf16(bits) % 2 == (HighHalf(bits) + if RoundsUp(bits) then 1 else 0) % 2;
  }

  lemma SameBits(a: Bits16, b: Bits16)
    requires Magnitude16(a) == Magnitude16(b) && Negative16(a) == Negative16(b)
    ensures a == b
  {
  }

  lemma GapToZero(v: nat)
    ensures Gap(Value(0), v) == v
  {
  }

  // ---- Whole tensors ----

  /** Converts word by word; a tail shorter than a word is dropped. */
  method F32BytesToBf16(source: bytes) returns (output: bytes)
    ensures |output| == 2 * (|source| / 4)
    ensures forall i | 0 <= i < |source| / 4 :: output[2 * i..2 * i + 2] == Le16(ToBf16(Read32(source, 4 * i)))
  {
    hide ToBf16, Read32, Le16;
    output := [];
    for k := 0 to |source| / 4
      invariant |output| == 2 * k
      invariant forall i | 0 <= i < k :: output[2 * i..2 * i + 2] == Le16(ToBf16(Read32(source, 4 * i)))
    {
      ghost var was := output;
      output := output + Le16(ToBf16(Read32(source, 4 * k)));
      forall i | 0 <= i < k
        ensures output[2 * i..2 * i + 2] == was[2 * i..2 * i + 2]
      {
      }
    }
  }

  datatype FiniteError = TensorMissing | NonFinite | Truncated

  lemma FiniteWord(data: bytes, i: nat)
    requires i < |data| / 4
    ensures IsFinite(Read32(data, 4 * i)) <==> data[4 * i + 3] % 128 * 2 + data[4 * i + 2] / 128 != 255
  {
    FiniteIff(Read32(data, 4 * i));
    WordExponent(data, 4 * i);
  }

  /** Whole words, and in none of them the exponent bits are all ones. */
  predicate AllFinite(data: bytes) {
    |data| % 4 == 0 && forall i | 0 <= i < |data| / 4 :: data[4 * i + 3] % 128 * 2 + data[4 * i + 2] / 128 != 255
  }

  /** The guard in front of the conversion: it passes exactly when every tensor of the decoder is there
      and holds whole, finite words. */
  method ValidateDecoderFinite(source: Mapping, contract: TensorContract) returns (r: Result<(), FiniteError>)
    ensures r.Ok? <==> forall i | 0 <= i < |contract.tensors| ::
              contract.tensors[i].name in source && AllFinite(source[contract.tensors[i].name].data)
  {
    hide IsFinite, Read32, Value, Magnitude32;
    for k := 0 to |contract.tensors|
      invariant forall i | 0 <= i < k ::
                  contract.tensors[i].name in source && AllFinite(source[contract.tensors[i].name].data)
    {
      if contract.tensors[k].name !in source {
        return Err(TensorMissing);
      }
      var data := source[contract.tensors[k].name].data;
      for index := 0 to |data| / 4
        invariant forall i | 0 <= i < index :: data[4 * i + 3] % 128 * 2 + data[4 * i + 2] / 128 != 255
      {
        FiniteWord(data, index);
        if !IsFinite(Read32(data, 4 * index)) {
          return Err(NonFinite);
        }
      }
      if |data| % 4 != 0 {
        return Err(Truncated);
      }
    }
    return Ok(());
  }

  /** Without the guard the addition can wrap: this NaN becomes a positive number. */
  lemma NanCanWrap()
    ensures exists bits: Bits32 ::
              !IsFinite(bits) && Negative32(bits) && !Negative16(ToBf16(bits)) && !IsNan16(ToBf16(bits))
  {
    var bits: Bits32 := 0xffff_ffff;
    assert ToBf16(bits) == 0;
  }
}
