/** SHA-256 as FIPS 180-4 defines it: the reference the streaming hasher is proved equal to. */
module Fips180 {
  import opened Bytes

  type word = bv32
  /** The eight working variables, and the chained hash value. */
  datatype Registers = Registers(a: word, b: word, c: word, d: word, e: word, f: word, g: word, h: word)

  // ---- Section 4.1.2: functions on 32-bit words ----

  /** Addition modulo 2^32 (section 3.2). */
  function Add(x: word, y: word): word { x + y }

  function AddFour(x: word, y: word, z: word, v: word): word { x + y + z + v }

  function Ch(x: word, y: word, z: word): word { (x & y) ^ (!x & z) }
  function Maj(x: word, y: word, z: word): word { (x & y) ^ (x & z) ^ (y & z) }

  // ROTR^n(x) is written with two shifts, as section 3.2 defines it.
  function BigSigma0(x: word): word { ((x >> 2) | (x << 30)) ^ ((x >> 13) | (x << 19)) ^ ((x >> 22) | (x << 10)) }
  function BigSigma1(x: word): word { ((x >> 6) | (x << 26)) ^ ((x >> 11) | (x << 21)) ^ ((x >> 25) | (x << 7)) }
  function SmallSigma0(x: word): word { ((x >> 7) | (x << 25)) ^ ((x >> 18) | (x << 14)) ^ (x >> 3) }
  function SmallSigma1(x: word): word { ((x >> 17) | (x << 15)) ^ ((x >> 19) | (x << 13)) ^ (x >> 10) }

  // ---- Section 4.2.2 and 5.3.3: constants ----

  /** The round constants, eight to a row. */
  const K: seq<seq<word>> := [
    [0x428a2f98, 0x71374491, 0xb5c0fbcf, 0xe9b5dba5, 0x3956c25b, 0x59f111f1, 0x923f82a4, 0xab1c5ed5],
    [0xd807aa98, 0x12835b01, 0x243185be, 0x550c7dc3, 0x72be5d74, 0x80deb1fe, 0x9bdc06a7, 0xc19bf174],
    [0xe49b69c1, 0xefbe4786, 0x0fc19dc6, 0x240ca1cc, 0x2de92c6f, 0x4a7484aa, 0x5cb0a9dc, 0x76f988da],
    [0x983e5152, 0xa831c66d, 0xb00327c8, 0xbf597fc7, 0xc6e00bf3, 0xd5a79147, 0x06ca6351, 0x14292967],
    [0x27b70a85, 0x2e1b2138, 0x4d2c6dfc, 0x53380d13, 0x650a7354, 0x766a0abb, 0x81c2c92e, 0x92722c85],
    [0xa2bfe8a1, 0xa81a664b, 0xc24b8b70, 0xc76c51a3, 0xd192e819, 0xd6990624, 0xf40e3585, 0x106aa070],
    [0x19a4c116, 0x1e376c08, 0x2748774c, 0x34b0bcb5, 0x391c0cb3, 0x4ed8aa4a, 0x5b9cca4f, 0x682e6ff3],
    [0x748f82ee, 0x78a5636f, 0x84c87814, 0x8cc70208, 0x90befffa, 0xa4506ceb, 0xbef9a3f7, 0xc67178f2]]

  function RoundConstant(t: nat): word
    requires t < 64
  {
    EightRows(t / 8);
    K[t / 8][t % 8]
  }

  lemma EightRows(row: nat)
    requires row < 8
    ensures row < |K| && |K[row]| == 8
  {
  }

  const INITIAL: Registers := Registers(
    0x6a09e667, 0xbb67ae85, 0x3c6ef372, 0xa54ff53a, 0x510e527f, 0x9b05688c, 0x1f83d9ab, 0x5be0cd19)

  // ---- Words and bytes, big-endian ----

  function WordAt(block: bytes, t: nat): word
    requires 4 * t + 4 <= |block|
  {
    (block[4 * t] as word << 24) | (block[4 * t + 1] as word << 16) | (block[4 * t + 2] as word << 8)
    | block[4 * t + 3] as word
  }

  function WordByte(w: word, shift: nat): byte
    requires shift <= 24
  {
    ((w >> shift) & 0xff) as bv8 as int
  }

  function WordBytes(w: word): (bs: bytes)
    ensures |bs| == 4
  {
    [WordByte(w, 24), WordByte(w, 16), WordByte(w, 8), WordByte(w, 0)]
  }

  // ---- Section 5.1.1: padding ----

  /** The number of zero bytes between the 0x80 byte and the length field: the least that fills a block. */
  function PadZeros(n: nat): (k: nat)
    ensures k < 64 && (n + 1 + k) % 64 == 56
  {
    (55 - n) % 64
  }

  function Zeros(k: nat): (z: bytes)
    ensures |z| == k && forall i | 0 <= i < k :: z[i] == 0
  {
    seq(k, _ => 0)
  }

  /** `n` as eight bytes, most significant first. */
  function Be64(n: nat): (bs: bytes)
    requires n < U64_LIMIT
    ensures |bs| == 8
  {
    [n / 0x100_0000_0000_0000, n / 0x1_0000_0000_0000 % 256, n / 0x100_0000_0000 % 256, n / 0x1_0000_0000 % 256,
     n / 0x100_0000 % 256, n / 0x1_0000 % 256, n / 0x100 % 256, n % 256]
  }

  /** The bytes are the digits of the number to the base 256. */
  lemma Be64Value(n: nat)
    requires n < U64_LIMIT
    ensures var b := Be64(n);
            n == ((((((b[0] as int * 256 + b[1]) * 256 + b[2]) * 256 + b[3]) * 256 + b[4]) * 256 + b[5]) * 256 + b[6])
                 * 256 + b[7]
  {
    assert n / 0x100 / 0x100 == n / 0x1_0000 && n / 0x1_0000 / 0x100 == n / 0x100_0000;
    assert n / 0x100_0000 / 0x100 == n / 0x1_0000_0000 && n / 0x1_0000_0000 / 0x100 == n / 0x100_0000_0000;
    assert n / 0x100_0000_0000 / 0x100 == n / 0x1_0000_0000_0000;
    assert n / 0x1_0000_0000_0000 / 0x100 == n / 0x100_0000_0000_0000;
  }

  function PaddedBlocks(n: nat): nat {
    (n + 1 + PadZeros(n) + 8) / 64
  }

  function Pad(message: bytes): (padded: bytes)
    requires 8 * |message| < U64_LIMIT
    ensures |padded| == 64 * PaddedBlocks(|message|)
  {
    assert (|message| + 1 + PadZeros(|message|) + 8) % 64 == 0;
    message + [0x80] + Zeros(PadZeros(|message|)) + Be64(8 * |message|)
  }

  // ---- Section 6.2.2: the hash computation ----

  /** The message schedule word for round `t`. */
  function W(block: bytes, t: nat): word
    requires |block| == 64 && t < 64
  {
    if t < 16 then WordAt(block, t)
    else AddFour(SmallSigma1(W(block, t - 2)), W(block, t - 7), SmallSigma0(W(block, t - 15)), W(block, t - 16))
  }

  function Round(r: Registers, k: word, w: word): Registers {
    var t1 := Add(Add(Add(Add(r.h, BigSigma1(r.e)), Ch(r.e, r.f, r.g)), k), w);
    var t2 := Add(BigSigma0(r.a), Maj(r.a, r.b, r.c));
    Registers(Add(t1, t2), r.a, r.b, r.c, Add(r.d, t1), r.e, r.f, r.g)
  }

  /** The working variables after `t` rounds. */
  function Rounds(start: Registers, block: bytes, t: nat): Registers
    requires |block| == 64 && t <= 64
  {
    if t == 0 then start else Round(Rounds(start, block, t - 1), RoundConstant(t - 1), W(block, t - 1))
  }

  function Plus(x: Registers, y: Registers): Registers {
    Registers(Add(x.a, y.a), Add(x.b, y.b), Add(x.c, y.c), Add(x.d, y.d), Add(x.e, y.e), Add(x.f, y.f), Add(x.g, y.g),
              Add(x.h, y.h))
  }

  function CompressBlock(h: Registers, block: bytes): Registers
    requires |block| == 64
  {
    Plus(h, Rounds(h, block, 64))
  }

  /** The hash value after the first `i` blocks of the padded message. */
  function HashValue(data: bytes, i: nat): Registers
    requires 64 * i <= |data|
  {
    if i == 0 then INITIAL else CompressBlock(HashValue(data, i - 1), data[64 * (i - 1)..64 * i])
  }

  function WordsBytes(words: seq<word>): (bs: bytes)
    ensures |bs| == 4 * |words|
  {
    if words == [] then [] else WordsBytes(words[..|words| - 1]) + WordBytes(words[|words| - 1])
  }

  /** The final hash value as 32 bytes. */
  function DigestBytes(h: Registers): (bs: bytes)
    ensures |bs| == 32
  {
    WordsBytes([h.a, h.b, h.c, h.d, h.e, h.f, h.g, h.h])
  }

  function Sha256(message: bytes): (digest: bytes)
    requires 8 * |message| < U64_LIMIT
    ensures |digest| == 32
  {
    DigestBytes(HashValue(Pad(message), PaddedBlocks(|message|)))
  }
}
