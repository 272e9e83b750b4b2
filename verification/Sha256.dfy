/** The streaming SHA-256 hasher: a 64-byte block filled across calls, compressed when full, padded
    in one or two blocks at the end. */
module Sha256Hasher {
  import opened Bytes
  import opened Fips180
  import opened Text

  // ---- The word functions as the hasher computes them, with rotations ----

  function ScheduleSum0(x: word): word { x.RotateRight(7) ^ x.RotateRight(18) ^ (x >> 3) }
  function ScheduleSum1(x: word): word { x.RotateRight(17) ^ x.RotateRight(19) ^ (x >> 10) }
  function Sum0(x: word): word { x.RotateRight(2) ^ x.RotateRight(13) ^ x.RotateRight(22) }
  function Sum1(x: word): word { x.RotateRight(6) ^ x.RotateRight(11) ^ x.RotateRight(25) }
  function Choice(e: word, f: word, g: word): word { (e & f) ^ (!e & g) }
  function Majority(a: word, b: word, c: word): word { (a & b) ^ (a & c) ^ (b & c) }

  /** They are the functions of section 4.1.2, which the standard writes with pairs of shifts. */
  lemma WordFunctionsMatch(x: word)
    ensures ScheduleSum0(x) == SmallSigma0(x) && ScheduleSum1(x) == SmallSigma1(x)
    ensures Sum0(x) == BigSigma0(x) && Sum1(x) == BigSigma1(x)
  {
  }

  lemma BitwiseMatch(x: word, y: word, z: word)
    ensures Choice(x, y, z) == Ch(x, y, z) && Majority(x, y, z) == Maj(x, y, z)
  {
  }

  /** The hasher adds the four schedule terms in another order. */
  lemma SumOrder(a: word, b: word, c: word, d: word)
    ensures AddFour(a, b, c, d) == AddFour(d, c, b, a)
  {
  }

  class Sha256State {
    const state: array<word>
    const block: array<byte>
    var blockLen: nat
    var bytesSeen: nat
    /** Everything hashed so far, and how many whole blocks of it are compressed. */
    ghost var message: bytes
    ghost var blocks: nat

    ghost predicate Shaped()
    {
      state.Length == 8 && block.Length == 64
    }

    ghost function Chained(): Registers
      requires Shaped()
      reads state
    {
      Registers(state[0], state[1], state[2], state[3], state[4], state[5], state[6], state[7])
    }

    /** The first `blocks` blocks of the message are chained into the state. */
    ghost predicate Compressed()
      reads this, state
    {
      Shaped() && 64 * blocks <= |message| && Chained() == HashValue(message, blocks)
    }

    ghost predicate Valid()
      reads this, state, block
    {
      && Compressed()
      && blockLen < 64 && bytesSeen == |message| == 64 * blocks + blockLen < U64_LIMIT
      && block[..blockLen] == message[64 * blocks..]
    }

    constructor ()
      ensures Valid() && fresh(state) && fresh(block) && message == []
    {
      state := new word[8] [0x6a09e667, 0xbb67ae85, 0x3c6ef372, 0xa54ff53a, 0x510e527f, 0x9b05688c, 0x1f83d9ab,
                            0x5be0cd19];
      block := new byte[64](_ => 0);
      blockLen, bytesSeen, message, blocks := 0, 0, [], 0;
    }

    /** The compression of one block is that of the standard. */
    method Compress(input: bytes)
      requires Shaped() && |input| == 64
      modifies state
      ensures Chained() == CompressBlock(old(Chained()), input)
    {
      hide Add, W, Rounds;
      var schedule := ExpandSchedule(input);
      var rounds := RunRounds(schedule, input);
      state[0] := Add(state[0], rounds.a);
      state[1] := Add(state[1], rounds.b);
      state[2] := Add(state[2], rounds.c);
      state[3] := Add(state[3], rounds.d);
      state[4] := Add(state[4], rounds.e);
      state[5] := Add(state[5], rounds.f);
      state[6] := Add(state[6], rounds.g);
      state[7] := Add(state[7], rounds.h);
    }

    method ExpandSchedule(input: bytes) returns (schedule: array<word>)
      requires |input| == 64
      ensures fresh(schedule) && schedule.Length == 64
      ensures forall t | 0 <= t < 64 :: schedule[t] == W(input, t)
    {
      hide AddFour, WordAt, ScheduleSum0, ScheduleSum1, SmallSigma0, SmallSigma1;
      schedule := new word[64](_ => 0);
      for index := 0 to 16
        invariant forall t | 0 <= t < index :: schedule[t] == W(input, t)
      {
        schedule[index] := WordAt(input, index);
      }
      for index := 16 to 64
        invariant forall t | 0 <= t < index :: schedule[t] == W(input, t)
      {
        WordFunctionsMatch(schedule[index - 15]);
        WordFunctionsMatch(schedule[index - 2]);
        var s0 := ScheduleSum0(schedule[index - 15]);
        var s1 := ScheduleSum1(schedule[index - 2]);
        SumOrder(schedule[index - 16], s0, schedule[index - 7], s1);
        schedule[index] := AddFour(schedule[index - 16], s0, schedule[index - 7], s1);
      }
    }

    method RunRounds(schedule: array<word>, input: bytes) returns (r: Registers)
      requires Shaped() && |input| == 64 && schedule.Length == 64
      requires forall t | 0 <= t < 64 :: schedule[t] == W(input, t)
      ensures r == Rounds(Chained(), input, 64)
    {
      hide Add, Sum0, Sum1, BigSigma0, BigSigma1, Choice, Majority, Ch, Maj, W, RoundConstant;
      var a, b, c, d := state[0], state[1], state[2], state[3];
      var e, f, g, h := state[4], state[5], state[6], state[7];
      ghost var start := Chained();
      for index := 0 to 64
        invariant Registers(a, b, c, d, e, f, g, h) == Rounds(start, input, index)
      {
        WordFunctionsMatch(e);
        WordFunctionsMatch(a);
        BitwiseMatch(e, f, g);
        BitwiseMatch(a, b, c);
        var temporary1 := Add(Add(Add(Add(h, Sum1(e)), Choice(e, f, g)), RoundConstant(index)), schedule[index]);
        var temporary2 := Add(Sum0(a), Majority(a, b, c));
        h := g;
        g := f;
        f := e;
        e := Add(d, temporary1);
        d := c;
        c := b;
        b := a;
        a := Add(temporary1, temporary2);
      }
      r := Registers(a, b, c, d, e, f, g, h);
    }

    method CopyInto(at: nat, source: bytes)
      requires Shaped() && at + |source| <= 64
      modifies block
      ensures block[..at] == old(block[..at]) && block[at..at + |source|] == source
      ensures block[at + |source|..] == old(block[at + |source|..])
    {
      forall i | 0 <= i < |source| {
        block[at + i] := source[i];
      }
    }

    /** Compresses the next block of the message. */
    method CompressNext(next: bytes)
      requires Compressed() && |next| == 64 && 64 * blocks + 64 <= |message|
               && next == message[64 * blocks..64 * blocks + 64]
      modifies state, this`blocks
      ensures Compressed() && blocks == old(blocks) + 1
    {
      hide CompressBlock;
      Compress(next);
      blocks := blocks + 1;
      assert message[64 * (blocks - 1)..64 * blocks] == next;
    }

    method Update(input: bytes)
      requires Valid() && |message| + |input| < U64_LIMIT
      modifies this, state, block
      ensures Valid() && message == old(message) + input
    {
      hide HashValue;
      HashExtended(message, input, blocks);
      bytesSeen := bytesSeen + |input|;
      message := message + input;
      var rest := input;
      if blockLen != 0 {
        rest := TopUp(input);
        if blockLen != 0 {
          return;
        }
      }
      rest := CompressWhole(rest);
      CopyInto(0, rest);
      blockLen := |rest|;
    }

    /** Fills the started block; a full block is compressed, otherwise the input is used up. */
    method TopUp(input: bytes) returns (rest: bytes)
      requires Compressed() && 0 < blockLen < 64 && |message| == 64 * blocks + blockLen + |input|
      requires block[..blockLen] + input == message[64 * blocks..] && bytesSeen == |message| < U64_LIMIT
      modifies this`blockLen, this`blocks, state, block
      ensures blockLen != 0 ==> Valid()
      ensures blockLen == 0 ==> Compressed() && rest == message[64 * blocks..]
    {
      hide HashValue;
      var copied := if 64 - blockLen < |input| then 64 - blockLen else |input|;
      Refill(block[..blockLen], input, copied, message, 64 * blocks);
      CopyInto(blockLen, input[..copied]);
      rest := input[copied..];
      blockLen := blockLen + copied;
      assert block[..blockLen] == block[..old(blockLen)] + block[old(blockLen)..blockLen];
      if blockLen == 64 {
        assert block[..] == block[..64];
        CompressNext(block[..]);
        blockLen := 0;
      }
    }

    /** The started block and as much of the input as it takes are the next bytes of the message. */
    static lemma Refill(started: bytes, input: bytes, copied: nat, whole: bytes, from: nat)
      requires from <= |whole| && started + input == whole[from..] && copied <= |input|
      ensures started + input[..copied] == whole[from..from + |started| + copied]
      ensures input[copied..] == whole[from + |started| + copied..]
    {
      assert whole[from..][..|started| + copied] == whole[from..from + |started| + copied];
      assert whole[from..][|started| + copied..] == whole[from + |started| + copied..];
    }

    /** Compresses the whole blocks of the rest of the input. */
    method CompressWhole(input: bytes) returns (rest: bytes)
      requires Compressed() && input == message[64 * blocks..]
      modifies state, this`blocks
      ensures Compressed() && |rest| < 64 && rest == message[64 * blocks..]
    {
      hide HashValue;
      rest := input;
      while |rest| >= 64
        invariant Compressed() && rest == message[64 * blocks..]
      {
        assert rest[..64] == message[64 * blocks..64 * blocks + 64];
        CompressNext(rest[..64]);
        rest := rest[64..];
      }
    }

    /** Pads in place, in one block or two, and returns the digest of the standard. */
    method Finalize() returns (digest: bytes)
      requires Valid() && 8 * |message| < U64_LIMIT
      modifies this, state, block
      ensures digest == Sha256(old(message))
    {
      hide HashValue, Be64, DigestBytes, Pad, Zeros;
      var messageBits := 8 * bytesSeen;
      PaddedTail(message, blocks, blockLen);
      message := Pad(message);
      block[blockLen] := 0x80;
      blockLen := blockLen + 1;
      if blockLen > 56 {
        Spill();
      } else {
        Fill(blockLen, 56);
      }
      CloseWith(Be64(messageBits));
      digest := WriteDigest();
    }

    /** The length field completes the last block. */
    method CloseWith(length: bytes)
      requires Compressed() && |length| == 8 && 64 * blocks + 64 <= |message|
      requires message[64 * blocks..64 * blocks + 64] == block[..56] + length
      modifies state, block, this`blocks
      ensures Compressed() && blocks == old(blocks) + 1
    {
      hide HashValue;
      CopyInto(56, length);
      assert block[..] == block[..56] + block[56..64];
      CompressNext(block[..]);
    }

    /** The mark left no room for the length: the block goes out zero-filled and an empty one follows. */
    method Spill()
      requires Compressed() && 56 < blockLen <= 64 && 64 * blocks + 64 <= |message|
      requires message[64 * blocks..64 * blocks + 64] == block[..blockLen] + Zeros(64 - blockLen)
      modifies state, block, this`blocks
      ensures Compressed() && blocks == old(blocks) + 1 && block[..56] == Zeros(56)
    {
      hide HashValue;
      Fill(blockLen, 64);
      assert block[..] == block[..blockLen] + block[blockLen..64];
      CompressNext(block[..]);
      Fill(0, 64);
      assert block[..56] == Zeros(64)[..56] == Zeros(56);
    }

    method Fill(from: nat, to: nat)
      requires Shaped() && from <= to <= 64
      modifies block
      ensures block[..from] == old(block[..from]) && block[from..to] == Zeros(to - from)
              && block[to..] == old(block[to..])
    {
      forall i | from <= i < to {
        block[i] := 0;
      }
    }

    method WriteDigest() returns (digest: bytes)
      requires Shaped()
      ensures digest == DigestBytes(Chained())
    {
      digest := [];
      for index := 0 to 8
        invariant digest == WordsBytes(state[..index])
      {
        assert state[..index + 1][..index] == state[..index];
        digest := digest + WordBytes(state[index]);
      }
      assert state[..8] == [state[0], state[1], state[2], state[3], state[4], state[5], state[6], state[7]];
    }
  }

  /** Where the padding puts the last bytes of the message: in the final block when a length field
      still fits behind them, else in a block of their own. The earlier blocks are unchanged. */
  lemma PaddedTail(message: bytes, blocks: nat, used: nat)
    requires 8 * |message| < U64_LIMIT && |message| == 64 * blocks + used && used < 64
    ensures var padded, start, marked := Pad(message), 64 * blocks, message[64 * blocks..] + [0x80];
            && start + 64 <= |padded| && HashValue(padded, blocks) == HashValue(message, blocks)
            && (used + 1 <= 56
                ==> PaddedBlocks(|message|) == blocks + 1
                    && padded[start..start + 64] == (marked + Zeros(55 - used)) + Be64(8 * |message|))
            && (used + 1 > 56
                ==> PaddedBlocks(|message|) == blocks + 2 && padded[start..start + 64] == marked + Zeros(63 - used))
            && (used + 1 > 56 ==> padded[start + 64..start + 128] == Zeros(56) + Be64(8 * |message|))
  {
    hide Be64, HashValue;
    var zeros := PadZeros(|message|);
    var padded, start, marked, length := Pad(message), 64 * blocks, message[64 * blocks..] + [0x80],
        Be64(8 * |message|);
    ZeroCount(|message|, blocks, used);
    hide PadZeros, PaddedBlocks;
    if used + 1 > 56 {
      assert Zeros(zeros) == Zeros(63 - used) + Zeros(56);
    }
    assert padded[start..] == (marked + Zeros(zeros)) + length;
    assert padded == message + ([0x80] + Zeros(zeros) + length);
    HashExtended(message, [0x80] + Zeros(zeros) + length, blocks);
  }

  lemma ZeroCount(n: nat, blocks: nat, used: nat)
    requires n == 64 * blocks + used && used < 64
    ensures used + 1 <= 56 ==> PadZeros(n) == 55 - used && PaddedBlocks(n) == blocks + 1
    ensures used + 1 > 56 ==> PadZeros(n) == 119 - used && PaddedBlocks(n) == blocks + 2
  {
  }

  /** Bytes behind the first `i` blocks do not change their hash value. */
  lemma {:induction false} HashExtended(message: bytes, more: bytes, i: nat)
    requires 64 * i <= |message|
    ensures HashValue(message + more, i) == HashValue(message, i)
  {
    hide CompressBlock;
    if i > 0 {
      HashExtended(message, more, i - 1);
      assert (message + more)[64 * (i - 1)..64 * i] == message[64 * (i - 1)..64 * i];
    }
  }

  method DigestOf(input: bytes) returns (digest: bytes)
    requires 8 * |input| < U64_LIMIT
    ensures digest == Sha256(input)
  {
    var hasher := new Sha256State();
    hasher.Update(input);
    assert [] + input == input;
    digest := hasher.Finalize();
  }

  /** The bytes a reader yields before it first reports the end by an empty read. */
  function ReadableBytes(pieces: seq<bytes>): bytes {
    if pieces == [] || pieces[0] == [] then [] else pieces[0] + ReadableBytes(pieces[1..])
  }

  lemma NothingReadable(pieces: seq<bytes>)
    requires pieces == [] || pieces[0] == []
    ensures ReadableBytes(pieces) == []
  {
  }

  lemma MoreReadable(front: bytes, pieces: seq<bytes>, next: nat)
    requires next < |pieces| && pieces[next] != []
    ensures front + ReadableBytes(pieces[next..]) == (front + pieces[next]) + ReadableBytes(pieces[next + 1..])
  {
    assert pieces[next..][0] == pieces[next] && pieces[next..][1..] == pieces[next + 1..];
  }

  /** Hashing a reader through a buffer of any positive size: the digest of everything it yields, and
      the exact number of bytes. */
  method DigestReader(pieces: seq<bytes>, bufferBytes: nat) returns (r: Option<(bytes, nat)>)
    requires forall piece | piece in pieces :: |piece| <= bufferBytes
    requires 8 * |ReadableBytes(pieces)| < U64_LIMIT
    ensures r.None? <==> bufferBytes == 0
    ensures r.Some? ==> r.value == (Sha256(ReadableBytes(pieces)), |ReadableBytes(pieces)|)
  {
    if bufferBytes == 0 {
      return None;
    }
    var hasher := new Sha256State();
    var total := FeedReader(hasher, pieces);
    var digest := hasher.Finalize();
    r := Some((digest, total));
  }

  /** The reading loop: every piece is fed to the hasher and counted. */
  method FeedReader(hasher: Sha256State, pieces: seq<bytes>) returns (total: nat)
    requires hasher.Valid() && hasher.message == [] && |ReadableBytes(pieces)| < U64_LIMIT
    modifies hasher, hasher.state, hasher.block
    ensures hasher.Valid() && hasher.message == ReadableBytes(pieces) && total == |hasher.message|
  {
    hide HashValue, ReadableBytes;
    var next: nat := 0;
    total := 0;
    assert pieces[0..] == pieces;
    while next < |pieces| && pieces[next] != []
      invariant next <= |pieces| && hasher.Valid() && total == |hasher.message|
      invariant ReadableBytes(pieces) == hasher.message + ReadableBytes(pieces[next..])
    {
      MoreReadable(hasher.message, pieces, next);
      total := total + |pieces[next]|;
      hasher.Update(pieces[next]);
      next := next + 1;
    }
    NothingReadable(pieces[next..]);
  }

  // ---- Lower-case hexadecimal digests, as manifests carry them ----

  function HexByte(b: byte): bytes { [DigitByte(b / 16), DigitByte(b % 16)] }

  function ToHex(digest: bytes): (text: bytes)
    ensures |text| == 2 * |digest|
  {
    if digest == [] then [] else HexByte(digest[0]) + ToHex(digest[1..])
  }

  lemma HexByteLower(b: byte)
    ensures |HexByte(b)| == 2 && LowerHex(HexByte(b)[0]) && LowerHex(HexByte(b)[1])
  {
  }

  lemma {:induction false} HexDigits(digest: bytes, i: nat)
    requires i < |digest|
    ensures ToHex(digest)[2 * i..2 * i + 2] == HexByte(digest[i])
    ensures LowerHex(ToHex(digest)[2 * i]) && LowerHex(ToHex(digest)[2 * i + 1])
  {
    hide HexByte, LowerHex;
    var text, rest := ToHex(digest), ToHex(digest[1..]);
    HexByteLower(digest[0]);
    if i == 0 {
      assert text[0..2] == HexByte(digest[0]);
    } else {
      HexDigits(digest[1..], i - 1);
      assert text[2 * i..2 * i + 2] == rest[2 * (i - 1)..2 * (i - 1) + 2];
    }
  }

  /** Every byte is printed as its two hexadecimal digits, the upper one first. */
  lemma HexCharacters(digest: bytes, i: nat)
    requires i < |digest|
    ensures ToHex(digest)[2 * i] as char == "0123456789abcdef"[digest[i] / 16]
    ensures ToHex(digest)[2 * i + 1] as char == "0123456789abcdef"[digest[i] % 16]
  {
    hide ToHex, HexByte, DigitByte, LowerHex;
    HexDigits(digest, i);
    var pair := ToHex(digest)[2 * i..2 * i + 2];
    assert pair[0] == ToHex(digest)[2 * i] && pair[1] == ToHex(digest)[2 * i + 1];
    ByteCharacters(digest[i]);
  }

  lemma ByteCharacters(b: byte)
    ensures |HexByte(b)| == 2
    ensures HexByte(b)[0] as char == "0123456789abcdef"[b / 16] && HexByte(b)[1] as char == "0123456789abcdef"[b % 16]
  {
    hide DigitByte;
    DigitCharacter(b / 16);
    DigitCharacter(b % 16);
  }

  lemma DigitCharacter(d: nat)
    requires d < 16
    ensures DigitByte(d) as char == "0123456789abcdef"[d]
  {
  }

  /** Printing a digest gives a text that parsing accepts. */
  lemma PrintedDigestIsText(digest: bytes)
    requires |digest| == 32
    ensures DigestText(ToHex(digest))
  {
    forall k | 0 <= k < 64
      ensures LowerHex(ToHex(digest)[k])
    {
      HexDigits(digest, k / 2);
      assert k == 2 * (k / 2) || k == 2 * (k / 2) + 1;
    }
  }
}
