/** The example of the standard for a one-block message: the SHA-256 of "abc", computed round by round. */
module Sha256Example {
  import opened Bytes
  import opened Fips180

  /** The padded message. */
  function Abc(): (block: bytes)
    ensures |block| == 64
  {
    Pad(Ascii8("abc"))
  }

  /** The words of the message schedule. */
  function ScheduleWord(t: nat): word {
    if t == 0 then 0x61626380 else if t == 1 then 0x00000000 else if t == 2 then 0x00000000
    else if t == 3 then 0x00000000 else if t == 4 then 0x00000000 else if t == 5 then 0x00000000
    else if t == 6 then 0x00000000 else if t == 7 then 0x00000000 else if t == 8 then 0x00000000
    else if t == 9 then 0x00000000 else if t == 10 then 0x00000000 else if t == 11 then 0x00000000
    else if t == 12 then 0x00000000 else if t == 13 then 0x00000000 else if t == 14 then 0x00000000
    else if t == 15 then 0x00000018 else if t == 16 then 0x61626380 else if t == 17 then 0x000f0000
    else if t == 18 then 0x7da86405 else if t == 19 then 0x600003c6 else if t == 20 then 0x3e9d7b78
    else if t == 21 then 0x0183fc00 else if t == 22 then 0x12dcbfdb else if t == 23 then 0xe2e2c38e
    else if t == 24 then 0xc8215c1a else if t == 25 then 0xb73679a2 else if t == 26 then 0xe5bc3909
    else if t == 27 then 0x32663c5b else if t == 28 then 0x9d209d67 else if t == 29 then 0xec8726cb
    else if t == 30 then 0x702138a4 else if t == 31 then 0xd3b7973b else if t == 32 then 0x93f5997f
    else if t == 33 then 0x3b68ba73 else if t == 34 then 0xaff4ffc1 else if t == 35 then 0xf10a5c62
    else if t == 36 then 0x0a8b3996 else if t == 37 then 0x72af830a else if t == 38 then 0x9409e33e
    else if t == 39 then 0x24641522 else if t == 40 then 0x9f47bf94 else if t == 41 then 0xf0a64f5a
    else if t == 42 then 0x3e246a79 else if t == 43 then 0x27333ba3 else if t == 44 then 0x0c4763f2
    else if t == 45 then 0x840abf27 else if t == 46 then 0x7a290d5d else if t == 47 then 0x065c43da
    else if t == 48 then 0xfb3e89cb else if t == 49 then 0xcc7617db else if t == 50 then 0xb9e66c34
    else if t == 51 then 0xa9993667 else if t == 52 then 0x84badedd else if t == 53 then 0xc21462bc
    else if t == 54 then 0x1487472c else if t == 55 then 0xb20f7a99 else if t == 56 then 0xef57b9cd
    else if t == 57 then 0xebe6b238 else if t == 58 then 0x9fe3095e else if t == 59 then 0x78bc8d4b
    else if t == 60 then 0xa43fcf15 else if t == 61 then 0x668b2ff8 else if t == 62 then 0xeeaba2cc
    else if t == 63 then 0x12b1edeb
    else 0
  }

  /** The first working variable after each round, from three rounds before the first on; the next three are those of
      the rounds before. */
  function Upper(t: nat): word {
    if t == 0 then 0xa54ff53a else if t == 1 then 0x3c6ef372 else if t == 2 then 0xbb67ae85
    else if t == 3 then 0x6a09e667 else if t == 4 then 0x5d6aebcd else if t == 5 then 0x5a6ad9ad
    else if t == 6 then 0xc8c347a7 else if t == 7 then 0xd550f666 else if t == 8 then 0x04409a6a
    else if t == 9 then 0x2b4209f5 else if t == 10 then 0xe5030380 else if t == 11 then 0x85a07b5f
    else if t == 12 then 0x8e04ecb9 else if t == 13 then 0x8c87346b else if t == 14 then 0x4798a3f4
    else if t == 15 then 0xf71fc5a9 else if t == 16 then 0x87912990 else if t == 17 then 0xd932eb16
    else if t == 18 then 0xc0645fde else if t == 19 then 0xb0fa238e else if t == 20 then 0x21da9a9b
    else if t == 21 then 0xc2fbd9d1 else if t == 22 then 0xfe777bbf else if t == 23 then 0xe1f20c33
    else if t == 24 then 0x9dc68b63 else if t == 25 then 0xc2606d6d else if t == 26 then 0xa7a3623f
    else if t == 27 then 0xc5d53d8d else if t == 28 then 0x1c2c2838 else if t == 29 then 0xcde8037d
    else if t == 30 then 0xb62ec4bc else if t == 31 then 0x77d37528 else if t == 32 then 0x363482c9
    else if t == 33 then 0xa0060b30 else if t == 34 then 0xea992a22 else if t == 35 then 0x73b33bf5
    else if t == 36 then 0x98e12507 else if t == 37 then 0xfe604df5 else if t == 38 then 0xa9a7738c
    else if t == 39 then 0x65a0cfe4 else if t == 40 then 0x41a65cb1 else if t == 41 then 0x34df1604
    else if t == 42 then 0x6dc57a8a else if t == 43 then 0x79ea687a else if t == 44 then 0xd6670766
    else if t == 45 then 0xdf46652f else if t == 46 then 0x17aa0dfe else if t == 47 then 0x9d4baf93
    else if t == 48 then 0x26628815 else if t == 49 then 0x72ab4b91 else if t == 50 then 0xa14c14b0
    else if t == 51 then 0x4172328d else if t == 52 then 0x05757ceb else if t == 53 then 0xf11bfaa8
    else if t == 54 then 0x7a0508a1 else if t == 55 then 0x886e7a22 else if t == 56 then 0x101fd28f
    else if t == 57 then 0xf5702fdb else if t == 58 then 0x3ec45cdb else if t == 59 then 0x38cc9913
    else if t == 60 then 0xfcd1887b else if t == 61 then 0xc062d46f else if t == 62 then 0xffb70472
    else if t == 63 then 0xb6ae8fff else if t == 64 then 0xb85e2ce9 else if t == 65 then 0x04d24d6c
    else if t == 66 then 0xd39a2165 else if t == 67 then 0x506e3058
    else 0
  }

  /** The fifth working variable likewise. */
  function Lower(t: nat): word {
    if t == 0 then 0x5be0cd19 else if t == 1 then 0x1f83d9ab else if t == 2 then 0x9b05688c
    else if t == 3 then 0x510e527f else if t == 4 then 0xfa2a4622 else if t == 5 then 0x78ce7989
    else if t == 6 then 0xf92939eb else if t == 7 then 0x24e00850 else if t == 8 then 0x43ada245
    else if t == 9 then 0x714260ad else if t == 10 then 0x9b27a401 else if t == 11 then 0x0c657a79
    else if t == 12 then 0x32ca2d8c else if t == 13 then 0x1cc92596 else if t == 14 then 0x436b23e8
    else if t == 15 then 0x816fd6e9 else if t == 16 then 0x1e578218 else if t == 17 then 0x745a48de
    else if t == 18 then 0x0b92f20c else if t == 19 then 0x07590dcd else if t == 20 then 0x8034229c
    else if t == 21 then 0x846ee454 else if t == 22 then 0xcc899961 else if t == 23 then 0xb0638179
    else if t == 24 then 0x8ada8930 else if t == 25 then 0xe1257970 else if t == 26 then 0x49f5114a
    else if t == 27 then 0xaa47c347 else if t == 28 then 0x2823ef91 else if t == 29 then 0x14383d8e
    else if t == 30 then 0xc74c6516 else if t == 31 then 0xedffbff8 else if t == 32 then 0x6112a3b7
    else if t == 33 then 0xade79437 else if t == 34 then 0x0109ab3a else if t == 35 then 0xba591112
    else if t == 36 then 0x9cd9f5f6 else if t == 37 then 0x59249dd3 else if t == 38 then 0x085f3833
    else if t == 39 then 0xf4b002d6 else if t == 40 then 0x0772a26b else if t == 41 then 0xa507a53d
    else if t == 42 then 0xf0781bc8 else if t == 43 then 0x1efbc0a0 else if t == 44 then 0x26352d63
    else if t == 45 then 0x838b2711 else if t == 46 then 0xdecd4715 else if t == 47 then 0xfda24c2e
    else if t == 48 then 0xa80f11f0 else if t == 49 then 0xb7755da1 else if t == 50 then 0xd57b94a9
    else if t == 51 then 0xfecf0bc6 else if t == 52 then 0xbd714038 else if t == 53 then 0x6e5c390c
    else if t == 54 then 0x52f1ccf7 else if t == 55 then 0x49231c1e else if t == 56 then 0x529e7d00
    else if t == 57 then 0x9f4787c3 else if t == 58 then 0xe50e1b4f else if t == 59 then 0x54cb266b
    else if t == 60 then 0x9b5e906c else if t == 61 then 0x7e44008e else if t == 62 then 0x6d83bfc6
    else if t == 63 then 0xb21bad3d else if t == 64 then 0x961f4894 else if t == 65 then 0x948d25b6
    else if t == 66 then 0xfb121210 else if t == 67 then 0x5ef50f24
    else 0
  }

  function Variables(t: nat): Registers {
    Registers(Upper(t + 3), Upper(t + 2), Upper(t + 1), Upper(t), Lower(t + 3), Lower(t + 2), Lower(t + 1), Lower(t))
  }

  lemma BlockBytes()
    ensures Abc() == [97, 98, 99, 0x80] + Zeros(59) + [24]
  {
    assert Ascii8("abc") == [97, 98, 99];
    assert PadZeros(3) == 52;
    assert Be64(24) == [0, 0, 0, 0, 0, 0, 0, 24];
    assert Zeros(59) == Zeros(52) + [0, 0, 0, 0, 0, 0, 0];
  }

  lemma BlockAt(i: nat)
    requires i < 64
    ensures Abc()[i] == if i < 4 then [97, 98, 99, 0x80][i] else if i == 63 then 24 else 0
  {
    hide Abc;
    BlockBytes();
  }

  lemma WordFrom(t: nat, a: byte, b: byte, c: byte, d: byte)
    requires t < 16 && Abc()[4 * t] == a && Abc()[4 * t + 1] == b && Abc()[4 * t + 2] == c && Abc()[4 * t + 3] == d
    ensures WordAt(Abc(), t) == (a as word << 24) | (b as word << 16) | (c as word << 8) | d as word
  {
    hide Abc;
  }

  lemma FirstWords(t: nat)
    requires t < 16
    ensures WordAt(Abc(), t) == ScheduleWord(t)
  {
    hide Abc, WordAt;
    BlockAt(4 * t);
    BlockAt(4 * t + 1);
    BlockAt(4 * t + 2);
    BlockAt(4 * t + 3);
    if t == 0 {
      WordFrom(0, 97, 98, 99, 0x80);
    } else if t == 15 {
      WordFrom(15, 0, 0, 0, 24);
    } else {
      WordFrom(t, 0, 0, 0, 0);
      NoWord(t);
    }
  }

  lemma NoWord(t: nat)
    requires 0 < t < 15
    ensures ScheduleWord(t) == 0
  {
  }

  lemma Words16(t: nat)
    requires 16 <= t < 28
    ensures ScheduleWord(t) == AddFour(SmallSigma1(ScheduleWord(t - 2)), ScheduleWord(t - 7),
                                       SmallSigma0(ScheduleWord(t - 15)), ScheduleWord(t - 16))
  {
  }

  lemma Words28(t: nat)
    requires 28 <= t < 40
    ensures ScheduleWord(t) == AddFour(SmallSigma1(ScheduleWord(t - 2)), ScheduleWord(t - 7),
                                       SmallSigma0(ScheduleWord(t - 15)), ScheduleWord(t - 16))
  {
  }

  lemma Words40(t: nat)
    requires 40 <= t < 52
    ensures ScheduleWord(t) == AddFour(SmallSigma1(ScheduleWord(t - 2)), ScheduleWord(t - 7),
                                       SmallSigma0(ScheduleWord(t - 15)), ScheduleWord(t - 16))
  {
  }

  lemma Words52(t: nat)
    requires 52 <= t < 64
    ensures ScheduleWord(t) == AddFour(SmallSigma1(ScheduleWord(t - 2)), ScheduleWord(t - 7),
                                       SmallSigma0(ScheduleWord(t - 15)), ScheduleWord(t - 16))
  {
  }

  lemma Rounds0(t: nat)
    requires 0 <= t < 8
    ensures Variables(t + 1) == Round(Variables(t), RoundConstant(t), ScheduleWord(t))
  {
    if t == 0 {
    } else if t == 1 {
    } else if t == 2 {
    } else if t == 3 {
    } else if t == 4 {
    } else if t == 5 {
    } else if t == 6 {
    } else {
    }
  }

  lemma Rounds8(t: nat)
    requires 8 <= t < 16
    ensures Variables(t + 1) == Round(Variables(t), RoundConstant(t), ScheduleWord(t))
  {
    if t == 8 {
    } else if t == 9 {
    } else if t == 10 {
    } else if t == 11 {
    } else if t == 12 {
    } else if t == 13 {
    } else if t == 14 {
    } else {
    }
  }

  lemma Rounds16(t: nat)
    requires 16 <= t < 24
    ensures Variables(t + 1) == Round(Variables(t), RoundConstant(t), ScheduleWord(t))
  {
    if t == 16 {
    } else if t == 17 {
    } else if t == 18 {
    } else if t == 19 {
    } else if t == 20 {
    } else if t == 21 {
    } else if t == 22 {
    } else {
    }
  }

  lemma Rounds24(t: nat)
    requires 24 <= t < 32
    ensures Variables(t + 1) == Round(Variables(t), RoundConstant(t), ScheduleWord(t))
  {
    if t == 24 {
    } else if t == 25 {
    } else if t == 26 {
    } else if t == 27 {
    } else if t == 28 {
    } else if t == 29 {
    } else if t == 30 {
    } else {
    }
  }

  lemma Rounds32(t: nat)
    requires 32 <= t < 40
    ensures Variables(t + 1) == Round(Variables(t), RoundConstant(t), ScheduleWord(t))
  {
    if t == 32 {
    } else if t == 33 {
    } else if t == 34 {
    } else if t == 35 {
    } else if t == 36 {
    } else if t == 37 {
    } else if t == 38 {
    } else {
    }
  }

  lemma Rounds40(t: nat)
    requires 40 <= t < 48
    ensures Variables(t + 1) == Round(Variables(t), RoundConstant(t), ScheduleWord(t))
  {
    if t == 40 {
    } else if t == 41 {
    } else if t == 42 {
    } else if t == 43 {
    } else if t == 44 {
    } else if t == 45 {
    } else if t == 46 {
    } else {
    }
  }

  lemma Rounds48(t: nat)
    requires 48 <= t < 56
    ensures Variables(t + 1) == Round(Variables(t), RoundConstant(t), ScheduleWord(t))
  {
    if t == 48 {
    } else if t == 49 {
    } else if t == 50 {
    } else if t == 51 {
    } else if t == 52 {
    } else if t == 53 {
    } else if t == 54 {
    } else {
    }
  }

  lemma Rounds56(t: nat)
    requires 56 <= t < 64
    ensures Variables(t + 1) == Round(Variables(t), RoundConstant(t), ScheduleWord(t))
  {
    if t == 56 {
    } else if t == 57 {
    } else if t == 58 {
    } else if t == 59 {
    } else if t == 60 {
    } else if t == 61 {
    } else if t == 62 {
    } else {
    }
  }

  const FINAL: Registers := Registers(
    0xba7816bf, 0x8f01cfea, 0x414140de, 0x5dae2223, 0xb00361a3, 0x96177a9c, 0xb410ff61, 0xf20015ad)

  const DIGEST: bytes := [
    0xba, 0x78, 0x16, 0xbf, 0x8f, 0x01, 0xcf, 0xea,
    0x41, 0x41, 0x40, 0xde, 0x5d, 0xae, 0x22, 0x23,
    0xb0, 0x03, 0x61, 0xa3, 0x96, 0x17, 0x7a, 0x9c,
    0xb4, 0x10, 0xff, 0x61, 0xf2, 0x00, 0x15, 0xad]

  lemma NextWord(t: nat)
    requires 16 <= t < 64
    ensures ScheduleWord(t) == AddFour(SmallSigma1(ScheduleWord(t - 2)), ScheduleWord(t - 7),
                                       SmallSigma0(ScheduleWord(t - 15)), ScheduleWord(t - 16))
  {
    hide *;
    if t < 28 {
      Words16(t);
    } else if t < 40 {
      Words28(t);
    } else if t < 52 {
      Words40(t);
    } else {
      Words52(t);
    }
  }

  lemma {:induction false} ScheduleHolds(t: nat)
    requires t < 64
    ensures W(Abc(), t) == ScheduleWord(t)
  {
    hide ScheduleWord, AddFour, SmallSigma0, SmallSigma1, WordAt, Abc;
    if t < 16 {
      FirstWords(t);
    } else {
      ScheduleHolds(t - 2);
      ScheduleHolds(t - 7);
      ScheduleHolds(t - 15);
      ScheduleHolds(t - 16);
      NextWord(t);
    }
  }

  lemma NextRound(t: nat)
    requires t < 64
    ensures Variables(t + 1) == Round(Variables(t), RoundConstant(t), ScheduleWord(t))
  {
    hide *;
    if t < 8 {
      Rounds0(t);
    } else if t < 16 {
      Rounds8(t);
    } else if t < 24 {
      Rounds16(t);
    } else if t < 32 {
      Rounds24(t);
    } else if t < 40 {
      Rounds32(t);
    } else if t < 48 {
      Rounds40(t);
    } else if t < 56 {
      Rounds48(t);
    } else {
      Rounds56(t);
    }
  }

  lemma FirstVariables()
    ensures Variables(0) == INITIAL
  {
  }

  lemma {:induction false} RoundsHold(t: nat)
    requires t <= 64
    ensures Rounds(INITIAL, Abc(), t) == Variables(t)
  {
    hide Variables, Round, RoundConstant, ScheduleWord, Abc;
    if t == 0 {
      FirstVariables();
    } else {
      RoundsHold(t - 1);
      ScheduleHolds(t - 1);
      NextRound(t - 1);
    }
  }

  const LAST: Registers := Registers(
    0x506e3058, 0xd39a2165, 0x04d24d6c, 0xb85e2ce9, 0x5ef50f24, 0xfb121210, 0x948d25b6, 0x961f4894)

  lemma LastVariables()
    ensures Variables(64) == LAST
  {
    hide Upper, Lower;
    LastUpper();
    LastLower();
  }

  lemma LastUpper()
    ensures Upper(67) == 0x506e3058 && Upper(66) == 0xd39a2165 && Upper(65) == 0x04d24d6c && Upper(64) == 0xb85e2ce9
  {
  }

  lemma LastLower()
    ensures Lower(67) == 0x5ef50f24 && Lower(66) == 0xfb121210 && Lower(65) == 0x948d25b6 && Lower(64) == 0x961f4894
  {
  }

  lemma FinalWords()
    ensures Plus(INITIAL, LAST) == FINAL
  {
  }

  /** The digest of the example. */
  lemma DigestOfAbc()
    ensures Sha256(Ascii8("abc")) == DIGEST
  {
    hide Abc;
    RoundsHold(64);
    LastVariables();
    FinalWords();
    WholeBlock();
    DigestWords();
  }

  lemma WholeBlock()
    ensures Sha256(Ascii8("abc")) == DigestBytes(Plus(INITIAL, Rounds(INITIAL, Abc(), 64)))
  {
    hide Rounds, Plus, DigestBytes, Pad;
    assert PaddedBlocks(3) == 1;
    assert HashValue(Abc(), 0) == INITIAL;
    assert Abc()[0..64] == Abc();
  }

  lemma EightWords(h: Registers)
    ensures DigestBytes(h) == WordBytes(h.a) + WordBytes(h.b) + WordBytes(h.c) + WordBytes(h.d) + WordBytes(h.e)
                              + WordBytes(h.f) + WordBytes(h.g) + WordBytes(h.h)
  {
    hide WordBytes, WordsBytes;
    FourWords(h.a, h.b, h.c, h.d, []);
    FourWords(h.e, h.f, h.g, h.h, [h.a, h.b, h.c, h.d]);
    NoWords();
    assert [] + [h.a, h.b, h.c, h.d] == [h.a, h.b, h.c, h.d];
    assert [h.a, h.b, h.c, h.d] + [h.e, h.f, h.g, h.h] == [h.a, h.b, h.c, h.d, h.e, h.f, h.g, h.h];
    assert [] + WordBytes(h.a) == WordBytes(h.a);
  }

  lemma FourWords(a: word, b: word, c: word, d: word, front: seq<word>)
    ensures WordsBytes(front + [a, b, c, d])
         == WordsBytes(front) + WordBytes(a) + WordBytes(b) + WordBytes(c) + WordBytes(d)
  {
    hide WordBytes, WordsBytes;
    WordBehind(front, a);
    WordBehind(front + [a], b);
    WordBehind(front + [a] + [b], c);
    WordBehind(front + [a] + [b] + [c], d);
    assert front + [a] + [b] + [c] + [d] == front + [a, b, c, d];
  }

  lemma NoWords()
    ensures WordsBytes([]) == []
  {
  }

  lemma WordBehind(words: seq<word>, last: word)
    ensures WordsBytes(words + [last]) == WordsBytes(words) + WordBytes(last)
  {
    hide WordBytes;
    assert (words + [last])[..|words|] == words;
  }

  lemma FinalBytes()
    ensures WordBytes(0xba7816bf) == [0xba, 0x78, 0x16, 0xbf]
    ensures WordBytes(0x8f01cfea) == [0x8f, 0x01, 0xcf, 0xea]
    ensures WordBytes(0x414140de) == [0x41, 0x41, 0x40, 0xde]
    ensures WordBytes(0x5dae2223) == [0x5d, 0xae, 0x22, 0x23]
    ensures WordBytes(0xb00361a3) == [0xb0, 0x03, 0x61, 0xa3]
    ensures WordBytes(0x96177a9c) == [0x96, 0x17, 0x7a, 0x9c]
    ensures WordBytes(0xb410ff61) == [0xb4, 0x10, 0xff, 0x61]
    ensures WordBytes(0xf20015ad) == [0xf2, 0x00, 0x15, 0xad]
  {
  }

  lemma DigestWords()
    ensures DigestBytes(FINAL) == DIGEST
  {
    hide DigestBytes, WordBytes;
    EightWords(FINAL);
    FinalBytes();
  }
}
