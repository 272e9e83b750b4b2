/** Recordings byte by byte: what stands where in a file that is written, and what a format chunk has to say. */
module WavFiles {
  import opened Bytes
  import opened LittleEndian
  import opened Wav

  /** The number that bytes stand for, the least significant first. */
  function Number(bs: bytes): (n: nat) {
    if bs == [] then 0 else bs[0] + 0x100 * Number(bs[1..])
  }

  lemma TwoBytes(bs: bytes)
    requires |bs| == 2
    ensures Number(bs) == bs[0] as int + 0x100 * bs[1] as int
  {
    assert bs[1..][1..] == [];
    assert Number(bs[1..]) == bs[1] as int;
  }

  lemma FourBytes(bs: bytes)
    requires |bs| == 4
    ensures Number(bs) == Number(bs[..2]) + 0x1_0000 * Number(bs[2..])
  {
    TwoBytes(bs[..2]);
    TwoBytes(bs[2..]);
    assert Number(bs[1..]) == bs[1] as int + 0x100 * Number(bs[1..][1..]);
    assert bs[1..][1..] == bs[2..];
  }

  lemma Le16Number(n: u16)
    ensures Number(Le16(n)) == n
  {
    TwoBytes(Le16(n));
  }

  lemma Le32Number(n: u32)
    ensures Number(Le32(n)) == n
  {
    hide Le16;
    FourBytes(Le32(n));
    assert Le32(n)[..2] == Le16(n % 0x1_0000) && Le32(n)[2..] == Le16(n / 0x1_0000);
    Le16Number(n % 0x1_0000);
    Le16Number(n / 0x1_0000);
  }

  lemma Read16Number(data: bytes, at: nat)
    requires at + 2 <= |data|
    ensures Read16(data, at) == Number(data[at..at + 2])
  {
    TwoBytes(data[at..at + 2]);
  }

  lemma Read32Number(data: bytes, at: nat)
    requires at + 4 <= |data|
    ensures Read32(data, at) == Number(data[at..at + 4])
  {
    hide Read16;
    FourBytes(data[at..at + 4]);
    assert data[at..at + 4][..2] == data[at..at + 2] && data[at..at + 4][2..] == data[at + 2..at + 4];
    Read16Number(data, at);
    Read16Number(data, at + 2);
  }

  /** A file of 16-bit mono samples: RIFF header, format chunk and data chunk; samples in two's complement. */
  predicate RecordingFile(file: bytes, rate: nat, samples: seq<Sample>) {
    && |file| == 44 + 2 * |samples|
    && file[0..4] == Ascii8("RIFF") && Number(file[4..8]) == 36 + 2 * |samples|
    && file[8..12] == Ascii8("WAVE") && file[12..16] == Ascii8("fmt ") && Number(file[16..20]) == 16
    && Number(file[20..22]) == 1 && Number(file[22..24]) == 1 && Number(file[24..28]) == rate
    && Number(file[28..32]) == 2 * rate % 0x1_0000_0000 && Number(file[32..34]) == 2 && Number(file[34..36]) == 16
    && file[36..40] == Ascii8("data") && Number(file[40..44]) == 2 * |samples|
    && forall i | 0 <= i < |samples| :: Number(file[44 + 2 * i..46 + 2 * i]) == samples[i] as int % 0x1_0000
  }

  lemma Codes()
    ensures RIFF == Ascii8("RIFF") && WAVE == Ascii8("WAVE") && FMT == Ascii8("fmt ") && DATA == Ascii8("data")
  {
  }

  lemma SampleNumber(samples: seq<Sample>, i: nat)
    requires i < |samples|
    ensures Number(EncodePcm(samples)[2 * i..2 * i + 2]) == samples[i] as int % 0x1_0000
  {
    hide Le16, EncodePcm;
    EncodedSample(samples, i);
    Le16Number(SampleWord(samples[i]));
  }

  lemma FormatNumbers(rate: u32)
    ensures var p := FormatPayload(rate);
            && Number(p[0..2]) == 1 && Number(p[2..4]) == 1 && Number(p[4..8]) == rate
            && Number(p[8..12]) == 2 * rate % 0x1_0000_0000 && Number(p[12..14]) == 2 && Number(p[14..16]) == 16
  {
    hide Le16, Le32, Number;
    var p := FormatPayload(rate);
    assert p[0..2] == Le16(1) && p[2..4] == Le16(1) && p[4..8] == Le32(rate);
    assert p[8..12] == Le32(rate * 2 % 0x1_0000_0000) && p[12..14] == Le16(2) && p[14..16] == Le16(16);
    Le16Number(1);
    Le32Number(rate);
    Le32Number(rate * 2 % 0x1_0000_0000);
    Le16Number(2);
    Le16Number(16);
  }

  lemma Pieces(a: bytes, b: bytes, c: bytes, d: bytes, e: bytes, f: bytes, g: bytes, h: bytes, i: bytes)
    requires |a| == |b| == |c| == |d| == |e| == |g| == |h| == 4 && |f| == 16
    ensures var file := a + b + c + (d + e + f + g + h + i);
            && |file| == 44 + |i| && file[0..4] == a && file[4..8] == b && file[8..12] == c && file[12..16] == d
            && file[16..20] == e && file[20..36] == f && file[36..40] == g && file[40..44] == h && file[44..] == i
  {
  }

  /** What the recorder writes, byte by byte. */
  lemma WrittenFile(file: bytes, rate: u32, samples: seq<Sample>)
    requires Recordable(samples) && IsRiffFile(file, Recording(rate, samples))
    ensures RecordingFile(file, rate, samples)
  {
    hide Le32, Number, FormatPayload, EncodePcm, EncodeAll, AllWellFormed;
    RecordingBytes(rate, samples);
    Codes();
    var size := 2 * |samples|;
    Pieces(RIFF, Le32(36 + size), WAVE, FMT, Le32(16), FormatPayload(rate), DATA, Le32(size), EncodePcm(samples));
    Le32Number(36 + size);
    Le32Number(16);
    Le32Number(size);
    FormatNumbers(rate);
    InsideFormat(file, FormatPayload(rate));
    forall i | 0 <= i < |samples|
      ensures Number(file[44 + 2 * i..46 + 2 * i]) == samples[i] as int % 0x1_0000
    {
      SampleNumber(samples, i);
      assert file[44 + 2 * i..46 + 2 * i] == file[44..][2 * i..2 * i + 2];
    }
  }

  lemma InsideFormat(file: bytes, p: bytes)
    requires |file| >= 36 && file[20..36] == p
    ensures file[20..22] == p[0..2] && file[22..24] == p[2..4] && file[24..28] == p[4..8] && file[28..32] == p[8..12]
            && file[32..34] == p[12..14] && file[34..36] == p[14..16]
  {
  }

  /** A format chunk is accepted exactly if it announces uncompressed 16-bit mono samples at 24 kHz. */
  lemma FormatIff(payload: bytes)
    ensures FormatOk(payload) <==>
              && |payload| >= 16 && Number(payload[0..2]) == 1 && Number(payload[2..4]) == 1
              && Number(payload[4..8]) == 24_000 && Number(payload[8..12]) == 48_000
              && Number(payload[12..14]) == 2 && Number(payload[14..16]) == 16
  {
    hide Read16, Read32, Number;
    if |payload| >= 16 {
      Read16Number(payload, 0);
      Read16Number(payload, 2);
      Read32Number(payload, 4);
      Read32Number(payload, 8);
      Read16Number(payload, 12);
      Read16Number(payload, 14);
    }
  }
}
