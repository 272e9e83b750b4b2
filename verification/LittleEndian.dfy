/** Fixed-width numbers as little-endian bytes. */
module LittleEndian {
  import opened Bytes

  type u16 = n: int | 0 <= n < 0x1_0000
  type u32 = n: int | 0 <= n < 0x1_0000_0000

  function Le16(n: u16): (r: bytes)
    ensures |r| == 2
  {
    [n % 0x100, n / 0x100]
  }

  function Le32(n: u32): (r: bytes)
    ensures |r| == 4
  {
    Le16(n % 0x1_0000) + Le16(n / 0x1_0000)
  }

  function Read16(data: bytes, at: nat): u16
    requires at + 2 <= |data|
  {
    var low: int, high: int := data[at], data[at + 1];
    low + 0x100 * high
  }

  function Read32(data: bytes, at: nat): u32
    requires at + 4 <= |data|
  {
    var low: int, high: int := Read16(data, at), Read16(data, at + 2);
    low + 0x1_0000 * high
  }

  lemma Le16Reads(n: u16, data: bytes, at: nat)
    requires at + 2 <= |data| && data[at..at + 2] == Le16(n)
    ensures Read16(data, at) == n
  {
    assert data[at] == Le16(n)[0] && data[at + 1] == Le16(n)[1];
  }

  lemma Le32Reads(n: u32, data: bytes, at: nat)
    requires at + 4 <= |data| && data[at..at + 4] == Le32(n)
    ensures Read32(data, at) == n
  {
    var word := data[at..at + 4];
    assert data[at..at + 2] == word[..2] == Le16(n % 0x1_0000);
    assert data[at + 2..at + 4] == word[2..] == Le16(n / 0x1_0000);
    Le16Reads(n % 0x1_0000, data, at);
    Le16Reads(n / 0x1_0000, data, at + 2);
  }

  lemma Read16Writes(data: bytes, at: nat)
    requires at + 2 <= |data|
    ensures Le16(Read16(data, at)) == data[at..at + 2]
  {
    var low: int, high: int := data[at], data[at + 1];
    assert (low + 0x100 * high) % 0x100 == low && (low + 0x100 * high) / 0x100 == high;
  }

  lemma Read32Writes(data: bytes, at: nat)
    requires at + 4 <= |data|
    ensures Le32(Read32(data, at)) == data[at..at + 4]
  {
    var low: int, high: int := Read16(data, at), Read16(data, at + 2);
    assert (low + 0x1_0000 * high) % 0x1_0000 == low && (low + 0x1_0000 * high) / 0x1_0000 == high;
    Read16Writes(data, at);
    Read16Writes(data, at + 2);
  }
}
