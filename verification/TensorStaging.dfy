/** Staging of tensors in chunks: the chunks of one tensor, and of a whole arena, cover every byte exactly
    once and in order. */
module TensorStaging {
  import opened Bytes
  import opened Text
  import opened WeightContract
  import opened TensorIndex

  /** A run of bytes with its place. */
  datatype Chunk = Chunk(offset: nat, data: bytes)

  datatype StagingError = ZeroSize | UnsupportedDtype | SmallerThanElement

  function Least(a: nat, b: nat): nat { if a <= b then a else b }

  /** The chunks that are still to come from `offset`. */
  function ChunksFrom(data: bytes, chunkBytes: nat, offset: nat): seq<Chunk>
    requires chunkBytes > 0 && offset <= |data|
    decreases |data| - offset
  {
    if offset == |data| then []
    else
      var end := Least(offset + chunkBytes, |data|);
      [Chunk(offset, data[offset..end])] + ChunksFrom(data, chunkBytes, end)
  }

  class TensorChunks {
    const data: bytes
    const chunkBytes: nat
    var offset: nat

    predicate Valid()
      reads this
    {
      chunkBytes > 0 && offset <= |data|
    }

    function Remaining(): seq<Chunk>
      requires Valid()
      reads this
    {
      ChunksFrom(data, chunkBytes, offset)
    }

    constructor (data: bytes, chunkBytes: nat)
      requires chunkBytes > 0
      ensures Valid() && this.data == data && this.chunkBytes == chunkBytes && offset == 0
    {
      this.data, this.chunkBytes, this.offset := data, chunkBytes, 0;
    }

    method Next() returns (r: Option<Chunk>)
      requires Valid()
      modifies this
      ensures Valid()
      ensures old(Remaining()) == if r.None? then [] else [r.value] + Remaining()
      ensures r.None? ==> offset == old(offset) && Remaining() == []
    {
      if offset == |data| {
        return None;
      }
      var end := Least(offset + chunkBytes, |data|);
      var chunk := Chunk(offset, data[offset..end]);
      offset := end;
      return Some(chunk);
    }

    /** The number of chunks is known in advance. */
    function SizeHint(): (n: nat)
      requires Valid()
      reads this
      ensures n == |Remaining()|
    {
      ChunkCount(data, chunkBytes, offset);
      DivCeil(|data| - offset, chunkBytes)
    }
  }

  /** The quotient rounded up. */
  function DivCeil(a: nat, b: nat): (q: nat)
    requires b > 0
    ensures Scaled(q, b) >= a && (q > 0 ==> Scaled(q - 1, b) < a)
    decreases a
  {
    if a == 0 then 0
    else if a <= b then assert Scaled(1, b) == b; 1
    else 1 + DivCeil(a - b, b)
  }

  function Scaled(q: nat, b: nat): (r: nat)
    ensures r == q * b
  {
    if q == 0 then 0 else Scaled(q - 1, b) + b
  }

  lemma {:induction false} ChunkCount(data: bytes, chunkBytes: nat, offset: nat)
    requires chunkBytes > 0 && offset <= |data|
    ensures |ChunksFrom(data, chunkBytes, offset)| == DivCeil(|data| - offset, chunkBytes)
    decreases |data| - offset
  {
    if offset < |data| {
      ChunkCount(data, chunkBytes, Least(offset + chunkBytes, |data|));
    }
  }

  /** What staging aligns chunks to: the element width. */
  function Alignment(dtype: Dtype): Option<nat> {
    BytesPerElement(dtype)
  }

  method Chunks(dtype: Dtype, data: bytes, maxBytes: nat) returns (r: Result<TensorChunks, StagingError>)
    ensures r.Ok? <==> (dtype == BF16 && maxBytes >= 2) || (dtype == F32 && maxBytes >= 4)
    ensures r.Ok? <==> Fits(dtype, maxBytes)
    ensures r.Ok? ==> && fresh(r.value) && r.value.Valid() && r.value.data == data && r.value.offset == 0
                      && r.value.chunkBytes == ChunkBytes(Alignment(dtype).value, maxBytes)
    ensures r.Ok? ==> var width := if dtype == BF16 then 2 else 4;
                      && r.value.chunkBytes % width == 0 && maxBytes - width < r.value.chunkBytes <= maxBytes
  {
    if maxBytes == 0 {
      return Err(ZeroSize);
    }
    var alignment := Alignment(dtype);
    if alignment.None? {
      return Err(UnsupportedDtype);
    }
    var chunkBytes := maxBytes - maxBytes % alignment.value;
    if chunkBytes == 0 {
      return Err(SmallerThanElement);
    }
    var chunks := new TensorChunks(data, chunkBytes);
    return Ok(chunks);
  }

  /** The element widths are two and four. */
  predicate Multiple(n: nat, alignment: nat) {
    if alignment == 2 then n % 2 == 0 else alignment == 4 && n % 4 == 0
  }

  lemma MultiplesAdd(a: nat, b: nat, alignment: nat)
    requires Multiple(a, alignment)
    ensures Multiple(a + b, alignment) <==> Multiple(b, alignment)
  {
    if alignment == 2 {
      EvenAdds(a, b);
    } else {
      FoursAdd(a, b);
    }
  }

  lemma EvenAdds(a: nat, b: nat)
    requires a % 2 == 0
    ensures (a + b) % 2 == b % 2
  {
    assert a + b == 2 * (a / 2) + b;
  }

  lemma FoursAdd(a: nat, b: nat)
    requires a % 4 == 0
    ensures (a + b) % 4 == b % 4
  {
    assert a + b == 4 * (a / 4) + b;
  }

  /** The largest multiple of the alignment that fits. */
  function ChunkBytes(alignment: nat, maxBytes: nat): (n: nat)
    requires (alignment == 2 || alignment == 4) && alignment <= maxBytes
    ensures 0 < n <= maxBytes < n + alignment && Multiple(n, alignment)
  {
    RoundedDown(maxBytes);
    if alignment == 2 then maxBytes - maxBytes % 2 else maxBytes - maxBytes % 4
  }

  lemma RoundedDown(n: nat)
    ensures (n - n % 2) % 2 == 0 && (n - n % 4) % 4 == 0 && (n >= 4 ==> n - n % 4 > 0)
  {
    assert n - n % 2 == 2 * (n / 2) && n - n % 4 == 4 * (n / 4);
  }

  // ---- Tiling ----

  /** The chunks lie end to end from `from` to `to`, and none is empty. */
  predicate Tiles(chunks: seq<Chunk>, from: nat, to: nat) {
    if chunks == [] then from == to
    else chunks[0].offset == from && chunks[0].data != [] && Tiles(chunks[1..], from + |chunks[0].data|, to)
  }

  function Placed(chunk: Chunk, base: nat): Chunk { Chunk(base + chunk.offset, chunk.data) }

  function PlacedAll(chunks: seq<Chunk>, base: nat): (r: seq<Chunk>)
    ensures |r| == |chunks| && forall i | 0 <= i < |r| :: r[i] == Placed(chunks[i], base)
  {
    seq(|chunks|, i requires 0 <= i < |chunks| => Placed(chunks[i], base))
  }

  function Contents(chunks: seq<Chunk>): bytes {
    if chunks == [] then [] else chunks[0].data + Contents(chunks[1..])
  }

  lemma {:induction false} TensorTiled(data: bytes, chunkBytes: nat, offset: nat, base: nat)
    requires chunkBytes > 0 && offset <= |data|
    ensures Tiles(PlacedAll(ChunksFrom(data, chunkBytes, offset), base), base + offset, base + |data|)
    ensures Contents(PlacedAll(ChunksFrom(data, chunkBytes, offset), base)) == data[offset..]
    decreases |data| - offset
  {
    if offset < |data| {
      var end := Least(offset + chunkBytes, |data|);
      TensorTiled(data, chunkBytes, end, base);
      var chunks := PlacedAll(ChunksFrom(data, chunkBytes, offset), base);
      assert chunks[1..] == PlacedAll(ChunksFrom(data, chunkBytes, end), base);
      assert data[offset..] == data[offset..end] + data[end..];
    }
  }

  lemma {:induction false} TilesConcat(a: seq<Chunk>, b: seq<Chunk>, from: nat, middle: nat, to: nat)
    requires Tiles(a, from, middle) && Tiles(b, middle, to)
    ensures Tiles(a + b, from, to)
  {
    if a == [] {
      assert a + b == b;
    } else {
      assert (a + b)[1..] == a[1..] + b;
      TilesConcat(a[1..], b, from + |a[0].data|, middle, to);
    }
  }

  lemma {:induction false} ContentsConcat(a: seq<Chunk>, b: seq<Chunk>)
    ensures Contents(a + b) == Contents(a) + Contents(b)
  {
    if a == [] {
      assert a + b == b;
    } else {
      assert (a + b)[1..] == a[1..] + b;
      ContentsConcat(a[1..], b);
    }
  }

  predicate Covers(chunk: Chunk, p: nat) {
    chunk.offset <= p < chunk.offset + |chunk.data|
  }

  /** Tiling chunks stay within their range. */
  lemma {:induction false} TilesBounded(chunks: seq<Chunk>, from: nat, to: nat, k: nat)
    requires Tiles(chunks, from, to) && k < |chunks|
    ensures from <= chunks[k].offset && chunks[k].offset + |chunks[k].data| <= to
  {
    TilesAscend(chunks[1..], from + |chunks[0].data|, to);
    if k > 0 {
      TilesBounded(chunks[1..], from + |chunks[0].data|, to, k - 1);
    }
  }

  lemma {:induction false} TilesAscend(chunks: seq<Chunk>, from: nat, to: nat)
    requires Tiles(chunks, from, to)
    ensures from <= to
  {
    if chunks != [] {
      TilesAscend(chunks[1..], from + |chunks[0].data|, to);
    }
  }

  /** Tiling means: every byte of the range lies in exactly one chunk. */
  lemma {:induction false} ExactlyOnce(chunks: seq<Chunk>, from: nat, to: nat, p: nat) returns (k: nat)
    requires Tiles(chunks, from, to) && from <= p < to
    ensures k < |chunks| && Covers(chunks[k], p)
    ensures forall j | 0 <= j < |chunks| && Covers(chunks[j], p) :: j == k
  {
    var next := from + |chunks[0].data|;
    if p < next {
      k := 0;
      forall j | 0 <= j < |chunks| && Covers(chunks[j], p)
        ensures j == 0
      {
        if j > 0 {
          TilesBounded(chunks[1..], next, to, j - 1);
        }
      }
    } else {
      var rest := ExactlyOnce(chunks[1..], next, to, p);
      k := rest + 1;
      forall j | 0 <= j < |chunks| && Covers(chunks[j], p)
        ensures j == k
      {
        if j > 0 {
          assert Covers(chunks[1..][j - 1], p);
        }
      }
    }
  }

  // ---- The arena ----

  predicate Fits(dtype: Dtype, maxBytes: nat) {
    Alignment(dtype).Some? && Alignment(dtype).value <= maxBytes
  }

  function TensorAt(mapping: Mapping, spec: TensorSpec): Payload
    requires Holds(mapping, spec)
  {
    mapping[spec.name].data
  }

  /** The chunks of one tensor at their places in the arena. */
  function StagedTensor(data: bytes, dtype: Dtype, maxBytes: nat, arenaOffset: nat): (r: seq<Chunk>)
    requires Fits(dtype, maxBytes)
  {
    PlacedAll(ChunksFrom(data, ChunkBytes(Alignment(dtype).value, maxBytes), 0), arenaOffset)
  }

  predicate Stageable(mapping: Mapping, tensors: seq<TensorSpec>, maxBytes: nat) {
    forall i | 0 <= i < |tensors| :: Holds(mapping, tensors[i]) && Fits(tensors[i].dtype, maxBytes)
  }

  /** The chunks of the first `n` tensors at their places in the arena. */
  function StagedArena(mapping: Mapping, tensors: seq<TensorSpec>, maxBytes: nat, n: nat): seq<Chunk>
    requires n <= |tensors| && Stageable(mapping, tensors, maxBytes)
  {
    if n == 0 then []
    else StagedArena(mapping, tensors, maxBytes, n - 1)
         + StagedTensor(TensorAt(mapping, tensors[n - 1]), tensors[n - 1].dtype, maxBytes, ArenaOffset(tensors, n - 1))
  }

  function ArenaBytes(mapping: Mapping, tensors: seq<TensorSpec>, n: nat): bytes
    requires n <= |tensors| && HoldsAll(mapping, tensors)
  {
    if n == 0 then [] else ArenaBytes(mapping, tensors, n - 1) + TensorAt(mapping, tensors[n - 1])
  }

  function PromisedChunks(mapping: Mapping, tensors: seq<TensorSpec>, maxBytes: nat, n: nat): nat
    requires n <= |tensors| && Stageable(mapping, tensors, maxBytes)
  {
    if n == 0 then 0
    else PromisedChunks(mapping, tensors, maxBytes, n - 1)
         + DivCeil(tensors[n - 1].byteCount, ChunkBytes(Alignment(tensors[n - 1].dtype).value, maxBytes))
  }

  lemma {:induction false} ArenaTiledUpTo(mapping: Mapping, tensors: seq<TensorSpec>, maxBytes: nat, n: nat)
    requires n <= |tensors| && Stageable(mapping, tensors, maxBytes)
    ensures Tiles(StagedArena(mapping, tensors, maxBytes, n), 0, ArenaOffset(tensors, n))
    ensures Contents(StagedArena(mapping, tensors, maxBytes, n)) == ArenaBytes(mapping, tensors, n)
    ensures |StagedArena(mapping, tensors, maxBytes, n)| == PromisedChunks(mapping, tensors, maxBytes, n)
  {
    hide ArenaOffset, DivCeil, Contents, Tiles, StagedTensor;
    if n == 0 {
      NoOffset(tensors);
      NothingTiles();
    } else {
      var spec, at, before := tensors[n - 1], ArenaOffset(tensors, n - 1),
          StagedArena(mapping, tensors, maxBytes, n - 1);
      var data := TensorAt(mapping, spec);
      ArenaTiledUpTo(mapping, tensors, maxBytes, n - 1);
      ArenaOffsetNext(tensors, n - 1);
      StagedTensorTiled(data, spec.dtype, maxBytes, at);
      TilesConcat(before, StagedTensor(data, spec.dtype, maxBytes, at), 0, at, at + |data|);
      ContentsConcat(before, StagedTensor(data, spec.dtype, maxBytes, at));
    }
  }

  lemma StagedTensorTiled(data: bytes, dtype: Dtype, maxBytes: nat, at: nat)
    requires Fits(dtype, maxBytes)
    ensures Tiles(StagedTensor(data, dtype, maxBytes, at), at, at + |data|)
    ensures Contents(StagedTensor(data, dtype, maxBytes, at)) == data
    ensures |StagedTensor(data, dtype, maxBytes, at)| == DivCeil(|data|, ChunkBytes(Alignment(dtype).value, maxBytes))
  {
    hide ChunksFrom, DivCeil, Contents, Tiles, ChunkBytes;
    var size := ChunkBytes(Alignment(dtype).value, maxBytes);
    TensorTiled(data, size, 0, at);
    assert data[0..] == data;
    ChunkCount(data, size, 0);
  }

  lemma NothingTiles()
    ensures Tiles([], 0, 0) && Contents([]) == []
  {
  }

  /** For every contract and every staging size that fits an element, the chunks of all tensors tile the
      arena, carry its bytes in order, and number what was promised for each tensor. */
  lemma ArenaTiled(mapping: Mapping, contract: TensorContract, maxBytes: nat)
    requires WellFormed(contract) && Stageable(mapping, contract.tensors, maxBytes)
    ensures var n := |contract.tensors|;
            && Tiles(StagedArena(mapping, contract.tensors, maxBytes, n), 0, contract.payloadBytes)
            && Contents(StagedArena(mapping, contract.tensors, maxBytes, n)) == ArenaBytes(mapping, contract.tensors, n)
            && |StagedArena(mapping, contract.tensors, maxBytes, n)|
                == PromisedChunks(mapping, contract.tensors, maxBytes, n)
  {
    ArenaTiledUpTo(mapping, contract.tensors, maxBytes, |contract.tensors|);
    assert contract.tensors[..|contract.tensors|] == contract.tensors;
  }

  // ---- Alignment ----

  predicate Aligned(chunk: Chunk, alignment: nat) {
    Multiple(chunk.offset, alignment) && Multiple(|chunk.data|, alignment)
  }

  /** Within its tensor every chunk starts and ends on an element, if the tensor holds whole elements. */
  lemma {:induction false} ChunksAligned(data: bytes, chunkBytes: nat, offset: nat, alignment: nat, k: nat)
    requires chunkBytes > 0 && Multiple(chunkBytes, alignment)
    requires offset <= |data| && Multiple(offset, alignment) && Multiple(|data|, alignment)
    requires k < |ChunksFrom(data, chunkBytes, offset)|
    ensures Aligned(ChunksFrom(data, chunkBytes, offset)[k], alignment)
    decreases k
  {
    hide Multiple;
    var end := Least(offset + chunkBytes, |data|);
    MultiplesAdd(offset, chunkBytes, alignment);
    MultiplesAdd(offset, end - offset, alignment);
    assert |data[offset..end]| == end - offset;
    if k > 0 {
      ChunksAligned(data, chunkBytes, end, alignment, k - 1);
    }
  }

  /** In the arena the chunks of a tensor are aligned exactly when the tensor is. */
  lemma StagedAligned(data: bytes, dtype: Dtype, maxBytes: nat, arenaOffset: nat)
    requires Fits(dtype, maxBytes) && data != [] && Multiple(|data|, Alignment(dtype).value)
    ensures (forall k | 0 <= k < |StagedTensor(data, dtype, maxBytes, arenaOffset)| ::
               Aligned(StagedTensor(data, dtype, maxBytes, arenaOffset)[k], Alignment(dtype).value))
            <==> Multiple(arenaOffset, Alignment(dtype).value)
  {
    hide Multiple, ChunksFrom, PlacedAll, ChunkBytes;
    var alignment := Alignment(dtype).value;
    var size := ChunkBytes(alignment, maxBytes);
    FirstPlaced(data, size, arenaOffset);
    assert StagedTensor(data, dtype, maxBytes, arenaOffset)[0].offset == arenaOffset;
    if Multiple(arenaOffset, alignment) {
      forall k | 0 <= k < |StagedTensor(data, dtype, maxBytes, arenaOffset)|
        ensures Aligned(StagedTensor(data, dtype, maxBytes, arenaOffset)[k], alignment)
      {
        ZeroIsMultiple(alignment);
        PlacedAligned(data, size, arenaOffset, alignment, k);
      }
    }
  }

  lemma PlacedAligned(data: bytes, size: nat, arenaOffset: nat, alignment: nat, k: nat)
    requires size > 0 && Multiple(size, alignment) && Multiple(|data|, alignment) && Multiple(arenaOffset, alignment)
    requires Multiple(0, alignment) && k < |ChunksFrom(data, size, 0)|
    ensures Aligned(PlacedAll(ChunksFrom(data, size, 0), arenaOffset)[k], alignment)
  {
    hide Multiple, ChunksFrom;
    ChunksAligned(data, size, 0, alignment, k);
    MultiplesAdd(arenaOffset, ChunksFrom(data, size, 0)[k].offset, alignment);
  }

  lemma FirstPlaced(data: bytes, size: nat, arenaOffset: nat)
    requires size > 0 && data != []
    ensures ChunksFrom(data, size, 0) != []
            && PlacedAll(ChunksFrom(data, size, 0), arenaOffset)[0].offset == arenaOffset
  {
  }

  /** All tensors of one element type: then every tensor of the arena is aligned. */
  lemma {:induction false} UniformArenaAligned(tensors: seq<TensorSpec>, dtype: Dtype, i: nat)
    requires i <= |tensors| && Alignment(dtype).Some?
    requires forall k | 0 <= k < |tensors| :: SpecFits(tensors[k]) && tensors[k].dtype == dtype
    ensures Multiple(ArenaOffset(tensors, i), Alignment(dtype).value)
  {
    hide TotalBytes, Multiple, ProductFits, Product;
    if i == 0 {
      NoOffset(tensors);
      ZeroIsMultiple(Alignment(dtype).value);
    } else {
      UniformArenaAligned(tensors, dtype, i - 1);
      ArenaOffsetNext(tensors, i - 1);
      assert SpecFits(tensors[i - 1]);
      WholeElements(tensors[i - 1].parameters, Alignment(dtype).value);
      MultiplesAdd(ArenaOffset(tensors, i - 1), tensors[i - 1].byteCount, Alignment(dtype).value);
    }
  }

  lemma ZeroIsMultiple(alignment: nat)
    requires alignment == 2 || alignment == 4
    ensures Multiple(0, alignment)
  {
  }

  lemma WholeElements(count: nat, width: nat)
    requires width == 2 || width == 4
    ensures Multiple(count * width, width)
  {
    if width == 2 {
    } else {
    }
  }

  /** With both element types in one arena a tensor can start inside an element of its own width. */
  lemma MixedArenaMisaligned()
    ensures exists contract: TensorContract ::
              WellFormed(contract) && |contract.tensors| == 2
              && contract.tensors[1].dtype == F32 && !Multiple(ArenaOffset(contract.tensors, 1), 4)
  {
    var first, second := TensorSpec([97], BF16, [1], 1, 2), TensorSpec([98], F32, [1], 1, 4);
    var tensors := [first, second];
    assert [1][..0] == [] && [1][..1] == [1] && Product([1]) == 1;
    assert Before([97], [98]);
    assert tensors[1..] == [second] && [second][1..] == [];
    assert TotalBytes([second]) == 4 && TotalParameters([second]) == 1;
    assert tensors[..1] == [first] && [first][1..] == [];
    assert TotalBytes([first]) == 2;
    var contract := TensorContract(tensors, 2, 2, 6, None);
    assert WellFormed(contract) && ArenaOffset(contract.tensors, 1) == 2;
  }
}
