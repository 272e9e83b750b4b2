/** The tensor index of an artifact: the packer writes it from the mapped tensors, the loader checks it
    against the same contract. Whatever is written is accepted, and what is accepted says where every
    tensor lies in the arena. */
module TensorIndex {
  import opened Bytes
  import opened Text
  import opened Fips180
  import opened Sha256Hasher
  import opened WeightContract

  /** What fits in a mapping can be hashed. */
  type Payload = d: bytes | 8 * |d| < U64_LIMIT

  datatype Tensor = Tensor(dtype: Dtype, shape: seq<nat>, data: Payload)

  type Mapping = map<bytes, Tensor>

  /** One entry of the manifest's tensor index; a member that is absent or of the wrong kind is `None`. */
  datatype IndexEntry = IndexEntry(name: Option<bytes>, component: Option<bytes>, dtype: Option<bytes>,
                                   shape: Option<seq<Option<nat>>>, parameters: Option<nat>, arenaOffset: Option<nat>,
                                   byteCount: Option<nat>, sha256: Option<bytes>)

  datatype Descriptor = Descriptor(name: bytes, sha256: bytes, dtype: Dtype, shape: seq<nat>, arenaOffset: nat,
                                   byteCount: nat)

  datatype IndexError = MissingTensor | TensorChanged | CountMismatch | EntryMismatch | OffsetOverflow
    | CoverageMismatch

  // The prefixes "talker." and "code_predictor.", and the three component names.
  const TALKER: bytes := [116, 97, 108, 107, 101, 114, 46]
  const CODE_PREDICTOR: bytes := [99, 111, 100, 101, 95, 112, 114, 101, 100, 105, 99, 116, 111, 114, 46]
  const CODE_PREDICTOR_COMPONENT: bytes := [99, 111, 100, 101, 45, 112, 114, 101, 100, 105, 99, 116, 111, 114]
  const TALKER_COMPONENT: bytes := [116, 97, 108, 107, 101, 114]
  const DECODER_COMPONENT: bytes := [115, 112, 101, 101, 99, 104, 45, 100, 101, 99, 111, 100, 101, 114]

  function TensorComponent(name: bytes): bytes {
    if TALKER + CODE_PREDICTOR <= name then CODE_PREDICTOR_COMPONENT
    else if TALKER <= name then TALKER_COMPONENT
    else DECODER_COMPONENT
  }

  function DtypeLabel(dtype: Dtype): bytes {
    match dtype
    case BF16 => BF16_LABEL
    case F32 => F32_LABEL
    case OtherDtype(text) => text
  }

  // ---- Digests as text ----

  /** Digests are told apart by their text. */
  lemma {:induction false} HexInjective(a: bytes, b: bytes)
    requires |a| == |b| && ToHex(a) == ToHex(b)
    ensures a == b
  {
    forall i | 0 <= i < |a|
      ensures a[i] == b[i]
    {
      HexDigits(a, i);
      HexDigits(b, i);
      assert a[i] == 16 * (a[i] / 16) + a[i] % 16 && b[i] == 16 * (b[i] / 16) + b[i] % 16;
      assert HexByte(a[i])[0] == HexByte(b[i])[0] && HexByte(a[i])[1] == HexByte(b[i])[1];
    }
  }

  lemma HexPair(high: byte, low: byte)
    requires LowerHex(high) && LowerHex(low)
    ensures var v := ParseUnsigned([high, low], 16, 256); v.Some? && HexByte(v.value) == [high, low]
  {
    assert [high, low][..1] == [high] && [high][..0] == [];
    assert DigitsValue([high], 16) == Some(DigitValue(high).value);
  }

  lemma {:induction false} HexAppend(digest: bytes, b: byte)
    ensures ToHex(digest + [b]) == ToHex(digest) + HexByte(b)
  {
    if digest == [] {
      assert digest + [b] == [b] && [b][1..] == [];
    } else {
      assert (digest + [b])[1..] == digest[1..] + [b];
      HexAppend(digest[1..], b);
    }
  }

  /** Accepts exactly the texts that printing a digest can give, and inverts the printing. */
  method ParseSha256(encoded: bytes) returns (r: Option<bytes>)
    ensures r.Some? <==> DigestText(encoded)
    ensures r.Some? ==> |r.value| == 32 && ToHex(r.value) == encoded
  {
    if |encoded| != 64 || exists i | 0 <= i < |encoded| :: !LowerHex(encoded[i]) {
      return None;
    }
    var digest: bytes := [];
    for k := 0 to 32
      invariant |digest| == k && ToHex(digest) == encoded[..2 * k]
    {
      HexPair(encoded[2 * k], encoded[2 * k + 1]);
      var pair := ParseUnsigned([encoded[2 * k], encoded[2 * k + 1]], 16, 256).value;
      HexAppend(digest, pair);
      digest := digest + [pair];
    }
    assert encoded[..64] == encoded;
    return Some(digest);
  }

  // ---- Checking the tensors of a file ----

  function NamesOf(tensors: seq<TensorSpec>): set<bytes> {
    set i | 0 <= i < |tensors| :: tensors[i].name
  }

  /** The file holds the tensors of the contract and no others, each of the type, shape and size it names. */
  predicate FileMatches(mapping: Mapping, contract: TensorContract) {
    && |mapping| == contract.tensorCount && mapping.Keys == NamesOf(contract.tensors)
       && HoldsAll(mapping, contract.tensors)
    && TotalParameters(contract.tensors) == contract.parameterCount < U64_LIMIT
    && TotalBytes(contract.tensors) == contract.payloadBytes < U64_LIMIT
  }

  method ValidateTensors(mapping: Mapping, contract: TensorContract) returns (ok: bool)
    ensures ok == FileMatches(mapping, contract)
  {
    hide TotalBytes, TotalParameters, Holds;
    ok := false;
    if |mapping| != contract.tensorCount || mapping.Keys != NamesOf(contract.tensors) {
      return;
    }
    var parameterCount: nat, payloadBytes: nat := 0, 0;
    NothingTotalled(contract.tensors);
    for i := 0 to |contract.tensors|
      invariant parameterCount == TotalParameters(contract.tensors[..i]) < U64_LIMIT
      invariant payloadBytes == TotalBytes(contract.tensors[..i]) < U64_LIMIT
      invariant forall k | 0 <= k < i :: Holds(mapping, contract.tensors[k])
    {
      var spec := contract.tensors[i];
      TotalledNext(contract.tensors, i);
      if !Holds(mapping, spec) || parameterCount + spec.parameters >= U64_LIMIT
         || payloadBytes + spec.byteCount >= U64_LIMIT {
        return;
      }
      parameterCount, payloadBytes := parameterCount + spec.parameters, payloadBytes + spec.byteCount;
    }
    assert contract.tensors[..|contract.tensors|] == contract.tensors;
    ok := parameterCount == contract.parameterCount && payloadBytes == contract.payloadBytes;
  }

  lemma NothingTotalled(tensors: seq<TensorSpec>)
    ensures TotalParameters(tensors[..0]) == 0 && TotalBytes(tensors[..0]) == 0
  {
  }

  lemma TotalledNext(tensors: seq<TensorSpec>, i: nat)
    requires i < |tensors|
    ensures TotalParameters(tensors[..i + 1])
            == TotalParameters(tensors[..i]) + tensors[i].parameters <= TotalParameters(tensors)
    ensures TotalBytes(tensors[..i + 1]) == TotalBytes(tensors[..i]) + tensors[i].byteCount <= TotalBytes(tensors)
  {
    hide TotalParameters, TotalBytes;
    assert tensors[..i + 1] == tensors[..i] + [tensors[i]];
    TotalsAppend(tensors[..i], tensors[i]);
    assert tensors == tensors[..i + 1] + tensors[i + 1..];
    TotalsSplit(tensors[..i + 1], tensors[i + 1..]);
  }

  // ---- Writing ----

  /** Where tensor `i` of the contract starts in the arena. */
  function ArenaOffset(tensors: seq<TensorSpec>, i: nat): nat
    requires i <= |tensors|
  {
    TotalBytes(tensors[..i])
  }

  lemma ArenaOffsetNext(tensors: seq<TensorSpec>, i: nat)
    requires i < |tensors|
    ensures ArenaOffset(tensors, i + 1) == ArenaOffset(tensors, i) + tensors[i].byteCount <= TotalBytes(tensors)
  {
    assert tensors[..i + 1] == tensors[..i] + [tensors[i]];
    TotalsAppend(tensors[..i], tensors[i]);
    assert tensors == tensors[..i + 1] + tensors[i + 1..];
    TotalsSplit(tensors[..i + 1], tensors[i + 1..]);
  }

  predicate Holds(mapping: Mapping, spec: TensorSpec) {
    && spec.name in mapping
    && mapping[spec.name].dtype == spec.dtype && mapping[spec.name].shape == spec.shape
    && |mapping[spec.name].data| == spec.byteCount
  }

  predicate HoldsAll(mapping: Mapping, tensors: seq<TensorSpec>) {
    forall i | 0 <= i < |tensors| :: Holds(mapping, tensors[i])
  }

  function Dimensions(shape: seq<nat>): (r: seq<Option<nat>>)
    ensures |r| == |shape|
  {
    seq(|shape|, i requires 0 <= i < |shape| => Some(shape[i]))
  }

  /** The entry of one tensor. */
  function EntryOf(spec: TensorSpec, offset: nat, sha256: bytes): IndexEntry {
    IndexEntry(Some(spec.name), Some(TensorComponent(spec.name)), Some(DtypeLabel(spec.dtype)),
               Some(Dimensions(spec.shape)),
               Some(spec.parameters), Some(offset), Some(spec.byteCount), Some(sha256))
  }

  /** An index that names every tensor of the contract at its place, with the digest of its bytes. */
  ghost predicate Written(index: seq<IndexEntry>, mapping: Mapping, tensors: seq<TensorSpec>)
    requires HoldsAll(mapping, tensors)
  {
    |index| == |tensors| && forall i | 0 <= i < |index| ::
      index[i] == EntryOf(tensors[i], ArenaOffset(tensors, i), ToHex(Sha256(mapping[tensors[i].name].data)))
  }

  method BuildTensorIndex(mapping: Mapping, contract: TensorContract) returns (r: Result<seq<IndexEntry>, IndexError>)
    ensures r.Ok?
            <==> HoldsAll(mapping, contract.tensors)
                 && TotalBytes(contract.tensors) == contract.payloadBytes < U64_LIMIT
    ensures r.Ok? ==> Written(r.value, mapping, contract.tensors)
  {
    hide TotalBytes, EntryOf, ToHex, Sha256;
    ghost var tensors := contract.tensors;
    var offset: nat := 0;
    var index: seq<IndexEntry> := [];
    NoOffset(tensors);
    for i := 0 to |contract.tensors|
      invariant offset == ArenaOffset(tensors, i) < U64_LIMIT && |index| == i
      invariant forall k | 0 <= k < i :: Holds(mapping, tensors[k])
                  && index[k]
                      == EntryOf(tensors[k], ArenaOffset(tensors, k), ToHex(Sha256(mapping[tensors[k].name].data)))
    {
      var spec := contract.tensors[i];
      ArenaOffsetNext(tensors, i);
      if spec.name !in mapping {
        return Err(MissingTensor);
      }
      if !Holds(mapping, spec) {
        return Err(TensorChanged);
      }
      var digest := DigestOf(mapping[spec.name].data);
      index := index + [EntryOf(spec, offset, ToHex(digest))];
      if offset + spec.byteCount >= U64_LIMIT {
        return Err(OffsetOverflow);
      }
      offset := offset + spec.byteCount;
    }
    assert tensors[..|tensors|] == tensors;
    if offset != contract.payloadBytes {
      return Err(CoverageMismatch);
    }
    return Ok(index);
  }

  lemma NoOffset(tensors: seq<TensorSpec>)
    ensures ArenaOffset(tensors, 0) == 0
  {
  }

  // ---- Checking ----

  predicate EntryMatches(entry: IndexEntry, spec: TensorSpec, offset: nat) {
    && entry.name == Some(spec.name)
    && entry.component == Some(TensorComponent(spec.name))
    && entry.dtype == Some(DtypeLabel(spec.dtype))
    && entry.shape == Some(Dimensions(spec.shape))
    && entry.parameters == Some(spec.parameters)
    && entry.arenaOffset == Some(offset)
    && entry.byteCount == Some(spec.byteCount)
    && entry.sha256.Some? && DigestText(entry.sha256.value)
  }

  /** The entries name the contract's tensors in order, each at the end of the one before. */
  ghost predicate Accepted(entries: seq<IndexEntry>, contract: TensorContract) {
    && |entries| == |contract.tensors|
    && (forall i | 0 <= i < |entries| :: EntryMatches(entries[i], contract.tensors[i],
                                                      ArenaOffset(contract.tensors, i)))
    && TotalBytes(contract.tensors) == contract.payloadBytes < U64_LIMIT
  }

  ghost predicate Describes(descriptor: Descriptor, entry: IndexEntry, spec: TensorSpec, offset: nat) {
    && descriptor.name == spec.name && descriptor.dtype == spec.dtype && descriptor.shape == spec.shape
    && descriptor.arenaOffset == offset && descriptor.byteCount == spec.byteCount
    && |descriptor.sha256| == 32 && entry.sha256 == Some(ToHex(descriptor.sha256))
  }

  /** The names of a contract are distinct, so the descriptors are listed in its order. */
  method ValidateTensorIndex(entries: seq<IndexEntry>, contract: TensorContract)
    returns (r: Result<seq<Descriptor>, IndexError>)
    requires contract.tensorCount == |contract.tensors|
    ensures r.Ok? <==> Accepted(entries, contract)
    ensures r.Ok? ==> |r.value| == |entries|
    ensures r.Ok? ==> forall i | 0 <= i < |entries| ::
              Describes(r.value[i], entries[i], contract.tensors[i], ArenaOffset(contract.tensors, i))
  {
    hide TotalBytes, DigestText, TensorComponent, DtypeLabel, Dimensions, ToHex;
    if |entries| != contract.tensorCount {
      return Err(CountMismatch);
    }
    ghost var tensors := contract.tensors;
    var descriptors: seq<Descriptor> := [];
    var expectedOffset: nat := 0;
    NoOffset(tensors);
    for i := 0 to |entries|
      invariant expectedOffset == ArenaOffset(tensors, i) < U64_LIMIT && |descriptors| == i
      invariant forall k | 0 <= k < i :: EntryMatches(entries[k], tensors[k], ArenaOffset(tensors, k))
                                         && Describes(descriptors[k], entries[k], tensors[k], ArenaOffset(tensors, k))
    {
      var entry, spec := entries[i], contract.tensors[i];
      ArenaOffsetNext(tensors, i);
      if entry.name.None? || entry.name.value != spec.name
         || entry.component.None? || entry.component.value != TensorComponent(spec.name)
         || entry.dtype.None? || entry.dtype.value != DtypeLabel(spec.dtype)
         || entry.shape.None? || entry.shape.value != Dimensions(spec.shape)
         || entry.parameters != Some(spec.parameters)
         || entry.arenaOffset != Some(expectedOffset)
         || entry.byteCount != Some(spec.byteCount)
         || entry.sha256.None? {
        return Err(EntryMismatch);
      }
      var sha256 := ParseSha256(entry.sha256.value);
      if sha256.None? {
        return Err(EntryMismatch);
      }
      descriptors := descriptors
          + [Descriptor(spec.name, sha256.value, spec.dtype, spec.shape, expectedOffset, spec.byteCount)];
      if expectedOffset + spec.byteCount >= U64_LIMIT {
        return Err(OffsetOverflow);
      }
      expectedOffset := expectedOffset + spec.byteCount;
    }
    assert tensors[..|tensors|] == tensors;
    if expectedOffset != contract.payloadBytes {
      return Err(CoverageMismatch);
    }
    return Ok(descriptors);
  }

  // ---- Agreement ----

  /** What the packer writes for a contract is what the loader accepts, and the loader recovers every
      tensor's digest and place. */
  lemma WrittenIndexIsAccepted(index: seq<IndexEntry>, mapping: Mapping, contract: TensorContract)
    requires WellFormed(contract) && HoldsAll(mapping, contract.tensors) && Written(index, mapping, contract.tensors)
    ensures Accepted(index, contract)
    ensures forall i, d: Descriptor | 0 <= i < |index|
            && Describes(d, index[i], contract.tensors[i], ArenaOffset(contract.tensors, i)) ::
              d.sha256 == Sha256(mapping[contract.tensors[i].name].data)
  {
    hide TotalBytes, DigestText, TensorComponent, DtypeLabel, Dimensions, Sha256;
    forall i | 0 <= i < |index|
      ensures EntryMatches(index[i], contract.tensors[i], ArenaOffset(contract.tensors, i))
    {
      PrintedDigestIsText(Sha256(mapping[contract.tensors[i].name].data));
    }
    forall i, d: Descriptor | 0 <= i < |index|
           && Describes(d, index[i], contract.tensors[i], ArenaOffset(contract.tensors, i))
      ensures d.sha256 == Sha256(mapping[contract.tensors[i].name].data)
    {
      HexInjective(d.sha256, Sha256(mapping[contract.tensors[i].name].data));
    }
  }

  /** A file that was checked against a contract read from an inventory can always be indexed, and for
      such a contract the check is about the tensors alone. */
  lemma CheckedFilesAreIndexed(mapping: Mapping, contract: TensorContract)
    requires WellFormed(contract)
    ensures FileMatches(mapping, contract)
            <==> mapping.Keys == NamesOf(contract.tensors) && HoldsAll(mapping, contract.tensors)
    ensures FileMatches(mapping, contract) ==>
              HoldsAll(mapping, contract.tensors) && TotalBytes(contract.tensors) == contract.payloadBytes < U64_LIMIT
  {
    hide TotalBytes, TotalParameters;
    NamesAreDistinct(contract.tensors);
    assert |mapping| == |mapping.Keys|;
  }

  lemma {:induction false} NamesAreDistinct(tensors: seq<TensorSpec>)
    requires Sorted(tensors)
    ensures |NamesOf(tensors)| == |tensors|
  {
    if tensors == [] {
      assert NamesOf(tensors) == {};
    } else {
      var front, last := tensors[..|tensors| - 1], tensors[|tensors| - 1];
      NamesAreDistinct(front);
      forall i | 0 <= i < |front|
        ensures front[i].name != last.name
      {
        BeforeOrAfter(front[i].name, last.name);
        assert Before(tensors[i].name, tensors[|tensors| - 1].name);
      }
      assert NamesOf(tensors) == NamesOf(front) + {last.name};
    }
  }
}
