/** What inventories and indexes say in their own terms: element types by their names, sizes by multiplication,
    components by the prefix of the tensor name. */
module Inventories {
  import opened Bytes
  import opened Text
  import opened Fips180
  import opened Sha256Hasher
  import opened WeightContract
  import opened TensorIndex

  // ---- Entries of an inventory ----

  lemma TypeLabels()
    ensures Ascii8("BF16") == BF16_LABEL && Ascii8("F32") == F32_LABEL && BF16_LABEL != F32_LABEL
  {
  }

  /** The number of elements: the product of the dimensions, the last one first. */
  function Elements(shape: seq<nat>): nat {
    if shape == [] then 1 else shape[0] * Elements(shape[1..])
  }

  lemma Regrouped(a: nat, b: nat, c: nat)
    ensures a * (b * c) == (a * b) * c
  {
  }

  lemma {:induction false} ElementsBehind(shape: seq<nat>, last: nat)
    ensures Elements(shape + [last]) == Elements(shape) * last
  {
    if shape == [] {
      assert [] + [last] == [last] && [last][1..] == [];
    } else {
      assert (shape + [last])[1..] == shape[1..] + [last];
      ElementsBehind(shape[1..], last);
      Regrouped(shape[0], Elements(shape[1..]), last);
    }
  }

  lemma {:induction false} ProductIsElements(shape: seq<nat>)
    ensures Product(shape) == Elements(shape)
  {
    if shape != [] {
      var front, last := shape[..|shape| - 1], shape[|shape| - 1];
      ProductIsElements(front);
      ElementsBehind(front, last);
      assert shape == front + [last];
    }
  }

  /** The bytes of a tensor by the name of its element type. */
  predicate Typed(text: Option<bytes>, dtype: Dtype, elements: nat, byteCount: nat) {
    || (text == Some(Ascii8("BF16")) && dtype == BF16 && byteCount == 2 * elements)
    || (text == Some(Ascii8("F32")) && dtype == F32 && byteCount == 4 * elements)
  }

  /** An entry is read as a tensor exactly if it names it, says its element type, its dimensions, the number of its
      elements and of its bytes, and all of these are true and fit in 64 bits. */
  lemma EntryIff(entry: InventoryEntry, spec: TensorSpec)
    ensures WeightContract.Describes(entry, None, spec) <==>
              && entry.name == Some(spec.name) && Typed(entry.dtype, spec.dtype, spec.parameters, spec.byteCount)
              && entry.shape == Some(Dimensions(spec.shape)) && entry.parameters == Some(spec.parameters)
              && entry.byteCount == Some(spec.byteCount) && spec.parameters == Elements(spec.shape)
              && (forall i | 0 <= i < |spec.shape| :: spec.shape[i] < 0x1_0000_0000_0000_0000)
              && (forall k | 0 <= k <= |spec.shape| :: Elements(spec.shape[..k]) < 0x1_0000_0000_0000_0000)
              && spec.byteCount < 0x1_0000_0000_0000_0000
  {
    hide Ascii8, Product, Elements;
    TypeLabels();
    ProductIsElements(spec.shape);
    forall k | 0 <= k <= |spec.shape|
      ensures Product(spec.shape[..k]) == Elements(spec.shape[..k])
    {
      ProductIsElements(spec.shape[..k]);
    }
    if entry.shape.Some? {
      ShapeIff(entry.shape.value, spec.shape);
    }
  }

  lemma ShapeIff(shape: seq<Option<nat>>, dimensions: seq<nat>)
    ensures ShapeReads(shape) && dimensions == ShapeOf(shape)
       <==> shape == Dimensions(dimensions)
            && forall i | 0 <= i < |dimensions| :: dimensions[i] < 0x1_0000_0000_0000_0000
  {
    if ShapeReads(shape) && dimensions == ShapeOf(shape) {
      assert shape == Dimensions(dimensions);
    }
    if shape == Dimensions(dimensions) && forall i | 0 <= i < |dimensions| :: dimensions[i] < 0x1_0000_0000_0000_0000 {
      assert forall i | 0 <= i < |shape| :: shape[i] == Some(dimensions[i]);
    }
  }

  // ---- Components ----

  lemma PrefixBytes()
    ensures Ascii8("talker.") == TALKER
  {
  }

  lemma InnerPrefixBytes()
    ensures Ascii8("talker.code_predictor.") == TALKER + CODE_PREDICTOR
  {
  }

  lemma PredictorBytes()
    ensures Ascii8("code-predictor") == CODE_PREDICTOR_COMPONENT && Ascii8("talker") == TALKER_COMPONENT
  {
  }

  lemma DecoderBytes()
    ensures Ascii8("speech-decoder") == DECODER_COMPONENT
  {
  }

  /** The component of a tensor is told by the prefix of its name. */
  lemma ComponentByPrefix(name: bytes)
    ensures TensorComponent(name) ==
            if Ascii8("talker.code_predictor.") <= name then Ascii8("code-predictor")
            else if Ascii8("talker.") <= name then Ascii8("talker") else Ascii8("speech-decoder")
  {
    hide Ascii8;
    PrefixBytes();
    InnerPrefixBytes();
    PredictorBytes();
    DecoderBytes();
  }

  // ---- Entries of an index ----

  /** What an entry of the index says is what the mapped tensor is, and where it lies: behind all tensors before it. */
  lemma IndexTellsMapping(index: seq<IndexEntry>, mapping: Mapping, tensors: seq<TensorSpec>, i: nat)
    requires HoldsAll(mapping, tensors) && Written(index, mapping, tensors) && i < |tensors|
    ensures var name := tensors[i].name;
            && name in mapping && index[i].name == Some(name)
            && index[i].shape == Some(Dimensions(mapping[name].shape))
            && index[i].dtype == Some(DtypeLabel(mapping[name].dtype))
            && index[i].byteCount == Some(|mapping[name].data|)
            && index[i].sha256 == Some(ToHex(Sha256(mapping[name].data)))
            && index[i].arenaOffset == Some(BytesBefore(mapping, tensors, i))
  {
    hide ToHex, Sha256, TotalBytes, DtypeLabel, TensorComponent;
    assert Holds(mapping, tensors[i]);
    BytesAreBefore(mapping, tensors, i);
  }

  /** The mapped bytes of the first tensors. */
  function BytesBefore(mapping: Mapping, tensors: seq<TensorSpec>, i: nat): nat
    requires i <= |tensors| && forall k | 0 <= k < |tensors| :: tensors[k].name in mapping
  {
    if i == 0 then 0 else BytesBefore(mapping, tensors, i - 1) + |mapping[tensors[i - 1].name].data|
  }

  lemma {:induction false} BytesAreBefore(mapping: Mapping, tensors: seq<TensorSpec>, i: nat)
    requires i <= |tensors| && HoldsAll(mapping, tensors)
    ensures forall k | 0 <= k < |tensors| :: tensors[k].name in mapping
    ensures ArenaOffset(tensors, i) == BytesBefore(mapping, tensors, i)
  {
    assert forall k | 0 <= k < |tensors| :: Holds(mapping, tensors[k]);
    if i > 0 {
      BytesAreBefore(mapping, tensors, i - 1);
      ArenaOffsetNext(tensors, i - 1);
      assert Holds(mapping, tensors[i - 1]);
    }
  }
}
