/** The tensor contract read from an inventory: which tensors an artifact holds, in name order, with
    their sizes and totals. */
module WeightContract {
  import opened Bytes
  import opened Text

  datatype Dtype = BF16 | F32 | OtherDtype(text: bytes)

  datatype TensorSpec = TensorSpec(name: bytes, dtype: Dtype, shape: seq<nat>, parameters: nat, byteCount: nat)

  /** `tensors` is an ordered map written as its entries in key order. */
  datatype TensorContract = TensorContract(tensors: seq<TensorSpec>, tensorCount: nat, parameterCount: nat,
                                           payloadBytes: nat,
                                           exactFileBytes: Option<nat>)

  /** One inventory entry as JSON delivers it: a member that is absent or of the wrong kind is `None`. */
  datatype InventoryEntry = InventoryEntry(name: Option<bytes>, dtype: Option<bytes>, shape: Option<seq<Option<nat>>>,
                                           parameters: Option<nat>, byteCount: Option<nat>)

  function BytesPerElement(dtype: Dtype): Option<nat> {
    match dtype
    case BF16 => Some(2)
    case F32 => Some(4)
    case OtherDtype(_) => None
  }

  const BF16_LABEL: bytes := [66, 70, 49, 54]
  const F32_LABEL: bytes := [70, 51, 50]

  function ParseDtype(text: bytes): Option<Dtype> {
    if text == BF16_LABEL then Some(BF16) else if text == F32_LABEL then Some(F32) else None
  }

  // ---- Name order ----

  predicate Sorted(tensors: seq<TensorSpec>) {
    forall i, j | 0 <= i < j < |tensors| :: Before(tensors[i].name, tensors[j].name)
  }

  predicate HasName(tensors: seq<TensorSpec>, name: bytes) {
    exists i | 0 <= i < |tensors| :: tensors[i].name == name
  }

  /** Insertion of a new name into the ordered map. */
  function Inserted(tensors: seq<TensorSpec>, spec: TensorSpec): (r: seq<TensorSpec>)
    ensures multiset(r) == multiset(tensors) + multiset{spec}
  {
    if tensors == [] || Before(spec.name, tensors[0].name) then [spec] + tensors
    else
      assert tensors == [tensors[0]] + tensors[1..];
      [tensors[0]] + Inserted(tensors[1..], spec)
  }

  lemma {:induction false} InsertedSorted(tensors: seq<TensorSpec>, spec: TensorSpec)
    requires Sorted(tensors) && !HasName(tensors, spec.name)
    ensures Sorted(Inserted(tensors, spec))
  {
    if tensors == [] {
    } else if Before(spec.name, tensors[0].name) {
      forall j | 0 <= j < |tensors|
        ensures Before(spec.name, tensors[j].name)
      {
        if j > 0 {
          BeforeTransitive(spec.name, tensors[0].name, tensors[j].name);
        }
      }
    } else {
      BeforeOrAfter(spec.name, tensors[0].name);
      InsertedSorted(tensors[1..], spec);
      var rest := Inserted(tensors[1..], spec);
      forall j | 0 <= j < |rest|
        ensures Before(tensors[0].name, rest[j].name)
      {
        assert rest[j] in multiset(rest);
        assert rest[j] in tensors[1..] || rest[j] == spec;
      }
    }
  }

  // ---- Totals ----

  function TotalParameters(tensors: seq<TensorSpec>): nat {
    if tensors == [] then 0 else tensors[0].parameters + TotalParameters(tensors[1..])
  }

  function TotalBytes(tensors: seq<TensorSpec>): nat {
    if tensors == [] then 0 else tensors[0].byteCount + TotalBytes(tensors[1..])
  }

  lemma {:induction false} InsertedTotals(tensors: seq<TensorSpec>, spec: TensorSpec)
    ensures TotalParameters(Inserted(tensors, spec)) == TotalParameters(tensors) + spec.parameters
    ensures TotalBytes(Inserted(tensors, spec)) == TotalBytes(tensors) + spec.byteCount
  {
    if tensors == [] || Before(spec.name, tensors[0].name) {
      assert ([spec] + tensors)[1..] == tensors;
    } else {
      InsertedTotals(tensors[1..], spec);
      assert Inserted(tensors, spec)[1..] == Inserted(tensors[1..], spec);
    }
  }

  lemma {:induction false} TotalsAppend(tensors: seq<TensorSpec>, spec: TensorSpec)
    ensures TotalParameters(tensors + [spec]) == TotalParameters(tensors) + spec.parameters
    ensures TotalBytes(tensors + [spec]) == TotalBytes(tensors) + spec.byteCount
  {
    if tensors == [] {
      assert tensors + [spec] == [spec];
    } else {
      assert (tensors + [spec])[1..] == tensors[1..] + [spec];
      TotalsAppend(tensors[1..], spec);
    }
  }

  lemma {:induction false} TotalsSplit(a: seq<TensorSpec>, b: seq<TensorSpec>)
    ensures TotalBytes(a + b) == TotalBytes(a) + TotalBytes(b)
    ensures TotalParameters(a + b) == TotalParameters(a) + TotalParameters(b)
  {
    if a == [] {
      assert a + b == b;
    } else {
      assert (a + b)[1..] == a[1..] + b;
      TotalsSplit(a[1..], b);
    }
  }

  // ---- One entry ----

  function Product(shape: seq<nat>): nat {
    if shape == [] then 1 else Product(shape[..|shape| - 1]) * shape[|shape| - 1]
  }

  /** The running product never leaves 64 bits. */
  predicate ProductFits(shape: seq<nat>) {
    forall k | 0 <= k <= |shape| :: Product(shape[..k]) < U64_LIMIT
  }

  method ShapeParameters(shape: seq<nat>) returns (r: Option<nat>)
    ensures r.Some? <==> ProductFits(shape)
    ensures r.Some? ==> r.value == Product(shape)
  {
    var product: nat := 1;
    for i := 0 to |shape|
      invariant product == Product(shape[..i]) < U64_LIMIT
      invariant forall k | 0 <= k <= i :: Product(shape[..k]) < U64_LIMIT
    {
      assert shape[..i + 1][..i] == shape[..i];
      if product * shape[i] >= U64_LIMIT {
        return None;
      }
      product := product * shape[i];
    }
    assert shape[..|shape|] == shape;
    return Some(product);
  }

  predicate ShapeReads(shape: seq<Option<nat>>) {
    forall i | 0 <= i < |shape| :: shape[i].Some? && shape[i].value < U64_LIMIT
  }

  function ShapeOf(shape: seq<Option<nat>>): (r: seq<nat>)
    requires ShapeReads(shape)
    ensures |r| == |shape|
  {
    seq(|shape|, i requires 0 <= i < |shape| => shape[i].value)
  }

  /** Whether an entry that is included describes the tensor `spec`. */
  predicate Describes(entry: InventoryEntry, dtypeOverride: Option<Dtype>, spec: TensorSpec) {
    && entry.name == Some(spec.name)
    && entry.dtype.Some? && ParseDtype(entry.dtype.value).Some?
    && spec.dtype == (if dtypeOverride.Some? then dtypeOverride.value else ParseDtype(entry.dtype.value).value)
    && entry.shape.Some? && ShapeReads(entry.shape.value) && spec.shape == ShapeOf(entry.shape.value)
    && SpecFits(spec) && entry.parameters == Some(spec.parameters)
    && (dtypeOverride.None? ==> entry.byteCount == Some(spec.byteCount))
  }

  /** Sizes follow from the shape and the element width, within 64 bits. */
  predicate SpecFits(spec: TensorSpec) {
    && ProductFits(spec.shape) && spec.parameters == Product(spec.shape)
    && BytesPerElement(spec.dtype).Some?
       && spec.byteCount == spec.parameters * BytesPerElement(spec.dtype).value < U64_LIMIT
  }

  lemma DescribesOne(entry: InventoryEntry, dtypeOverride: Option<Dtype>, a: TensorSpec, b: TensorSpec)
    requires Describes(entry, dtypeOverride, a) && Describes(entry, dtypeOverride, b)
    ensures a == b
  {
  }

  method ParseEntry(entry: InventoryEntry, dtypeOverride: Option<Dtype>) returns (r: Option<TensorSpec>)
    requires entry.name.Some?
    ensures r.Some? ==> Describes(entry, dtypeOverride, r.value)
    ensures r.None? ==> forall spec :: !Describes(entry, dtypeOverride, spec)
  {
    if entry.dtype.None? {
      return None;
    }
    var sourceDtype := ParseDtype(entry.dtype.value);
    if sourceDtype.None? {
      return None;
    }
    var dtype := if dtypeOverride.Some? then dtypeOverride.value else sourceDtype.value;
    if entry.shape.None? || !ShapeReads(entry.shape.value) {
      return None;
    }
    var shape := ShapeOf(entry.shape.value);
    var parameters := ShapeParameters(shape);
    if parameters.None? || entry.parameters.None? || parameters.value != entry.parameters.value {
      return None;
    }
    var width := BytesPerElement(dtype);
    if width.None? {
      return None;
    }
    var byteCount := parameters.value * width.value;
    if byteCount >= U64_LIMIT {
      return None;
    }
    if dtypeOverride.None? && (entry.byteCount.None? || byteCount != entry.byteCount.value) {
      return None;
    }
    return Some(TensorSpec(entry.name.value, dtype, shape, parameters.value, byteCount));
  }

  // ---- The whole inventory ----

  /** `specs` are the tensors of the included entries, in file order. */
  ghost predicate Selects(entries: seq<InventoryEntry>, included: bytes -> bool, dtypeOverride: Option<Dtype>,
                          specs: seq<TensorSpec>) {
    if entries == [] then specs == []
    else
      var entry := entries[|entries| - 1];
      && entry.name.Some?
      && if included(entry.name.value)
         then && specs != [] && Describes(entry, dtypeOverride, specs[|specs| - 1])
              && Selects(entries[..|entries| - 1], included, dtypeOverride, specs[..|specs| - 1])
         else Selects(entries[..|entries| - 1], included, dtypeOverride, specs)
  }

  predicate DistinctNames(specs: seq<TensorSpec>) {
    forall i, j | 0 <= i < j < |specs| :: specs[i].name != specs[j].name
  }

  predicate Legal(specs: seq<TensorSpec>) {
    DistinctNames(specs) && TotalParameters(specs) < U64_LIMIT && TotalBytes(specs) < U64_LIMIT
  }

  /** What every contract that was read promises. */
  predicate WellFormed(contract: TensorContract) {
    && contract.tensors != [] && Sorted(contract.tensors)
    && (forall i | 0 <= i < |contract.tensors| :: SpecFits(contract.tensors[i]))
    && contract.tensorCount == |contract.tensors|
    && contract.parameterCount == TotalParameters(contract.tensors) < U64_LIMIT
    && contract.payloadBytes == TotalBytes(contract.tensors) < U64_LIMIT
  }

  lemma {:induction false} SelectsPrefix(entries: seq<InventoryEntry>, included: bytes -> bool,
                                         dtypeOverride: Option<Dtype>,
                                         specs: seq<TensorSpec>, k: nat) returns (n: nat)
    requires k <= |entries| && Selects(entries, included, dtypeOverride, specs)
    ensures n <= |specs| && Selects(entries[..k], included, dtypeOverride, specs[..n])
  {
    if k == |entries| {
      n := |specs|;
      assert entries[..k] == entries && specs[..n] == specs;
    } else {
      var front := entries[..|entries| - 1];
      assert front[..k] == entries[..k];
      if included(entries[|entries| - 1].name.value) {
        n := SelectsPrefix(front, included, dtypeOverride, specs[..|specs| - 1], k);
        assert specs[..|specs| - 1][..n] == specs[..n];
      } else {
        n := SelectsPrefix(front, included, dtypeOverride, specs, k);
      }
    }
  }

  lemma {:induction false} SelectsOne(entries: seq<InventoryEntry>, included: bytes -> bool,
                                      dtypeOverride: Option<Dtype>,
                                      a: seq<TensorSpec>, b: seq<TensorSpec>)
    requires Selects(entries, included, dtypeOverride, a) && Selects(entries, included, dtypeOverride, b)
    ensures a == b
  {
    hide Describes;
    if entries != [] {
      var entry, front := entries[|entries| - 1], entries[..|entries| - 1];
      if included(entry.name.value) {
        SelectsOne(front, included, dtypeOverride, a[..|a| - 1], b[..|b| - 1]);
        DescribesOne(entry, dtypeOverride, a[|a| - 1], b[|b| - 1]);
        assert a == a[..|a| - 1] + [a[|a| - 1]] && b == b[..|b| - 1] + [b[|b| - 1]];
      } else {
        SelectsOne(front, included, dtypeOverride, a, b);
      }
    }
  }

  lemma LegalPrefix(specs: seq<TensorSpec>, n: nat)
    requires n <= |specs| && Legal(specs)
    ensures Legal(specs[..n])
  {
    assert specs == specs[..n] + specs[n..];
    TotalsSplit(specs[..n], specs[n..]);
  }

  /** The inventory can be read as far as its entries go. */
  ghost predicate Readable(entries: seq<InventoryEntry>, included: bytes -> bool, dtypeOverride: Option<Dtype>) {
    exists specs :: Selects(entries, included, dtypeOverride, specs) && Legal(specs)
  }

  /** A readable inventory is readable up to any entry. */
  lemma ReadablePrefix(entries: seq<InventoryEntry>, included: bytes -> bool, dtypeOverride: Option<Dtype>, k: nat)
    requires k <= |entries| && Readable(entries, included, dtypeOverride)
    ensures Readable(entries[..k], included, dtypeOverride)
  {
    var specs :| Selects(entries, included, dtypeOverride, specs) && Legal(specs);
    var n := SelectsPrefix(entries, included, dtypeOverride, specs, k);
    LegalPrefix(specs, n);
  }

  lemma BlockedAt(entries: seq<InventoryEntry>, included: bytes -> bool, dtypeOverride: Option<Dtype>, k: nat)
    requires k <= |entries| && !Readable(entries[..k], included, dtypeOverride)
    ensures !Readable(entries, included, dtypeOverride)
  {
    if Readable(entries, included, dtypeOverride) {
      ReadablePrefix(entries, included, dtypeOverride, k);
    }
  }

  lemma SelectsNext(entries: seq<InventoryEntry>, included: bytes -> bool, dtypeOverride: Option<Dtype>, k: nat,
                    specs: seq<TensorSpec>, spec: Option<TensorSpec>)
    requires k < |entries| && Selects(entries[..k], included, dtypeOverride, specs) && entries[k].name.Some?
    requires spec.Some? <==> included(entries[k].name.value)
    requires spec.Some? ==> Describes(entries[k], dtypeOverride, spec.value)
    ensures Selects(entries[..k + 1], included, dtypeOverride, if spec.Some? then specs + [spec.value] else specs)
  {
    assert entries[..k + 1][..k] == entries[..k];
    if spec.Some? {
      assert (specs + [spec.value])[..|specs|] == specs;
    }
  }

  lemma CannotSelect(entries: seq<InventoryEntry>, included: bytes -> bool, dtypeOverride: Option<Dtype>, k: nat)
    requires k < |entries|
    requires entries[k].name.None?
             || (included(entries[k].name.value) && forall spec :: !Describes(entries[k], dtypeOverride, spec))
    ensures !Readable(entries[..k + 1], included, dtypeOverride)
  {
    hide Describes;
  }

  /** The tensors read so far, as the ordered map and as the list they came from. */
  ghost predicate Gathered(tensors: seq<TensorSpec>, specs: seq<TensorSpec>) {
    && Legal(specs) && Sorted(tensors) && multiset(tensors) == multiset(specs)
    && TotalParameters(tensors) == TotalParameters(specs) && TotalBytes(tensors) == TotalBytes(specs)
    && forall i | 0 <= i < |tensors| :: SpecFits(tensors[i])
  }

  lemma SameNames(tensors: seq<TensorSpec>, specs: seq<TensorSpec>, name: bytes)
    requires multiset(tensors) == multiset(specs)
    ensures HasName(tensors, name) <==> HasName(specs, name)
  {
    forall i | 0 <= i < |tensors|
      ensures tensors[i] in specs
    {
      assert tensors[i] in multiset(specs);
    }
    forall i | 0 <= i < |specs|
      ensures specs[i] in tensors
    {
      assert specs[i] in multiset(tensors);
    }
  }

  lemma GatheredNext(tensors: seq<TensorSpec>, specs: seq<TensorSpec>, spec: TensorSpec)
    requires Gathered(tensors, specs) && SpecFits(spec) && !HasName(tensors, spec.name)
    requires TotalParameters(tensors) + spec.parameters < U64_LIMIT && TotalBytes(tensors) + spec.byteCount < U64_LIMIT
    ensures Gathered(Inserted(tensors, spec), specs + [spec])
  {
    hide SpecFits, Sorted, TotalParameters, TotalBytes;
    SameNames(tensors, specs, spec.name);
    InsertedSorted(tensors, spec);
    InsertedTotals(tensors, spec);
    TotalsAppend(specs, spec);
    var more := Inserted(tensors, spec);
    forall i | 0 <= i < |more|
      ensures SpecFits(more[i])
    {
      assert more[i] in multiset(more);
      assert more[i] in tensors || more[i] == spec;
    }
  }

  lemma NextIsIllegal(tensors: seq<TensorSpec>, specs: seq<TensorSpec>, spec: TensorSpec)
    requires Gathered(tensors, specs)
    requires || HasName(tensors, spec.name) || TotalParameters(tensors) + spec.parameters >= U64_LIMIT
             || TotalBytes(tensors) + spec.byteCount >= U64_LIMIT
    ensures !Legal(specs + [spec])
  {
    SameNames(tensors, specs, spec.name);
    TotalsAppend(specs, spec);
    if HasName(specs, spec.name) {
      var i :| 0 <= i < |specs| && specs[i].name == spec.name;
      assert (specs + [spec])[i].name == (specs + [spec])[|specs|].name;
    }
  }

  lemma OnlyReading(entries: seq<InventoryEntry>, included: bytes -> bool, dtypeOverride: Option<Dtype>,
                    specs: seq<TensorSpec>)
    requires Selects(entries, included, dtypeOverride, specs) && Readable(entries, included, dtypeOverride)
    ensures Legal(specs)
  {
    var others :| Selects(entries, included, dtypeOverride, others) && Legal(others);
    SelectsOne(entries, included, dtypeOverride, specs, others);
  }

  predicate SelectsNothing(entries: seq<InventoryEntry>, included: bytes -> bool) {
    forall i | 0 <= i < |entries| :: entries[i].name.Some? && !included(entries[i].name.value)
  }

  lemma {:induction false} NothingSelected(entries: seq<InventoryEntry>, included: bytes -> bool,
                                           dtypeOverride: Option<Dtype>, specs: seq<TensorSpec>)
    requires Selects(entries, included, dtypeOverride, specs)
    ensures specs == [] <==> SelectsNothing(entries, included)
  {
    hide Describes;
    if entries != [] {
      var last := |entries| - 1;
      if !included(entries[last].name.value) {
        NothingSelected(entries[..last], included, dtypeOverride, specs);
      }
    }
  }

  /** A contract is read exactly when every included entry describes a tensor, no name occurs twice, the
      totals fit in 64 bits, something was selected and the file size, if it is kept, is there. */
  method ParseInventory(entries: seq<InventoryEntry>, fileBytes: Option<nat>, included: bytes -> bool,
                        dtypeOverride: Option<Dtype>, retainExactFileBytes: bool)
    returns (r: Option<TensorContract>, ghost specs: seq<TensorSpec>)
    ensures r.Some? <==> && Readable(entries, included, dtypeOverride) && !SelectsNothing(entries, included)
                         && (retainExactFileBytes ==> fileBytes.Some?)
    ensures r.Some? ==> Selects(entries, included, dtypeOverride, specs)
    ensures r.Some? ==> WellFormed(r.value) && multiset(r.value.tensors) == multiset(specs)
    ensures r.Some? ==> r.value.exactFileBytes == (if retainExactFileBytes then fileBytes else None)
  {
    hide Selects, Describes, Readable, SelectsNothing, Legal, SpecFits, Sorted, HasName;
    var tensors: seq<TensorSpec> := [];
    var parameterCount: nat, payloadBytes: nat := 0, 0;
    specs := [];
    NothingRead(entries, included, dtypeOverride);
    for k := 0 to |entries|
      invariant Selects(entries[..k], included, dtypeOverride, specs) && Gathered(tensors, specs)
      invariant parameterCount == TotalParameters(tensors) < U64_LIMIT
                && payloadBytes == TotalBytes(tensors) < U64_LIMIT
    {
      var entry := entries[k];
      var spec: Option<TensorSpec> := None;
      if entry.name.Some? && included(entry.name.value) {
        spec := ParseEntry(entry, dtypeOverride);
      }
      if entry.name.None? || (included(entry.name.value) && spec.None?) {
        CannotSelect(entries, included, dtypeOverride, k);
        BlockedAt(entries, included, dtypeOverride, k + 1);
        return None, [];
      }
      SelectsNext(entries, included, dtypeOverride, k, specs, spec);
      if spec.Some? {
        DescribedFits(entry, dtypeOverride, spec.value);
        if HasName(tensors, spec.value.name) || parameterCount + spec.value.parameters >= U64_LIMIT
           || payloadBytes + spec.value.byteCount >= U64_LIMIT {
          NextIsIllegal(tensors, specs, spec.value);
          if Readable(entries[..k + 1], included, dtypeOverride) {
            OnlyReading(entries[..k + 1], included, dtypeOverride, specs + [spec.value]);
          }
          BlockedAt(entries, included, dtypeOverride, k + 1);
          return None, [];
        }
        GatheredNext(tensors, specs, spec.value);
        InsertedTotals(tensors, spec.value);
        tensors := Inserted(tensors, spec.value);
        parameterCount := parameterCount + spec.value.parameters;
        payloadBytes := payloadBytes + spec.value.byteCount;
        specs := specs + [spec.value];
      }
    }
    assert entries[..|entries|] == entries;
    EmptyTogether(tensors, specs);
    NothingSelected(entries, included, dtypeOverride, specs);
    WholeReading(entries, included, dtypeOverride, specs);
    if tensors == [] {
      return None, [];
    }
    if retainExactFileBytes && fileBytes.None? {
      return None, [];
    }
    r := Some(TensorContract(tensors, |tensors|, parameterCount, payloadBytes,
                             if retainExactFileBytes then fileBytes else None));
  }

  lemma WholeReading(entries: seq<InventoryEntry>, included: bytes -> bool, dtypeOverride: Option<Dtype>,
                     specs: seq<TensorSpec>)
    requires Selects(entries, included, dtypeOverride, specs) && Legal(specs)
    ensures Readable(entries, included, dtypeOverride)
  {
  }

  lemma NothingRead(entries: seq<InventoryEntry>, included: bytes -> bool, dtypeOverride: Option<Dtype>)
    ensures Selects(entries[..0], included, dtypeOverride, []) && Gathered([], [])
  {
  }

  lemma DescribedFits(entry: InventoryEntry, dtypeOverride: Option<Dtype>, spec: TensorSpec)
    requires Describes(entry, dtypeOverride, spec)
    ensures SpecFits(spec)
  {
  }

  lemma EmptyTogether(tensors: seq<TensorSpec>, specs: seq<TensorSpec>)
    requires multiset(tensors) == multiset(specs)
    ensures tensors == [] <==> specs == []
  {
    assert |multiset(tensors)| == |tensors| && |multiset(specs)| == |specs|;
  }
}
