/** Running totals of a list of counts. */
module Totals {

  function Total(counts: seq<nat>): nat {
    if counts == [] then 0 else Total(counts[..|counts| - 1]) + counts[|counts| - 1]
  }

  lemma TotalNext(counts: seq<nat>, k: nat)
    requires k < |counts|
    ensures Total(counts[..k + 1]) == Total(counts[..k]) + counts[k]
  {
    assert counts[..k + 1][..k] == counts[..k];
  }

  lemma {:induction false} TotalGrows(counts: seq<nat>, k: nat)
    requires k <= |counts|
    ensures Total(counts[..k]) <= Total(counts)
    decreases |counts| - k
  {
    if k == |counts| {
      assert counts[..k] == counts;
    } else {
      TotalNext(counts, k);
      TotalGrows(counts, k + 1);
    }
  }
}
