/** The library sorts that the reports use, for any total order, and ordinals in order. */
module Sorting {

  ghost predicate TotalOrder<T(!new)>(atMost: (T, T) -> bool) {
    && (forall a, b :: atMost(a, b) || atMost(b, a))
    && forall a, b, c :: atMost(a, b) && atMost(b, c) ==> atMost(a, c)
  }

  predicate SortedBy<T>(items: seq<T>, atMost: (T, T) -> bool) {
    forall i, j | 0 <= i < j < |items| :: atMost(items[i], items[j])
  }

  /** Inserts behind everything that is at most the new item, so equal items keep their order. */
  function Insert<T>(item: T, sorted: seq<T>, atMost: (T, T) -> bool): (r: seq<T>)
    ensures |r| == |sorted| + 1 && multiset(r) == multiset(sorted) + multiset{item}
  {
    if sorted == [] || atMost(sorted[|sorted| - 1], item) then sorted + [item]
    else
      assert sorted == sorted[..|sorted| - 1] + [sorted[|sorted| - 1]];
      Insert(item, sorted[..|sorted| - 1], atMost) + [sorted[|sorted| - 1]]
  }

  function Sort<T>(items: seq<T>, atMost: (T, T) -> bool): (r: seq<T>)
    ensures |r| == |items| && multiset(r) == multiset(items)
  {
    if items == [] then []
    else
      assert items == items[..|items| - 1] + [items[|items| - 1]];
      Insert(items[|items| - 1], Sort(items[..|items| - 1], atMost), atMost)
  }

  lemma {:induction false} InsertSorts<T(!new)>(item: T, sorted: seq<T>, atMost: (T, T) -> bool)
    requires TotalOrder(atMost) && SortedBy(sorted, atMost)
    ensures SortedBy(Insert(item, sorted, atMost), atMost)
  {
    if sorted == [] {
    } else if atMost(sorted[|sorted| - 1], item) {
      forall i | 0 <= i < |sorted|
        ensures atMost(sorted[i], item)
      {
        assert i < |sorted| - 1 ==> atMost(sorted[i], sorted[|sorted| - 1]);
      }
    } else {
      var front, last := sorted[..|sorted| - 1], sorted[|sorted| - 1];
      var rest := Insert(item, front, atMost);
      InsertSorts(item, front, atMost);
      forall i | 0 <= i < |rest|
        ensures atMost(rest[i], last)
      {
        assert rest[i] in multiset(rest);
        assert rest[i] in front || rest[i] == item;
      }
    }
  }

  lemma {:induction false} SortSorts<T(!new)>(items: seq<T>, atMost: (T, T) -> bool)
    requires TotalOrder(atMost)
    ensures SortedBy(Sort(items, atMost), atMost)
  {
    if items != [] {
      SortSorts(items[..|items| - 1], atMost);
      InsertSorts(items[|items| - 1], Sort(items[..|items| - 1], atMost), atMost);
    }
  }

  /** What is in order already stays as it is. */
  lemma {:induction false} SortedIsFixed<T>(items: seq<T>, atMost: (T, T) -> bool)
    requires SortedBy(items, atMost)
    ensures Sort(items, atMost) == items
  {
    if items != [] {
      SortedIsFixed(items[..|items| - 1], atMost);
    }
  }

  /** The order tells the items apart. */
  ghost predicate Distinguishes<T(!new)>(atMost: (T, T) -> bool, items: seq<T>) {
    forall x, y :: x in items && y in items && atMost(x, y) && atMost(y, x) ==> x == y
  }

  /** Where the order tells all items apart, any two ways of sorting agree. */
  lemma {:induction false} SortedUnique<T(!new)>(a: seq<T>, b: seq<T>, atMost: (T, T) -> bool)
    requires TotalOrder(atMost) && Distinguishes(atMost, b)
    requires SortedBy(a, atMost) && SortedBy(b, atMost) && multiset(a) == multiset(b)
    ensures a == b
    decreases |a|
  {
    hide TotalOrder, SortedBy, Distinguishes;
    assert |multiset(a)| == |a| && |multiset(b)| == |b|;
    if a != [] {
      var n := |a| - 1;
      SameLast(a, b, atMost);
      assert a == a[..n] + [a[n]] && b == b[..n] + [a[n]];
      FrontsAgree(a[..n], b[..n], a[n]);
      FrontsSorted(a, b, atMost);
      SortedUnique(a[..n], b[..n], atMost);
    }
  }

  lemma FrontsSorted<T(!new)>(a: seq<T>, b: seq<T>, atMost: (T, T) -> bool)
    requires SortedBy(a, atMost) && SortedBy(b, atMost) && Distinguishes(atMost, b) && |a| == |b| > 0
    ensures SortedBy(a[..|a| - 1], atMost) && SortedBy(b[..|a| - 1], atMost) && Distinguishes(atMost, b[..|a| - 1])
  {
  }

  lemma SameLast<T(!new)>(a: seq<T>, b: seq<T>, atMost: (T, T) -> bool)
    requires TotalOrder(atMost) && Distinguishes(atMost, b) && |a| == |b| > 0
    requires SortedBy(a, atMost) && SortedBy(b, atMost) && multiset(a) == multiset(b)
    ensures a[|a| - 1] == b[|a| - 1]
  {
    hide TotalOrder, SortedBy;
    LastIsGreatest(a, b, atMost);
    LastIsGreatest(b, a, atMost);
    assert a[|a| - 1] in multiset(b);
    assert a[|a| - 1] in b && b[|a| - 1] in b;
  }

  lemma LastIsGreatest<T(!new)>(a: seq<T>, b: seq<T>, atMost: (T, T) -> bool)
    requires TotalOrder(atMost) && SortedBy(a, atMost) && multiset(a) == multiset(b) && a != [] && |a| == |b|
    ensures atMost(b[|b| - 1], a[|a| - 1])
  {
    assert b[|b| - 1] in multiset(a);
    var j :| 0 <= j < |a| && a[j] == b[|b| - 1];
  }

  lemma FrontsAgree<T>(a: seq<T>, b: seq<T>, last: T)
    requires multiset(a + [last]) == multiset(b + [last])
    ensures multiset(a) == multiset(b)
  {
    var x, y := multiset(a), multiset(b);
    assert multiset(a + [last]) == x + multiset{last} && multiset(b + [last]) == y + multiset{last};
    assert x == x + multiset{last} - multiset{last} && y == y + multiset{last} - multiset{last};
  }

  // ---- Ordinals ----

  function AtMost(a: nat, b: nat): bool { a <= b }

  function Range(n: nat): (r: seq<nat>)
    ensures |r| == n && forall i | 0 <= i < n :: r[i] == i
  {
    seq(n, i => i)
  }

  lemma RangeNext(n: nat)
    ensures multiset(Range(n + 1)) == multiset(Range(n)) + multiset{n}
  {
    assert Range(n + 1) == Range(n) + [n];
  }

  lemma {:induction false} RangeOnce(n: nat, o: nat)
    ensures multiset(Range(n))[o] <= 1 && (multiset(Range(n))[o] == 1 <==> o < n)
  {
    if n > 0 {
      RangeNext(n - 1);
      RangeOnce(n - 1, o);
    }
  }

  function Keys<T>(items: seq<T>, key: T -> nat): (r: seq<nat>)
    ensures |r| == |items|
  {
    seq(|items|, i requires 0 <= i < |items| => key(items[i]))
  }

  lemma KeysAppend<T>(items: seq<T>, last: T, key: T -> nat)
    ensures Keys(items + [last], key) == Keys(items, key) + [key(last)]
  {
  }

  lemma {:induction false} InsertedKeys<T>(item: T, sorted: seq<T>, key: T -> nat, atMost: (T, T) -> bool)
    ensures multiset(Keys(Insert(item, sorted, atMost), key)) == multiset(Keys(sorted, key)) + multiset{key(item)}
  {
    hide Keys;
    if sorted == [] || atMost(sorted[|sorted| - 1], item) {
      KeysAppend(sorted, item, key);
    } else {
      var front, last := sorted[..|sorted| - 1], sorted[|sorted| - 1];
      assert sorted == front + [last];
      InsertedKeys(item, front, key, atMost);
      KeysAppend(front, last, key);
      KeysAppend(Insert(item, front, atMost), last, key);
    }
  }

  /** Sorting items only reorders their keys. */
  lemma {:induction false} SortedKeys<T>(items: seq<T>, key: T -> nat, atMost: (T, T) -> bool)
    ensures multiset(Keys(Sort(items, atMost), key)) == multiset(Keys(items, key))
  {
    hide Keys;
    if items != [] {
      var front, last := items[..|items| - 1], items[|items| - 1];
      assert items == front + [last];
      SortedKeys(front, key, atMost);
      InsertedKeys(last, Sort(front, atMost), key, atMost);
      KeysAppend(front, last, key);
    }
  }

  /** Items whose keys are 0, 1, 2 and so on in any order come out of a sort in that order. */
  lemma SortedKeysAreRange<T(!new)>(items: seq<T>, key: T -> nat, atMost: (T, T) -> bool, n: nat)
    requires TotalOrder(atMost) && forall a, b :: atMost(a, b) <==> key(a) <= key(b)
    requires multiset(Keys(items, key)) == multiset(Range(n))
    ensures Keys(Sort(items, atMost), key) == Range(n)
  {
    var sorted := Sort(items, atMost);
    SortSorts(items, atMost);
    SortedKeys(items, key, atMost);
    assert SortedBy(Keys(sorted, key), AtMost);
    SortedUnique(Keys(sorted, key), Range(n), AtMost);
  }
}
