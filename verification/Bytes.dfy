/** Byte strings, time-stamped byte strings, and the leftmost-occurrence specification
    that every framing reader of the HTTP client is measured against. */
module Bytes {

  datatype Option<+T> = None | Some(value: T)

  datatype Result<+T, +E> = Ok(value: T) | Err(error: E) {
    predicate IsFailure() { Err? }
    function PropagateFailure<U>(): Result<U, E>
      requires Err?
    {
      Err(error)
    }
    function Extract(): T
      requires Ok?
    {
      value
    }
  }

  type byte = b: int | 0 <= b < 256
  type bytes = seq<byte>

  /** The bytes of a text whose characters are ASCII. */
  function Ascii8(s: string): (r: bytes)
    ensures |r| == |s|
  {
    seq(|s|, i requires 0 <= i < |s| => (s[i] as int) % 256)
  }

  /** A point on the monotonic clock, in nanoseconds. */
  type Instant = nat

  const U64_LIMIT: int := 0x1_0000_0000_0000_0000

  const CR: byte := 13
  const LF: byte := 10
  const CRLF: bytes := [13, 10]
  const CRLFCRLF: bytes := [13, 10, 13, 10]

  /** One byte together with the moment the socket read that carried it returned. */
  datatype TimedByte = TimedByte(value: byte, at: Instant)

  function Stamp(bs: bytes, at: Instant): (ts: seq<TimedByte>)
    ensures |ts| == |bs|
  {
    seq(|bs|, i requires 0 <= i < |bs| => TimedByte(bs[i], at))
  }

  function Plain(ts: seq<TimedByte>): (bs: bytes)
    ensures |bs| == |ts|
  {
    seq(|ts|, i requires 0 <= i < |ts| => ts[i].value)
  }

  lemma PlainStamp(bs: bytes, at: Instant)
    ensures Plain(Stamp(bs, at)) == bs
  {
    assert forall i | 0 <= i < |bs| :: Plain(Stamp(bs, at))[i] == bs[i];
  }

  lemma PlainConcat(a: seq<TimedByte>, b: seq<TimedByte>)
    ensures Plain(a + b) == Plain(a) + Plain(b)
  {
    assert forall i | 0 <= i < |a + b| :: Plain(a + b)[i] == (Plain(a) + Plain(b))[i];
  }

  lemma PlainSlice(ts: seq<TimedByte>, i: nat, j: nat)
    requires i <= j <= |ts|
    ensures Plain(ts[i..j]) == Plain(ts)[i..j]
  {
    assert forall k | 0 <= k < j - i :: Plain(ts[i..j])[k] == Plain(ts)[i..j][k];
  }

  lemma PlainSplit(ts: seq<TimedByte>, n: nat)
    requires n <= |ts|
    ensures Plain(ts[..n]) == Plain(ts)[..n] && Plain(ts[n..]) == Plain(ts)[n..]
  {
    PlainSlice(ts, 0, n);
    PlainSlice(ts, n, |ts|);
    assert ts[0..n] == ts[..n] && ts[n..|ts|] == ts[n..];
  }

  predicate OccursAt(text: bytes, needle: bytes, p: int) {
    0 <= p && p + |needle| <= |text| && text[p..p + |needle|] == needle
  }

  /** The leftmost occurrence of `needle` in `text`. */
  function FirstIndex(text: bytes, needle: bytes): (r: Option<nat>)
    ensures r.Some? ==> OccursAt(text, needle, r.value) && forall q | q < r.value :: !OccursAt(text, needle, q)
    ensures r.None? ==> forall q :: !OccursAt(text, needle, q)
  {
    FirstIndexFrom(text, needle, 0)
  }

  function FirstIndexFrom(text: bytes, needle: bytes, p: nat): (r: Option<nat>)
    requires p <= |text|
    ensures r.Some?
            ==> p <= r.value && OccursAt(text, needle, r.value)
                && forall q | p <= q < r.value :: !OccursAt(text, needle, q)
    ensures r.None? ==> forall q | p <= q :: !OccursAt(text, needle, q)
    decreases |text| - p
  {
    if OccursAt(text, needle, p) then Some(p)
    else if p == |text| then None
    else FirstIndexFrom(text, needle, p + 1)
  }

  /** Being leftmost determines the index. */
  lemma FirstIndexUnique(text: bytes, needle: bytes, p: nat)
    requires OccursAt(text, needle, p) && forall q | q < p :: !OccursAt(text, needle, q)
    ensures FirstIndex(text, needle) == Some(p)
  {
  }

  /** A leftmost occurrence is settled by the bytes up to its end: what arrives later cannot move it. */
  lemma FirstIndexPrefix(text: bytes, more: bytes, needle: bytes)
    requires FirstIndex(text, needle).Some?
    ensures FirstIndex(text + more, needle) == FirstIndex(text, needle)
  {
    var p := FirstIndex(text, needle).value;
    forall q | q <= p
      ensures OccursAt(text + more, needle, q) == OccursAt(text, needle, q)
    {
      if 0 <= q {
        assert q + |needle| <= |text|;
        assert (text + more)[q..q + |needle|] == text[q..q + |needle|];
      }
    }
    FirstIndexUnique(text + more, needle, p);
  }

  /** If no occurrence is complete in the bytes seen so far, the leftmost one ends beyond them. */
  lemma FirstIndexBeyond(text: bytes, more: bytes, needle: bytes)
    requires FirstIndex(text, needle).None? && FirstIndex(text + more, needle).Some?
    ensures FirstIndex(text + more, needle).value + |needle| > |text|
  {
    var p := FirstIndex(text + more, needle).value;
    if p + |needle| <= |text| {
      assert (text + more)[p..p + |needle|] == text[p..p + |needle|];
      assert OccursAt(text, needle, p);
    }
  }

  function Flatten<T>(parts: seq<seq<T>>): seq<T> {
    if parts == [] then [] else parts[0] + Flatten(parts[1..])
  }

  lemma {:induction false} FlattenConcat<T>(a: seq<seq<T>>, b: seq<seq<T>>)
    ensures Flatten(a + b) == Flatten(a) + Flatten(b)
  {
    if a == [] {
      assert a + b == b;
    } else {
      assert (a + b)[0] == a[0] && (a + b)[1..] == a[1..] + b;
      FlattenConcat(a[1..], b);
      assert a[0] + (Flatten(a[1..]) + Flatten(b)) == (a[0] + Flatten(a[1..])) + Flatten(b);
    }
  }

  lemma FlattenAppend<T>(parts: seq<seq<T>>, last: seq<T>)
    ensures Flatten(parts + [last]) == Flatten(parts) + last
  {
    FlattenConcat(parts, [last]);
    assert Flatten([last]) == last + Flatten([last][1..]) == last;
  }
}
