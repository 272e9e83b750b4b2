/** The queue of time-stamped segments that socket reads are pushed into. Its abstract value is one
    flat string of stamped bytes; every operation is specified on that string, so no caller can see
    where the segments were cut except through `PopSegment`. */
module TimedBuffers {
  import opened Bytes

  datatype TimedBytes = TimedBytes(bytes: bytes, arrived: Instant)

  datatype Segment = Segment(bytes: bytes, offset: nat, arrived: Instant) {
    predicate Live() { offset < |bytes| }

    function Remaining(): (ts: seq<TimedByte>)
      requires Live()
    {
      Stamp(bytes[offset..], arrived)
    }
  }

  predicate AllLive(segments: seq<Segment>) {
    forall s | s in segments :: s.Live()
  }

  function FlatSegments(segments: seq<Segment>): seq<TimedByte>
    requires AllLive(segments)
  {
    if segments == [] then [] else segments[0].Remaining() + FlatSegments(segments[1..])
  }

  lemma {:induction false} FlatSegmentsAppend(segments: seq<Segment>, last: Segment)
    requires AllLive(segments) && last.Live()
    ensures FlatSegments(segments + [last]) == FlatSegments(segments) + last.Remaining()
  {
    if segments == [] {
      assert segments + [last] == [last];
      assert FlatSegments([last]) == last.Remaining() + FlatSegments([last][1..]);
    } else {
      assert (segments + [last])[1..] == segments[1..] + [last];
      FlatSegmentsAppend(segments[1..], last);
    }
  }

  /** Where the front segment lies in the flat text. */
  lemma SegmentInText(segments: seq<Segment>, text: bytes, start: nat)
    requires AllLive(segments) && segments != [] && start <= |text|
    requires Plain(FlatSegments(segments)) == text[start..]
    ensures var s := segments[0];
            var end := start + |s.bytes| - s.offset;
            && s.Live() && end <= |text|
            && (forall k | s.offset <= k < |s.bytes| :: text[start + k - s.offset] == s.bytes[k])
            && Plain(FlatSegments(segments[1..])) == text[end..]
  {
    var s := segments[0];
    assert s in segments;
    var front, later := s.bytes[s.offset..], FlatSegments(segments[1..]);
    PlainConcat(s.Remaining(), later);
    PlainStamp(front, s.arrived);
    assert text[start..] == front + Plain(later);
    forall k | s.offset <= k < |s.bytes|
      ensures text[start + k - s.offset] == s.bytes[k]
    {
      assert text[start + k - s.offset] == text[start..][k - s.offset] == front[k - s.offset];
    }
    assert text[start + |front|..] == text[start..][|front|..];
  }

  // ---- The single-pass delimiter search, as a function of the flat text ----

  /** One step of the search: how many needle bytes are matched after reading `b`. A mismatch
      restarts with at most one byte. */
  function Advance(needle: bytes, matched: nat, b: byte): (r: nat)
    requires matched < |needle|
    ensures r <= matched + 1 && r <= |needle|
  {
    if b == needle[matched] then matched + 1
    else if b == needle[0] then 1
    else 0
  }

  /** The search resumed at `position` with `matched` needle bytes already matched. */
  function Scan(needle: bytes, text: bytes, position: nat, matched: nat): Option<nat>
    requires matched < |needle| && matched <= position <= |text|
    decreases |text| - position
  {
    if position == |text| then None
    else
      var m := Advance(needle, matched, text[position]);
      if m == |needle| then Some(position + 1 - |needle|) else Scan(needle, text, position + 1, m)
  }

  function Search(needle: bytes, text: bytes): Option<nat> {
    if needle == [] then Some(0) else Scan(needle, text, 0, 0)
  }

  /** After any matched prefix, every border that could be continued agrees with the needle on the
      next byte, so that a mismatch never has to fall back to a border of two bytes or more. */
  ghost predicate RestartSafe(needle: bytes) {
    forall m, k | 1 <= k < m < |needle| && needle[m - k..m] == needle[..k] :: needle[k] == needle[m]
  }

  /** The last `k` bytes before `position` are the first `k` bytes of the needle. */
  ghost predicate Aligned(needle: bytes, text: bytes, position: nat, k: int) {
    0 <= k <= |needle| && k <= position <= |text| && text[position - k..position] == needle[..k]
  }

  /** `matched` is the longest alignment at `position`, and no occurrence is complete yet. */
  ghost predicate Longest(needle: bytes, text: bytes, position: nat, matched: nat) {
    && Aligned(needle, text, position, matched)
    && (forall k | matched < k :: !Aligned(needle, text, position, k))
    && (forall p | p + |needle| <= position :: !OccursAt(text, needle, p))
  }

  lemma AlignedStep(needle: bytes, text: bytes, position: nat, k: int)
    requires position < |text| && 0 <= k < |needle|
    ensures Aligned(needle, text, position + 1, k + 1)
            <==> Aligned(needle, text, position, k) && text[position] == needle[k]
  {
    if k <= position {
      assert text[position - k..position + 1] == text[position - k..position] + [text[position]];
      assert needle[..k + 1] == needle[..k] + [needle[k]];
    }
  }

  /** Two alignments at one place make the shorter a border of the longer, so a restart-safe needle
      continues both with the same byte. */
  lemma SameContinuation(needle: bytes, text: bytes, position: nat, matched: nat, k: nat)
    requires RestartSafe(needle) && 1 <= k <= matched < |needle|
    requires Aligned(needle, text, position, matched) && Aligned(needle, text, position, k)
    ensures needle[k] == needle[matched]
  {
    if k < matched {
      var tail := text[position - matched..position];
      assert needle[matched - k..matched] == tail[matched - k..] == text[position - k..position];
    }
  }

  lemma NothingLonger(needle: bytes, text: bytes, position: nat, matched: nat, k: int)
    requires RestartSafe(needle) && matched < |needle| && position < |text|
    requires Longest(needle, text, position, matched)
    requires Advance(needle, matched, text[position]) < k
    ensures !Aligned(needle, text, position + 1, k)
  {
    if 1 <= k <= |needle| {
      AlignedStep(needle, text, position, k - 1);
      if 2 <= k <= matched + 1 && Aligned(needle, text, position, k - 1) {
        SameContinuation(needle, text, position, matched, k - 1);
      }
    }
  }

  lemma AdvanceAligned(needle: bytes, text: bytes, position: nat, matched: nat)
    requires matched < |needle| && position < |text| && Aligned(needle, text, position, matched)
    ensures Aligned(needle, text, position + 1, Advance(needle, matched, text[position]))
  {
    AlignedStep(needle, text, position, matched);
    AlignedStep(needle, text, position, 0);
  }

  lemma OccursIsAligned(needle: bytes, text: bytes, p: int)
    requires 0 <= p
    ensures OccursAt(text, needle, p) <==> Aligned(needle, text, p + |needle|, |needle|)
  {
    assert needle[..|needle|] == needle;
  }

  lemma {:induction false} LongestStep(needle: bytes, text: bytes, position: nat, matched: nat)
    requires RestartSafe(needle) && matched < |needle| && position < |text|
    requires Longest(needle, text, position, matched)
    ensures var m := Advance(needle, matched, text[position]);
            if m == |needle|
            then OccursAt(text, needle, position + 1 - |needle|)
                 && forall q | q < position + 1 - |needle| :: !OccursAt(text, needle, q)
            else Longest(needle, text, position + 1, m)
  {
    hide RestartSafe, Advance;
    var m, next := Advance(needle, matched, text[position]), position + 1;
    AdvanceAligned(needle, text, position, matched);
    forall k | m < k
      ensures !Aligned(needle, text, next, k)
    {
      NothingLonger(needle, text, position, matched, k);
    }
    hide Aligned;
    OccursHere(needle, text, next);
  }

  /** The only occurrence that can end at `position` is the one that ends there. */
  lemma OccursHere(needle: bytes, text: bytes, position: nat)
    requires 0 < position && forall p | p + |needle| < position :: !OccursAt(text, needle, p)
    ensures Aligned(needle, text, position, |needle|)
            <==> position >= |needle| && OccursAt(text, needle, position - |needle|)
    ensures !Aligned(needle, text, position, |needle|)
            ==> forall p | p + |needle| <= position :: !OccursAt(text, needle, p)
  {
    if position >= |needle| {
      OccursIsAligned(needle, text, position - |needle|);
    }
    hide Aligned;
  }

  lemma {:induction false} ScanIsFirstIndex(needle: bytes, text: bytes, position: nat, matched: nat)
    requires RestartSafe(needle) && matched < |needle| && matched <= position <= |text|
    requires Longest(needle, text, position, matched)
    ensures Scan(needle, text, position, matched) == FirstIndex(text, needle)
    decreases |text| - position
  {
    hide RestartSafe, Aligned;
    if position < |text| {
      LongestStep(needle, text, position, matched);
      var m := Advance(needle, matched, text[position]);
      if m == |needle| {
        FirstIndexUnique(text, needle, position + 1 - |needle|);
      } else {
        ScanIsFirstIndex(needle, text, position + 1, m);
      }
    }
  }

  /** Too few bytes are left to complete the needle. */
  lemma {:induction false} ScanStarves(needle: bytes, text: bytes, position: nat, matched: nat)
    requires matched < |needle| && matched <= position <= |text|
    requires matched + (|text| - position) < |needle|
    ensures Scan(needle, text, position, matched).None?
    decreases |text| - position
  {
    if position < |text| {
      ScanStarves(needle, text, position + 1, Advance(needle, matched, text[position]));
    }
  }

  /** The text that defeats a needle violating `RestartSafe` with the border `k` of its prefix `m`. */
  function Defeating(needle: bytes, m: nat, k: nat): bytes
    requires k < m < |needle|
  {
    needle[..m] + needle[k..]
  }

  lemma {:induction false} ScanFollowsPrefix(needle: bytes, text: bytes, m: nat, position: nat)
    requires position <= m < |needle| && m <= |text| && text[..m] == needle[..m]
    ensures Scan(needle, text, position, position) == Scan(needle, text, m, m)
    decreases m - position
  {
    if position < m {
      assert text[position] == text[..m][position] == needle[..m][position];
      ScanFollowsPrefix(needle, text, m, position + 1);
    }
  }

  lemma DefeatedSearch(needle: bytes, m: nat, k: nat)
    requires 1 <= k < m < |needle| && needle[m - k..m] == needle[..k] && needle[k] != needle[m]
    ensures Search(needle, Defeating(needle, m, k)).None?
    ensures OccursAt(Defeating(needle, m, k), needle, m - k)
  {
    var text := Defeating(needle, m, k);
    assert text[..m] == needle[..m];
    ScanFollowsPrefix(needle, text, m, 0);
    assert text[m] == needle[k];
    var restarted := Advance(needle, m, text[m]);
    ScanStarves(needle, text, m + 1, restarted);
    assert text[m - k..m - k + |needle|] == needle[m - k..m] + needle[k..] == needle;
  }

  /** The one-byte restart finds the leftmost occurrence in every text exactly for restart-safe needles. */
  lemma SearchIsLeftmostIff(needle: bytes)
    ensures RestartSafe(needle) <==> forall text :: Search(needle, text) == FirstIndex(text, needle)
  {
    if RestartSafe(needle) {
      forall text: bytes
        ensures Search(needle, text) == FirstIndex(text, needle)
      {
        SearchIsLeftmost(needle, text);
      }
    } else {
      var m, k :| 1 <= k < m < |needle| && needle[m - k..m] == needle[..k] && needle[k] != needle[m];
      DefeatedSearch(needle, m, k);
      var text := Defeating(needle, m, k);
      assert Search(needle, text) != FirstIndex(text, needle);
    }
  }

  lemma SearchIsLeftmost(needle: bytes, text: bytes)
    requires RestartSafe(needle)
    ensures Search(needle, text) == FirstIndex(text, needle)
  {
    if needle == [] {
      assert OccursAt(text, needle, 0);
      FirstIndexUnique(text, needle, 0);
    } else {
      assert Longest(needle, text, 0, 0) by {
        assert Aligned(needle, text, 0, 0);
      }
      ScanIsFirstIndex(needle, text, 0, 0);
    }
  }

  /** Both delimiters the client searches for qualify. */
  lemma DelimitersAreRestartSafe()
    ensures RestartSafe(CRLF) && RestartSafe(CRLFCRLF)
  {
    forall m, k | 1 <= k < m < |CRLFCRLF| && CRLFCRLF[m - k..m] == CRLFCRLF[..k]
      ensures CRLFCRLF[k] == CRLFCRLF[m]
    {
      assert CRLFCRLF[m - k..m][0] == CRLFCRLF[m - k] && CRLFCRLF[..k][0] == CRLFCRLF[0];
    }
  }

  // ---- The buffer ----

  /** Where the segments end, each end named by the number of bytes that follow it. */
  ghost function SegmentEnds(segments: seq<Segment>): set<nat>
    requires AllLive(segments)
  {
    if segments == [] then {} else {|FlatSegments(segments[1..])|} + SegmentEnds(segments[1..])
  }

  lemma {:induction false} EndsBehind(segments: seq<Segment>)
    requires AllLive(segments)
    ensures forall n | n in SegmentEnds(segments) :: n < |FlatSegments(segments)|
  {
    if segments != [] {
      EndsBehind(segments[1..]);
      assert segments[0].Live() && |FlatSegments(segments)| > |FlatSegments(segments[1..])|;
    }
  }

  /** A new segment moves the ends before it away from the end of the queue. */
  lemma {:induction false} EndsAppend(segments: seq<Segment>, last: Segment)
    requires AllLive(segments) && last.Live()
    ensures AllLive(segments + [last])
    ensures forall n | n in SegmentEnds(segments + [last]) ::
              n == 0 || (n >= |last.Remaining()| && n - |last.Remaining()| in SegmentEnds(segments))
  {
    if segments == [] {
      assert segments + [last] == [last] && [last][1..] == [];
    } else {
      assert (segments + [last])[1..] == segments[1..] + [last];
      FlatSegmentsAppend(segments[1..], last);
      EndsAppend(segments[1..], last);
    }
  }

  lemma {:induction false} EmptyQueue(segments: seq<Segment>)
    requires AllLive(segments)
    ensures FlatSegments(segments) == [] <==> segments == []
    ensures segments != [] ==> segments[0].Live()
  {
    if segments != [] {
      assert segments[0] in segments;
    }
  }

  /** What is left of the queue behind some bytes of its front segment. */
  function Left(segments: seq<Segment>, take: nat): seq<Segment>
    requires segments != []
  {
    var front := segments[0];
    if front.offset + take == |front.bytes| then segments[1..]
    else [front.(offset := front.offset + take)] + segments[1..]
  }

  lemma {:induction false} FrontTaken(segments: seq<Segment>, take: nat)
    requires AllLive(segments) && segments != [] && segments[0].offset + take <= |segments[0].bytes|
    ensures AllLive(Left(segments, take))
    ensures var front := segments[0];
            FlatSegments(segments) == Stamp(front.bytes[front.offset..front.offset + take], front.arrived)
                                      + FlatSegments(Left(segments, take))
    ensures SegmentEnds(Left(segments, take)) <= SegmentEnds(segments)
    ensures forall n | n in SegmentEnds(segments) :: n <= |FlatSegments(Left(segments, take))|
    ensures segments[0].offset + take == |segments[0].bytes|
            ==> |FlatSegments(Left(segments, take))| in SegmentEnds(segments)
  {
    hide FlatSegments, SegmentEnds;
    if segments[0].offset + take == |segments[0].bytes| {
      WholeTaken(segments);
    } else {
      PartTaken(segments, take);
    }
  }

  lemma {:induction false} WholeTaken(segments: seq<Segment>)
    requires AllLive(segments) && segments != []
    ensures FlatSegments(segments) == segments[0].Remaining() + FlatSegments(segments[1..])
    ensures SegmentEnds(segments) == {|FlatSegments(segments[1..])|} + SegmentEnds(segments[1..])
    ensures forall n | n in SegmentEnds(segments[1..]) :: n < |FlatSegments(segments[1..])|
  {
    EndsBehind(segments[1..]);
  }

  lemma {:induction false} PartTaken(segments: seq<Segment>, take: nat)
    requires AllLive(segments) && segments != [] && segments[0].offset + take < |segments[0].bytes|
    ensures var left, front := Left(segments, take), segments[0];
            && AllLive(left) && SegmentEnds(left) == SegmentEnds(segments)
            && FlatSegments(segments) == Stamp(front.bytes[front.offset..front.offset + take], front.arrived)
                                         + FlatSegments(left)
            && forall n | n in SegmentEnds(left) :: n < |FlatSegments(left)|
  {
    hide FlatSegments, SegmentEnds, Stamp;
    var left, front := Left(segments, take), segments[0];
    assert front in segments && left[1..] == segments[1..];
    assert AllLive(left) by {
      assert forall s | s in segments[1..] :: s in segments;
    }
    WholeTaken(segments);
    WholeTaken(left);
    EndsBehind(left);
    hide AllLive;
    FrontSplit(front, take, FlatSegments(segments[1..]));
  }

  lemma {:induction false} FrontSplit(front: Segment, take: nat, later: seq<TimedByte>)
    requires front.offset + take < |front.bytes|
    ensures var rest := front.(offset := front.offset + take);
            front.Remaining() + later == Stamp(front.bytes[front.offset..front.offset + take], front.arrived)
                                         + (rest.Remaining() + later)
  {
    var rest := front.(offset := front.offset + take);
    var taken := Stamp(front.bytes[front.offset..front.offset + take], front.arrived);
    assert front.Remaining() == taken + rest.Remaining();
    assert (taken + rest.Remaining()) + later == taken + (rest.Remaining() + later);
  }

  class TimedBuffer {
    var segments: seq<Segment>
    var len: nat

    ghost predicate Valid()
      reads this
    {
      AllLive(segments) && len == |FlatSegments(segments)|
    }

    /** The flat stamped byte string this queue stands for. */
    ghost function Contents(): seq<TimedByte>
      requires Valid()
      reads this
    {
      FlatSegments(segments)
    }

    ghost function Ends(): set<nat>
      requires Valid()
      reads this
    {
      SegmentEnds(segments)
    }

    lemma EndsBehindContents()
      requires Valid()
      ensures forall n | n in Ends() :: n < |Contents()|
    {
      EndsBehind(segments);
    }

    constructor ()
      ensures Valid() && Contents() == [] && Ends() == {}
    {
      segments, len := [], 0;
    }

    method Push(bytes: bytes, arrived: Instant)
      requires Valid()
      modifies this
      ensures Valid() && Contents() == old(Contents()) + Stamp(bytes, arrived)
      ensures bytes == [] ==> Ends() == old(Ends())
      ensures forall n | n in Ends() :: n == 0 || (n >= |bytes| && n - |bytes| in old(Ends()))
    {
      hide SegmentEnds;
      if bytes != [] {
        len := len + |bytes|;
        var last := Segment(bytes, 0, arrived);
        EndsAppend(segments, last);
        FlatSegmentsAppend(segments, last);
        assert bytes[0..] == bytes;
        segments := segments + [last];
      }
    }

    method IsEmpty() returns (empty: bool)
      requires Valid()
      ensures empty <==> Contents() == []
    {
      empty := len == 0;
    }

    /** The search walks the segments in place; its answer depends on the flat bytes only. */
    method Find(needle: bytes) returns (r: Option<nat>)
      requires Valid()
      ensures r == Search(needle, Plain(Contents()))
      ensures RestartSafe(needle) ==> r == FirstIndex(Plain(Contents()), needle)
    {
      hide RestartSafe, FirstIndex, FlatSegments, SegmentEnds, Stamp, Plain;
      ghost var text := Plain(Contents());
      if RestartSafe(needle) {
        SearchIsLeftmost(needle, text);
      }
      if needle == [] {
        return Some(0);
      }
      var matched, position, index := 0, 0, 0;
      assert segments[0..] == segments;
      assert text[0..] == text;
      while index < |segments|
        invariant index <= |segments| && matched < |needle| && matched <= position <= |text|
        invariant Plain(FlatSegments(segments[index..])) == text[position..]
        invariant Scan(needle, text, position, matched) == Scan(needle, text, 0, 0)
      {
        var segment := segments[index];
        ghost var start := position;
        SegmentInText(segments[index..], text, start);
        assert segments[index..][1..] == segments[index + 1..];
        var i := segment.offset;
        while i < |segment.bytes|
          invariant segment.offset <= i <= |segment.bytes| && position == start + i - segment.offset
          invariant matched < |needle| && matched <= position <= |text|
          invariant Scan(needle, text, position, matched) == Scan(needle, text, 0, 0)
        {
          var byte := segment.bytes[i];
          assert text[position] == byte;
          if byte == needle[matched] {
            matched := matched + 1;
            if matched == |needle| {
              return Some(position + 1 - |needle|);
            }
          } else {
            matched := if byte == needle[0] then 1 else 0;
          }
          position := position + 1;
          i := i + 1;
        }
        index := index + 1;
      }
      EmptyQueue(segments[index..]);
      r := None;
    }

    method DrainBytes(count: nat) returns (r: Result<bytes, string>)
      requires Valid()
      modifies this
      ensures Valid()
      ensures r.Ok? <==> count <= old(|Contents()|)
      ensures r.Ok? ==> r.value == Plain(old(Contents())[..count]) && Contents() == old(Contents())[count..]
      ensures r.Ok? ==> Ends() <= old(Ends())
      ensures r.Err? ==> Contents() == old(Contents()) && Ends() == old(Ends())
    {
      hide SegmentEnds;
      if count > len {
        return Err("internal buffer underflow while draining bytes");
      }
      ghost var flat := Contents();
      var output: bytes := [];
      var missing := count;
      while missing > 0
        invariant Valid() && 0 <= missing <= count <= |flat|
        invariant Contents() == flat[count - missing..] && Ends() <= old(Ends())
        invariant output == Plain(flat[..count - missing])
      {
        ghost var done := count - missing;
        var segment := PopSegment(missing);
        var taken := segment.value;
        output := output + taken.bytes;
        missing := missing - |taken.bytes|;
        PlainConcat(flat[..done], Stamp(taken.bytes, taken.arrived));
        PlainStamp(taken.bytes, taken.arrived);
        assert flat[..count - missing] == flat[..done] + flat[done..][..|taken.bytes|];
      }
      r := Ok(output);
    }

    /** Takes the front segment, or its first `maximum` bytes if it is longer. */
    method PopSegment(maximum: nat) returns (r: Option<TimedBytes>)
      requires Valid()
      modifies this
      ensures Valid()
      ensures r.None? <==> old(Contents()) == []
      ensures r.None? ==> Contents() == []
      ensures r.Some? ==> |r.value.bytes| <= maximum && (maximum > 0 ==> r.value.bytes != [])
      ensures r.Some? ==> old(Contents()) == Stamp(r.value.bytes, r.value.arrived) + Contents()
      ensures r.Some? ==> Ends() <= old(Ends()) && forall n | n in old(Ends()) :: n <= |Contents()|
      ensures r.Some? ==> |r.value.bytes| == maximum || |Contents()| in old(Ends())
    {
      EmptyQueue(segments);
      hide FlatSegments, SegmentEnds, AllLive;
      if segments == [] {
        return None;
      }
      var front := segments[0];
      var available := |front.bytes| - front.offset;
      var take := if available < maximum then available else maximum;
      var bytes := front.bytes[front.offset..front.offset + take];
      FrontTaken(segments, take);
      len := len - take;
      if front.offset + take == |front.bytes| {
        segments := segments[1..];
      } else {
        segments := [front.(offset := front.offset + take)] + segments[1..];
      }
      r := Some(TimedBytes(bytes, front.arrived));
    }
  }
}
