/** Rebuilding a channel-major array from packets of positions: each packet is itself channel-major, and
    is copied channel by channel to its running position. */
module ChannelMajor {
  import opened Totals

  /** The flat index of a position of a channel when every channel has `width` positions. */
  function Index(channel: nat, position: nat, width: nat): nat {
    channel * width + position
  }

  lemma RowEnd(channel: nat, channels: nat, width: nat)
    requires channel < channels
    ensures Index(channel, width, width) == Index(channel + 1, 0, width) <= channels * width
  {
    assert (channel + 1) * width <= channels * width;
  }

  lemma {:induction false} IndexSplit(j: nat, channels: nat, width: nat) returns (c: nat, p: nat)
    requires j < channels * width
    ensures c < channels && p < width && j == Index(c, p, width)
  {
    if j >= (channels - 1) * width {
      c, p := channels - 1, j - (channels - 1) * width;
    } else {
      c, p := IndexSplit(j, channels - 1, width);
    }
  }

  /** Overwrites the elements from `start` on. */
  function Overwrite<T>(stream: seq<T>, start: nat, source: seq<T>): (r: seq<T>)
    requires start + |source| <= |stream|
    ensures |r| == |stream|
    ensures forall j | 0 <= j < |stream| ::
              r[j] == if start <= j < start + |source| then source[j - start] else stream[j]
  {
    stream[..start] + source + stream[start + |source|..]
  }

  /** The slices the copy takes all lie inside their arrays. */
  predicate CopyFits(packetLength: nat, packetPositions: nat, streamLength: nat, streamPositions: nat,
                     streamPosition: nat, channels: nat) {
    forall c: nat | c < channels :: RowFits(c, packetLength, packetPositions, streamLength, streamPositions,
                                            streamPosition)
  }

  predicate RowFits(channel: nat, packetLength: nat, packetPositions: nat, streamLength: nat, streamPositions: nat,
                    streamPosition: nat) {
    && Index(channel, packetPositions, packetPositions) <= packetLength
    && Index(channel, streamPosition, streamPositions) + packetPositions <= streamLength
  }

  function Row<T>(packet: seq<T>, channel: nat, width: nat): (r: seq<T>)
    requires Index(channel, width, width) <= |packet|
    ensures |r| == width
  {
    packet[Index(channel, 0, width)..Index(channel, width, width)]
  }

  function Copied<T>(packet: seq<T>, packetPositions: nat, stream: seq<T>, streamPositions: nat, streamPosition: nat,
                     channels: nat): (r: seq<T>)
    requires CopyFits(|packet|, packetPositions, |stream|, streamPositions, streamPosition, channels)
    ensures |r| == |stream|
  {
    if channels == 0 then stream
    else
      assert RowFits(channels - 1, |packet|, packetPositions, |stream|, streamPositions, streamPosition);
      var before := Copied(packet, packetPositions, stream, streamPositions, streamPosition, channels - 1);
      Overwrite(before, Index(channels - 1, streamPosition, streamPositions),
                Row(packet, channels - 1, packetPositions))
  }

  method CopyChannelMajorPacket<T>(packet: seq<T>, packetPositions: nat, stream: array<T>, streamPositions: nat,
                                   streamPosition: nat, channels: nat)
    requires CopyFits(|packet|, packetPositions, stream.Length, streamPositions, streamPosition, channels)
    modifies stream
    ensures stream[..] == Copied(packet, packetPositions, old(stream[..]), streamPositions, streamPosition, channels)
  {
    hide Index;
    ghost var before := stream[..];
    for channel := 0 to channels
      invariant stream[..] == Copied(packet, packetPositions, before, streamPositions, streamPosition, channel)
    {
      assert RowFits(channel, |packet|, packetPositions, stream.Length, streamPositions, streamPosition);
      var source := Row(packet, channel, packetPositions);
      var destinationStart := Index(channel, streamPosition, streamPositions);
      CopyFromSlice(stream, destinationStart, source);
    }
  }

  method CopyFromSlice<T>(stream: array<T>, start: nat, source: seq<T>)
    requires start + |source| <= stream.Length
    modifies stream
    ensures stream[..] == Overwrite(old(stream[..]), start, source)
  {
    for k := 0 to |source|
      invariant forall j | 0 <= j < stream.Length ::
                  stream[j] == if start <= j < start + k then source[j - start] else old(stream[j])
    {
      stream[start + k] := source[k];
    }
  }

  // ---- What one packet writes ----

  lemma ShapeFits(packetPositions: nat, streamPositions: nat, streamPosition: nat, channels: nat)
    requires streamPosition + packetPositions <= streamPositions
    ensures CopyFits(channels * packetPositions, packetPositions, channels * streamPositions, streamPositions,
                     streamPosition, channels)
  {
    forall c: nat | c < channels
      ensures RowFits(c, channels * packetPositions, packetPositions, channels * streamPositions, streamPositions,
                      streamPosition)
    {
      RowEnd(c, channels, packetPositions);
      RowEnd(c, channels, streamPositions);
    }
  }

  predicate Touched(channels: nat, from: nat, to: nat, c: nat, p: nat) {
    c < channels && from <= p < to
  }

  /** A packet writes exactly its own positions, in every channel, and nothing else. */
  lemma {:induction false} CopiedAt<T>(packet: seq<T>, n: nat, stream: seq<T>, width: nat, from: nat, channels: nat,
                                       c: nat, p: nat)
    requires CopyFits(|packet|, n, |stream|, width, from, channels)
    requires from + n <= width && p < width && Index(c, p, width) < |stream|
    ensures Touched(channels, from, from + n, c, p) ==> Index(c, p - from, n) < |packet|
    ensures Copied(packet, n, stream, width, from, channels)[Index(c, p, width)]
         == if Touched(channels, from, from + n, c, p) then packet[Index(c, p - from, n)]
           else stream[Index(c, p, width)]
  {
    hide Index, Overwrite, Row, CopyFits;
    if channels > 0 {
      var last := channels - 1;
      FewerFit(|packet|, n, |stream|, width, from, channels);
      CopiedAt(packet, n, stream, width, from, last, c, p);
      var before := Copied(packet, n, stream, width, from, last);
      RowWritten(packet, n, before, width, from, last, c, p);
    }
  }

  lemma FewerFit(packetLength: nat, packetPositions: nat, streamLength: nat, streamPositions: nat, streamPosition: nat,
                 channels: nat)
    requires channels > 0
             && CopyFits(packetLength, packetPositions, streamLength, streamPositions, streamPosition, channels)
    ensures CopyFits(packetLength, packetPositions, streamLength, streamPositions, streamPosition, channels - 1)
    ensures RowFits(channels - 1, packetLength, packetPositions, streamLength, streamPositions, streamPosition)
  {
  }

  /** What writing one row changes, seen from any other channel and position. */
  lemma RowWritten<T>(packet: seq<T>, n: nat, before: seq<T>, width: nat, from: nat, row: nat, c: nat, p: nat)
    requires RowFits(row, |packet|, n, |before|, width, from)
    requires from + n <= width && p < width && Index(c, p, width) < |before|
    ensures c == row && from <= p < from + n ==> Index(c, p - from, n) < |packet|
    ensures Overwrite(before, Index(row, from, width), Row(packet, row, n))[Index(c, p, width)]
         == if c == row && from <= p < from + n then packet[Index(c, p - from, n)] else before[Index(c, p, width)]
  {
    if c < row {
      RowEnd(c, row, width);
    } else if c > row {
      RowEnd(row, c, width);
    }
  }

  // ---- Packets of one whole array ----

  /** The positions `from <= p < from + n` of a channel-major array, as a channel-major packet. */
  function PacketOf<T>(whole: seq<T>, channels: nat, width: nat, from: nat, n: nat): (r: seq<T>)
    requires from + n <= width && channels * width <= |whole|
    ensures |r| == channels * n
  {
    if channels == 0 then []
    else
      RowEnd(channels - 1, channels, width);
      RowEnd(channels - 1, channels, n);
      PacketOf(whole, channels - 1, width, from, n)
          + whole[Index(channels - 1, from, width)..Index(channels - 1, from + n, width)]
  }

  lemma {:induction false} PacketAt<T>(whole: seq<T>, channels: nat, width: nat, from: nat, n: nat, c: nat, p: nat)
    requires from <= p < from + n <= width && c < channels && channels * width <= |whole|
    ensures Index(c, p, width) < |whole| && Index(c, p - from, n) < channels * n
    ensures PacketOf(whole, channels, width, from, n)[Index(c, p - from, n)] == whole[Index(c, p, width)]
  {
    RowEnd(c, channels, width);
    RowEnd(c, channels, n);
    if c < channels - 1 {
      RowEnd(channels - 1, channels, width);
      PacketAt(whole, channels - 1, width, from, n, c, p);
    }
  }

  /** Positions in front of `done` already hold what the whole array holds. */
  ghost predicate Agrees<T>(stream: seq<T>, whole: seq<T>, channels: nat, width: nat, done: nat)
    requires |stream| == |whole| == channels * width
  {
    forall c: nat, p: nat | c < channels && p < width && p < done && Index(c, p, width) < |whole| ::
      stream[Index(c, p, width)] == whole[Index(c, p, width)]
  }

  lemma AgreesWholly<T>(stream: seq<T>, whole: seq<T>, channels: nat, width: nat)
    requires |stream| == |whole| == channels * width && Agrees(stream, whole, channels, width, width)
    ensures stream == whole
  {
    forall j: nat | j < |whole|
      ensures stream[j] == whole[j]
    {
      var c, p := IndexSplit(j, channels, width);
    }
  }

  lemma CopyExtends<T>(whole: seq<T>, stream: seq<T>, channels: nat, width: nat, from: nat, n: nat)
    requires |stream| == |whole| == channels * width && from + n <= width
             && Agrees(stream, whole, channels, width, from)
    ensures CopyFits(channels * n, n, |stream|, width, from, channels)
    ensures Agrees(Copied(PacketOf(whole, channels, width, from, n), n, stream, width, from, channels), whole, channels,
                   width, from + n)
  {
    hide Copied, PacketOf, Index, CopyFits;
    ShapeFits(n, width, from, channels);
    forall c: nat, p: nat | c < channels && p < width && p < from + n && Index(c, p, width) < |whole|
      ensures Copied(PacketOf(whole, channels, width, from, n), n, stream, width, from, channels)[Index(c, p, width)]
              == whole[Index(c, p, width)]
    {
      CopyExtendsAt(whole, stream, channels, width, from, n, c, p);
    }
  }

  lemma CopyExtendsAt<T>(whole: seq<T>, stream: seq<T>, channels: nat, width: nat, from: nat, n: nat, c: nat, p: nat)
    requires |stream| == |whole| == channels * width && from + n <= width
             && Agrees(stream, whole, channels, width, from)
    requires CopyFits(channels * n, n, |stream|, width, from, channels)
    requires c < channels && p < width && p < from + n && Index(c, p, width) < |whole|
    ensures Copied(PacketOf(whole, channels, width, from, n), n, stream, width, from, channels)[Index(c, p, width)]
            == whole[Index(c, p, width)]
  {
    hide Copied, PacketOf, Index, CopyFits;
    CopiedAt(PacketOf(whole, channels, width, from, n), n, stream, width, from, channels, c, p);
    if from <= p {
      PacketAt(whole, channels, width, from, n, c, p);
    }
  }

  predicate PacketIs<T(==)>(packet: seq<T>, whole: seq<T>, channels: nat, width: nat, from: nat, n: nat) {
    from + n <= width && channels * width <= |whole| && packet == PacketOf(whole, channels, width, from, n)
  }

  /** Copying the packets of any split to their running positions rebuilds the whole array, whatever the
      array held before. */
  method Reassemble<T(==)>(packets: seq<seq<T>>, counts: seq<nat>, stream: array<T>, width: nat, channels: nat,
                      ghost whole: seq<T>)
    requires |packets| == |counts| && Total(counts) == width && stream.Length == |whole| == channels * width
    requires forall k | 0 <= k < |packets| :: PacketIs(packets[k], whole, channels, width, Total(counts[..k]),
                                                       counts[k])
    modifies stream
    ensures stream[..] == whole
  {
    hide Index, Copied, PacketOf, CopyFits, Agrees, Total;
    var position: nat := 0;
    StartSum(counts);
    NothingYet(stream[..], whole, channels, width);
    for k := 0 to |packets|
      invariant position == Total(counts[..k]) <= width
      invariant Agrees(stream[..], whole, channels, width, position)
    {
      TotalNext(counts, k);
      TotalGrows(counts, k + 1);
      CopyExtends(whole, stream[..], channels, width, position, counts[k]);
      assert PacketIs(packets[k], whole, channels, width, position, counts[k]);
      CopyChannelMajorPacket(packets[k], counts[k], stream, width, position, channels);
      position := position + counts[k];
    }
    assert counts[..|packets|] == counts;
    AgreesWholly(stream[..], whole, channels, width);
  }

  lemma StartSum(counts: seq<nat>)
    ensures Total(counts[..0]) == 0
  {
  }

  lemma NothingYet<T>(stream: seq<T>, whole: seq<T>, channels: nat, width: nat)
    requires |stream| == |whole| == channels * width
    ensures Agrees(stream, whole, channels, width, 0)
  {
  }
}
