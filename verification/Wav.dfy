/** WAV files: what the recorder writes and what the client accepts. A RIFF file is a header and a list of
    chunks laid end to end, each padded to an even length; the walker recovers exactly that list. */
module Wav {
  import opened Bytes
  import opened LittleEndian

  type Sample = s: int | -0x8000 <= s < 0x8000

  // The four-character codes RIFF, WAVE, "fmt " and data.
  const RIFF: bytes := [82, 73, 70, 70]
  const WAVE: bytes := [87, 65, 86, 69]
  const FMT: bytes := [102, 109, 116, 32]
  const DATA: bytes := [100, 97, 116, 97]

  const SAMPLE_RATE: u32 := 24000

  /** A chunk; `pad` is the byte that follows a payload of odd length, and means nothing. */
  datatype RiffChunk = RiffChunk(id: bytes, payload: bytes, pad: byte)

  predicate WellFormed(c: RiffChunk) {
    |c.id| == 4 && |c.payload| < 0x1_0000_0000 && (|c.payload| % 2 == 0 ==> c.pad == 0)
  }

  predicate AllWellFormed(chunks: seq<RiffChunk>) {
    forall i | 0 <= i < |chunks| :: WellFormed(chunks[i])
  }

  function Padding(c: RiffChunk): bytes { if |c.payload| % 2 == 0 then [] else [c.pad] }

  function Encode(c: RiffChunk): (r: bytes)
    requires WellFormed(c)
    ensures |r| == 8 + |c.payload| + |c.payload| % 2
  {
    c.id + Le32(|c.payload|) + c.payload + Padding(c)
  }

  function EncodeAll(chunks: seq<RiffChunk>): bytes
    requires AllWellFormed(chunks)
  {
    if chunks == [] then [] else Encode(chunks[0]) + EncodeAll(chunks[1..])
  }

  lemma {:induction false} EncodeAllConcat(a: seq<RiffChunk>, b: seq<RiffChunk>)
    requires AllWellFormed(a) && AllWellFormed(b)
    ensures AllWellFormed(a + b) && EncodeAll(a + b) == EncodeAll(a) + EncodeAll(b)
  {
    hide Encode, WellFormed;
    if a == [] {
      assert a + b == b;
    } else {
      assert (a + b)[0] == a[0] && (a + b)[1..] == a[1..] + b;
      EncodeAllConcat(a[1..], b);
      assert Encode(a[0]) + (EncodeAll(a[1..]) + EncodeAll(b)) == (Encode(a[0]) + EncodeAll(a[1..])) + EncodeAll(b);
    }
  }

  // ---- Taking files apart ----

  /** The chunk at the front of `s`, if a whole one is there. */
  function FirstChunk(s: bytes): Option<RiffChunk> {
    if |s| < 8 then None
    else
      var size: int := Read32(s, 4);
      if |s| < 8 + size + size % 2 then None
      else Some(RiffChunk(s[..4], s[8..8 + size], if size % 2 == 0 then 0 else s[8 + size]))
  }

  lemma FirstChunkEncodes(s: bytes)
    requires FirstChunk(s).Some?
    ensures var c := FirstChunk(s).value; WellFormed(c) && Encode(c) <= s
  {
    var size: int, c := Read32(s, 4), FirstChunk(s).value;
    Read32Writes(s, 4);
    assert Le32(|c.payload|) == s[4..8];
    assert c.id + Le32(|c.payload|) == s[..8];
    assert s[..8] + c.payload == s[..8 + size];
    if size % 2 == 0 {
      assert Encode(c) == s[..8 + size];
    } else {
      assert Encode(c) == s[..9 + size];
    }
  }

  lemma EncodedIsFirst(c: RiffChunk, rest: bytes)
    requires WellFormed(c)
    ensures FirstChunk(Encode(c) + rest) == Some(c) && (Encode(c) + rest)[|Encode(c)|..] == rest
  {
    var s := Encode(c) + rest;
    assert s[4..8] == Le32(|c.payload|);
    Le32Reads(|c.payload|, s, 4);
    assert s[..4] == c.id && s[8..8 + |c.payload|] == c.payload;
  }

  /** The chunks that make up `s`, if nothing is left over. */
  function Walk(s: bytes): Option<seq<RiffChunk>> {
    if s == [] then Some([])
    else match FirstChunk(s)
      case None => None
      case Some(c) =>
        FirstChunkEncodes(s);
        match Walk(s[|Encode(c)|..])
        case None => None
        case Some(rest) => Some([c] + rest)
  }

  /** The chunks that are found tile the bytes. */
  lemma {:induction false} WalkTiles(s: bytes)
    requires Walk(s).Some?
    ensures AllWellFormed(Walk(s).value) && EncodeAll(Walk(s).value) == s
    decreases |s|
  {
    hide FirstChunk, Encode, WellFormed;
    if s != [] {
      var c := FirstChunk(s).value;
      FirstChunkEncodes(s);
      var rest := s[|Encode(c)|..];
      WalkTiles(rest);
      assert Walk(s).value == [c] + Walk(rest).value;
      assert Walk(s).value[1..] == Walk(rest).value;
      assert s == Encode(c) + rest;
    }
  }

  /** Every list of chunks is found again, so it is the only one that tiles the bytes. */
  lemma {:induction false} WalkFinds(chunks: seq<RiffChunk>)
    requires AllWellFormed(chunks)
    ensures Walk(EncodeAll(chunks)) == Some(chunks)
  {
    hide FirstChunk, Encode, WellFormed;
    if chunks != [] {
      var c, rest, s := chunks[0], EncodeAll(chunks[1..]), EncodeAll(chunks);
      WalkFinds(chunks[1..]);
      EncodedIsFirst(c, rest);
      assert s == Encode(c) + rest && s != [];
      assert Walk(s) == Some([c] + chunks[1..]);
      assert [c] + chunks[1..] == chunks;
    }
  }

  // ---- What a client accepts ----

  predicate FormatOk(payload: bytes) {
    && |payload| >= 16
    && Read16(payload, 0) == 1 && Read16(payload, 2) == 1
    && Read32(payload, 4) == SAMPLE_RATE && Read32(payload, 8) == 2 * SAMPLE_RATE
    && Read16(payload, 12) == 2 && Read16(payload, 14) == 16
  }

  predicate DataOk(payload: bytes) { payload != [] && |payload| % 2 == 0 }

  predicate ChunkOk(c: RiffChunk) {
    (c.id == FMT ==> FormatOk(c.payload)) && (c.id == DATA ==> DataOk(c.payload))
  }

  function Count(chunks: seq<RiffChunk>, id: bytes): nat {
    if chunks == [] then 0 else Count(chunks[..|chunks| - 1], id) + if chunks[|chunks| - 1].id == id then 1 else 0
  }

  /** One format chunk that says 16-bit mono at 24 kHz, one data chunk of whole samples, and anything else. */
  predicate Playable(chunks: seq<RiffChunk>) {
    Count(chunks, FMT) == 1 && Count(chunks, DATA) == 1 && forall i | 0 <= i < |chunks| :: ChunkOk(chunks[i])
  }

  function RiffFile(chunks: seq<RiffChunk>): bytes
    requires AllWellFormed(chunks) && |EncodeAll(chunks)| + 4 < 0x1_0000_0000
  {
    RIFF + Le32(|EncodeAll(chunks)| + 4) + WAVE + EncodeAll(chunks)
  }

  predicate IsRiffFile(file: bytes, chunks: seq<RiffChunk>) {
    AllWellFormed(chunks) && |EncodeAll(chunks)| + 4 < 0x1_0000_0000 && file == RiffFile(chunks)
  }

  datatype WavInfo = WavInfo(sampleCount: nat, dataOffset: nat, dataBytes: nat)

  datatype WavError = NotRiff | SizeMismatch | TruncatedHeader | ChunkTooLong | DuplicateChunk | BadFormat | BadData
                    | MissingPadding | NoFormat | NoData

  /** The report points at the payload of the data chunk. */
  ghost predicate InfoOf(info: WavInfo, file: bytes, chunks: seq<RiffChunk>) {
    exists i: nat :: DataAt(chunks, i) && info.dataOffset == PayloadOffset(chunks, i)
                && info.dataBytes == |chunks[i].payload| == 2 * info.sampleCount
                && PayloadIn(file, info.dataOffset, chunks[i].payload)
  }

  predicate PayloadIn(file: bytes, at: nat, payload: bytes) {
    at + |payload| <= |file| && file[at..at + |payload|] == payload
  }

  predicate DataAt(chunks: seq<RiffChunk>, i: nat) {
    i < |chunks| && chunks[i].id == DATA && AllWellFormed(chunks)
  }

  /** Where the payload of chunk `i` begins in the file. */
  function PayloadOffset(chunks: seq<RiffChunk>, i: nat): nat
    requires i < |chunks| && AllWellFormed(chunks)
  {
    12 + |EncodeAll(chunks[..i])| + 8
  }

  lemma PayloadThere(file: bytes, chunks: seq<RiffChunk>, i: nat)
    requires IsRiffFile(file, chunks) && i < |chunks|
    ensures PayloadIn(file, PayloadOffset(chunks, i), chunks[i].payload)
  {
    var front, c, back := chunks[..i], chunks[i], chunks[i + 1..];
    SplitAt(chunks, i);
    hide EncodeAll;
    var start := RIFF + Le32(|EncodeAll(chunks)| + 4) + WAVE;
    var head, tail := c.id + Le32(|c.payload|), Padding(c) + EncodeAll(back);
    assert Encode(c) == head + c.payload + Padding(c);
    Regroup(start, EncodeAll(front), head, c.payload, Padding(c), EncodeAll(back));
    InTheMiddle(start + EncodeAll(front) + head, c.payload, tail);
  }

  lemma Regroup(a: bytes, b: bytes, c: bytes, d: bytes, e: bytes, f: bytes)
    ensures a + (b + ((c + d + e) + f)) == (a + b + c) + d + (e + f)
  {
  }

  lemma InTheMiddle(a: bytes, b: bytes, c: bytes)
    ensures PayloadIn(a + b + c, |a|, b)
  {
  }

  lemma SplitAt(chunks: seq<RiffChunk>, i: nat)
    requires AllWellFormed(chunks) && i < |chunks|
    ensures EncodeAll(chunks) == EncodeAll(chunks[..i]) + (Encode(chunks[i]) + EncodeAll(chunks[i + 1..]))
  {
    hide Encode, WellFormed;
    var rest := chunks[i..];
    assert chunks == chunks[..i] + rest && rest[0] == chunks[i] && rest[1..] == chunks[i + 1..];
    EncodeAllConcat(chunks[..i], rest);
  }

  // ---- Walking ----

  /** Nothing so far speaks against the file. */
  predicate Tolerable(chunks: seq<RiffChunk>) {
    Count(chunks, FMT) <= 1 && Count(chunks, DATA) <= 1 && forall i | 0 <= i < |chunks| :: ChunkOk(chunks[i])
  }

  lemma {:induction false} CountGrows(chunks: seq<RiffChunk>, id: bytes, n: nat)
    requires n <= |chunks|
    ensures Count(chunks[..n], id) <= Count(chunks, id)
    decreases |chunks| - n
  {
    if n == |chunks| {
      assert chunks[..n] == chunks;
    } else {
      var front := chunks[..|chunks| - 1];
      assert front[..n] == chunks[..n];
      CountGrowsFront(chunks, id, n);
    }
  }

  lemma {:induction false} CountGrowsFront(chunks: seq<RiffChunk>, id: bytes, n: nat)
    requires n < |chunks|
    ensures Count(chunks[..n], id) <= Count(chunks, id)
    decreases |chunks|
  {
    var front := chunks[..|chunks| - 1];
    if n < |front| {
      CountGrowsFront(front, id, n);
      assert front[..n] == chunks[..n];
    } else {
      assert front == chunks[..n];
    }
  }

  lemma {:induction false} CountZero(chunks: seq<RiffChunk>, id: bytes)
    ensures Count(chunks, id) == 0 <==> forall i | 0 <= i < |chunks| :: chunks[i].id != id
  {
    if chunks != [] {
      CountZero(chunks[..|chunks| - 1], id);
    }
  }

  lemma CountNext(chunks: seq<RiffChunk>, c: RiffChunk, id: bytes)
    ensures Count(chunks + [c], id) == Count(chunks, id) + if c.id == id then 1 else 0
  {
    assert (chunks + [c])[..|chunks|] == chunks;
  }

  lemma TolerableNext(chunks: seq<RiffChunk>, c: RiffChunk)
    requires Tolerable(chunks)
    ensures Tolerable(chunks + [c]) <==> && ChunkOk(c) && (c.id == FMT ==> Count(chunks, FMT) == 0)
                                         && (c.id == DATA ==> Count(chunks, DATA) == 0)
  {
    hide ChunkOk;
    CountNext(chunks, c, FMT);
    CountNext(chunks, c, DATA);
    if Tolerable(chunks + [c]) {
      assert (chunks + [c])[|chunks|] == c;
    }
  }

  lemma TolerablePrefix(chunks: seq<RiffChunk>, n: nat)
    requires n <= |chunks| && Tolerable(chunks)
    ensures Tolerable(chunks[..n])
  {
    CountGrows(chunks, FMT, n);
    CountGrows(chunks, DATA, n);
  }

  lemma SameFirst(a: RiffChunk, restA: bytes, b: RiffChunk, restB: bytes)
    requires WellFormed(a) && WellFormed(b) && Encode(a) + restA == Encode(b) + restB
    ensures a == b && restA == restB
  {
    hide Encode, FirstChunk;
    EncodedIsFirst(a, restA);
    EncodedIsFirst(b, restB);
  }

  /** Two tilings of the same bytes agree as far as one of them goes. */
  lemma {:induction false} SamePrefix(all: seq<RiffChunk>, front: seq<RiffChunk>, rest: bytes)
    requires AllWellFormed(all) && AllWellFormed(front) && EncodeAll(all) == EncodeAll(front) + rest
    ensures front <= all && rest == EncodeAll(all[|front|..])
  {
    hide Encode, WellFormed;
    if front == [] {
      assert all[0..] == all;
    } else {
      assert all != [];
      SameFirst(front[0], EncodeAll(front[1..]) + rest, all[0], EncodeAll(all[1..])) by {
        assert Encode(front[0]) + (EncodeAll(front[1..]) + rest) == EncodeAll(all);
      }
      SamePrefix(all[1..], front[1..], rest);
      assert all[1..][|front| - 1..] == all[|front|..];
      assert front == [front[0]] + front[1..] && all == [all[0]] + all[1..];
    }
  }

  ghost predicate Refused(file: bytes) {
    forall chunks :: IsRiffFile(file, chunks) ==> !Playable(chunks)
  }

  /** A file is refused once the walk finds no chunk, or one that cannot be tolerated. */
  lemma WalkStops(file: bytes, seen: seq<RiffChunk>, cursor: nat)
    requires 12 <= cursor < |file| && AllWellFormed(seen) && EncodeAll(seen) == file[12..cursor]
    requires FirstChunk(file[cursor..]).Some? ==> !Tolerable(seen + [FirstChunk(file[cursor..]).value])
    ensures Refused(file)
  {
    hide Encode, EncodeAll, WellFormed, FirstChunk, Tolerable, Count, ChunkOk;
    forall chunks | IsRiffFile(file, chunks)
      ensures !Playable(chunks)
    {
      assert file[12..] == EncodeAll(chunks);
      assert file[12..] == file[12..cursor] + file[cursor..];
      SamePrefix(chunks, seen, file[cursor..]);
      NextIsFirst(chunks, |seen|, file[cursor..]);
      NextPrefix(chunks, seen);
      if Playable(chunks) {
        PlayableIsTolerable(chunks);
        TolerablePrefix(chunks, |seen| + 1);
      }
    }
  }

  lemma NextPrefix(chunks: seq<RiffChunk>, seen: seq<RiffChunk>)
    requires seen <= chunks && |seen| < |chunks|
    ensures chunks[..|seen| + 1] == seen + [chunks[|seen|]]
  {
  }

  lemma PlayableIsTolerable(chunks: seq<RiffChunk>)
    requires Playable(chunks)
    ensures Tolerable(chunks)
  {
  }

  lemma NextIsFirst(chunks: seq<RiffChunk>, n: nat, rest: bytes)
    requires AllWellFormed(chunks) && n <= |chunks| && rest == EncodeAll(chunks[n..]) && rest != []
    ensures n < |chunks| && FirstChunk(rest) == Some(chunks[n])
  {
    hide Encode, WellFormed, FirstChunk;
    assert EncodeAll([]) == [];
    EncodedIsFirst(chunks[n], EncodeAll(chunks[n..][1..]));
  }

  /** Chunks that already tile the whole file are all there are. */
  lemma WalkEnds(file: bytes, seen: seq<RiffChunk>)
    requires |file| >= 12 && AllWellFormed(seen) && EncodeAll(seen) == file[12..] && !Playable(seen)
    ensures Refused(file)
  {
    hide Playable, WellFormed;
    forall chunks | IsRiffFile(file, chunks)
      ensures !Playable(chunks)
    {
      assert file[12..] == EncodeAll(chunks);
      WalkFinds(chunks);
      WalkFinds(seen);
    }
  }

  predicate RiffHeaded(file: bytes) {
    |file| >= 12 && file[..4] == RIFF && file[8..12] == WAVE && Read32(file, 4) as int + 8 == |file|
  }

  lemma RiffFileIsHeaded(file: bytes, chunks: seq<RiffChunk>)
    requires IsRiffFile(file, chunks)
    ensures RiffHeaded(file)
  {
    assert file[..4] == RIFF && file[8..12] == WAVE && file[4..8] == Le32(|EncodeAll(chunks)| + 4);
    Le32Reads(|EncodeAll(chunks)| + 4, file, 4);
  }

  lemma HeadedIsRiffFile(file: bytes, chunks: seq<RiffChunk>)
    requires RiffHeaded(file) && AllWellFormed(chunks) && EncodeAll(chunks) == file[12..]
    ensures IsRiffFile(file, chunks)
  {
    hide EncodeAll;
    Read32Writes(file, 4);
    assert file == file[..4] + file[4..8] + file[8..12] + file[12..];
  }

  lemma NotRiffRefused(file: bytes)
    requires !RiffHeaded(file)
    ensures Refused(file)
  {
    hide RiffHeaded;
    forall chunks
      ensures !IsRiffFile(file, chunks)
    {
      if IsRiffFile(file, chunks) {
        RiffFileIsHeaded(file, chunks);
      }
    }
  }

  /** Where the walk stands: the chunks in front of the cursor, and what was noted about them. */
  ghost predicate Walked(file: bytes, seen: seq<RiffChunk>, cursor: nat, formatSeen: bool, data: Option<(nat, nat)>) {
    && 12 <= cursor <= |file| && AllWellFormed(seen) && EncodeAll(seen) == file[12..cursor] && Tolerable(seen)
    && Count(seen, FMT) == (if formatSeen then 1 else 0)
    && Count(seen, DATA) == (if data.Some? then 1 else 0)
    && (data.Some? ==> DataNoted(seen, data.value))
  }

  ghost predicate DataNoted(seen: seq<RiffChunk>, data: (nat, nat)) {
    exists i: nat :: DataAt(seen, i) && data == (PayloadOffset(seen, i), |seen[i].payload|) && DataOk(seen[i].payload)
  }

  lemma WalkedNext(file: bytes, seen: seq<RiffChunk>, cursor: nat, formatSeen: bool, data: Option<(nat, nat)>)
    requires Walked(file, seen, cursor, formatSeen, data) && FirstChunk(file[cursor..]).Some?
    requires var c := FirstChunk(file[cursor..]).value;
             ChunkOk(c) && (c.id == FMT ==> !formatSeen) && (c.id == DATA ==> data.None?)
    ensures var c := FirstChunk(file[cursor..]).value;
            Walked(file, seen + [c], cursor + 8 + |c.payload| + |c.payload| % 2, formatSeen || c.id == FMT,
                   if c.id == DATA then Some((cursor + 8, |c.payload|)) else data)
  {
    hide Encode, EncodeAll, FirstChunk, Tolerable, ChunkOk, DataNoted;
    var c := FirstChunk(file[cursor..]).value;
    var more := seen + [c];
    FirstChunkEncodes(file[cursor..]);
    TolerableNext(seen, c);
    CountNext(seen, c, FMT);
    CountNext(seen, c, DATA);
    EncodeAllConcat(seen, [c]);
    EncodeOne(c);
    assert file[12..cursor] + Encode(c) == file[12..cursor + |Encode(c)|];
    if c.id == DATA {
      NotedNow(seen, c);
    } else if data.Some? {
      NotedBefore(seen, c, data.value);
    }
  }

  lemma EncodeOne(c: RiffChunk)
    requires WellFormed(c)
    ensures EncodeAll([c]) == Encode(c)
  {
    assert [c][1..] == [] && Encode(c) + [] == Encode(c);
  }

  lemma NotedNow(seen: seq<RiffChunk>, c: RiffChunk)
    requires AllWellFormed(seen) && WellFormed(c) && ChunkOk(c) && c.id == DATA
    ensures DataNoted(seen + [c], (12 + |EncodeAll(seen)| + 8, |c.payload|))
  {
    hide EncodeAll, WellFormed;
    var more := seen + [c];
    assert more[..|seen|] == seen && more[|seen|] == c;
    assert DataAt(more, |seen|);
  }

  lemma NotedBefore(seen: seq<RiffChunk>, c: RiffChunk, data: (nat, nat))
    requires WellFormed(c) && DataNoted(seen, data)
    ensures DataNoted(seen + [c], data)
  {
    hide EncodeAll, WellFormed, DataOk;
    var more := seen + [c];
    var i: nat :| DataAt(seen, i) && data == (PayloadOffset(seen, i), |seen[i].payload|) && DataOk(seen[i].payload);
    assert more[..i] == seen[..i] && more[i] == seen[i];
    assert DataAt(more, i);
  }

  /** Accepts exactly the RIFF files whose chunks are playable, and points at the samples. */
  method ValidateWav(file: bytes) returns (r: Result<WavInfo, WavError>, ghost chunks: seq<RiffChunk>)
    ensures r.Ok? ==> IsRiffFile(file, chunks) && Playable(chunks) && InfoOf(r.value, file, chunks)
    ensures r.Err? ==> Refused(file)
  {
    hide Encode, EncodeAll, FirstChunk, FormatOk, Tolerable, ChunkOk, Walked, Refused, DataNoted, AllWellFormed;
    hide Playable, InfoOf, IsRiffFile;
    chunks := [];
    if |file| < 12 || file[..4] != RIFF || file[8..12] != WAVE {
      NotHeaded(file);
      return Err(NotRiff), [];
    }
    if Read32(file, 4) as int + 8 != |file| {
      NotHeaded(file);
      return Err(SizeMismatch), [];
    }
    var cursor := 12;
    var formatSeen := false;
    var data: Option<(nat, nat)> := None;
    WalkStarts(file);
    while cursor < |file|
      invariant Walked(file, chunks, cursor, formatSeen, data) && 12 <= cursor <= |file|
    {
      ghost var rest, seen, noted := file[cursor..], chunks, (formatSeen, data);
      Stops(file, chunks, cursor, formatSeen, data);
      if |file| - cursor < 8 {
        return Err(TruncatedHeader), [];
      }
      var id := file[cursor..cursor + 4];
      var size: nat := Read32(file, cursor + 4);
      var payloadStart := cursor + 8;
      var payloadEnd := payloadStart + size;
      if payloadEnd > |file| {
        return Err(ChunkTooLong), [];
      }
      var payload := file[payloadStart..payloadEnd];
      if id == FMT {
        if formatSeen {
          return Err(DuplicateChunk), [];
        }
        if !FormatOk(payload) {
          return Err(BadFormat), [];
        }
        formatSeen := true;
      } else if id == DATA {
        if data.Some? {
          return Err(DuplicateChunk), [];
        }
        if size == 0 || size % 2 != 0 {
          return Err(BadData), [];
        }
        data := Some((payloadStart, size));
      }
      if payloadEnd + size % 2 > |file| {
        return Err(MissingPadding), [];
      }
      Continues(file, seen, cursor, noted.0, noted.1);
      chunks := chunks + [FirstChunk(rest).value];
      cursor := payloadEnd + size % 2;
    }
    Ends(file, chunks, formatSeen, data);
    if !formatSeen {
      return Err(NoFormat), [];
    }
    if data.None? {
      return Err(NoData), [];
    }
    r := Ok(WavInfo(data.value.1 / 2, data.value.0, data.value.1));
  }

  lemma NotHeaded(file: bytes)
    requires |file| < 12 || file[..4] != RIFF || file[8..12] != WAVE || Read32(file, 4) as int + 8 != |file|
    ensures Refused(file)
  {
    hide Refused;
    NotRiffRefused(file);
  }

  function SizeAt(file: bytes, cursor: nat): nat
    requires cursor + 8 <= |file|
  {
    Read32(file, cursor + 4)
  }

  /** The chunk at the cursor in terms of the file. */
  lemma ChunkAtCursor(file: bytes, cursor: nat)
    requires cursor < |file|
    ensures FirstChunk(file[cursor..]).Some? <==> && cursor + 8 <= |file|
                                                  && cursor + 8 + SizeAt(file, cursor)
                                                      + SizeAt(file, cursor) % 2 <= |file|
    ensures FirstChunk(file[cursor..]).Some? ==>
              var c, size := FirstChunk(file[cursor..]).value, SizeAt(file, cursor);
              c.id == file[cursor..cursor + 4] && c.payload == file[cursor + 8..cursor + 8 + size]
                && |c.payload| == size
  {
    var s := file[cursor..];
    if cursor + 8 <= |file| {
      var size := SizeAt(file, cursor);
      assert Read32(s, 4) == Read32(file, cursor + 4);
      assert s[..4] == file[cursor..cursor + 4];
      if cursor + 8 + size <= |file| {
        assert s[8..8 + size] == file[cursor + 8..cursor + 8 + size];
      }
    }
  }

  /** The chunk at the cursor has to be refused, going by its id and payload. */
  predicate Unwelcome(id: bytes, payload: bytes, formatSeen: bool, dataSeen: bool) {
    (id == FMT && (formatSeen || !FormatOk(payload))) || (id == DATA && (dataSeen || !DataOk(payload)))
  }

  lemma Stops(file: bytes, seen: seq<RiffChunk>, cursor: nat, formatSeen: bool, data: Option<(nat, nat)>)
    requires Walked(file, seen, cursor, formatSeen, data) && cursor < |file|
    ensures cursor + 8 > |file| ==> Refused(file)
    ensures cursor + 8 <= |file| ==>
              var size := SizeAt(file, cursor);
              && (cursor + 8 + size + size % 2 > |file| ==> Refused(file))
              && (cursor + 8 + size <= |file| ==>
                    && (Unwelcome(file[cursor..cursor + 4], file[cursor + 8..cursor + 8 + size], formatSeen,
                                  data.Some?)
                       ==> Refused(file)))
  {
    hide Encode, EncodeAll, FirstChunk, Tolerable, DataNoted, Refused, FormatOk, SizeAt;
    ChunkAtCursor(file, cursor);
    if FirstChunk(file[cursor..]).None? {
      WalkStops(file, seen, cursor);
    } else {
      var c := FirstChunk(file[cursor..]).value;
      TolerableNext(seen, c);
      if Unwelcome(c.id, c.payload, formatSeen, data.Some?) {
        WalkStops(file, seen, cursor);
      }
    }
  }

  lemma Continues(file: bytes, seen: seq<RiffChunk>, cursor: nat, formatSeen: bool, data: Option<(nat, nat)>)
    requires Walked(file, seen, cursor, formatSeen, data) && cursor + 8 <= |file|
    requires var size := SizeAt(file, cursor);
             && cursor + 8 + size + size % 2 <= |file|
             && !Unwelcome(file[cursor..cursor + 4], file[cursor + 8..cursor + 8 + size], formatSeen, data.Some?)
    ensures var size, id := SizeAt(file, cursor), file[cursor..cursor + 4];
            && FirstChunk(file[cursor..]).Some?
            && Walked(file, seen + [FirstChunk(file[cursor..]).value], cursor + 8 + size + size % 2,
                      formatSeen || id == FMT,
                      if id == DATA then Some((cursor + 8, size)) else data)
  {
    hide Encode, EncodeAll, FirstChunk, Tolerable, DataNoted, FormatOk, SizeAt, Walked;
    ChunkAtCursor(file, cursor);
    WalkedNext(file, seen, cursor, formatSeen, data);
  }

  lemma Ends(file: bytes, seen: seq<RiffChunk>, formatSeen: bool, data: Option<(nat, nat)>)
    requires RiffHeaded(file) && Walked(file, seen, |file|, formatSeen, data)
    ensures IsRiffFile(file, seen)
    ensures !formatSeen || data.None? ==> Refused(file)
    ensures formatSeen && data.Some?
            ==> Playable(seen) && InfoOf(WavInfo(data.value.1 / 2, data.value.0, data.value.1), file, seen)
  {
    hide EncodeAll, ChunkOk, Refused, RiffHeaded, PayloadOffset;
    assert |file| >= 12 by {
      HeadedLength(file);
    }
    assert file[12..|file|] == file[12..];
    HeadedIsRiffFile(file, seen);
    if formatSeen && data.Some? {
      var i: nat :|
                   DataAt(seen, i) && data.value == (PayloadOffset(seen, i), |seen[i].payload|)
                     && DataOk(seen[i].payload);
      PayloadThere(file, seen, i);
    } else {
      WalkEnds(file, seen);
    }
  }

  lemma HeadedLength(file: bytes)
    requires RiffHeaded(file)
    ensures |file| >= 12
  {
  }

  lemma WalkStarts(file: bytes)
    requires |file| >= 12
    ensures Walked(file, [], 12, false, None)
  {
  }

  // ---- Writing ----

  function SampleWord(s: Sample): u16 { if s < 0 then s + 0x1_0000 else s }

  function WordSample(w: u16): Sample { if w >= 0x8000 then w - 0x1_0000 else w }

  function EncodePcm(samples: seq<Sample>): (r: bytes)
    ensures |r| == 2 * |samples|
  {
    if samples == [] then [] else EncodePcm(samples[..|samples| - 1]) + Le16(SampleWord(samples[|samples| - 1]))
  }

  function DecodePcm(payload: bytes): (r: seq<Sample>)
    ensures |r| == |payload| / 2
  {
    seq(|payload| / 2, i requires 0 <= i < |payload| / 2 => WordSample(Read16(payload, 2 * i)))
  }

  lemma {:induction false} EncodedSample(samples: seq<Sample>, i: nat)
    requires i < |samples|
    ensures EncodePcm(samples)[2 * i..2 * i + 2] == Le16(SampleWord(samples[i]))
  {
    hide Le16, SampleWord;
    var front := samples[..|samples| - 1];
    if i < |front| {
      EncodedSample(front, i);
      assert EncodePcm(samples)[2 * i..2 * i + 2] == EncodePcm(front)[2 * i..2 * i + 2];
    }
  }

  /** Samples read back from their bytes are the samples that were written. */
  lemma PcmRoundTrip(samples: seq<Sample>)
    ensures DecodePcm(EncodePcm(samples)) == samples
  {
    hide EncodePcm, Le16, Read16;
    forall i | 0 <= i < |samples|
      ensures DecodePcm(EncodePcm(samples))[i] == samples[i]
    {
      EncodedSample(samples, i);
      Le16Reads(SampleWord(samples[i]), EncodePcm(samples), 2 * i);
    }
  }

  function FormatPayload(sampleRate: u32): (r: bytes)
    ensures |r| == 16
  {
    Le16(1) + Le16(1) + Le32(sampleRate) + Le32(sampleRate * 2 % 0x1_0000_0000) + Le16(2) + Le16(16)
  }

  function Recording(sampleRate: u32, samples: seq<Sample>): seq<RiffChunk> {
    [FormatChunk(sampleRate), DataChunk(samples)]
  }

  datatype WriteError = PayloadTooLong | RiffTooLong | ZeroRate

  predicate Recordable(samples: seq<Sample>) { 36 + 2 * |samples| < 0x1_0000_0000 }

  function FormatChunk(sampleRate: u32): RiffChunk { RiffChunk(FMT, FormatPayload(sampleRate), 0) }

  function DataChunk(samples: seq<Sample>): RiffChunk { RiffChunk(DATA, EncodePcm(samples), 0) }

  lemma ChunksFit(sampleRate: u32, samples: seq<Sample>)
    requires Recordable(samples)
    ensures WellFormed(FormatChunk(sampleRate)) && WellFormed(DataChunk(samples))
    ensures |FormatChunk(sampleRate).payload| == 16 && |DataChunk(samples).payload| == 2 * |samples|
    ensures |DataChunk(samples).payload| % 2 == 0
  {
    hide FormatPayload, EncodePcm;
  }

  /** The two chunks, written one after the other. */
  function RecordingBody(sampleRate: u32, samples: seq<Sample>): bytes
    requires Recordable(samples)
  {
    FMT + Le32(16) + FormatPayload(sampleRate) + DATA + Le32(2 * |samples|) + EncodePcm(samples)
  }

  lemma RecordingBytes(sampleRate: u32, samples: seq<Sample>)
    requires Recordable(samples)
    ensures AllWellFormed(Recording(sampleRate, samples))
    ensures EncodeAll(Recording(sampleRate, samples)) == RecordingBody(sampleRate, samples)
  {
    hide FormatPayload, EncodePcm, EncodeAll, AllWellFormed, WellFormed, Le32;
    ChunksFit(sampleRate, samples);
    PairBytes(FormatChunk(sampleRate), DataChunk(samples));
  }

  lemma PairBytes(a: RiffChunk, b: RiffChunk)
    requires WellFormed(a) && WellFormed(b) && |a.payload| % 2 == 0 && |b.payload| % 2 == 0
    ensures AllWellFormed([a, b])
    ensures EncodeAll([a, b]) == a.id + Le32(|a.payload|) + a.payload + b.id + Le32(|b.payload|) + b.payload
  {
    hide Encode, EncodeAll, Le32;
    EncodeAllConcat([a], [b]);
    EncodeOne(a);
    EncodeOne(b);
    EncodeEven(a);
    EncodeEven(b);
    assert [a, b] == [a] + [b];
    JoinPair(a.id, Le32(|a.payload|), a.payload, b.id, Le32(|b.payload|), b.payload);
  }

  lemma EncodeEven(c: RiffChunk)
    requires WellFormed(c) && |c.payload| % 2 == 0
    ensures Encode(c) == c.id + Le32(|c.payload|) + c.payload
  {
  }

  lemma JoinPair(a: bytes, b: bytes, c: bytes, d: bytes, e: bytes, f: bytes)
    ensures (a + b + c) + (d + e + f) == a + b + c + d + e + f
  {
  }

  /** Writes the header field by field and then the samples; the byte rate is computed in 32 bits. */
  method WritePcm16Mono(sampleRate: u32, samples: seq<Sample>) returns (r: Result<bytes, WriteError>)
    ensures r.Ok? <==> 36 + 2 * |samples| < 0x1_0000_0000 && sampleRate != 0
    ensures r.Ok? ==> IsRiffFile(r.value, Recording(sampleRate, samples))
  {
    hide Le16, Le32, EncodeAll, EncodePcm, FormatPayload, AllWellFormed;
    if 2 * |samples| >= 0x1_0000_0000 {
      return Err(PayloadTooLong);
    }
    var dataBytes: u32 := 2 * |samples|;
    if 36 + dataBytes as int >= 0x1_0000_0000 {
      return Err(RiffTooLong);
    }
    var riffBytes: u32 := 36 + 2 * |samples|;
    if sampleRate == 0 {
      return Err(ZeroRate);
    }
    RecordingBytes(sampleRate, samples);
    var output := RIFF + Le32(riffBytes) + WAVE + FMT + Le32(16) + FormatPayload(sampleRate) + DATA + Le32(dataBytes);
    ghost var head := output;
    assert samples[..0] == [] && head + [] == head;
    NoPcm();
    for k := 0 to |samples|
      invariant output == head + EncodePcm(samples[..k])
    {
      PcmNext(samples, k);
      output := output + Le16(SampleWord(samples[k]));
    }
    assert samples[..|samples|] == samples;
    InOrder(RIFF, Le32(riffBytes), WAVE, FMT, Le32(16), FormatPayload(sampleRate), DATA, Le32(dataBytes),
            EncodePcm(samples));
    return Ok(output);
  }

  lemma InOrder(a: bytes, b: bytes, c: bytes, d: bytes, e: bytes, f: bytes, g: bytes, h: bytes, i: bytes)
    ensures a + b + c + d + e + f + g + h + i == a + b + c + (d + e + f + g + h + i)
    ensures |d + e + f + g + h + i| == |d| + |e| + |f| + |g| + |h| + |i|
  {
  }

  lemma PcmNext(samples: seq<Sample>, k: nat)
    requires k < |samples|
    ensures EncodePcm(samples[..k + 1]) == EncodePcm(samples[..k]) + Le16(SampleWord(samples[k]))
  {
    assert samples[..k + 1][..k] == samples[..k];
  }

  lemma NoPcm()
    ensures EncodePcm([]) == []
  {
  }

  // ---- What is written is accepted ----

  lemma FormatOfRate(sampleRate: u32)
    ensures FormatOk(FormatPayload(sampleRate)) <==> sampleRate == SAMPLE_RATE
  {
    hide Le16, Le32;
    var p := FormatPayload(sampleRate);
    assert p[0..2] == Le16(1) && p[2..4] == Le16(1) && p[4..8] == Le32(sampleRate);
    assert p[8..12] == Le32(sampleRate * 2 % 0x1_0000_0000) && p[12..14] == Le16(2) && p[14..16] == Le16(16);
    Le16Reads(1, p, 0);
    Le16Reads(1, p, 2);
    Le32Reads(sampleRate, p, 4);
    Le32Reads(sampleRate * 2 % 0x1_0000_0000, p, 8);
    Le16Reads(2, p, 12);
    Le16Reads(16, p, 14);
  }

  lemma CountPair(a: RiffChunk, b: RiffChunk, id: bytes)
    ensures Count([a, b], id) == (if a.id == id then 1 else 0) + (if b.id == id then 1 else 0)
  {
    assert [a, b][..1] == [a] && [a][..0] == [];
    assert Count([a], id) == if a.id == id then 1 else 0;
  }

  /** A recording is playable exactly at 24 kHz with at least one sample. */
  lemma RecordingPlayable(sampleRate: u32, samples: seq<Sample>)
    ensures Playable(Recording(sampleRate, samples)) <==> sampleRate == SAMPLE_RATE && samples != []
  {
    hide FormatOk, FormatPayload, EncodePcm, Count;
    var chunks := Recording(sampleRate, samples);
    FormatOfRate(sampleRate);
    CountPair(chunks[0], chunks[1], FMT);
    CountPair(chunks[0], chunks[1], DATA);
    assert ChunkOk(chunks[0]) <==> sampleRate == SAMPLE_RATE;
    assert ChunkOk(chunks[1]) <==> samples != [];
  }

  /** The report on a recording: the samples begin at byte 44, are all there, and read back unchanged. */
  lemma RecordingInfo(sampleRate: u32, samples: seq<Sample>, file: bytes, info: WavInfo)
    requires Recordable(samples) && IsRiffFile(file, Recording(sampleRate, samples))
             && InfoOf(info, file, Recording(sampleRate, samples))
    ensures info == WavInfo(|samples|, 44, 2 * |samples|)
    ensures 44 + 2 * |samples| <= |file| && DecodePcm(file[44..44 + 2 * |samples|]) == samples
  {
    hide FormatPayload, EncodePcm, DecodePcm;
    var chunks := Recording(sampleRate, samples);
    var i: nat :| DataAt(chunks, i) && info.dataOffset == PayloadOffset(chunks, i)
                  && info.dataBytes == |chunks[i].payload| == 2 * info.sampleCount
                  && PayloadIn(file, info.dataOffset, chunks[i].payload);
    assert i == 1;
    assert chunks[..1] == [chunks[0]];
    EncodeOne(chunks[0]);
    PcmRoundTrip(samples);
  }

  /** The report on a recording exists. */
  lemma RecordingAt(file: bytes, sampleRate: u32, samples: seq<Sample>) returns (info: WavInfo)
    requires Recordable(samples) && IsRiffFile(file, Recording(sampleRate, samples))
    ensures InfoOf(info, file, Recording(sampleRate, samples))
  {
    hide Le32, FormatPayload, EncodePcm, EncodeAll;
    var chunks, size := Recording(sampleRate, samples), 2 * |samples|;
    info := WavInfo(|samples|, 44, size);
    RecordingBytes(sampleRate, samples);
    assert chunks[..1] == [chunks[0]];
    EncodeOne(chunks[0]);
    InOrder(RIFF, Le32(36 + size), WAVE, FMT, Le32(16), FormatPayload(sampleRate), DATA, Le32(size),
            EncodePcm(samples));
    assert file[44..] == EncodePcm(samples);
    assert DataAt(chunks, 1) && PayloadIn(file, 44, chunks[1].payload);
  }

  // ---- Other chunks ----

  /** A chunk of another kind, put anywhere. */
  function WithChunk(chunks: seq<RiffChunk>, at: nat, other: RiffChunk): seq<RiffChunk>
    requires at <= |chunks|
  {
    chunks[..at] + [other] + chunks[at..]
  }

  lemma {:induction false} CountConcat(a: seq<RiffChunk>, b: seq<RiffChunk>, id: bytes)
    ensures Count(a + b, id) == Count(a, id) + Count(b, id)
  {
    if b == [] {
      assert a + b == a;
    } else {
      assert (a + b)[..|a + b| - 1] == a + b[..|b| - 1];
      CountConcat(a, b[..|b| - 1], id);
    }
  }

  lemma OtherChunksDoNotCount(chunks: seq<RiffChunk>, at: nat, other: RiffChunk, id: bytes)
    requires at <= |chunks| && other.id != id
    ensures Count(WithChunk(chunks, at, other), id) == Count(chunks, id)
  {
    CountConcat(chunks[..at] + [other], chunks[at..], id);
    CountConcat(chunks[..at], chunks[at..], id);
    CountNext(chunks[..at], other, id);
    assert chunks[..at] + chunks[at..] == chunks;
  }

  /** Other chunks change neither the verdict nor the payload that is found. */
  lemma OtherChunksAreIgnored(chunks: seq<RiffChunk>, at: nat, other: RiffChunk)
    requires at <= |chunks| && other.id != FMT && other.id != DATA
    ensures Playable(WithChunk(chunks, at, other)) <==> Playable(chunks)
  {
    hide Count, FormatOk, DataOk;
    var more := WithChunk(chunks, at, other);
    OtherChunksDoNotCount(chunks, at, other, FMT);
    OtherChunksDoNotCount(chunks, at, other, DATA);
    forall i | 0 <= i < |chunks|
      ensures chunks[i] == more[if i < at then i else i + 1]
    {
    }
    forall i | 0 <= i < |more|
      ensures more[i] == if i < at then chunks[i] else if i == at then other else chunks[i - 1]
    {
    }
  }

  /** The report on a playable file is about its one data chunk. */
  lemma SamePayload(chunks: seq<RiffChunk>, i: nat, j: nat)
    requires Playable(chunks) && DataAt(chunks, i) && DataAt(chunks, j)
    ensures i == j
  {
    if i < j {
      OneData(chunks, i, j);
    } else if j < i {
      OneData(chunks, j, i);
    }
  }

  lemma OneData(chunks: seq<RiffChunk>, i: nat, j: nat)
    requires i < j < |chunks| && chunks[i].id == DATA && chunks[j].id == DATA
    ensures Count(chunks, DATA) >= 2
  {
    hide Count;
    assert chunks == chunks[..i + 1] + chunks[i + 1..];
    CountConcat(chunks[..i + 1], chunks[i + 1..], DATA);
    assert chunks[..i + 1][i] == chunks[i] && chunks[i + 1..][j - i - 1] == chunks[j];
    CountZero(chunks[..i + 1], DATA);
    CountZero(chunks[i + 1..], DATA);
  }

  /** Inserting other chunks, with the sizes updated, leaves the sample count and the samples as they were. */
  lemma OtherChunksKeepSamples(chunks: seq<RiffChunk>, at: nat, other: RiffChunk,
                               file: bytes, info: WavInfo, newFile: bytes, newInfo: WavInfo)
    requires at <= |chunks| && other.id != FMT && other.id != DATA && Playable(chunks)
    requires IsRiffFile(file, chunks) && InfoOf(info, file, chunks)
    requires IsRiffFile(newFile, WithChunk(chunks, at, other)) && InfoOf(newInfo, newFile, WithChunk(chunks, at, other))
    ensures newInfo.sampleCount == info.sampleCount && newInfo.dataBytes == info.dataBytes
    ensures && info.dataOffset + info.dataBytes <= |file| && newInfo.dataOffset + newInfo.dataBytes <= |newFile|
            && newFile[newInfo.dataOffset..newInfo.dataOffset + newInfo.dataBytes]
                == file[info.dataOffset..info.dataOffset + info.dataBytes]
  {
    hide Playable, RiffFile, EncodeAll, PayloadOffset;
    var more := WithChunk(chunks, at, other);
    var i: nat :| DataAt(chunks, i) && info.dataOffset == PayloadOffset(chunks, i)
                  && info.dataBytes == |chunks[i].payload| == 2 * info.sampleCount
                     && PayloadIn(file, info.dataOffset, chunks[i].payload);
    var j: nat :| DataAt(more, j) && newInfo.dataOffset == PayloadOffset(more, j)
                  && newInfo.dataBytes == |more[j].payload| == 2 * newInfo.sampleCount
                     && PayloadIn(newFile, newInfo.dataOffset, more[j].payload);
    var k := if j < at then j else j - 1;
    assert j != at && more[j] == chunks[k];
    SamePayload(chunks, i, k);
  }
}
