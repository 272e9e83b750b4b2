/** The HTTP/1.1 response reader: head, chunked, Content-Length and close-delimited bodies, decoded
    segment by segment while the socket delivers its bytes in reads of any size. */
module Http {
  import opened Bytes
  import opened Text
  import opened TimedBuffers

  /** Values by header name; names are in lower case. */
  type Headers = map<bytes, bytes>

  const CONTENT_LENGTH: bytes := [99, 111, 110, 116, 101, 110, 116, 45, 108, 101, 110, 103, 116, 104]

  const MAX_HEADER_BYTES: nat := 64 * 1024
  const MAX_CHUNK_LINE_BYTES: nat := 8 * 1024

  datatype ChunkState = Size | Data(remaining: nat) | DataCrlf | Trailers | End

  datatype TransferMode = ContentLength(length: nat) | Chunked(state: ChunkState) | CloseDelimited

  datatype HttpError =
    | HeadTooLong | HeadTruncated | BadHead | AmbiguousTransfer | UnsupportedTransfer | BadContentLength
    | Truncated | LineTooLong | BadChunkSize | MissingCrlf | BadTrailer | TrailingBytes

  // ---- The socket ----

  /** The reads the socket will still return, in order; after them it reports end of stream. */
  type Wire = seq<TimedBytes>

  ghost predicate ValidWire(wire: Wire) {
    forall r | r in wire :: r.bytes != []
  }

  ghost function FlatWire(wire: Wire): seq<TimedByte> {
    if wire == [] then [] else Stamp(wire[0].bytes, wire[0].arrived) + FlatWire(wire[1..])
  }

  /** Where the reads are cut, each cut named by the number of bytes that follow it. */
  ghost function Cuts(wire: Wire): set<nat> {
    if wire == [] then {0} else {|FlatWire(wire)|} + Cuts(wire[1..])
  }

  lemma {:induction false} CutsBounds(wire: Wire)
    ensures |FlatWire(wire)| in Cuts(wire) && 0 in Cuts(wire)
    ensures forall n | n in Cuts(wire) :: n <= |FlatWire(wire)|
  {
    if wire != [] {
      CutsBounds(wire[1..]);
    }
  }

  /** `cuts` are all cuts of a connection of which `wire` is still unread. */
  ghost predicate CutsKnown(wire: Wire, cuts: set<nat>) {
    Cuts(wire) <= cuts && forall n | n in cuts && n <= |FlatWire(wire)| :: n in Cuts(wire)
  }

  /** Every cut with fewer than `mark` bytes behind it is still ahead of the reader. */
  ghost predicate ReadUpTo(wire: Wire, cuts: set<nat>, mark: nat) {
    forall n | n in cuts && n < mark :: n <= |FlatWire(wire)|
  }

  lemma FreshConnection(wire: Wire)
    ensures CutsKnown(wire, Cuts(wire)) && ReadUpTo(wire, Cuts(wire), |FlatWire(wire)| + 1)
    ensures forall n | n in Cuts(wire) :: n <= |FlatWire(wire)|
  {
    CutsBounds(wire);
  }

  lemma CutHere(wire: Wire, cuts: set<nat>)
    requires CutsKnown(wire, cuts)
    ensures |FlatWire(wire)| in cuts
  {
    CutsBounds(wire);
  }

  lemma OneRead(wire: Wire, cuts: set<nat>)
    requires wire != [] && ValidWire(wire) && CutsKnown(wire, cuts)
    ensures ValidWire(wire[1..]) && CutsKnown(wire[1..], cuts) && ReadUpTo(wire[1..], cuts, |FlatWire(wire)|)
    ensures |FlatWire(wire)| == |wire[0].bytes| + |FlatWire(wire[1..])| && |wire[0].bytes| > 0
  {
    assert wire[0] in wire;
    CutsBounds(wire[1..]);
  }

  // ---- The flat specification: what the cut byte string decodes to ----

  /** How a body ends: after its last byte, or at the first violation. */
  datatype BodyEnd = Complete(rest: seq<TimedByte>) | Broken(error: HttpError)

  datatype Decoded = Decoded(payload: seq<TimedByte>, end: BodyEnd) {
    function After(front: seq<TimedByte>): Decoded {
      Decoded(front + payload, end)
    }
  }

  /** The length of the framing line at the front of `input`. A line one byte short of the limit or
      less always fits; at the limit it fits unless the reads are cut inside its line break. */
  function TakeLine(input: seq<TimedByte>, maximum: nat, cuts: set<nat>): (r: Result<nat, HttpError>)
    ensures r.Ok? ==> r.value + 2 <= |input|
  {
    match FirstIndex(Plain(input), CRLF)
    case None => Err(if |input| > maximum then LineTooLong else Truncated)
    case Some(p) =>
      if p < maximum || (p == maximum && |input| - (p + 1) !in cuts) then Ok(p) else Err(LineTooLong)
  }

  /** The size a chunk-size line announces (section 7.1 of RFC 9112); extensions are ignored. */
  function ChunkSize(line: bytes): Option<nat> {
    var token := match IndexOf(line, SEMICOLON) case None => line case Some(i) => line[..i];
    if ValidUtf8(token) then ParseUnsigned(Trim(token), 16, U64_LIMIT) else None
  }

  function StateRank(state: ChunkState): nat {
    match state
    case Data(n) => 2
    case DataCrlf => 1
    case Trailers => 1
    case _ => 0
  }

  /** One framing step: the next state and how much of the input it uses up, as payload or not. */
  datatype ChunkStep = Next(state: ChunkState, consumed: nat, isPayload: bool) | Stop(decoded: Decoded)

  function StepChunked(state: ChunkState, input: seq<TimedByte>, cuts: set<nat>): (step: ChunkStep)
    ensures step.Next? ==> step.consumed <= |input|
    ensures step.Next? && step.consumed == 0 ==> StateRank(step.state) < StateRank(state)
  {
    match state
    case Size => (
      match TakeLine(input, MAX_CHUNK_LINE_BYTES, cuts)
      case Err(e) => Stop(Decoded([], Broken(e)))
      case Ok(p) =>
        match ChunkSize(Plain(input)[..p])
        case None => Stop(Decoded([], Broken(BadChunkSize)))
        case Some(size) => Next(if size == 0 then Trailers else Data(size), p + 2, false))
    case Data(n) =>
      if |input| < n then Stop(Decoded(input, Broken(Truncated))) else Next(DataCrlf, n, true)
    case DataCrlf =>
      if |input| < 2 then Stop(Decoded([], Broken(Truncated)))
      else if Plain(input)[..2] != CRLF then Stop(Decoded([], Broken(MissingCrlf)))
      else Next(Size, 2, false)
    case Trailers => (
      match TakeLine(input, MAX_HEADER_BYTES, cuts)
      case Err(e) => Stop(Decoded([], Broken(e)))
      case Ok(p) =>
        if p == 0 then Next(End, 2, false)
        else if COLON !in Plain(input)[..p] then Stop(Decoded([], Broken(BadTrailer)))
        else Next(Trailers, p + 2, false))
    case End => Stop(Decoded([], if |input| in cuts then Complete(input) else Broken(TrailingBytes)))
  }

  function DecodeChunked(state: ChunkState, input: seq<TimedByte>, cuts: set<nat>): Decoded
    decreases |input|, StateRank(state)
  {
    match StepChunked(state, input, cuts)
    case Stop(decoded) => decoded
    case Next(next, n, isPayload) =>
      DecodeChunked(next, input[n..], cuts).After(if isPayload then input[..n] else [])
  }

  /** The flat decode in every transfer mode. Bytes after the end of the message are an error
      exactly when no read is cut there, so that they are already buffered. */
  function Decode(transfer: TransferMode, input: seq<TimedByte>, cuts: set<nat>): Decoded {
    match transfer
    case Chunked(state) => DecodeChunked(state, input, cuts)
    case ContentLength(n) =>
      if |input| < n then Decoded(input, Broken(Truncated))
      else Decoded(input[..n], if |input| - n in cuts then Complete(input[n..]) else Broken(TrailingBytes))
    case CloseDelimited => Decoded(input, Complete([]))
  }

  lemma AfterNothing(d: Decoded)
    ensures d.After([]) == d
  {
    assert [] + d.payload == d.payload;
  }

  lemma AfterTwice(d: Decoded, first: seq<TimedByte>, second: seq<TimedByte>)
    ensures d.After(second).After(first) == d.After(first + second)
  {
    assert (first + second) + d.payload == first + (second + d.payload);
  }

  /** Delivering a stretch of chunk data leaves the rest of the decode unchanged. */
  lemma DataStep(n: nat, front: seq<TimedByte>, rest: seq<TimedByte>, cuts: set<nat>)
    requires |front| <= n
    ensures DecodeChunked(Data(n), front + rest, cuts) == DecodeChunked(Data(n - |front|), rest, cuts).After(front)
  {
    var k := n - |front|;
    if |rest| >= k {
      assert (front + rest)[n..] == rest[k..];
      assert (front + rest)[..n] == front + rest[..k];
      var tail := DecodeChunked(DataCrlf, rest[k..], cuts);
      assert (front + rest[..k]) + tail.payload == front + (rest[..k] + tail.payload);
    }
  }

  lemma DataExhausted(input: seq<TimedByte>, cuts: set<nat>)
    ensures DecodeChunked(Data(0), input, cuts) == DecodeChunked(DataCrlf, input, cuts)
  {
    assert input[0..] == input && input[..0] == [];
    AfterNothing(DecodeChunked(DataCrlf, input, cuts));
  }

  /** A framing step that carries no payload leaves the decode to the next state. */
  lemma FramingStep(state: ChunkState, input: seq<TimedByte>, cuts: set<nat>)
    requires var step := StepChunked(state, input, cuts); step.Next? && !step.isPayload
    ensures var step := StepChunked(state, input, cuts);
            DecodeChunked(state, input, cuts) == DecodeChunked(step.state, input[step.consumed..], cuts)
  {
    var step := StepChunked(state, input, cuts);
    AfterNothing(DecodeChunked(step.state, input[step.consumed..], cuts));
  }

  lemma LengthStep(n: nat, front: seq<TimedByte>, rest: seq<TimedByte>, cuts: set<nat>)
    requires |front| <= n
    ensures Decode(ContentLength(n), front + rest, cuts) == Decode(ContentLength(n - |front|), rest, cuts).After(front)
  {
    var k := n - |front|;
    if |rest| >= k {
      assert (front + rest)[n..] == rest[k..];
      assert (front + rest)[..n] == front + rest[..k];
    }
  }

  // ---- Where the delivered segments end ----

  /** Positions strictly inside a stretch of the input where a read ends, each named by the number of
      payload bytes that follow it: `low` input bytes and `base` payload bytes follow the stretch. */
  ghost function CutsInside(cuts: set<nat>, low: nat, high: nat, base: nat): set<nat>
    requires low <= high
  {
    set n: nat | base < n < base + (high - low) && CutAt(cuts, n, base, low)
  }

  ghost predicate CutAt(cuts: set<nat>, n: nat, base: nat, low: nat) {
    n + low >= base && n + low - base in cuts
  }

  /** A delivered segment ends with its chunk or with its read. */
  ghost function ChunkEnds(state: ChunkState, input: seq<TimedByte>, cuts: set<nat>): set<nat>
    decreases |input|, StateRank(state)
  {
    match StepChunked(state, input, cuts)
    case Stop(_) => if state.Data? then EndsInside(cuts, |input|) else {}
    case Next(next, k, isPayload) =>
      var tail := |DecodeChunked(next, input[k..], cuts).payload|;
      ChunkEnds(next, input[k..], cuts) + if isPayload && k > 0
        then {tail} + CutsInside(cuts, |input| - k, |input|, tail) else {}
  }

  /** The read ends in front of the last `size` bytes of a connection. */
  ghost function EndsInside(cuts: set<nat>, size: nat): set<nat> {
    set n: nat | n < size && n in cuts
  }

  ghost function Ends(transfer: TransferMode, input: seq<TimedByte>, cuts: set<nat>): set<nat> {
    match transfer
    case Chunked(state) => ChunkEnds(state, input, cuts)
    case ContentLength(n) =>
      if |input| < n then EndsInside(cuts, |input|)
      else if n == 0 then {} else {0} + CutsInside(cuts, |input| - n, |input|, 0)
    case CloseDelimited => EndsInside(cuts, |input|)
  }

  lemma {:induction false} ChunkEndsBehind(state: ChunkState, input: seq<TimedByte>, cuts: set<nat>)
    ensures forall n | n in ChunkEnds(state, input, cuts) :: n < |DecodeChunked(state, input, cuts).payload|
    decreases |input|, StateRank(state)
  {
    var step := StepChunked(state, input, cuts);
    if step.Next? {
      ChunkEndsBehind(step.state, input[step.consumed..], cuts);
    }
  }

  lemma EndsBehindPayload(transfer: TransferMode, input: seq<TimedByte>, cuts: set<nat>)
    ensures forall n | n in Ends(transfer, input, cuts) :: n < |Decode(transfer, input, cuts).payload|
  {
    hide ChunkEnds, DecodeChunked;
    if transfer.Chunked? {
      ChunkEndsBehind(transfer.state, input, cuts);
    }
  }

  /** The stretch in front of the last `rest` of `all` bytes came with one read, and the read ends there
      unless the stretch is as long as it may be. */
  ghost predicate OneStretch(cuts: set<nat>, rest: nat, all: nat, maximum: nat) {
    rest < all && (forall c | c in cuts :: c <= rest || c >= all) && (all - rest == maximum || rest in cuts)
  }

  lemma InsideFirst(cuts: set<nat>, low: nat, rest: nat, all: nat, base: nat, maximum: nat)
    requires low < rest && OneStretch(cuts, rest, all, maximum) && rest in cuts
    ensures CutsInside(cuts, low, all, base) == CutsInside(cuts, low, rest, base) + {rest - low + base}
  {
  }

  lemma InsideNone(cuts: set<nat>, rest: nat, all: nat, base: nat, maximum: nat)
    requires OneStretch(cuts, rest, all, maximum)
    ensures CutsInside(cuts, rest, all, base) == {}
  {
  }

  lemma TruncatedEnds(cuts: set<nat>, rest: nat, all: nat, maximum: nat)
    requires OneStretch(cuts, rest, all, maximum) && rest in cuts
    ensures EndsInside(cuts, all) == EndsInside(cuts, rest) + {rest}
  {
  }

  lemma EndsOfData(n: nat, input: seq<TimedByte>, cuts: set<nat>)
    ensures if |input| < n then ChunkEnds(Data(n), input, cuts) == EndsInside(cuts, |input|)
            else
              var tail := |DecodeChunked(DataCrlf, input[n..], cuts).payload|;
              ChunkEnds(Data(n), input, cuts)
              == ChunkEnds(DataCrlf, input[n..], cuts) + if n > 0
                then {tail} + CutsInside(cuts, |input| - n, |input|, tail) else {}
    ensures |DecodeChunked(Data(n), input, cuts).payload|
         == if |input| < n then |input| else n + |DecodeChunked(DataCrlf, input[n..], cuts).payload|
  {
    hide CutsInside, EndsInside;
  }

  /** Delivering a stretch of chunk data takes the first end away and leaves the others. */
  lemma DataEnds(n: nat, front: seq<TimedByte>, rest: seq<TimedByte>, cuts: set<nat>)
    requires |front| <= n && OneStretch(cuts, |rest|, |front + rest|, n)
    ensures ChunkEnds(Data(n), front + rest, cuts)
         == ChunkEnds(Data(n - |front|), rest, cuts) + {|DecodeChunked(Data(n - |front|), rest, cuts).payload|}
  {
    hide ChunkEnds, DecodeChunked, CutsInside, EndsInside;
    var k, all := n - |front|, |front + rest|;
    EndsOfData(n, front + rest, cuts);
    EndsOfData(k, rest, cuts);
    if |rest| < k {
      TruncatedEnds(cuts, |rest|, all, n);
    } else {
      assert (front + rest)[n..] == rest[k..];
      var tail := |DecodeChunked(DataCrlf, rest[k..], cuts).payload|;
      if k == 0 {
        InsideNone(cuts, |rest|, all, tail, n);
      } else {
        InsideFirst(cuts, |rest| - k, |rest|, all, tail, n);
      }
    }
  }

  lemma LengthEnds(n: nat, front: seq<TimedByte>, rest: seq<TimedByte>, cuts: set<nat>)
    requires |front| <= n && OneStretch(cuts, |rest|, |front + rest|, n)
    ensures Ends(ContentLength(n), front + rest, cuts)
         == Ends(ContentLength(n - |front|), rest, cuts) + {|Decode(ContentLength(n - |front|), rest, cuts).payload|}
  {
    var k, all := n - |front|, |front + rest|;
    if |rest| < k {
      TruncatedEnds(cuts, |rest|, all, n);
    } else if k == 0 {
      InsideNone(cuts, |rest|, all, 0, n);
    } else {
      InsideFirst(cuts, |rest| - k, |rest|, all, 0, n);
    }
  }

  lemma CloseEnds(front: seq<TimedByte>, rest: seq<TimedByte>, cuts: set<nat>, maximum: nat)
    requires OneStretch(cuts, |rest|, |front + rest|, maximum) && |rest| in cuts
    ensures Ends(CloseDelimited, front + rest, cuts)
            == Ends(CloseDelimited, rest, cuts) + {|Decode(CloseDelimited, rest, cuts).payload|}
  {
    TruncatedEnds(cuts, |rest|, |front + rest|, maximum);
  }

  /** A framing step delivers nothing. */
  lemma FramingEnds(state: ChunkState, input: seq<TimedByte>, cuts: set<nat>)
    requires var step := StepChunked(state, input, cuts); step.Next? && !step.isPayload
    ensures var step := StepChunked(state, input, cuts);
            ChunkEnds(state, input, cuts) == ChunkEnds(step.state, input[step.consumed..], cuts)
  {
  }

  lemma ExhaustedEnds(input: seq<TimedByte>, cuts: set<nat>)
    ensures ChunkEnds(Data(0), input, cuts) == ChunkEnds(DataCrlf, input, cuts)
  {
    assert input[0..] == input;
  }

  // ---- How a partly buffered line relates to the flat rule; `later` is what the socket still holds ----

  lemma LineFound(buffered: seq<TimedByte>, later: seq<TimedByte>, maximum: nat, cuts: set<nat>, mark: nat)
    requires FirstIndex(Plain(buffered), CRLF).Some? && FirstIndex(Plain(buffered), CRLF).value <= maximum
    requires forall n | n in cuts && n < mark :: n <= |later|
    requires mark + maximum >= |buffered + later|
    ensures var p := FirstIndex(Plain(buffered), CRLF).value;
            && TakeLine(buffered + later, maximum, cuts) == Ok(p)
            && Plain(buffered[..p + 2])[..p] == Plain(buffered + later)[..p]
  {
    var p := FirstIndex(Plain(buffered), CRLF).value;
    PlainConcat(buffered, later);
    FirstIndexPrefix(Plain(buffered), Plain(later), CRLF);
    assert Plain(buffered[..p + 2])[..p] == (Plain(buffered) + Plain(later))[..p];
  }

  lemma LineFoundTooLong(buffered: seq<TimedByte>, later: seq<TimedByte>, maximum: nat, cuts: set<nat>)
    requires FirstIndex(Plain(buffered), CRLF).Some? && FirstIndex(Plain(buffered), CRLF).value > maximum
    ensures TakeLine(buffered + later, maximum, cuts) == Err(LineTooLong)
  {
    PlainConcat(buffered, later);
    FirstIndexPrefix(Plain(buffered), Plain(later), CRLF);
  }

  lemma LineNotYet(buffered: seq<TimedByte>, later: seq<TimedByte>, maximum: nat, cuts: set<nat>)
    requires FirstIndex(Plain(buffered), CRLF).None? && |later| in cuts
    ensures |buffered| > maximum ==> TakeLine(buffered + later, maximum, cuts) == Err(LineTooLong)
    ensures |buffered| <= maximum && later == [] ==> TakeLine(buffered + later, maximum, cuts) == Err(Truncated)
    ensures TakeLine(buffered + later, maximum, cuts).Ok?
            ==> |buffered| < TakeLine(buffered + later, maximum, cuts).value + 2
  {
    PlainConcat(buffered, later);
    if FirstIndex(Plain(buffered + later), CRLF).Some? {
      FirstIndexBeyond(Plain(buffered), Plain(later), CRLF);
    } else if later == [] {
      assert buffered + later == buffered;
    }
  }

  // ---- The reader ----

  /** The ends of the buffered segments are ends of reads. */
  ghost predicate AtCuts(ends: set<nat>, later: nat, cuts: set<nat>) {
    forall n | n in ends :: n + later in cuts
  }

  lemma NoEnds(later: nat, cuts: set<nat>)
    ensures AtCuts({}, later, cuts)
  {
  }

  lemma AtCutsPushed(before: set<nat>, after: set<nat>, size: nat, later: nat, cuts: set<nat>)
    requires AtCuts(before, size + later, cuts) && later in cuts
    requires forall n | n in after :: n == 0 || (n >= size && n - size in before)
    ensures AtCuts(after, later, cuts)
  {
    forall n | n in after
      ensures n + later in cuts
    {
      if n != 0 {
        assert n - size + (size + later) in cuts;
      }
    }
  }

  /** What popping the front segment takes away, if no read ends inside the buffer. */
  lemma StretchTaken(ends: set<nat>, after: set<nat>, buffered: nat, left: nat, later: nat, cuts: set<nat>,
                     maximum: nat)
    requires AtCuts(ends, later, cuts) && after <= ends && left < buffered
    requires forall c | c in cuts && c < buffered + later :: c <= later
    requires buffered - left == maximum || left in ends
    ensures OneStretch(cuts, left + later, buffered + later, maximum)
    ensures AtCuts(after, later, cuts) && (left > 0 ==> buffered - left == maximum)
  {
  }

  class HttpBody {
    var wire: Wire
    const raw: TimedBuffer
    var transfer: TransferMode
    var responseBytes: nat
    var eof: bool
    /** All read boundaries of this connection, and the number of bytes it carries. */
    ghost const cuts: set<nat>
    ghost const total: nat

    ghost predicate Valid()
      reads this, raw
    {
      && raw.Valid()
      && ValidWire(wire)
      && (eof ==> wire == [])
      && responseBytes + |FlatWire(wire)| == total
      && CutsKnown(wire, cuts)
      && AtCuts(raw.Ends(), |FlatWire(wire)|, cuts)
    }

    /** Every byte that is still to be decoded, with the time of the read that carries it. */
    ghost function Pending(): seq<TimedByte>
      requires raw.Valid()
      reads this, raw
    {
      raw.Contents() + FlatWire(wire)
    }

    /** No buffered byte lies at or before a cut: reads are made only when they are needed. */
    ghost predicate Settled()
      requires raw.Valid()
      reads this, raw
    {
      ReadUpTo(wire, cuts, |Pending()| + 1)
    }

    ghost predicate Ready()
      reads this, raw
    {
      Valid() && Settled()
    }

    /** The decode of everything that is still to come. */
    ghost function Remaining(): Decoded
      requires raw.Valid()
      reads this, raw
    {
      Decode(transfer, Pending(), cuts)
    }

    /** Where the segments that are still to come will end, by the payload bytes that follow them. */
    ghost function RemainingEnds(): set<nat>
      requires raw.Valid()
      reads this, raw
    {
      Ends(transfer, Pending(), cuts)
    }

    lemma RemainingEndsBehind()
      requires raw.Valid()
      ensures forall n | n in RemainingEnds() :: n < |Remaining().payload|
    {
      EndsBehindPayload(transfer, Pending(), cuts);
    }

    /** The segment that was delivered ends at the first of the ends before it. */
    ghost predicate EndTaken(before: set<nat>, r: Result<Option<TimedBytes>, HttpError>)
      requires raw.Valid()
      reads this, raw
    {
      r.Ok? && r.value.Some? ==> before == RemainingEnds() + {|Remaining().payload|}
    }

    constructor (raw: TimedBuffer, wire: Wire, transfer: TransferMode, responseBytes: nat)
      requires raw.Valid() && ValidWire(wire) && raw.Ends() <= {0}
      ensures Ready() && this.raw == raw
      ensures this.wire == wire && this.transfer == transfer && this.responseBytes == responseBytes
      ensures cuts == Cuts(wire) && !eof
    {
      this.raw, this.wire, this.transfer, this.responseBytes, eof := raw, wire, transfer, responseBytes, false;
      cuts, total := Cuts(wire), responseBytes + |FlatWire(wire)|;
      CutsBounds(wire);
    }

    /** One socket read; an empty result means end of stream. */
    method ReadMore()
      requires Valid()
      modifies this`wire, this`responseBytes, this`eof, raw
      ensures Valid() && Pending() == old(Pending())
      ensures eof ==> wire == old(wire) == [] && raw.Contents() == old(raw.Contents())
      ensures !eof ==> old(raw.Contents()) < raw.Contents() && |wire| < |old(wire)|
      ensures !eof ==> ReadUpTo(wire, cuts, |FlatWire(old(wire))|)
    {
      hide AtCuts, CutsKnown, ReadUpTo, Cuts, SegmentEnds, FlatSegments, ValidWire;
      if eof {
        return;
      }
      if wire == [] {
        eof := true;
        return;
      }
      var read := wire[0];
      OneRead(wire, cuts);
      ghost var before, ends := raw.Contents(), raw.Ends();
      raw.Push(read.bytes, read.arrived);
      responseBytes := responseBytes + |read.bytes|;
      wire := wire[1..];
      CutHere(wire, cuts);
      AtCutsPushed(ends, raw.Ends(), |read.bytes|, |FlatWire(wire)|, cuts);
      assert (before + Stamp(read.bytes, read.arrived)) + FlatWire(wire)
             == before + (Stamp(read.bytes, read.arrived) + FlatWire(wire));
    }

    /** Consuming buffered bytes past the last cut that was read over settles the reader again. */
    lemma SettledAfter(mark: nat)
      requires Valid() && |Pending()| < mark
      requires ReadUpTo(wire, cuts, mark)
      ensures Settled()
    {
    }

    method ReadRawExact(count: nat) returns (r: Result<bytes, HttpError>)
      requires Ready() && count > 0
      modifies this`wire, this`responseBytes, this`eof, raw
      ensures Valid()
      ensures r == if |old(Pending())| < count then Err(Truncated) else Ok(Plain(old(Pending())[..count]))
      ensures r.Ok? ==> Ready() && Pending() == old(Pending())[count..]
    {
      hide CutsKnown, Cuts, SegmentEnds, FlatSegments;
      ghost var input := Pending();
      ghost var mark: nat := |input| + 1;
      while raw.len < count
        invariant Valid() && Pending() == input
        invariant mark + count > |input|
        invariant ReadUpTo(wire, cuts, mark)
        decreases |wire|
      {
        mark := |FlatWire(wire)|;
        ReadMore();
        if eof {
          return Err(Truncated);
        }
      }
      ghost var buffered := raw.Contents();
      var drained := raw.DrainBytes(count);
      assert input[..count] == buffered[..count];
      assert Pending() == input[count..];
      SettledAfter(mark);
      r := Ok(drained.value);
    }

    /** Takes a framing line whose line break is already buffered at `position`. */
    method CutLine(position: nat, maximum: nat, ghost mark: nat) returns (r: Result<bytes, HttpError>)
      requires Valid() && FirstIndex(Plain(raw.Contents()), CRLF) == Some(position)
      requires mark + maximum >= |Pending()|
      requires position <= maximum ==> mark + position + 2 > |Pending()|
      requires ReadUpTo(wire, cuts, mark)
      modifies raw
      ensures Valid()
      ensures match TakeLine(old(Pending()), maximum, cuts)
              case Ok(p) => r == Ok(Plain(old(Pending()))[..p]) && Ready() && Pending() == old(Pending())[p + 2..]
              case Err(e) => r == Err(e)
    {
      hide CutsKnown, Cuts, SegmentEnds, FlatSegments, FirstIndex;
      ghost var buffered, later := raw.Contents(), FlatWire(wire);
      if position > maximum {
        LineFoundTooLong(buffered, later, maximum, cuts);
        return Err(LineTooLong);
      }
      LineFound(buffered, later, maximum, cuts, mark);
      var drained := raw.DrainBytes(position + 2);
      assert Pending() == (buffered + later)[position + 2..];
      SettledAfter(mark);
      r := Ok(drained.value[..position]);
    }

    method ReadRawLine(maximum: nat) returns (r: Result<bytes, HttpError>)
      requires Ready()
      modifies this`wire, this`responseBytes, this`eof, raw
      ensures Valid()
      ensures match TakeLine(old(Pending()), maximum, cuts)
              case Ok(p) => r == Ok(Plain(old(Pending()))[..p]) && Ready() && Pending() == old(Pending())[p + 2..]
              case Err(e) => r == Err(e)
    {
      hide CutsKnown, Cuts, SegmentEnds, FlatSegments, FirstIndex, AtCuts, Search, RestartSafe;
      ghost var input := Pending();
      ghost var mark: nat := |input| + 1;
      DelimitersAreRestartSafe();
      while true
        invariant Valid() && Pending() == input
        invariant mark + maximum >= |input|
        invariant TakeLine(input, maximum, cuts).Ok? ==> mark + TakeLine(input, maximum, cuts).value + 2 > |input|
        invariant ReadUpTo(wire, cuts, mark)
        decreases |wire|
      {
        ghost var buffered, later := raw.Contents(), FlatWire(wire);
        var found := raw.Find(CRLF);
        if found.Some? {
          if found.value <= maximum {
            LineFound(buffered, later, maximum, cuts, mark);
          }
          r := CutLine(found.value, maximum, mark);
          return;
        }
        CutHere(wire, cuts);
        LineNotYet(buffered, later, maximum, cuts);
        if raw.len > maximum {
          return Err(LineTooLong);
        }
        mark := |later|;
        ReadMore();
        if eof {
          return Err(Truncated);
        }
      }
    }

    /** What one call delivered is the front of the decode `before` it, and the rest is still to come:
        a stretch of payload, then in the end the completion of the body or its first violation. */
    ghost predicate Delivers(before: Decoded, r: Result<Option<TimedBytes>, HttpError>)
      requires raw.Valid()
      reads this, raw
    {
      match r
      case Ok(Some(segment)) => segment.bytes != [] && Ready()
        && before == Remaining().After(Stamp(segment.bytes, segment.arrived))
      case Ok(None) => Ready() && raw.Contents() == [] && before == Decoded([], Complete(Pending())) == Remaining()
      case Err(e) => before == Decoded([], Broken(e))
    }

    /** Delivers the next stretch of body bytes, the end of the body, or the violation that stops it:
        exactly what the flat decode of everything still to come says, whatever the cuts. */
    method NextSegment() returns (r: Result<Option<TimedBytes>, HttpError>)
      requires Ready()
      modifies this`wire, this`responseBytes, this`eof, this`transfer, raw
      ensures Valid()
      ensures Delivers(old(Remaining()), r) && EndTaken(old(RemainingEnds()), r)
    {
      var taken := transfer;
      transfer := ContentLength(0);
      match taken {
        case ContentLength(remaining) => r := NextContentLength(remaining);
        case CloseDelimited => r := NextCloseDelimited();
        case Chunked(state) => r := NextChunked(state);
      }
    }

    /** Fills an empty buffer by one read; behind it no read ends inside the buffered bytes. */
    method FillIfEmpty() returns (ghost mark: nat)
      requires Ready()
      modifies this`wire, this`responseBytes, this`eof, raw
      ensures Valid() && Pending() == old(Pending()) && ReadUpTo(wire, cuts, mark) && |Pending()| <= mark
      ensures raw.Contents() == [] ==> eof && Pending() == [] && Ready()
    {
      hide AtCuts, CutsKnown, Cuts, SegmentEnds, FlatSegments;
      mark := |Pending()| + 1;
      var empty := raw.IsEmpty();
      if empty {
        ghost var whole: nat := |FlatWire(wire)|;
        ReadMore();
        if !eof {
          mark := whole;
        }
      }
    }

    /** Takes at most `maximum` bytes of one read from a buffer that is not empty. */
    method TakeBuffered(maximum: nat, ghost mark: nat) returns (segment: TimedBytes)
      requires Valid() && raw.Contents() != [] && maximum > 0
      requires ReadUpTo(wire, cuts, mark) && |Pending()| <= mark
      modifies raw
      ensures Ready() && 0 < |segment.bytes| <= maximum
      ensures old(Pending()) == Stamp(segment.bytes, segment.arrived) + Pending()
      ensures OneStretch(cuts, |Pending()|, |old(Pending())|, maximum)
      ensures maximum >= old(raw.len) ==> |Pending()| in cuts
    {
      hide CutsKnown, Cuts, SegmentEnds, FlatSegments, AtCuts, OneStretch;
      ghost var buffered, ends, later := raw.Contents(), raw.Ends(), FlatWire(wire);
      CutHere(wire, cuts);
      var popped := raw.PopSegment(maximum);
      segment := popped.value;
      ghost var front := Stamp(segment.bytes, segment.arrived);
      assert (front + raw.Contents()) + later == front + (raw.Contents() + later);
      StretchTaken(ends, raw.Ends(), |buffered|, |raw.Contents()|, |later|, cuts, maximum);
      SettledAfter(mark);
    }

    /** Fills an empty buffer by one read and takes at most `maximum` bytes of one read from it. */
    method TakeSegment(maximum: nat) returns (r: Option<TimedBytes>)
      requires Ready() && maximum > 0
      modifies this`wire, this`responseBytes, this`eof, raw
      ensures Ready()
      ensures r.None? ==> old(Pending()) == [] == Pending()
      ensures r.Some?
              ==> 0 < |r.value.bytes| <= maximum && old(Pending()) == Stamp(r.value.bytes, r.value.arrived) + Pending()
      ensures r.Some? ==> OneStretch(cuts, |Pending()|, |old(Pending())|, maximum)
    {
      hide AtCuts, CutsKnown, Cuts, SegmentEnds, FlatSegments, OneStretch, ReadUpTo;
      ghost var mark := FillIfEmpty();
      var empty := raw.IsEmpty();
      if empty {
        return None;
      }
      var segment := TakeBuffered(maximum, mark);
      r := Some(segment);
    }

    method NextContentLength(length: nat) returns (r: Result<Option<TimedBytes>, HttpError>)
      requires Ready() && transfer == ContentLength(0)
      modifies this`wire, this`responseBytes, this`eof, this`transfer, raw
      ensures Valid()
      ensures Delivers(old(Decode(ContentLength(length), Pending(), cuts)), r)
      ensures EndTaken(old(Ends(ContentLength(length), Pending(), cuts)), r)
    {
      CutsBounds(wire);
      if length == 0 {
        assert Pending()[0..] == Pending();
        var empty := raw.IsEmpty();
        if !empty {
          return Err(TrailingBytes);
        }
        return Ok(None);
      }
      var segment := TakeSegment(length);
      if segment.None? {
        return Err(Truncated);
      }
      LengthStep(length, Stamp(segment.value.bytes, segment.value.arrived), Pending(), cuts);
      LengthEnds(length, Stamp(segment.value.bytes, segment.value.arrived), Pending(), cuts);
      transfer := ContentLength(length - |segment.value.bytes|);
      r := Ok(segment);
    }

    method NextCloseDelimited() returns (r: Result<Option<TimedBytes>, HttpError>)
      requires Ready() && transfer == ContentLength(0)
      modifies this`wire, this`responseBytes, this`eof, this`transfer, raw
      ensures Valid()
      ensures r.Ok? && Delivers(old(Decode(CloseDelimited, Pending(), cuts)), r)
      ensures EndTaken(old(Ends(CloseDelimited, Pending(), cuts)), r)
    {
      hide AtCuts, CutsKnown, Cuts, SegmentEnds, FlatSegments, OneStretch, ReadUpTo, CutsInside, EndsInside;
      ghost var mark := FillIfEmpty();
      transfer := CloseDelimited;
      var empty := raw.IsEmpty();
      if empty {
        return Ok(None);
      }
      // No segment is longer than the whole buffer.
      var whole := raw.len;
      var segment := TakeBuffered(whole, mark);
      CloseEnds(Stamp(segment.bytes, segment.arrived), Pending(), cuts, whole);
      r := Ok(Some(segment));
    }

    method ChunkSizeLine() returns (r: Result<ChunkState, HttpError>)
      requires Ready()
      modifies this`wire, this`responseBytes, this`eof, raw
      ensures Valid() && (r.Ok? ==> Ready() && |Pending()| < |old(Pending())|)
      ensures match old(StepChunked(Size, Pending(), cuts))
              case Next(next, n, _) => r == Ok(next) && Pending() == old(Pending())[n..]
              case Stop(decoded) => r.Err? && decoded == Decoded([], Broken(r.error))
    {
      var line := ReadRawLine(MAX_CHUNK_LINE_BYTES);
      if line.Err? {
        return Err(line.error);
      }
      var size := ChunkSize(line.value);
      if size.None? {
        return Err(BadChunkSize);
      }
      r := Ok(if size.value == 0 then Trailers else Data(size.value));
    }

    method ChunkDataCrlf() returns (r: Result<ChunkState, HttpError>)
      requires Ready()
      modifies this`wire, this`responseBytes, this`eof, raw
      ensures Valid() && (r.Ok? ==> Ready() && |Pending()| < |old(Pending())|)
      ensures match old(StepChunked(DataCrlf, Pending(), cuts))
              case Next(next, n, _) => r == Ok(next) && Pending() == old(Pending())[n..]
              case Stop(decoded) => r.Err? && decoded == Decoded([], Broken(r.error))
    {
      ghost var input := Pending();
      if |input| >= 2 {
        PlainSlice(input, 0, 2);
        assert input[0..2] == input[..2] && Plain(input)[0..2] == Plain(input)[..2];
      }
      var suffix := ReadRawExact(2);
      if suffix.Err? {
        return Err(suffix.error);
      }
      if suffix.value != CRLF {
        return Err(MissingCrlf);
      }
      r := Ok(Size);
    }

    method ChunkTrailer() returns (r: Result<ChunkState, HttpError>)
      requires Ready()
      modifies this`wire, this`responseBytes, this`eof, raw
      ensures Valid() && (r.Ok? ==> Ready() && |Pending()| < |old(Pending())|)
      ensures match old(StepChunked(Trailers, Pending(), cuts))
              case Next(next, n, _) => r == Ok(next) && Pending() == old(Pending())[n..]
              case Stop(decoded) => r.Err? && decoded == Decoded([], Broken(r.error))
    {
      var line := ReadRawLine(MAX_HEADER_BYTES);
      if line.Err? {
        return Err(line.error);
      }
      if line.value == [] {
        return Ok(End);
      }
      if COLON !in line.value {
        return Err(BadTrailer);
      }
      r := Ok(Trailers);
    }

    method NextChunked(start: ChunkState) returns (r: Result<Option<TimedBytes>, HttpError>)
      requires Ready() && transfer == ContentLength(0)
      modifies this`wire, this`responseBytes, this`eof, this`transfer, raw
      ensures Valid()
      ensures Delivers(old(DecodeChunked(start, Pending(), cuts)), r)
      ensures EndTaken(old(ChunkEnds(start, Pending(), cuts)), r)
    {
      hide AtCuts, CutsKnown, Cuts, SegmentEnds, FlatSegments, FlatWire, ReadUpTo, ValidWire;
      ghost var before, ends := DecodeChunked(start, Pending(), cuts), ChunkEnds(start, Pending(), cuts);
      var state := start;
      while true
        invariant Ready() && transfer == ContentLength(0)
        invariant DecodeChunked(state, Pending(), cuts) == before && ChunkEnds(state, Pending(), cuts) == ends
        decreases |Pending()|, StateRank(state)
      {
        if state.Data? && state.remaining > 0 {
          r := NextChunkData(state.remaining);
          return;
        }
        if state == End {
          r := NextAfterChunks();
          return;
        }
        var step := NextState(state);
        if step.Err? {
          return Err(step.error);
        }
        state := step.value;
      }
    }

    /** One turn of the chunk loop in a state that delivers nothing itself. */
    method NextState(state: ChunkState) returns (r: Result<ChunkState, HttpError>)
      requires Ready() && state != End && !(state.Data? && state.remaining > 0)
      modifies this`wire, this`responseBytes, this`eof, raw
      ensures Valid()
      ensures r.Ok? ==> Ready() && old(DecodeChunked(state, Pending(), cuts)) == DecodeChunked(r.value, Pending(), cuts)
      ensures r.Ok? ==> old(ChunkEnds(state, Pending(), cuts)) == ChunkEnds(r.value, Pending(), cuts)
      ensures r.Ok?
              ==> |Pending()| < |old(Pending())|
                  || (Pending() == old(Pending()) && StateRank(r.value) < StateRank(state))
      ensures r.Err? ==> old(DecodeChunked(state, Pending(), cuts)) == Decoded([], Broken(r.error))
    {
      if state.Data? {
        DataExhausted(Pending(), cuts);
        ExhaustedEnds(Pending(), cuts);
        return Ok(DataCrlf);
      }
      ghost var step := StepChunked(state, Pending(), cuts);
      if step.Next? {
        FramingStep(state, Pending(), cuts);
        FramingEnds(state, Pending(), cuts);
      }
      if state == Size {
        r := ChunkSizeLine();
      } else if state == DataCrlf {
        r := ChunkDataCrlf();
      } else {
        r := ChunkTrailer();
      }
    }

    method NextChunkData(remaining: nat) returns (r: Result<Option<TimedBytes>, HttpError>)
      requires Ready() && remaining > 0
      modifies this`wire, this`responseBytes, this`eof, this`transfer, raw
      ensures Valid()
      ensures Delivers(old(DecodeChunked(Data(remaining), Pending(), cuts)), r)
      ensures EndTaken(old(ChunkEnds(Data(remaining), Pending(), cuts)), r)
    {
      var segment := TakeSegment(remaining);
      if segment.None? {
        return Err(Truncated);
      }
      DataStep(remaining, Stamp(segment.value.bytes, segment.value.arrived), Pending(), cuts);
      DataEnds(remaining, Stamp(segment.value.bytes, segment.value.arrived), Pending(), cuts);
      transfer := Chunked(Data(remaining - |segment.value.bytes|));
      r := Ok(segment);
    }

    method NextAfterChunks() returns (r: Result<Option<TimedBytes>, HttpError>)
      requires Ready()
      modifies this`transfer
      ensures Valid()
      ensures Delivers(old(DecodeChunked(End, Pending(), cuts)), r)
    {
      CutsBounds(wire);
      var empty := raw.IsEmpty();
      if !empty {
        return Err(TrailingBytes);
      }
      transfer := Chunked(End);
      r := Ok(None);
    }

    /** The consuming loop of every caller: collects the segments until the body ends. */
    method ReadToEnd() returns (r: Result<seq<TimedBytes>, HttpError>)
      requires Ready()
      modifies this`wire, this`responseBytes, this`eof, this`transfer, raw
      ensures Valid()
      ensures match old(Remaining()).end
              case Complete(rest) => r.Ok? && FlatWire(r.value) == old(Remaining()).payload && Pending() == rest
              case Broken(e) => r == Err(e)
    {
      ghost var whole := Remaining();
      var segments: seq<TimedBytes> := [];
      while true
        invariant Ready()
        invariant whole == Remaining().After(FlatWire(segments))
        decreases |Remaining().payload|
      {
        var next := NextSegment();
        if next.Err? {
          return Err(next.error);
        }
        if next.value.None? {
          return Ok(segments);
        }
        FlatWireAppend(segments, next.value.value);
        AfterTwice(Remaining(), FlatWire(segments), Stamp(next.value.value.bytes, next.value.value.arrived));
        segments := segments + [next.value.value];
      }
    }
  }

  lemma {:induction false} FlatWireAppend(wire: Wire, last: TimedBytes)
    ensures FlatWire(wire + [last]) == FlatWire(wire) + Stamp(last.bytes, last.arrived)
  {
    if wire == [] {
      assert FlatWire([last]) == Stamp(last.bytes, last.arrived) + FlatWire([last][1..]);
      assert wire + [last] == [last];
    } else {
      assert (wire + [last])[1..] == wire[1..] + [last];
      FlatWireAppend(wire[1..], last);
    }
  }
}
