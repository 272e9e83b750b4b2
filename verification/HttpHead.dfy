/** The response head: where it ends in the byte stream, what its lines mean, and which transfer mode
    it selects for the body. */
module HttpHead {
  import opened Bytes
  import opened Text
  import opened TimedBuffers
  import opened Http

  const COMMA: byte := 44

  datatype ResponseHead = ResponseHead(status: nat, headers: Headers)

  /** Bytes up to the next white space. */
  function TokenEnd(s: bytes): (n: nat)
    ensures n <= |s|
  {
    if s == [] || LeadingSpace(s) > 0 then 0 else 1 + TokenEnd(s[1..])
  }

  function FirstToken(s: bytes): bytes {
    TrimStart(s)[..TokenEnd(TrimStart(s))]
  }

  function AfterToken(s: bytes): bytes {
    TrimStart(s)[TokenEnd(TrimStart(s))..]
  }

  const HTTP_1: bytes := [72, 84, 84, 80, 47, 49, 46]

  function ParseStatusLine(line: bytes): Result<nat, HttpError> {
    var version, status := FirstToken(line), FirstToken(AfterToken(line));
    if version != HTTP_1 + [48] && version != HTTP_1 + [49] then Err(BadHead)
    else match ParseUnsigned(status, 10, 65536)
      case None => Err(BadHead)
      case Some(code) => Ok(code)
  }

  predicate IsHeaderNameByte(b: byte) {
    || 48 <= b <= 57 || 65 <= b <= 90 || 97 <= b <= 122
    || b == 33 || 35 <= b <= 39 || b == 42 || b == 43 || b == 45 || b == 46
    || b == 94 || b == 95 || b == 96 || b == 124 || b == 126
  }

  /** One header line, split at its first colon. */
  function ParseHeaderLine(line: bytes): Result<(bytes, bytes), HttpError> {
    if line != [] && (line[0] == SPACE || line[0] == TAB) then Err(BadHead)
    else match IndexOf(line, COLON)
      case None => Err(BadHead)
      case Some(i) =>
        if i == 0 || exists b | b in line[..i] :: !IsHeaderNameByte(b) then Err(BadHead)
        else Ok((LowerAll(line[..i]), Trim(line[i + 1..])))
  }

  function Join(headers: Headers, name: bytes, value: bytes): Headers {
    headers[name := if name in headers then headers[name] + [COMMA, SPACE] + value else value]
  }

  function ParseHeaderLines(lines: seq<bytes>): Result<Headers, HttpError> {
    if lines == [] then Ok(map[])
    else
      var earlier :- ParseHeaderLines(lines[..|lines| - 1]);
      var (name, value) :- ParseHeaderLine(lines[|lines| - 1]);
      Ok(Join(earlier, name, value))
  }

  function ParseHead(text: bytes): Result<ResponseHead, HttpError> {
    if !ValidUtf8(text) then Err(BadHead)
    else
      var lines := SplitLines(text);
      var status :- ParseStatusLine(lines[0]);
      var headers :- ParseHeaderLines(lines[1..]);
      Ok(ResponseHead(status, headers))
  }

  /** The loop that accumulates the header lines into the map. */
  method CollectHeaders(lines: seq<bytes>) returns (r: Result<Headers, HttpError>)
    ensures r == ParseHeaderLines(lines)
  {
    var headers: Headers := map[];
    for i := 0 to |lines|
      invariant ParseHeaderLines(lines[..i]) == Ok(headers)
    {
      assert lines[..i + 1][..i] == lines[..i];
      var parsed := ParseHeaderLine(lines[i]);
      if parsed.Err? {
        FailurePersists(lines, i + 1);
        return Err(parsed.error);
      }
      headers := Join(headers, parsed.value.0, parsed.value.1);
    }
    assert lines[..|lines|] == lines;
    r := Ok(headers);
  }

  method ReadHeadText(text: bytes) returns (r: Result<ResponseHead, HttpError>)
    ensures r == ParseHead(text)
  {
    if !ValidUtf8(text) {
      return Err(BadHead);
    }
    var lines := SplitLines(text);
    var status := ParseStatusLine(lines[0]);
    if status.Err? {
      return Err(status.error);
    }
    var headers := CollectHeaders(lines[1..]);
    r := if headers.Err? then Err(headers.error) else Ok(ResponseHead(status.value, headers.value));
  }

  lemma {:induction false} FailurePersists(lines: seq<bytes>, i: nat)
    requires i <= |lines| && ParseHeaderLines(lines[..i]).Err?
    ensures ParseHeaderLines(lines) == ParseHeaderLines(lines[..i])
  {
    if i == |lines| {
      assert lines[..i] == lines;
    } else {
      var front := lines[..|lines| - 1];
      assert front[..i] == lines[..i];
      FailurePersists(front, i);
    }
  }

  // ---- What the headers of a head say ----

  /** The values of the lines with this name, in order. */
  function ValuesOf(lines: seq<bytes>, name: bytes): seq<bytes> {
    if lines == [] then []
    else
      ValuesOf(lines[..|lines| - 1], name)
      + match ParseHeaderLine(lines[|lines| - 1]) case Err(_) => [] case Ok(field) => if field.0 == name then [field.1]
        else []
  }

  function CommaSeparated(values: seq<bytes>): bytes
    requires values != []
  {
    if |values| == 1 then values[0] else CommaSeparated(values[..|values| - 1]) + [COMMA, SPACE] + values[|values| - 1]
  }

  lemma SeparatedNext(values: seq<bytes>, last: bytes)
    ensures CommaSeparated(values + [last]) == if values == [] then last
            else CommaSeparated(values) + [COMMA, SPACE] + last
  {
    assert (values + [last])[..|values|] == values;
  }

  /** A header has the values of all lines with its name, in order and separated by commas. */
  lemma {:induction false} HeadersByName(lines: seq<bytes>, name: bytes)
    requires ParseHeaderLines(lines).Ok?
    ensures var headers, values := ParseHeaderLines(lines).value, ValuesOf(lines, name);
            && (name in headers <==> values != [])
            && (name in headers ==> headers[name] == CommaSeparated(values))
  {
    hide ParseHeaderLine, CommaSeparated;
    if lines != [] {
      var front := lines[..|lines| - 1];
      HeadersByName(front, name);
      assert ValuesOf(front, name) + [] == ValuesOf(front, name);
      SeparatedNext(ValuesOf(front, name), ParseHeaderLine(lines[|lines| - 1]).value.1);
    }
  }

  /** The headers are read exactly if every line is one, and the error is that of the first line that is
      not. */
  lemma {:induction false} HeadersReadIff(lines: seq<bytes>)
    ensures ParseHeaderLines(lines).Ok? <==> forall k | 0 <= k < |lines| :: ParseHeaderLine(lines[k]).Ok?
    ensures ParseHeaderLines(lines).Err? ==>
              exists k | 0 <= k < |lines| ::
                && ParseHeaderLine(lines[k]).Err? && ParseHeaderLines(lines).error == ParseHeaderLine(lines[k]).error
                                             && forall j | 0 <= j < k :: ParseHeaderLine(lines[j]).Ok?
  {
    hide ParseHeaderLine, Join;
    if lines != [] {
      var front := lines[..|lines| - 1];
      HeadersReadIff(front);
      assert forall k | 0 <= k < |front| :: front[k] == lines[k];
      if ParseHeaderLines(front).Err? {
        var k :|
                0 <= k < |front| && ParseHeaderLine(front[k]).Err?
                  && ParseHeaderLines(front).error == ParseHeaderLine(front[k]).error
                 && forall j | 0 <= j < k :: ParseHeaderLine(front[j]).Ok?;
        assert ParseHeaderLine(lines[k]).Err?;
      }
    }
  }

  const TRANSFER_ENCODING: bytes := [116, 114, 97, 110, 115, 102, 101, 114, 45, 101, 110, 99, 111, 100, 105, 110, 103]
  const CHUNKED: bytes := [99, 104, 117, 110, 107, 101, 100]

  /** The items of a comma-separated list. */
  function SplitCommas(s: bytes): (items: seq<bytes>)
    ensures items != []
    decreases |s|
  {
    match IndexOf(s, COMMA)
    case None => [s]
    case Some(i) => [s[..i]] + SplitCommas(s[i + 1..])
  }

  function SelectTransfer(headers: Headers): Result<TransferMode, HttpError> {
    if TRANSFER_ENCODING in headers && CONTENT_LENGTH in headers then Err(AmbiguousTransfer)
    else if TRANSFER_ENCODING in headers then
      if forall item | item in SplitCommas(headers[TRANSFER_ENCODING]) :: LowerAll(Trim(item)) == CHUNKED
      then Ok(Chunked(Size)) else Err(UnsupportedTransfer)
    else if CONTENT_LENGTH in headers then
      match ParseUnsigned(headers[CONTENT_LENGTH], 10, U64_LIMIT)
      case None => Err(BadContentLength)
      case Some(n) => Ok(ContentLength(n))
    else Ok(CloseDelimited)
  }

  // ---- Where the head ends ----

  /** The length of the head without its terminator. A head whose terminator ends within the limit is
      always found; a longer one is found only if no read ends between the limit and the terminator. */
  ghost function TakeHead(input: seq<TimedByte>, cuts: set<nat>): (r: Result<nat, HttpError>)
    ensures r.Ok? ==> r.value + 4 <= |input|
  {
    match FirstIndex(Plain(input), CRLFCRLF)
    case None => Err(if |input| >= MAX_HEADER_BYTES then HeadTooLong else HeadTruncated)
    case Some(p) =>
      if exists n | n in cuts :: |input| - (p + 4) < n <= |input| - MAX_HEADER_BYTES then Err(HeadTooLong) else Ok(p)
  }

  ghost predicate Carries(wire: Wire, text: bytes) {
    ValidWire(wire) && Plain(FlatWire(wire)) == text
  }

  ghost function HeadTaken(wire: Wire): Result<nat, HttpError> {
    TakeHead(FlatWire(wire), Cuts(wire))
  }

  /** All connections that carry the same bytes have the same outcome exactly when the head and its
      terminator fit the limit. */
  lemma CutsMatterIffHeadIsLong(text: bytes)
    requires FirstIndex(text, CRLFCRLF).Some?
    ensures (forall a, b | Carries(a, text) && Carries(b, text) :: HeadTaken(a) == HeadTaken(b))
       <==> FirstIndex(text, CRLFCRLF).value + 4 <= 65_536
  {
    var p := FirstIndex(text, CRLFCRLF).value;
    if p + 4 <= MAX_HEADER_BYTES {
      forall a | Carries(a, text)
        ensures HeadTaken(a) == Ok(p)
      {
        ShortHeadTaken(a, text);
      }
    } else {
      WholeRead(text);
      CutRead(text, MAX_HEADER_BYTES);
      var one, two := [TimedBytes(text, 0)],
          [TimedBytes(text[..MAX_HEADER_BYTES], 0), TimedBytes(text[MAX_HEADER_BYTES..], 0)];
      assert HeadTaken(one) == Ok(p);
      assert |text| - MAX_HEADER_BYTES in Cuts(two);
      assert HeadTaken(two).Err?;
    }
  }

  lemma ShortHeadTaken(wire: Wire, text: bytes)
    requires Carries(wire, text) && FirstIndex(text, CRLFCRLF).Some?
             && FirstIndex(text, CRLFCRLF).value + 4 <= MAX_HEADER_BYTES
    ensures HeadTaken(wire) == Ok(FirstIndex(text, CRLFCRLF).value)
  {
    hide FirstIndex;
  }

  lemma OneReadFlat(read: TimedBytes)
    ensures FlatWire([read]) == Stamp(read.bytes, read.arrived) && Cuts([read]) == {0, |read.bytes|}
  {
    assert [read][1..] == [];
  }

  lemma WholeRead(text: bytes)
    requires text != []
    ensures Carries([TimedBytes(text, 0)], text) && Cuts([TimedBytes(text, 0)]) == {0, |text|}
  {
    OneReadFlat(TimedBytes(text, 0));
    PlainStamp(text, 0);
  }

  lemma CutRead(text: bytes, at: nat)
    requires 0 < at < |text|
    ensures var two := [TimedBytes(text[..at], 0), TimedBytes(text[at..], 0)];
              Carries(two, text) && |text| - at in Cuts(two)
  {
    var first, second := TimedBytes(text[..at], 0), TimedBytes(text[at..], 0);
    OneReadFlat(second);
    assert [first, second][1..] == [second];
    PlainStamp(text[..at], 0);
    PlainStamp(text[at..], 0);
    PlainConcat(Stamp(text[..at], 0), Stamp(text[at..], 0));
    assert text[..at] + text[at..] == text;
  }

  ghost function HeadOf(input: seq<TimedByte>, cuts: set<nat>): Result<(ResponseHead, TransferMode), HttpError> {
    var p :- TakeHead(input, cuts);
    var head :- ParseHead(Plain(input)[..p]);
    var transfer :- SelectTransfer(head.headers);
    Ok((head, transfer))
  }

  lemma HeadFound(buffered: seq<TimedByte>, later: seq<TimedByte>, wire: Wire, cuts: set<nat>, mark: nat)
    requires FirstIndex(Plain(buffered), CRLFCRLF).Some?
    requires ReadUpTo(wire, cuts, mark) && |FlatWire(wire)| == |later|
    requires CutsBehind(cuts, mark, |buffered + later| - MAX_HEADER_BYTES)
    ensures var p := FirstIndex(Plain(buffered), CRLFCRLF).value;
            && TakeHead(buffered + later, cuts) == Ok(p)
            && Plain(buffered[..p + 4])[..p] == Plain(buffered + later)[..p]
  {
    var p := FirstIndex(Plain(buffered), CRLFCRLF).value;
    PlainConcat(buffered, later);
    FirstIndexPrefix(Plain(buffered), Plain(later), CRLFCRLF);
    assert Plain(buffered[..p + 4])[..p] == (Plain(buffered) + Plain(later))[..p];
  }

  lemma HeadNotYet(buffered: seq<TimedByte>, later: seq<TimedByte>, cuts: set<nat>)
    requires FirstIndex(Plain(buffered), CRLFCRLF).None? && |later| in cuts
    ensures |buffered| >= MAX_HEADER_BYTES ==> TakeHead(buffered + later, cuts) == Err(HeadTooLong)
    ensures |buffered| < MAX_HEADER_BYTES && later == [] ==> TakeHead(buffered + later, cuts) == Err(HeadTruncated)
    ensures TakeHead(buffered + later, cuts).Ok? ==> |buffered| < TakeHead(buffered + later, cuts).value + 4
  {
    PlainConcat(buffered, later);
    if FirstIndex(Plain(buffered + later), CRLFCRLF).Some? {
      FirstIndexBeyond(Plain(buffered), Plain(later), CRLFCRLF);
    } else if later == [] {
      assert buffered + later == buffered;
    }
  }

  ghost predicate SameCuts(a: set<nat>, b: set<nat>, bound: nat) {
    forall n | n <= bound :: n in a <==> n in b
  }

  /** Every cut at or behind the mark leaves fewer bytes in front of it than the head limit. */
  ghost predicate CutsBehind(cuts: set<nat>, mark: nat, bound: int) {
    forall n | n in cuts && n >= mark :: n > bound
  }

  lemma LateCuts(wire: Wire, cuts: set<nat>, mark: nat, bound: int)
    requires ReadUpTo(wire, cuts, mark) && |FlatWire(wire)| > bound
    requires CutsBehind(cuts, mark, bound)
    ensures CutsBehind(cuts, |FlatWire(wire)|, bound)
  {
  }

  lemma HeadFails(input: seq<TimedByte>, cuts: set<nat>)
    ensures TakeHead(input, cuts).Err? ==> HeadOf(input, cuts) == Err(TakeHead(input, cuts).error)
  {
    hide TakeHead;
  }

  lemma NextCut(wire: Wire, cuts: set<nat>)
    requires wire != [] && ValidWire(wire) && CutsKnown(wire, cuts)
    ensures |FlatWire(wire[1..])| in cuts && |FlatWire(wire)| == |wire[0].bytes| + |FlatWire(wire[1..])|
  {
    OneRead(wire, cuts);
    CutHere(wire[1..], cuts);
  }

  lemma NoCutsYet(connection: Wire, cuts: set<nat>)
    requires CutsKnown(connection, cuts) && ReadUpTo(connection, cuts, |FlatWire(connection)| + 1)
    ensures CutsBehind(cuts, |FlatWire(connection)| + 1, |FlatWire(connection)| - MAX_HEADER_BYTES)
  {
  }

  /** Reads the head from a fresh connection and hands the rest of it to the body reader. */
  method ReadHead(connection: Wire) returns (r: Result<ResponseHead, HttpError>, body: HttpBody?)
    requires ValidWire(connection)
    ensures body != null <==> r.Ok?
    ensures match HeadOf(FlatWire(connection), Cuts(connection))
            case Err(e) => r == Err(e)
            case Ok((head, transfer)) =>
              && r == Ok(head)
              && fresh(body) && fresh(body.raw) && body.Ready() && body.transfer == transfer
              && body.Pending() == FlatWire(connection)[TakeHead(FlatWire(connection), Cuts(connection)).value + 4..]
              && SameCuts(body.cuts, Cuts(connection), |body.Pending()|)
  {
    hide ParseHead, SelectTransfer, TakeHead, HeadOf, CutsKnown, ReadUpTo, Cuts, CutsBehind, RestartSafe, Search;
    hide FirstIndex;
    hide FlatSegments, SegmentEnds, AtCuts, SameCuts, Stamp, Plain;
    var raw := new TimedBuffer();
    var wire, responseBytes: nat := connection, 0;
    body := null;
    ghost var all, cuts := FlatWire(connection), Cuts(connection);
    FreshConnection(connection);
    DelimitersAreRestartSafe();
    ghost var mark: nat := |all| + 1;
    NoCutsYet(connection, cuts);
    NoEnds(|FlatWire(wire)|, cuts);
    while true
      invariant raw.Valid() && fresh(raw) && ValidWire(wire) && body == null
      invariant raw.Contents() + FlatWire(wire) == all
      invariant CutsKnown(wire, cuts) && ReadUpTo(wire, cuts, mark) && AtCuts(raw.Ends(), |FlatWire(wire)|, cuts)
      invariant CutsBehind(cuts, mark, |all| - MAX_HEADER_BYTES)
      invariant TakeHead(all, cuts).Ok? ==> |all| - (TakeHead(all, cuts).value + 4) < mark
      decreases |wire|
    {
      ghost var buffered, later := raw.Contents(), FlatWire(wire);
      var found := raw.Find(CRLFCRLF);
      if found.Some? {
        HeadFound(buffered, later, wire, cuts, mark);
        r, body := CutHead(raw, wire, responseBytes, found.value, all, cuts, mark);
        return;
      }
      CutHere(wire, cuts);
      HeadNotYet(buffered, later, cuts);
      if raw.len >= MAX_HEADER_BYTES {
        HeadFails(all, cuts);
        return Err(HeadTooLong), null;
      }
      if wire == [] {
        HeadFails(all, cuts);
        return Err(HeadTruncated), null;
      }
      OneRead(wire, cuts);
      LateCuts(wire, cuts, mark, |all| - MAX_HEADER_BYTES);
      mark := |later|;
      ghost var ends := raw.Ends();
      raw.Push(wire[0].bytes, wire[0].arrived);
      NextCut(wire, cuts);
      AtCutsPushed(ends, raw.Ends(), |wire[0].bytes|, |FlatWire(wire[1..])|, cuts);
      responseBytes := responseBytes + |wire[0].bytes|;
      assert (buffered + Stamp(wire[0].bytes, wire[0].arrived)) + FlatWire(wire[1..]) == buffered + later;
      wire := wire[1..];
    }
  }

  /** The head is complete in the buffer: parse it and start the body behind it. */
  method CutHead(raw: TimedBuffer, wire: Wire, responseBytes: nat, position: nat, ghost all: seq<TimedByte>,
                 ghost cuts: set<nat>, ghost mark: nat)
    returns (r: Result<ResponseHead, HttpError>, body: HttpBody?)
    requires raw.Valid() && ValidWire(wire) && all == raw.Contents() + FlatWire(wire)
    requires position + 4 <= |raw.Contents()| && TakeHead(all, cuts) == Ok(position) && |all| - (position + 4) < mark
    requires Plain(raw.Contents()[..position + 4])[..position] == Plain(all)[..position]
    requires CutsKnown(wire, cuts) && ReadUpTo(wire, cuts, mark) && AtCuts(raw.Ends(), |FlatWire(wire)|, cuts)
    modifies raw
    ensures body != null <==> r.Ok?
    ensures match HeadOf(all, cuts)
            case Err(e) => r == Err(e)
            case Ok((head, transfer)) =>
              && r == Ok(head)
              && fresh(body) && body.raw == raw && body.Ready() && body.transfer == transfer
              && body.Pending() == all[position + 4..]
              && SameCuts(body.cuts, cuts, |body.Pending()|)
  {
    hide ParseHead, SelectTransfer, TakeHead;
    body := null;
    var drained := raw.DrainBytes(position + 4);
    assert raw.Contents() + FlatWire(wire) == all[position + 4..];
    var head := ReadHeadText(drained.value[..position]);
    if head.Err? {
      return Err(head.error), null;
    }
    var transfer := SelectTransfer(head.value.headers);
    if transfer.Err? {
      return Err(transfer.error), null;
    }
    raw.EndsBehindContents();
    body := new HttpBody(raw, wire, transfer.value, responseBytes);
    r := Ok(head.value);
  }
}
