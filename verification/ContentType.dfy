/** The boundary parameter of a Content-Type: splitting at semicolons outside quotes, taking quotes off,
    and what comes out. Working on bytes is the same as on characters, since every byte that matters is
    below 128. */
module ContentType {
  import opened Bytes
  import opened Text
  import opened Multipart

  const BACKSLASH: byte := 92

  // "multipart/mixed" and "boundary"
  const MULTIPART_MIXED: bytes := [109, 117, 108, 116, 105, 112, 97, 114, 116, 47, 109, 105, 120, 101, 100]
  const BOUNDARY: bytes := [98, 111, 117, 110, 100, 97, 114, 121]

  // ---- Quoting ----

  datatype Mode = Outside | Quoted | Escaped

  function Next(mode: Mode, c: byte): Mode {
    match mode
    case Outside => if c == QUOTE then Quoted else Outside
    case Quoted => if c == BACKSLASH then Escaped else if c == QUOTE then Outside else Quoted
    case Escaped => Quoted
  }

  /** Where a scan from outside any quotes stands after `s`. */
  function ModeAfter(s: bytes): Mode {
    if s == [] then Outside else Next(ModeAfter(s[..|s| - 1]), s[|s| - 1])
  }

  lemma ModeNext(s: bytes, i: nat)
    requires i < |s|
    ensures ModeAfter(s[..i + 1]) == Next(ModeAfter(s[..i]), s[i])
  {
    assert s[..i + 1][..i] == s[..i];
  }

  lemma {:induction false} ModeConcat(a: bytes, b: bytes)
    requires ModeAfter(a) == Outside
    ensures ModeAfter(a + b) == ModeAfter(b)
  {
    if b == [] {
      assert a + b == a;
    } else {
      assert (a + b)[..|a + b| - 1] == a + b[..|b| - 1];
      ModeConcat(a, b[..|b| - 1]);
    }
  }

  /** A semicolon that separates: one outside quotes. */
  predicate SeparatorAt(s: bytes, i: nat) {
    i < |s| && s[i] == SEMICOLON && ModeAfter(s[..i]) == Outside
  }

  /** One field: its quotes are closed and it holds no separator. */
  predicate Field(s: bytes) {
    ModeAfter(s) == Outside && forall i | 0 <= i < |s| :: !SeparatorAt(s, i)
  }

  predicate Fields(fields: seq<bytes>) {
    fields != [] && forall i | 0 <= i < |fields| :: Field(fields[i])
  }

  function Join(fields: seq<bytes>): bytes
    requires fields != []
  {
    if |fields| == 1 then fields[0] else Join(fields[..|fields| - 1]) + [SEMICOLON] + fields[|fields| - 1]
  }

  function TrimAll(fields: seq<bytes>): (r: seq<bytes>)
    ensures |r| == |fields|
  {
    seq(|fields|, i requires 0 <= i < |fields| => Trim(fields[i]))
  }

  lemma {:induction false} JoinClosed(fields: seq<bytes>)
    requires Fields(fields)
    ensures ModeAfter(Join(fields)) == Outside
  {
    if |fields| > 1 {
      var front, last := fields[..|fields| - 1], fields[|fields| - 1];
      JoinClosed(front);
      ModeConcat(Join(front), [SEMICOLON]);
      assert [SEMICOLON][..0] == [] && ModeAfter([SEMICOLON]) == Outside;
      ModeConcat(Join(front) + [SEMICOLON], last);
    }
  }

  lemma SeparatorShift(a: bytes, b: bytes, i: nat)
    requires ModeAfter(a) == Outside && i <= |b|
    ensures SeparatorAt(a + b, |a| + i) == SeparatorAt(b, i)
  {
    assert (a + b)[..|a| + i] == a + b[..i];
    ModeConcat(a, b[..i]);
  }

  /** There is only one way to take a value apart. */
  lemma {:induction false} JoinUnique(a: seq<bytes>, b: seq<bytes>)
    requires Fields(a) && Fields(b) && Join(a) == Join(b)
    ensures a == b
    decreases |a| + |b|
  {
    hide Field, SeparatorAt;
    if |a| == 1 && |b| == 1 {
      assert a == [a[0]] && b == [b[0]];
    } else if |a| == 1 {
      LastSeparator(b);
      FieldHasNone(a[0], |Join(b[..|b| - 1])|);
    } else if |b| == 1 {
      LastSeparator(a);
      FieldHasNone(b[0], |Join(a[..|a| - 1])|);
    } else {
      SameLast(a, b);
      assert a == a[..|a| - 1] + [a[|a| - 1]] && b == b[..|b| - 1] + [b[|b| - 1]];
      JoinUnique(a[..|a| - 1], b[..|b| - 1]);
    }
  }

  lemma FieldHasNone(s: bytes, i: nat)
    requires Field(s)
    ensures !SeparatorAt(s, i)
  {
  }

  /** The last separator of a joined value stands in front of its last field. */
  lemma LastSeparator(fields: seq<bytes>)
    requires Fields(fields) && |fields| > 1
    ensures var at := |Join(fields[..|fields| - 1])|;
            SeparatorAt(Join(fields), at) && forall i | at < i < |Join(fields)| :: !SeparatorAt(Join(fields), i)
  {
    var front, last := fields[..|fields| - 1], fields[|fields| - 1];
    var start := Join(front) + [SEMICOLON];
    JoinClosed(front);
    ModeConcat(Join(front), [SEMICOLON]);
    assert [SEMICOLON][..0] == [] && ModeAfter([SEMICOLON]) == Outside;
    assert Join(fields) == start + last;
    assert (start + last)[..|Join(front)|] == Join(front);
    forall i | |Join(front)| < i < |Join(fields)|
      ensures !SeparatorAt(Join(fields), i)
    {
      SeparatorShift(start, last, i - |start|);
    }
  }

  lemma SameLast(a: seq<bytes>, b: seq<bytes>)
    requires Fields(a) && Fields(b) && |a| > 1 && |b| > 1 && Join(a) == Join(b)
    ensures a[|a| - 1] == b[|b| - 1] && Join(a[..|a| - 1]) == Join(b[..|b| - 1])
  {
    hide Field, SeparatorAt;
    LastSeparator(a);
    LastSeparator(b);
    var i, j, s := |Join(a[..|a| - 1])|, |Join(b[..|b| - 1])|, Join(a);
    assert i == j;
    assert s[..i] == Join(a[..|a| - 1]) && s[i + 1..] == a[|a| - 1];
    assert s[..j] == Join(b[..|b| - 1]) && s[j + 1..] == b[|b| - 1];
  }

  datatype ContentTypeError = Unterminated | WrongMediaType | MalformedParameter | DuplicateBoundary | NoBoundary
    | IllegalBoundary

  /** Splits at the separators and trims the fields; a value that ends inside quotes is refused. */
  method SplitParameters(value: bytes) returns (r: Result<seq<bytes>, ContentTypeError>, ghost raw: seq<bytes>)
    ensures r.Ok? <==> ModeAfter(value) == Outside
    ensures r.Ok? ==> Fields(raw) && value == Join(raw) && r.value == TrimAll(raw)
  {
    hide Field, Trim, ModeAfter;
    var fields: seq<bytes>, current: bytes := [], [];
    var quoted, escaped := false, false;
    raw := [];
    StartsOutside(value);
    for k := 0 to |value|
      invariant ModeAfter(value[..k]) == ModeOf(quoted, escaped) && (escaped ==> quoted)
      invariant value[..k] == Joined(raw, current) && ModeAfter(current) == ModeOf(quoted, escaped)
      invariant NoSeparator(current) && fields == TrimAll(raw)
      invariant forall i | 0 <= i < |raw| :: Field(raw[i])
    {
      var character := value[k];
      ModeNext(value, k);
      CurrentNext(current, character);
      JoinedNext(raw, current, character);
      assert value[..k + 1] == value[..k] + [character];
      if escaped {
        current := current + [character];
        escaped := false;
      } else if character == BACKSLASH && quoted {
        current := current + [character];
        escaped := true;
      } else if character == QUOTE {
        quoted := !quoted;
        current := current + [character];
      } else if character == SEMICOLON && !quoted {
        fields := fields + [Trim(current)];
        raw := raw + [current];
        current := [];
        StartsOutside(current);
      } else {
        current := current + [character];
      }
    }
    assert value[..|value|] == value;
    ClosedIsField(current);
    if quoted || escaped {
      return Err(Unterminated), raw;
    }
    raw := raw + [current];
    return Ok(fields + [Trim(current)]), raw;
  }

  function ModeOf(quoted: bool, escaped: bool): Mode {
    if escaped then Escaped else if quoted then Quoted else Outside
  }

  predicate NoSeparator(s: bytes) {
    forall i | 0 <= i < |s| :: !SeparatorAt(s, i)
  }

  /** The fields that are finished and the one that is being read. */
  function Joined(raw: seq<bytes>, current: bytes): bytes {
    Join(raw + [current])
  }

  lemma ClosedIsField(s: bytes)
    requires NoSeparator(s)
    ensures ModeAfter(s) == Outside ==> Field(s)
  {
  }

  lemma StartsOutside(s: bytes)
    ensures ModeAfter(s[..0]) == Outside && ModeAfter([]) == Outside
  {
    assert s[..0] == [];
  }

  lemma CurrentNext(current: bytes, c: byte)
    requires NoSeparator(current)
    ensures ModeAfter(current + [c]) == Next(ModeAfter(current), c)
    ensures NoSeparator(current + [c]) <==> !(c == SEMICOLON && ModeAfter(current) == Outside)
    ensures ModeAfter(current) == Outside ==> Field(current)
  {
    hide ModeAfter;
    var more := current + [c];
    ModeNext(more, |current|);
    assert more[..|current| + 1] == more && more[..|current|] == current;
    forall i | 0 <= i < |current|
      ensures SeparatorAt(more, i) == SeparatorAt(current, i)
    {
      assert more[..i] == current[..i];
    }
    assert SeparatorAt(more, |current|) <==> c == SEMICOLON && ModeAfter(current) == Outside;
  }

  lemma JoinedNext(raw: seq<bytes>, current: bytes, c: byte)
    ensures Joined(raw, current + [c]) == Joined(raw, current) + [c]
    ensures Joined(raw + [current], []) == Joined(raw, current) + [SEMICOLON]
  {
    assert (raw + [current])[..|raw|] == raw && (raw + [current + [c]])[..|raw|] == raw;
    assert (raw + [current] + [[]])[..|raw| + 1] == raw + [current];
    if raw != [] {
      assert Join(raw) + [SEMICOLON] + (current + [c]) == Join(raw) + [SEMICOLON] + current + [c];
    }
  }

  // ---- Taking quotes off ----

  /** The text inside quotes without its escapes; a lone backslash at the end has nothing to escape. */
  function Unescape(s: bytes): Option<bytes> {
    if s == [] then Some([])
    else if s[0] != BACKSLASH then Prepended([s[0]], Unescape(s[1..]))
    else if |s| == 1 then None
    else Prepended([s[1]], Unescape(s[2..]))
  }

  function Prepended(front: bytes, tail: Option<bytes>): Option<bytes> {
    match tail case None => None case Some(rest) => Some(front + rest)
  }

  lemma PrependedTwice(a: bytes, b: bytes, tail: Option<bytes>)
    ensures Prepended(a, Prepended(b, tail)) == Prepended(a + b, tail) && Prepended([], tail) == tail
  {
    if tail.Some? {
      assert [] + tail.value == tail.value;
      assert a + (b + tail.value) == (a + b) + tail.value;
    }
  }

  function Escape(s: bytes): bytes {
    if s == [] then []
    else (if s[0] as char == '\"' || s[0] as char == '\\' then ['\\' as int, s[0]] else [s[0]]) + Escape(s[1..])
  }

  function Quote(s: bytes): bytes { ['\"' as int] + Escape(s) + ['\"' as int] }

  lemma {:induction false} EscapeRoundTrip(s: bytes)
    ensures Unescape(Escape(s)) == Some(s)
  {
    if s != [] {
      EscapeRoundTrip(s[1..]);
      assert s == [s[0]] + s[1..];
      var e, rest := Escape(s), Escape(s[1..]);
      if s[0] == QUOTE || s[0] == BACKSLASH {
        assert e[0] == BACKSLASH && e[1] == s[0] && e[2..] == rest;
      } else {
        assert e[0] == s[0] && e[1..] == rest;
      }
    }
  }

  function Unquoted(value: bytes): Option<bytes> {
    if value == [] || value[0] != QUOTE then Some(value)
    else if value[|value| - 1] != QUOTE || |value| < 2 then None
    else Unescape(value[1..|value| - 1])
  }

  /** Every text can be quoted, and comes back when the quotes are taken off. */
  lemma QuoteRoundTrip(s: bytes)
    ensures Unquoted(Quote(s)) == Some(s)
  {
    EscapeRoundTrip(s);
    assert Quote(s)[1..|Quote(s)| - 1] == Escape(s);
  }

  method UnquoteParameter(value: bytes) returns (r: Option<bytes>)
    ensures r == Unquoted(value)
  {
    if value == [] || value[0] != QUOTE {
      return Some(value);
    }
    if value[|value| - 1] != QUOTE || |value| < 2 {
      return None;
    }
    var inner := value[1..|value| - 1];
    var output: bytes, escaped := [], false;
    assert inner[0..] == inner;
    PrependedTwice([], [], Unescape(inner));
    for k := 0 to |inner|
      invariant escaped ==> k > 0 && inner[k - 1] == BACKSLASH
      invariant Unescape(inner) == Prepended(output, Unescape(if escaped then inner[k - 1..] else inner[k..]))
    {
      var character := inner[k];
      PrependedTwice(output, [character], Unescape(inner[k + 1..]));
      if escaped {
        assert inner[k - 1..][2..] == inner[k + 1..];
        output := output + [character];
        escaped := false;
      } else if character == BACKSLASH {
        escaped := true;
      } else {
        assert inner[k..][1..] == inner[k + 1..];
        output := output + [character];
      }
    }
    if escaped {
      assert |inner[|inner| - 1..]| == 1;
      return None;
    }
    assert inner[|inner|..] == [] && output + [] == output;
    return Some(output);
  }

  // ---- The boundary ----

  function SplitOnce(parameter: bytes): Option<(bytes, bytes)> {
    match IndexOf(parameter, EQUALS)
    case None => None
    case Some(i) => Some((parameter[..i], parameter[i + 1..]))
  }

  predicate NamesBoundary(parameter: bytes) {
    SplitOnce(parameter).Some? && LowerAll(Trim(SplitOnce(parameter).value.0)) == BOUNDARY
  }

  /** Every parameter has a name and a value, and one of them alone is the boundary. */
  ghost predicate OneBoundary(parameters: seq<bytes>, at: nat) {
    && at < |parameters| && (forall i | 0 <= i < |parameters| :: SplitOnce(parameters[i]).Some?)
    && NamesBoundary(parameters[at])
    && forall i | 0 <= i < |parameters| && i != at :: !NamesBoundary(parameters[i])
  }

  function ValueOf(parameter: bytes): Option<bytes>
    requires NamesBoundary(parameter)
  {
    Unquoted(Trim(SplitOnce(parameter).value.1))
  }

  predicate IsMultipartMixed(field: bytes) { LowerAll(Trim(field)) == MULTIPART_MIXED }

  /** What a Content-Type has to say for its boundary to be `boundary`. */
  ghost predicate Announces(fields: seq<bytes>, boundary: bytes) {
    && fields != [] && IsMultipartMixed(fields[0]) && LegalBoundary(boundary)
    && exists at: nat :: OneBoundary(fields[1..], at) && ValueOf(fields[1..][at]) == Some(boundary)
  }

  lemma AnnouncesOne(fields: seq<bytes>, a: bytes, b: bytes)
    requires Announces(fields, a) && Announces(fields, b)
    ensures a == b
  {
    var i: nat :| OneBoundary(fields[1..], i) && ValueOf(fields[1..][i]) == Some(a);
    var j: nat :| OneBoundary(fields[1..], j) && ValueOf(fields[1..][j]) == Some(b);
    assert i == j;
  }

  /** The boundary is returned exactly when the value is one closed list of fields that announces it. */
  method BoundaryFromContentType(value: bytes) returns (r: Result<bytes, ContentTypeError>, ghost raw: seq<bytes>)
    ensures r.Ok? ==> Fields(raw) && value == Join(raw) && Announces(TrimAll(raw), r.value)
    ensures r.Err?
            ==> forall fields, boundary | Fields(fields)
                && value == Join(fields) :: !Announces(TrimAll(fields), boundary)
  {
    hide Field, Trim, LowerAll, LegalBoundary, Join, ModeAfter, Unquoted, SplitOnce;
    var split;
    split, raw := SplitParameters(value);
    if split.Err? {
      OpenIsUnsplit(value);
      return Err(split.error), raw;
    }
    var parameters := split.value;
    OnlySplit(value, raw);
    if !IsMultipartMixed(parameters[0]) {
      return Err(WrongMediaType), raw;
    }
    var boundary: Option<bytes> := None;
    ghost var rest, at: nat := parameters[1..], 0;
    for k := 1 to |parameters|
      invariant forall i | 0 <= i < k - 1 :: SplitOnce(rest[i]).Some?
      invariant boundary.Some? ==> at < k - 1 && NamesBoundary(rest[at]) && ValueOf(rest[at]) == boundary
      invariant forall i | 0 <= i < k - 1 && (boundary.None? || i != at) :: !NamesBoundary(rest[i])
    {
      assert rest[k - 1] == parameters[k];
      var pair := SplitOnce(parameters[k]);
      if pair.None? {
        NotAnnounced(parameters, k - 1, 0);
        return Err(MalformedParameter), raw;
      }
      if LowerAll(Trim(pair.value.0)) == BOUNDARY {
        if boundary.Some? {
          NotAnnounced(parameters, k - 1, at);
          return Err(DuplicateBoundary), raw;
        }
        boundary := UnquoteParameter(Trim(pair.value.1));
        at := k - 1;
        if boundary.None? {
          NotUnquoted(parameters, at);
          return Err(Unterminated), raw;
        }
      }
    }
    if boundary.None? {
      return Err(NoBoundary), raw;
    }
    assert OneBoundary(rest, at);
    if !LegalBoundary(boundary.value) {
      OnlyThis(parameters, at, boundary.value);
      return Err(IllegalBoundary), raw;
    }
    return Ok(boundary.value), raw;
  }

  lemma OpenIsUnsplit(value: bytes)
    requires ModeAfter(value) != Outside
    ensures forall fields | Fields(fields) :: value != Join(fields)
  {
    forall fields | Fields(fields)
      ensures value != Join(fields)
    {
      JoinClosed(fields);
    }
  }

  lemma OnlySplit(value: bytes, raw: seq<bytes>)
    requires Fields(raw) && value == Join(raw)
    ensures forall fields | Fields(fields) && value == Join(fields) :: fields == raw
  {
    hide Join, Field;
    forall fields | Fields(fields) && value == Join(fields)
      ensures fields == raw
    {
      JoinUnique(fields, raw);
    }
  }

  /** A parameter without a value, or a second boundary, spoils the whole list. */
  lemma NotAnnounced(fields: seq<bytes>, i: nat, j: nat)
    requires i + 1 < |fields| && j + 1 < |fields|
    requires SplitOnce(fields[i + 1]).None? || (i != j && NamesBoundary(fields[i + 1]) && NamesBoundary(fields[j + 1]))
    ensures forall boundary :: !Announces(fields, boundary)
  {
    hide SplitOnce, NamesBoundary, Unquoted;
    assert fields[1..][i] == fields[i + 1] && fields[1..][j] == fields[j + 1];
  }

  lemma NotUnquoted(fields: seq<bytes>, at: nat)
    requires at + 1 < |fields| && NamesBoundary(fields[at + 1]) && ValueOf(fields[at + 1]).None?
    ensures forall boundary :: !Announces(fields, boundary)
  {
    hide SplitOnce, NamesBoundary, Unquoted;
    assert fields[1..][at] == fields[at + 1];
  }

  lemma OnlyThis(fields: seq<bytes>, at: nat, value: bytes)
    requires fields != [] && OneBoundary(fields[1..], at) && ValueOf(fields[1..][at]) == Some(value)
             && !LegalBoundary(value)
    ensures forall boundary :: !Announces(fields, boundary)
  {
    hide SplitOnce, NamesBoundary, Unquoted;
  }

  // ---- What a server sends ----

  /** The fields of `multipart/mixed; boundary=` followed by a value. */
  function Announcement(value: bytes): seq<bytes> {
    [MULTIPART_MIXED, [SPACE] + BOUNDARY + [EQUALS] + value]
  }

  /** Nothing in `s` opens or closes quotes, escapes, or separates. */
  predicate Neutral(s: bytes) {
    forall i | 0 <= i < |s| :: s[i] != QUOTE && s[i] != BACKSLASH && s[i] != SEMICOLON
  }

  lemma {:induction false} NoQuotesInside(s: bytes, tail: bytes)
    requires ModeAfter(s) != Escaped && Neutral(tail)
    ensures ModeAfter(s + tail) == ModeAfter(s)
  {
    if tail == [] {
      assert s + tail == s;
    } else {
      var front := tail[..|tail| - 1];
      assert (s + tail)[..|s + tail| - 1] == s + front;
      NoQuotesInside(s, front);
    }
  }

  lemma QuoteAppended(s: bytes)
    ensures ModeAfter(s + [QUOTE]) == Next(ModeAfter(s), QUOTE)
  {
    assert (s + [QUOTE])[..|s|] == s;
  }

  lemma {:induction false} NothingToEscape(s: bytes)
    requires Neutral(s)
    ensures Escape(s) == s
  {
    if s != [] {
      NothingToEscape(s[1..]);
      assert s == [s[0]] + s[1..];
    }
  }

  lemma BoundaryIsPlain(b: bytes)
    requires LegalBoundary(b)
    ensures Neutral(b)
  {
    forall i | 0 <= i < |b|
      ensures IsBoundaryByte(b[i])
    {
      assert b[i] in b;
    }
  }

  lemma NeutralField(s: bytes)
    requires Neutral(s)
    ensures ModeAfter(s) == Outside && Field(s)
  {
    StartsOutside([]);
    NoQuotesInside([], s);
    assert [] + s == s;
  }

  lemma QuotedField(head: bytes, b: bytes)
    requires Neutral(head) && Neutral(b)
    ensures Field(head + Quote(b))
  {
    hide ModeAfter, Escape;
    NothingToEscape(b);
    NeutralField(head);
    QuoteAppended(head);
    NoQuotesInside(head + [QUOTE], b);
    QuoteAppended(head + [QUOTE] + b);
    var s := head + [QUOTE] + b + [QUOTE];
    assert head + Quote(b) == s;
    forall i | 0 <= i < |s|
      ensures s[i] != SEMICOLON
    {
    }
  }

  /** Both ways of announcing a boundary are one media type and one parameter. */
  lemma AnnouncementFields(b: bytes)
    requires LegalBoundary(b)
    ensures Fields(Announcement(b)) && Fields(Announcement(Quote(b)))
  {
    hide LegalBoundary, Quote, Field;
    BoundaryIsPlain(b);
    var head := [SPACE] + BOUNDARY + [EQUALS];
    NeutralField(MULTIPART_MIXED);
    NeutralField(head + b);
    QuotedField(head, b);
  }

  lemma SpaceInFront(s: bytes)
    requires Trimmed(s)
    ensures Trim([SPACE] + s) == s
  {
    var spaced := [SPACE] + s;
    assert LeadingSpace(spaced) == 1 && spaced[1..] == s;
    assert TrimStart(spaced) == TrimStart(s) == s;
  }

  lemma ParameterParts(value: bytes)
    requires value != [] && TrailingSpace(value) == 0 && 33 <= value[|value| - 1] <= 126
    ensures var p := Trim([SPACE] + BOUNDARY + [EQUALS] + value);
              NamesBoundary(p) && SplitOnce(p) == Some((BOUNDARY, value))
  {
    hide LowerAll, Trim;
    var p := BOUNDARY + [EQUALS] + value;
    ParameterTrimmed(value);
    assert [SPACE] + BOUNDARY + [EQUALS] + value == [SPACE] + p;
    FirstOfByte(BOUNDARY, [EQUALS] + value, EQUALS);
    assert BOUNDARY + ([EQUALS] + value) == p;
    assert p[|BOUNDARY| + 1..] == value;
    NamesFixed();
  }

  lemma ParameterTrimmed(value: bytes)
    requires value != [] && 33 <= value[|value| - 1] <= 126
    ensures Trim([SPACE] + (BOUNDARY + [EQUALS] + value)) == BOUNDARY + [EQUALS] + value
  {
    hide Trim;
    var p := BOUNDARY + [EQUALS] + value;
    assert p[|p| - 1] == value[|value| - 1] && p[0] == BOUNDARY[0];
    VisibleAsciiIsTrimmed(p);
    SpaceInFront(p);
  }

  lemma NamesFixed()
    ensures LowerAll(Trim(BOUNDARY)) == BOUNDARY && LowerAll(Trim(MULTIPART_MIXED)) == MULTIPART_MIXED
    ensures Trim(MULTIPART_MIXED) == MULTIPART_MIXED
  {
    VisibleAsciiIsTrimmed(BOUNDARY);
    TrimmedIsFixed(BOUNDARY);
    VisibleAsciiIsTrimmed(MULTIPART_MIXED);
    TrimmedIsFixed(MULTIPART_MIXED);
  }

  /** The announcement names a boundary, and its value is what unquoting the trimmed value gives. */
  lemma Announced(value: bytes, b: bytes)
    requires value != [] && TrailingSpace(value) == 0 && 33 <= value[|value| - 1] <= 126 && LegalBoundary(b)
    ensures Announces(TrimAll(Announcement(value)), b) <==> Unquoted(Trim(value)) == Some(b)
  {
    hide Trim, LowerAll, LegalBoundary, Unquoted;
    var fields := TrimAll(Announcement(value));
    ParameterParts(value);
    NamesFixed();
    assert fields[0] == MULTIPART_MIXED && fields[1..] == [fields[1]];
    assert OneBoundary(fields[1..], 0);
    assert forall at: nat :: OneBoundary(fields[1..], at) ==> at == 0;
  }

  /** A quoted boundary is found, whatever legal boundary it is. */
  lemma QuotedBoundaryIsFound(b: bytes)
    requires LegalBoundary(b)
    ensures Fields(Announcement(Quote(b))) && Announces(TrimAll(Announcement(Quote(b))), b)
  {
    hide LegalBoundary, Escape, Unquoted;
    AnnouncementFields(b);
    VisibleAsciiIsTrimmed(Quote(b));
    TrimmedIsFixed(Quote(b));
    Announced(Quote(b), b);
    QuoteRoundTrip(b);
  }

  lemma {:induction false} TrimStartWithin(s: bytes)
    ensures |TrimStart(s)| <= |s| && (Neutral(s) ==> Neutral(TrimStart(s)))
    decreases |s|
  {
    if LeadingSpace(s) > 0 {
      TrimStartWithin(s[LeadingSpace(s)..]);
    }
  }

  lemma {:induction false} TrimEndWithin(s: bytes)
    ensures |TrimEnd(s)| <= |s| && (Neutral(s) ==> Neutral(TrimEnd(s)))
    decreases |s|
  {
    if TrailingSpace(s) > 0 {
      TrimEndWithin(s[..|s| - TrailingSpace(s)]);
    }
  }

  lemma TrimShortens(s: bytes)
    requires s != [] && s[0] == SPACE && Neutral(s)
    ensures |Trim(s)| < |s| && Neutral(Trim(s))
  {
    hide LeadingSpace, TrailingSpace;
    assert LeadingSpace(s) == 1 by {
      LeadingIsOne(s);
    }
    TrimStartWithin(s[1..]);
    TrimEndWithin(TrimStart(s));
  }

  lemma LeadingIsOne(s: bytes)
    requires s != [] && s[0] == SPACE
    ensures LeadingSpace(s) == 1
  {
  }

  lemma BoundaryEnd(b: bytes)
    requires LegalBoundary(b)
    ensures b != [] && 33 <= b[|b| - 1] <= 126 && TrailingSpace(b) == 0
    ensures b[0] != SPACE ==> 33 <= b[0] <= 126
  {
    assert b[|b| - 1] in b && b[0] in b;
  }

  /** An unquoted boundary is found unless it begins with a space, which trimming takes away. */
  lemma PlainBoundaryIsFoundIff(b: bytes)
    requires LegalBoundary(b)
    ensures Fields(Announcement(b))
    ensures Announces(TrimAll(Announcement(b)), b) <==> b[0] != SPACE
  {
    hide LegalBoundary, LeadingSpace, TrailingSpace;
    AnnouncementFields(b);
    BoundaryEnd(b);
    Announced(b, b);
    BoundaryIsPlain(b);
    if b[0] != SPACE {
      VisibleAsciiIsTrimmed(b);
      TrimmedIsFixed(b);
    } else {
      TrimShortens(b);
    }
  }
}
