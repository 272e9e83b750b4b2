/** The tokenizer around the merge loop: the byte-to-character bijection, the scan for added tokens,
    and losslessness of the whole encoding. */
module Tokenizer {
  import opened Bytes
  import opened BytePair

  // ---- The byte encoder ----

  /** Bytes that stand for themselves. */
  predicate Printable(b: nat) {
    33 <= b <= 126 || 161 <= b <= 172 || 174 <= b <= 255
  }

  /** The code point of a byte: itself if printable, else the next free one from 256 on. */
  function EncodeByte(b: byte): nat {
    if Printable(b) then b
    else if b <= 32 then 256 + b
    else if b <= 160 then 256 + 33 + (b - 127)
    else 256 + 67
  }

  function DecodeByte(code: nat): Option<byte> {
    if code < 256 then (if Printable(code) then Some(code) else None)
    else if code - 256 <= 32 then Some(code - 256)
    else if code - 256 <= 66 then Some(code - 256 - 33 + 127)
    else if code - 256 == 67 then Some(173)
    else None
  }

  /** The encoder is injective: every byte can be recovered from its code point. */
  lemma ByteRoundTrip(b: byte)
    ensures DecodeByte(EncodeByte(b)) == Some(b)
  {
  }

  /** Non-printable bytes below `b`. */
  function Skipped(b: nat): nat
    requires b <= 256
  {
    if b == 0 then 0 else Skipped(b - 1) + if Printable(b - 1) then 0 else 1
  }

  lemma {:induction false} SkippedValue(b: nat)
    requires b <= 256
    ensures Skipped(b) == if b <= 33 then b else if b <= 127 then 33 else if b <= 161 then 33 + b - 127
            else if b <= 173 then 67 else 68
  {
    if b > 0 {
      SkippedValue(b - 1);
    }
  }

  /** The table is filled in two steps: the printable ranges first, then the rest in order. */
  method BuildByteEncoder() returns (encoder: array<nat>)
    ensures fresh(encoder) && encoder.Length == 256 && forall b: byte :: encoder[b] == EncodeByte(b)
  {
    hide EncodeByte;
    var values: seq<byte> := seq(94, i requires 0 <= i < 94 => 33 + i) + seq(12, i requires 0 <= i < 12 => 161 + i)
        + seq(82, i requires 0 <= i < 82 => 174 + i);
    PrintableListed(values);
    var present := MarkPresent(values);
    var mapped: seq<nat>;
    values, mapped := AppendMissing(values, present);
    encoder := new nat[256](_ => 0);
    for i := 0 to |values|
      invariant forall j | 0 <= j < i :: encoder[values[j]] == EncodeByte(values[j])
    {
      encoder[values[i]] := mapped[i];
    }
    forall b: byte
      ensures encoder[b] == EncodeByte(b)
    {
      assert b in values;
      var j :| 0 <= j < |values| && values[j] == b;
    }
  }

  method MarkPresent(values: seq<byte>) returns (present: array<bool>)
    ensures fresh(present) && present.Length == 256 && forall b: byte :: present[b] <==> b in values
  {
    present := new bool[256](_ => false);
    for i := 0 to |values|
      invariant forall b: byte :: present[b] <==> b in values[..i]
    {
      assert values[..i + 1] == values[..i] + [values[i]];
      present[values[i]] := true;
    }
    assert values[..|values|] == values;
  }

  /** Gives every byte that is not listed the next code point from 256 on. */
  method AppendMissing(listed: seq<byte>, present: array<bool>) returns (values: seq<byte>, mapped: seq<nat>)
    requires present.Length == 256 && forall b: byte :: present[b] <==> Printable(b)
    requires forall b: byte :: b in listed <==> Printable(b)
    requires forall i | 0 <= i < |listed| :: EncodeByte(listed[i]) == listed[i]
    ensures |mapped| == |values| && (forall b: byte :: b in values)
    ensures forall i | 0 <= i < |values| :: mapped[i] == EncodeByte(values[i])
  {
    hide EncodeByte, Printable;
    values, mapped := listed, listed;
    var offset: nat := 0;
    for b := 0 to 256
      invariant offset == Skipped(b) && |mapped| == |values|
      invariant forall k: byte :: Printable(k) || k < b ==> k in values
      invariant forall i | 0 <= i < |values| :: mapped[i] == EncodeByte(values[i])
    {
      if !present[b] {
        NextCode(b);
        values := values + [b];
        mapped := mapped + [256 + offset];
        offset := offset + 1;
      }
    }
  }

  lemma NextCode(b: byte)
    requires !Printable(b)
    ensures EncodeByte(b) == 256 + Skipped(b)
  {
    SkippedValue(b);
  }

  lemma PrintableListed(values: seq<byte>)
    requires values
             == seq(94, i requires 0 <= i < 94 => 33 + i) + seq(12, i requires 0 <= i < 12 => 161 + i)
                 + seq(82, i requires 0 <= i < 82 => 174 + i)
    ensures forall b: byte :: b in values <==> Printable(b)
    ensures forall i | 0 <= i < |values| :: EncodeByte(values[i]) == values[i]
  {
    forall b: byte | Printable(b)
      ensures b in values
    {
      var k := if b <= 126 then b - 33 else if b <= 172 then 94 + b - 161 else 106 + b - 174;
      assert values[k] == b;
    }
  }

  function EncodeBytes(piece: bytes): (s: Symbol)
    ensures |s| == |piece|
  {
    seq(|piece|, i requires 0 <= i < |piece| => EncodeByte(piece[i]))
  }

  function DecodeSymbol(s: Symbol): bytes {
    if s == [] then []
    else (match DecodeByte(s[0]) case None => [] case Some(b) => [b]) + DecodeSymbol(s[1..])
  }

  lemma {:induction false} SymbolRoundTrip(piece: bytes)
    ensures DecodeSymbol(EncodeBytes(piece)) == piece
  {
    if piece != [] {
      ByteRoundTrip(piece[0]);
      assert EncodeBytes(piece)[1..] == EncodeBytes(piece[1..]);
      SymbolRoundTrip(piece[1..]);
    }
  }

  lemma {:induction false} DecodeConcat(a: Symbol, b: Symbol)
    ensures DecodeSymbol(a + b) == DecodeSymbol(a) + DecodeSymbol(b)
  {
    hide DecodeByte;
    if a == [] {
      assert a + b == b;
    } else {
      assert (a + b)[0] == a[0] && (a + b)[1..] == a[1..] + b;
      DecodeConcat(a[1..], b);
      var first := match DecodeByte(a[0]) case None => [] case Some(byte) => [byte];
      assert first + (DecodeSymbol(a[1..]) + DecodeSymbol(b)) == (first + DecodeSymbol(a[1..])) + DecodeSymbol(b);
    }
  }

  // ---- Added tokens ----

  datatype AddedToken = AddedToken(content: bytes, id: nat)

  /** A token found in a text. */
  datatype Match = Match(offset: nat, token: AddedToken)

  /** Earlier first, then longer, then the smaller id. */
  predicate Before(a: Match, b: Match) {
    || a.offset < b.offset
    || (a.offset == b.offset && |a.token.content| > |b.token.content|)
    || (a.offset == b.offset && |a.token.content| == |b.token.content| && a.token.id < b.token.id)
  }

  function NextAddedToken(tokens: seq<AddedToken>, text: bytes): (r: Option<Match>)
    ensures r.Some? ==> r.value.token in tokens && OccursAt(text, r.value.token.content, r.value.offset)
  {
    if tokens == [] then None
    else
      var earlier := NextAddedToken(tokens[..|tokens| - 1], text);
      var token := tokens[|tokens| - 1];
      match FirstIndex(text, token.content)
      case None => earlier
      case Some(offset) =>
        if earlier.Some? && !Before(Match(offset, token), earlier.value) then earlier else Some(Match(offset, token))
  }

  /** The scan finds the leftmost added token, of those the longest, and of those the one with the smallest
      id: no occurrence of any token comes before it. */
  lemma {:induction false} LeftmostLongest(tokens: seq<AddedToken>, text: bytes, token: AddedToken, p: nat)
    requires token in tokens && OccursAt(text, token.content, p)
    ensures var r := NextAddedToken(tokens, text);
            && r.Some? && r.value.offset <= p
            && (p == r.value.offset ==> |token.content| <= |r.value.token.content|)
            && (p == r.value.offset && |token.content| == |r.value.token.content| ==> r.value.token.id <= token.id)
            && !Before(Match(p, token), r.value)
  {
    var front, last := tokens[..|tokens| - 1], tokens[|tokens| - 1];
    var q := FirstIndex(text, token.content);
    assert q.Some? && q.value <= p;
    if token in front {
      LeftmostLongest(front, text, token, p);
    }
  }

  /** The text in front of a match holds no added token. */
  lemma NoTokenInFront(tokens: seq<AddedToken>, text: bytes, token: AddedToken)
    requires NextAddedToken(tokens, text).Some? && token in tokens && token.content != []
    ensures FirstIndex(text[..NextAddedToken(tokens, text).value.offset], token.content).None?
  {
    var offset := NextAddedToken(tokens, text).value.offset;
    var found := FirstIndex(text[..offset], token.content);
    if found.Some? {
      var p := found.value;
      assert text[..offset][p..p + |token.content|] == text[p..p + |token.content|];
      LeftmostLongest(tokens, text, token, p);
    }
  }

  // ---- Encoding ----

  type Vocabulary = map<Symbol, nat>

  datatype TokenizerTables = TokenizerTables(vocabulary: Vocabulary, ranks: Ranks, added: seq<AddedToken>)

  /** Looks up every symbol; a symbol without an id is an error. */
  function Lookup(symbols: seq<Symbol>, vocabulary: Vocabulary): Option<seq<nat>> {
    if symbols == [] then Some([])
    else match Lookup(symbols[..|symbols| - 1], vocabulary)
      case None => None
      case Some(ids) => if symbols[|symbols| - 1] in vocabulary then Some(ids + [vocabulary[symbols[|symbols| - 1]]])
        else None
  }

  function EncodePieces(pieces: seq<bytes>, tables: TokenizerTables): Option<seq<nat>> {
    if pieces == [] then Some([])
    else match EncodePieces(pieces[..|pieces| - 1], tables)
      case None => None
      case Some(ids) =>
        match Lookup(Encode(Singletons(EncodeBytes(pieces[|pieces| - 1])), tables.ranks), tables.vocabulary)
        case None => None
        case Some(more) => Some(ids + more)
  }

  /** The ids of a normalized text: ordinary stretches between added tokens. */
  function EncodeText(text: bytes, split: bytes -> seq<bytes>, tables: TokenizerTables): Option<seq<nat>>
    requires forall t | t in tables.added :: t.content != []
    decreases |text|
  {
    if text == [] then Some([])
    else match NextAddedToken(tables.added, text)
      case None => EncodePieces(split(text), tables)
      case Some(found) =>
        match if found.offset > 0 then EncodePieces(split(text[..found.offset]), tables) else Some([])
        case None => None
        case Some(front) =>
          match EncodeText(text[found.offset + |found.token.content|..], split, tables)
          case None => None
          case Some(rest) => Some(front + [found.token.id] + rest)
  }

  method EncodeOrdinary(text: bytes, split: bytes -> seq<bytes>, tables: TokenizerTables) returns (r: Option<seq<nat>>)
    ensures r == EncodePieces(split(text), tables)
  {
    var pieces := split(text);
    var ids: seq<nat> := [];
    for i := 0 to |pieces|
      invariant EncodePieces(pieces[..i], tables) == Some(ids)
    {
      assert pieces[..i + 1][..i] == pieces[..i];
      var symbols := BytePairEncode(EncodeBytes(pieces[i]), tables.ranks);
      var found := LookupSymbols(symbols, tables.vocabulary);
      if found.None? {
        PieceFailurePersists(pieces, i + 1, tables);
        return None;
      }
      ids := ids + found.value;
    }
    assert pieces[..|pieces|] == pieces;
    r := Some(ids);
  }

  method LookupSymbols(symbols: seq<Symbol>, vocabulary: Vocabulary) returns (r: Option<seq<nat>>)
    ensures r == Lookup(symbols, vocabulary)
  {
    var ids: seq<nat> := [];
    for i := 0 to |symbols|
      invariant Lookup(symbols[..i], vocabulary) == Some(ids)
    {
      assert symbols[..i + 1][..i] == symbols[..i];
      if symbols[i] !in vocabulary {
        LookupFailurePersists(symbols, i + 1, vocabulary);
        return None;
      }
      ids := ids + [vocabulary[symbols[i]]];
    }
    assert symbols[..|symbols|] == symbols;
    r := Some(ids);
  }

  lemma {:induction false} LookupFailurePersists(symbols: seq<Symbol>, i: nat, vocabulary: Vocabulary)
    requires i <= |symbols| && Lookup(symbols[..i], vocabulary).None?
    ensures Lookup(symbols, vocabulary).None?
  {
    if i == |symbols| {
      assert symbols[..i] == symbols;
    } else {
      assert symbols[..|symbols| - 1][..i] == symbols[..i];
      LookupFailurePersists(symbols[..|symbols| - 1], i, vocabulary);
    }
  }

  lemma {:induction false} PieceFailurePersists(pieces: seq<bytes>, i: nat, tables: TokenizerTables)
    requires i <= |pieces| && EncodePieces(pieces[..i], tables).None?
    ensures EncodePieces(pieces, tables).None?
  {
    if i == |pieces| {
      assert pieces[..i] == pieces;
    } else {
      assert pieces[..|pieces| - 1][..i] == pieces[..i];
      PieceFailurePersists(pieces[..|pieces| - 1], i, tables);
    }
  }

  /** The scanning loop with its cursor. An empty added token would never advance it. */
  method EncodeNormalized(text: bytes, split: bytes -> seq<bytes>, tables: TokenizerTables)
    returns (r: Option<seq<nat>>)
    requires forall t | t in tables.added :: t.content != []
    ensures r == EncodeText(text, split, tables)
  {
    hide EncodePieces, NextAddedToken, FirstIndex;
    var ids: seq<nat> := [];
    var cursor := 0;
    assert text[0..] == text;
    PrependNothing(EncodeText(text, split, tables));
    while cursor < |text|
      invariant cursor <= |text|
      invariant EncodeText(text, split, tables) == PrependIds(ids, EncodeText(text[cursor..], split, tables))
      decreases |text| - cursor
    {
      var rest := text[cursor..];
      var found := NextAddedToken(tables.added, rest);
      if found.None? {
        var last := EncodeOrdinary(rest, split, tables);
        return PrependIds(ids, last);
      }
      var offset, token := found.value.offset, found.value.token;
      var front: Option<seq<nat>> := Some([]);
      if offset > 0 {
        front := EncodeOrdinary(rest[..offset], split, tables);
        if front.None? {
          return None;
        }
      }
      var step := offset + |token.content|;
      assert rest[step..] == text[cursor + step..];
      PrependStep(ids, front.value + [token.id], EncodeText(text[cursor + step..], split, tables));
      ids := ids + (front.value + [token.id]);
      cursor := cursor + step;
    }
    assert text[cursor..] == [] && ids + [] == ids;
    r := Some(ids);
  }

  function PrependIds(ids: seq<nat>, rest: Option<seq<nat>>): Option<seq<nat>> {
    match rest case None => None case Some(more) => Some(ids + more)
  }

  lemma PrependNothing(rest: Option<seq<nat>>)
    ensures PrependIds([], rest) == rest
  {
    if rest.Some? {
      assert [] + rest.value == rest.value;
    }
  }

  lemma PrependStep(a: seq<nat>, b: seq<nat>, rest: Option<seq<nat>>)
    ensures PrependIds(a, PrependIds(b, rest)) == PrependIds(a + b, rest)
  {
    if rest.Some? {
      assert a + (b + rest.value) == (a + b) + rest.value;
    }
  }

  // ---- Losslessness ----

  /** What an id stands for in the tables. */
  ghost predicate Denotes(tables: TokenizerTables, id: nat, text: bytes) {
    || (exists k | 0 <= k < |tables.added| :: tables.added[k] == AddedToken(text, id))
    || (exists s | s in tables.vocabulary :: tables.vocabulary[s] == id && DecodeSymbol(s) == text)
  }

  /** No id is used twice. */
  ghost predicate UniqueIds(tables: TokenizerTables) {
    && (forall s, t | s in tables.vocabulary && t in tables.vocabulary
        && tables.vocabulary[s] == tables.vocabulary[t] :: s == t)
    && (forall i, j | 0 <= i < |tables.added| && 0 <= j < |tables.added|
        && tables.added[i].id == tables.added[j].id :: tables.added[i] == tables.added[j])
    && (forall i, s | 0 <= i < |tables.added| && s in tables.vocabulary :: tables.added[i].id != tables.vocabulary[s])
  }

  /** The decoder: the text an id stands for, for every id in turn. */
  ghost function DecodeId(tables: TokenizerTables, id: nat): bytes {
    if exists text :: Denotes(tables, id, text) then (var text :| Denotes(tables, id, text); text) else []
  }

  ghost function DecodeIds(tables: TokenizerTables, ids: seq<nat>): bytes {
    if ids == [] then [] else DecodeIds(tables, ids[..|ids| - 1]) + DecodeId(tables, ids[|ids| - 1])
  }

  lemma DenotationIsUnique(tables: TokenizerTables, id: nat, text: bytes)
    requires UniqueIds(tables) && Denotes(tables, id, text)
    ensures DecodeId(tables, id) == text
  {
  }

  lemma {:induction false} DecodeIdsConcat(tables: TokenizerTables, a: seq<nat>, b: seq<nat>)
    ensures DecodeIds(tables, a + b) == DecodeIds(tables, a) + DecodeIds(tables, b)
  {
    hide DecodeId;
    if b == [] {
      assert a + b == a;
    } else {
      assert (a + b)[..|a + b| - 1] == a + b[..|b| - 1];
      DecodeIdsConcat(tables, a, b[..|b| - 1]);
    }
  }

  lemma {:induction false} LookupDecodes(symbols: seq<Symbol>, tables: TokenizerTables)
    requires UniqueIds(tables) && Lookup(symbols, tables.vocabulary).Some?
    ensures DecodeIds(tables, Lookup(symbols, tables.vocabulary).value) == DecodeSymbol(Flatten(symbols))
  {
    hide UniqueIds, DecodeId;
    if symbols != [] {
      var front, last := symbols[..|symbols| - 1], symbols[|symbols| - 1];
      LookupDecodes(front, tables);
      var id := tables.vocabulary[last];
      assert Denotes(tables, id, DecodeSymbol(last));
      DenotationIsUnique(tables, id, DecodeSymbol(last));
      assert symbols == front + [last];
      FlattenAppend(front, last);
      DecodeConcat(Flatten(front), last);
    }
  }

  lemma EncodedText(token: Symbol, ranks: Ranks)
    ensures Flatten(Encode(Singletons(token), ranks)) == token
  {
    SingletonsFlatten(token);
    EncodeKeepsText(Singletons(token), ranks);
  }

  lemma {:induction false} EncodeKeepsText(symbols: seq<Symbol>, ranks: Ranks)
    ensures Flatten(Encode(symbols, ranks)) == Flatten(symbols)
    decreases |symbols|
  {
    var best := Best(symbols, ranks);
    if best.Some? {
      var i := best.value;
      MergeShrinks(symbols, i);
      MergeKeepsText(symbols, symbols[i], symbols[i + 1]);
      EncodeKeepsText(MergeAll(symbols, symbols[i], symbols[i + 1]), ranks);
    }
  }

  lemma {:induction false} PiecesDecode(pieces: seq<bytes>, tables: TokenizerTables)
    requires UniqueIds(tables) && EncodePieces(pieces, tables).Some?
    ensures DecodeIds(tables, EncodePieces(pieces, tables).value) == Flatten(pieces)
  {
    hide UniqueIds, DecodeId, DecodeIds, Encode, Lookup;
    if pieces == [] {
      NothingDecodes(tables);
    } else {
      var front, last := pieces[..|pieces| - 1], pieces[|pieces| - 1];
      PiecesDecode(front, tables);
      var symbols := Encode(Singletons(EncodeBytes(last)), tables.ranks);
      EncodedText(EncodeBytes(last), tables.ranks);
      LookupDecodes(symbols, tables);
      SymbolRoundTrip(last);
      DecodeIdsConcat(tables, EncodePieces(front, tables).value, Lookup(symbols, tables.vocabulary).value);
      assert pieces == front + [last];
      FlattenAppend(front, last);
    }
  }

  lemma NothingDecodes(tables: TokenizerTables)
    ensures DecodeIds(tables, []) == []
  {
  }

  /** Whenever the encoder succeeds, decoding its ids gives the normalized text back, for every
      pre-tokenizer that only cuts its input into pieces. */
  lemma {:induction false} EncodingIsLossless(text: bytes, split: bytes -> seq<bytes>, tables: TokenizerTables)
    requires forall t | t in tables.added :: t.content != []
    requires UniqueIds(tables) && forall t :: Flatten(split(t)) == t
    requires EncodeText(text, split, tables).Some?
    ensures DecodeIds(tables, EncodeText(text, split, tables).value) == text
    decreases |text|
  {
    hide UniqueIds, DecodeId, DecodeIds, EncodePieces, Denotes;
    NothingDecodes(tables);
    if text != [] {
      var found := NextAddedToken(tables.added, text);
      if found.None? {
        PiecesDecode(split(text), tables);
      } else {
        AddedTokenDecodes(text, split, tables);
        var step := found.value.offset + |found.value.token.content|;
        EncodingIsLossless(text[step..], split, tables);
        var front := FrontIds(text, split, tables);
        DecodeIdsConcat(tables, front, EncodeText(text[step..], split, tables).value);
        assert text == text[..step] + text[step..];
      }
    }
  }

  function FrontIds(text: bytes, split: bytes -> seq<bytes>, tables: TokenizerTables): seq<nat> {
    match NextAddedToken(tables.added, text)
    case None => []
    case Some(found) =>
      match if found.offset > 0 then EncodePieces(split(text[..found.offset]), tables) else Some([])
      case None => []
      case Some(front) => front + [found.token.id]
  }

  lemma AddedTokenDecodes(text: bytes, split: bytes -> seq<bytes>, tables: TokenizerTables)
    requires UniqueIds(tables) && forall t :: Flatten(split(t)) == t
    requires NextAddedToken(tables.added, text).Some?
    requires var found := NextAddedToken(tables.added, text).value;
             found.offset > 0 ==> EncodePieces(split(text[..found.offset]), tables).Some?
    ensures var found := NextAddedToken(tables.added, text).value;
            DecodeIds(tables, FrontIds(text, split, tables)) == text[..found.offset + |found.token.content|]
  {
    hide UniqueIds, DecodeId, EncodePieces;
    var found := NextAddedToken(tables.added, text).value;
    var front := if found.offset > 0 then EncodePieces(split(text[..found.offset]), tables).value else [];
    if found.offset > 0 {
      PiecesDecode(split(text[..found.offset]), tables);
    }
    var id, content := found.token.id, found.token.content;
    var k :| 0 <= k < |tables.added| && tables.added[k] == found.token;
    assert Denotes(tables, id, content) by {
      assert tables.added[k] == AddedToken(content, id);
    }
    DenotationIsUnique(tables, id, content);
    assert DecodeIds(tables, front) == text[..found.offset];
    assert (front + [id])[..|front|] == front;
    assert text[..found.offset + |content|] == text[..found.offset] + content;
  }
}
