/** Byte-pair encoding: the rank-driven merge loop, what it preserves, and why for canonical merge
    tables it is one greedy pass per merge in file order. */
module BytePair {
  import opened Bytes
  import Utf8

  /** A symbol is a string of encoder code points. */
  type Symbol = seq<nat>
  type Pair = (Symbol, Symbol)
  type Ranks = map<Pair, nat>

  // ---- The merge table ----

  const HASH: nat := 35
  const NEWLINE: nat := 10
  const BLANK: nat := 32

  /** The White_Space code points of Unicode. */
  predicate IsWhite(c: nat) {
    || 9 <= c <= 13 || c == BLANK || c == 0x85 || c == 0xA0 || c == 0x1680
    || 0x2000 <= c <= 0x200A || c == 0x2028 || c == 0x2029 || c == 0x202F || c == 0x205F || c == 0x3000
  }

  /** Code points up to the first one that is white, or up to the first line break. */
  function WordEnd(line: seq<nat>): (n: nat)
    ensures n <= |line|
  {
    if line == [] || IsWhite(line[0]) then 0 else 1 + WordEnd(line[1..])
  }

  function LineEnd(text: seq<nat>): (n: nat)
    ensures n <= |text|
  {
    if text == [] || text[0] == NEWLINE then 0 else 1 + LineEnd(text[1..])
  }

  /** The words between stretches of white space. */
  function Words(line: seq<nat>): seq<Symbol>
    decreases |line|
  {
    if line == [] then []
    else if IsWhite(line[0]) then Words(line[1..])
    else [line[..WordEnd(line)]] + Words(line[WordEnd(line)..])
  }

  /** The lines of a text. A carriage return before the break is white and separates no words. */
  function Lines(text: seq<nat>): seq<seq<nat>>
    decreases |text|
  {
    if text == [] then []
    else
      var n := LineEnd(text);
      [text[..n]] + if n == |text| then [] else Lines(text[n + 1..])
  }

  predicate IsComment(line: seq<nat>) { line != [] && line[0] == HASH }

  /** The pairs of the file in order; a line that is neither a comment nor a pair makes it invalid. */
  function FilePairs(lines: seq<seq<nat>>): Option<seq<Pair>> {
    if lines == [] then Some([])
    else match FilePairs(lines[..|lines| - 1])
      case None => None
      case Some(pairs) =>
        var line := lines[|lines| - 1];
        if IsComment(line) then Some(pairs)
        else if |Words(line)| == 2 then Some(pairs + [(Words(line)[0], Words(line)[1])]) else None
  }

  /** The rank of a pair is the position of its last line. */
  ghost predicate IsRankTable(ranks: Ranks, pairs: seq<Pair>) {
    && (forall p | p in ranks :: ranks[p] < |pairs| && pairs[ranks[p]] == p)
    && (forall i | 0 <= i < |pairs| :: pairs[i] in ranks && i <= ranks[pairs[i]])
  }

  method LoadMerges(text: seq<nat>) returns (r: Option<Ranks>)
    ensures r.Some? <==> FilePairs(Lines(text)).Some?
    ensures r.Some? ==> IsRankTable(r.value, FilePairs(Lines(text)).value)
  {
    hide Words, Lines;
    var lines := Lines(text);
    var ranks: Ranks := map[];
    var rank := 0;
    for i := 0 to |lines|
      invariant FilePairs(lines[..i]).Some? && rank == |FilePairs(lines[..i]).value|
      invariant IsRankTable(ranks, FilePairs(lines[..i]).value)
    {
      assert lines[..i + 1][..i] == lines[..i];
      if !IsComment(lines[i]) {
        var symbols := Words(lines[i]);
        if |symbols| != 2 {
          BadLinePersists(lines, i + 1);
          return None;
        }
        ranks := ranks[(symbols[0], symbols[1]) := rank];
        rank := rank + 1;
      }
    }
    assert lines[..|lines|] == lines;
    r := Some(ranks);
  }

  lemma {:induction false} BadLinePersists(lines: seq<seq<nat>>, i: nat)
    requires i <= |lines| && FilePairs(lines[..i]).None?
    ensures FilePairs(lines).None?
  {
    if i == |lines| {
      assert lines[..i] == lines;
    } else {
      assert lines[..|lines| - 1][..i] == lines[..i];
      BadLinePersists(lines[..|lines| - 1], i);
    }
  }

  // ---- A merges file as it is written ----

  predicate Word(s: Symbol) {
    s != [] && forall c | c in s :: !IsWhite(c)
  }

  function MergeLine(pair: Pair): seq<nat> { pair.0 + ([' ' as int] + pair.1) }

  function MergeFile(pairs: seq<Pair>): seq<nat> {
    if pairs == [] then [] else MergeLine(pairs[0]) + (['\n' as int] + MergeFile(pairs[1..]))
  }

  /** The left symbol begins with a hash sign. */
  predicate HashPair(pair: Pair) {
    pair.0 != [] && pair.0[0] == '#' as int
  }

  /** The pairs whose line is not taken for a comment. */
  function Kept(pairs: seq<Pair>): seq<Pair> {
    if pairs == [] then []
    else Kept(pairs[..|pairs| - 1]) + if HashPair(pairs[|pairs| - 1]) then [] else [pairs[|pairs| - 1]]
  }

  /** White space is that of Unicode. */
  lemma WhiteIff(c: Utf8.Scalar)
    ensures IsWhite(c) <==> Utf8.White(c)
  {
  }

  lemma {:induction false} WordEndsAtWhite(word: Symbol, rest: seq<nat>)
    requires (forall c | c in word :: !IsWhite(c)) && (rest == [] || IsWhite(rest[0]))
    ensures WordEnd(word + rest) == |word|
  {
    if word == [] {
      assert word + rest == rest;
    } else {
      assert word[0] in word && forall c | c in word[1..] :: c in word;
      assert (word + rest)[0] == word[0] && (word + rest)[1..] == word[1..] + rest;
      WordEndsAtWhite(word[1..], rest);
    }
  }

  lemma OneWord(word: Symbol, rest: seq<nat>)
    requires Word(word) && (rest == [] || IsWhite(rest[0]))
    ensures Words(word + rest) == [word] + Words(rest)
  {
    WordEndsAtWhite(word, rest);
    assert word[0] in word;
    assert (word + rest)[..|word|] == word && (word + rest)[|word|..] == rest;
  }

  lemma LineIsPair(pair: Pair)
    requires Word(pair.0) && Word(pair.1)
    ensures Words(MergeLine(pair)) == [pair.0, pair.1]
    ensures IsComment(MergeLine(pair)) == IsComment(pair.0) && NEWLINE !in MergeLine(pair)
  {
    OneWord(pair.0, [BLANK] + pair.1);
    assert ([BLANK] + pair.1)[1..] == pair.1 && pair.1 + [] == pair.1;
    OneWord(pair.1, []);
    assert [pair.0] + ([pair.1] + []) == [pair.0, pair.1];
  }

  lemma {:induction false} LineInFront(line: seq<nat>, rest: seq<nat>)
    requires NEWLINE !in line
    ensures LineEnd(line + ([NEWLINE] + rest)) == |line|
  {
    if line == [] {
      assert line + ([NEWLINE] + rest) == [NEWLINE] + rest;
    } else {
      assert (line + ([NEWLINE] + rest))[1..] == line[1..] + ([NEWLINE] + rest);
      LineInFront(line[1..], rest);
    }
  }

  function MergeLines(pairs: seq<Pair>): (r: seq<seq<nat>>)
    ensures |r| == |pairs|
  {
    seq(|pairs|, i requires 0 <= i < |pairs| => MergeLine(pairs[i]))
  }

  lemma {:induction false} FileHasLines(pairs: seq<Pair>)
    requires forall i | 0 <= i < |pairs| :: Word(pairs[i].0) && Word(pairs[i].1)
    ensures Lines(MergeFile(pairs)) == MergeLines(pairs)
  {
    hide MergeLine, Words, Word;
    if pairs != [] {
      var line, rest := MergeLine(pairs[0]), MergeFile(pairs[1..]);
      LineIsPair(pairs[0]);
      LineInFront(line, rest);
      var text := line + ([NEWLINE] + rest);
      assert text[..|line|] == line && text[|line| + 1..] == rest;
      FileHasLines(pairs[1..]);
      assert MergeLines(pairs) == [line] + MergeLines(pairs[1..]);
    }
  }

  lemma CommentIff(pair: Pair)
    requires Word(pair.0)
    ensures IsComment(MergeLine(pair)) <==> HashPair(pair)
  {
  }

  lemma {:induction false} LinesHavePairs(pairs: seq<Pair>)
    requires forall i | 0 <= i < |pairs| :: Word(pairs[i].0) && Word(pairs[i].1)
    ensures FilePairs(MergeLines(pairs)) == Some(Kept(pairs))
  {
    hide MergeLine, Words, Word, IsComment, HashPair;
    if pairs != [] {
      var n := |pairs| - 1;
      LinesHavePairs(pairs[..n]);
      LineIsPair(pairs[n]);
      CommentIff(pairs[n]);
      assert MergeLines(pairs)[..n] == MergeLines(pairs[..n]);
      assert Kept(pairs[..n]) + [] == Kept(pairs[..n]) && (pairs[n].0, pairs[n].1) == pairs[n];
    }
  }

  /** What is read back from a merges file are its pairs, without those whose left symbol begins with a
      hash sign: their lines look like comments. */
  lemma MergeFileRoundTrip(pairs: seq<Pair>)
    requires forall i | 0 <= i < |pairs| :: Word(pairs[i].0) && Word(pairs[i].1)
    ensures FilePairs(Lines(MergeFile(pairs))) == Some(Kept(pairs))
    ensures Kept(pairs) == pairs <==> forall i | 0 <= i < |pairs| :: !HashPair(pairs[i])
  {
    FileHasLines(pairs);
    LinesHavePairs(pairs);
    KeptAll(pairs);
  }

  lemma {:induction false} KeptAll(pairs: seq<Pair>)
    ensures |Kept(pairs)| <= |pairs|
    ensures Kept(pairs) == pairs <==> forall i | 0 <= i < |pairs| :: !HashPair(pairs[i])
  {
    if pairs != [] {
      var front, last := pairs[..|pairs| - 1], pairs[|pairs| - 1];
      KeptAll(front);
      assert pairs == front + [last];
      if HashPair(last) {
        assert |Kept(pairs)| < |pairs|;
      } else {
        assert Kept(pairs) == Kept(front) + [last];
        assert Kept(pairs)[..|Kept(front)|] == Kept(front);
        assert forall i | 0 <= i < |front| :: front[i] == pairs[i];
      }
    }
  }

  /** Distinct pairs have distinct ranks. */
  ghost predicate Injective(ranks: Ranks) {
    forall p, q | p in ranks && q in ranks && ranks[p] == ranks[q] :: p == q
  }

  lemma RankTableIsInjective(ranks: Ranks, pairs: seq<Pair>)
    requires IsRankTable(ranks, pairs)
    ensures Injective(ranks)
  {
  }

  // ---- One merge round ----

  predicate Ranked(symbols: seq<Symbol>, ranks: Ranks, i: int) {
    0 <= i && i + 1 < |symbols| && (symbols[i], symbols[i + 1]) in ranks
  }

  function RankAt(symbols: seq<Symbol>, ranks: Ranks, i: int): nat
    requires Ranked(symbols, ranks, i)
  {
    ranks[(symbols[i], symbols[i + 1])]
  }

  /** The first adjacent pair of least rank among those before `n`. */
  function BestBefore(symbols: seq<Symbol>, ranks: Ranks, n: nat): (r: Option<nat>)
    ensures r.Some? ==> Ranked(symbols, ranks, r.value) && r.value < n
    ensures r.Some?
            ==> forall j | j < n
                && Ranked(symbols, ranks, j) :: RankAt(symbols, ranks, r.value) <= RankAt(symbols, ranks, j)
    ensures r.None? ==> forall j | j < n :: !Ranked(symbols, ranks, j)
  {
    if n == 0 then None
    else match BestBefore(symbols, ranks, n - 1)
      case None => if Ranked(symbols, ranks, n - 1) then Some(n - 1) else None
      case Some(i) =>
        if Ranked(symbols, ranks, n - 1) && RankAt(symbols, ranks, n - 1) < RankAt(symbols, ranks, i) then Some(n - 1)
           else Some(i)
  }

  function Best(symbols: seq<Symbol>, ranks: Ranks): (r: Option<nat>)
    ensures r.Some? ==> Ranked(symbols, ranks, r.value)
    ensures r.Some?
            ==> forall j | Ranked(symbols, ranks, j) :: RankAt(symbols, ranks, r.value) <= RankAt(symbols, ranks, j)
    ensures r.None? ==> forall j :: !Ranked(symbols, ranks, j)
  {
    BestBefore(symbols, ranks, |symbols|)
  }

  predicate StartsWithPair(symbols: seq<Symbol>, left: Symbol, right: Symbol) {
    |symbols| >= 2 && symbols[0] == left && symbols[1] == right
  }

  /** All occurrences of a pair merged in one greedy pass from left to right. */
  function MergeAll(symbols: seq<Symbol>, left: Symbol, right: Symbol): seq<Symbol> {
    if symbols == [] then []
    else if StartsWithPair(symbols, left, right) then [left + right] + MergeAll(symbols[2..], left, right)
    else [symbols[0]] + MergeAll(symbols[1..], left, right)
  }

  method MergePass(symbols: seq<Symbol>, left: Symbol, right: Symbol) returns (merged: seq<Symbol>)
    ensures merged == MergeAll(symbols, left, right)
  {
    merged := [];
    var index := 0;
    assert symbols[0..] == symbols && MergeAll([], left, right) == [];
    hide MergeAll;
    while index < |symbols|
      invariant index <= |symbols|
      invariant merged + MergeAll(symbols[index..], left, right) == MergeAll(symbols, left, right)
    {
      MergeStep(symbols, index, left, right);
      ghost var done := merged;
      var symbol := symbols[index];
      if index + 1 < |symbols| && symbols[index] == left && symbols[index + 1] == right {
        symbol := left + right;
        index := index + 2;
      } else {
        index := index + 1;
      }
      merged := merged + [symbol];
      OneMore(done, symbol, MergeAll(symbols[index..], left, right));
    }
    assert symbols[index..] == [];
  }

  lemma OneMore(done: seq<Symbol>, symbol: Symbol, rest: seq<Symbol>)
    ensures (done + [symbol]) + rest == done + ([symbol] + rest)
  {
  }

  lemma MergeStep(symbols: seq<Symbol>, index: nat, left: Symbol, right: Symbol)
    requires index < |symbols|
    ensures MergeAll(symbols[index..], left, right) ==
      if index + 1 < |symbols| && symbols[index] == left && symbols[index + 1] == right
      then [left + right] + MergeAll(symbols[index + 2..], left, right)
      else [symbols[index]] + MergeAll(symbols[index + 1..], left, right)
  {
    var rest := symbols[index..];
    if |rest| >= 2 {
      assert rest[2..] == symbols[index + 2..];
    }
    assert rest[1..] == symbols[index + 1..];
  }

  lemma {:induction false} MergeKeepsText(symbols: seq<Symbol>, left: Symbol, right: Symbol)
    ensures Flatten(MergeAll(symbols, left, right)) == Flatten(symbols)
    ensures |MergeAll(symbols, left, right)| <= |symbols|
  {
    if symbols != [] {
      if StartsWithPair(symbols, left, right) {
        MergeKeepsText(symbols[2..], left, right);
        assert symbols[1..][1..] == symbols[2..];
        assert Flatten(symbols) == left + (right + Flatten(symbols[2..]));
      } else {
        MergeKeepsText(symbols[1..], left, right);
      }
    }
  }

  lemma {:induction false} MergeShrinks(symbols: seq<Symbol>, i: nat)
    requires i + 1 < |symbols|
    ensures |MergeAll(symbols, symbols[i], symbols[i + 1])| < |symbols|
  {
    var left, right := symbols[i], symbols[i + 1];
    if StartsWithPair(symbols, left, right) {
      MergeKeepsText(symbols[2..], left, right);
    } else {
      MergeShrinks(symbols[1..], i - 1);
    }
  }

  // ---- The merge loop ----

  function Encode(symbols: seq<Symbol>, ranks: Ranks): seq<Symbol>
    decreases |symbols|
  {
    match Best(symbols, ranks)
    case None => symbols
    case Some(i) =>
      MergeShrinks(symbols, i);
      Encode(MergeAll(symbols, symbols[i], symbols[i + 1]), ranks)
  }

  function Singletons(token: Symbol): (symbols: seq<Symbol>)
    ensures |symbols| == |token|
  {
    seq(|token|, i requires 0 <= i < |token| => [token[i]])
  }

  lemma {:induction false} SingletonsFlatten(token: Symbol)
    ensures Flatten(Singletons(token)) == token
  {
    if token != [] {
      SingletonsFlatten(token[1..]);
      assert Singletons(token)[1..] == Singletons(token[1..]);
      assert [token[0]] + token[1..] == token;
    }
  }

  /** The encoder terminates, keeps the text, and stops only when no adjacent pair can be merged. */
  method BytePairEncode(token: Symbol, ranks: Ranks) returns (symbols: seq<Symbol>)
    ensures symbols == Encode(Singletons(token), ranks)
    ensures Flatten(symbols) == token
    ensures forall i :: !Ranked(symbols, ranks, i)
  {
    symbols := Singletons(token);
    SingletonsFlatten(token);
    if |symbols| < 2 {
      return;
    }
    while true
      invariant Encode(symbols, ranks) == Encode(Singletons(token), ranks) && Flatten(symbols) == token
      decreases |symbols|
    {
      var best := Best(symbols, ranks);
      if best.None? {
        break;
      }
      var left, right := symbols[best.value], symbols[best.value + 1];
      MergeShrinks(symbols, best.value);
      MergeKeepsText(symbols, left, right);
      symbols := MergePass(symbols, left, right);
    }
  }

  // ---- Canonical order ----

  /** Every merge that builds a symbol ranks below every pair that uses it. */
  ghost predicate Canonical(ranks: Ranks) {
    forall p, q | p in ranks && q in ranks && (q.0 == p.0 + p.1 || q.1 == p.0 + p.1) :: ranks[p] < ranks[q]
  }

  ghost predicate AdjacentIn(symbols: seq<Symbol>, x: Symbol, y: Symbol) {
    exists k | 0 <= k && k + 1 < |symbols| :: symbols[k] == x && symbols[k + 1] == y
  }

  lemma AdjacentLater(symbols: seq<Symbol>, n: nat, x: Symbol, y: Symbol)
    requires n <= |symbols| && AdjacentIn(symbols[n..], x, y)
    ensures AdjacentIn(symbols, x, y)
  {
    var k :| 0 <= k && k + 1 < |symbols[n..]| && symbols[n..][k] == x && symbols[n..][k + 1] == y;
    assert symbols[n + k] == x && symbols[n + k + 1] == y;
  }

  /** A neighbourhood after a pass either involves the merged symbol or was there before, and is not
      the merged pair. */
  lemma {:induction false} PairsAfterMerge(symbols: seq<Symbol>, left: Symbol, right: Symbol, j: nat)
    requires j + 1 < |MergeAll(symbols, left, right)|
    ensures var m := MergeAll(symbols, left, right);
            || m[j] == left + right || m[j + 1] == left + right
            || ((m[j], m[j + 1]) != (left, right) && AdjacentIn(symbols, m[j], m[j + 1]))
  {
    var m := MergeAll(symbols, left, right);
    var used := if StartsWithPair(symbols, left, right) then 2 else 1;
    var rest := symbols[used..];
    if j > 0 {
      PairsAfterMerge(rest, left, right, j - 1);
      if AdjacentIn(rest, m[j], m[j + 1]) {
        AdjacentLater(symbols, used, m[j], m[j + 1]);
      }
    } else if used == 1 && m[1] != left + right {
      assert m[1] == rest[0] == symbols[1] && m[0] == symbols[0];
    }
  }

  /** With a canonical table, a round removes its rank for good: everything mergeable afterwards
      ranks higher. */
  lemma RoundRaisesRank(symbols: seq<Symbol>, ranks: Ranks, i: nat, j: nat)
    requires Canonical(ranks) && Injective(ranks) && Best(symbols, ranks) == Some(i)
    requires Ranked(MergeAll(symbols, symbols[i], symbols[i + 1]), ranks, j)
    ensures RankAt(symbols, ranks, i) < RankAt(MergeAll(symbols, symbols[i], symbols[i + 1]), ranks, j)
  {
    var left, right := symbols[i], symbols[i + 1];
    var m := MergeAll(symbols, left, right);
    PairsAfterMerge(symbols, left, right, j);
    if m[j] != left + right && m[j + 1] != left + right {
      var k :| 0 <= k && k + 1 < |symbols| && symbols[k] == m[j] && symbols[k + 1] == m[j + 1];
      assert Ranked(symbols, ranks, k);
    }
  }

  /** The ranks the successive rounds choose. */
  function RankTrace(symbols: seq<Symbol>, ranks: Ranks): seq<nat>
    decreases |symbols|
  {
    match Best(symbols, ranks)
    case None => []
    case Some(i) =>
      MergeShrinks(symbols, i);
      [RankAt(symbols, ranks, i)] + RankTrace(MergeAll(symbols, symbols[i], symbols[i + 1]), ranks)
  }

  predicate StrictlyIncreasing(s: seq<nat>) {
    forall i, j | 0 <= i < j < |s| :: s[i] < s[j]
  }

  lemma IncreasingPrepend(first: nat, s: seq<nat>)
    requires StrictlyIncreasing(s) && s != [] && first < s[0]
    ensures StrictlyIncreasing([first] + s)
  {
    assert forall j | 0 < j < |s| :: s[0] < s[j];
  }

  /** Successive rounds choose strictly increasing ranks. */
  lemma {:induction false} RanksIncrease(symbols: seq<Symbol>, ranks: Ranks)
    requires Canonical(ranks) && Injective(ranks)
    ensures StrictlyIncreasing(RankTrace(symbols, ranks))
    decreases |symbols|
  {
    var best := Best(symbols, ranks);
    if best.Some? {
      var i := best.value;
      MergeShrinks(symbols, i);
      var merged := MergeAll(symbols, symbols[i], symbols[i + 1]);
      var later := RankTrace(merged, ranks);
      RanksIncrease(merged, ranks);
      assert RankTrace(symbols, ranks) == [RankAt(symbols, ranks, i)] + later;
      if later != [] {
        RoundRaisesRank(symbols, ranks, i, Best(merged, ranks).value);
        assert later[0] == RankAt(merged, ranks, Best(merged, ranks).value);
        IncreasingPrepend(RankAt(symbols, ranks, i), later);
      }
    }
  }

  // ---- File order ----

  /** One greedy pass per merge in file order, from line `k` on; a line that a later duplicate
      overrides is skipped. */
  function FilePasses(symbols: seq<Symbol>, pairs: seq<Pair>, ranks: Ranks, k: nat): seq<Symbol>
    requires k <= |pairs|
    decreases |pairs| - k
  {
    if k == |pairs| then symbols
    else if pairs[k] in ranks && ranks[pairs[k]] == k
         then FilePasses(MergeAll(symbols, pairs[k].0, pairs[k].1), pairs, ranks, k + 1)
    else FilePasses(symbols, pairs, ranks, k + 1)
  }

  lemma {:induction false} NothingToMerge(symbols: seq<Symbol>, left: Symbol, right: Symbol)
    requires !AdjacentIn(symbols, left, right)
    ensures MergeAll(symbols, left, right) == symbols
  {
    if symbols != [] {
      if AdjacentIn(symbols[1..], left, right) {
        AdjacentLater(symbols, 1, left, right);
      }
      assert !StartsWithPair(symbols, left, right);
      NothingToMerge(symbols[1..], left, right);
    }
  }

  ghost predicate NothingBelow(symbols: seq<Symbol>, ranks: Ranks, k: nat) {
    forall j | Ranked(symbols, ranks, j) :: k <= RankAt(symbols, ranks, j)
  }

  lemma {:induction false} FilePassesFrom(symbols: seq<Symbol>, pairs: seq<Pair>, ranks: Ranks, k: nat)
    requires IsRankTable(ranks, pairs) && Canonical(ranks) && k <= |pairs| && NothingBelow(symbols, ranks, k)
    ensures Encode(symbols, ranks) == FilePasses(symbols, pairs, ranks, k)
    decreases |pairs| - k
  {
    hide Injective, Canonical, IsRankTable, NothingBelow, AdjacentIn, MergeAll, Best, RankAt, Ranked, Encode;
    RankTableIsInjective(ranks, pairs);
    var best := Best(symbols, ranks);
    if k == |pairs| {
      PastLastLine(symbols, pairs, ranks);
    } else {
      if best.Some? && RankAt(symbols, ranks, best.value) == k {
        BestIsLine(symbols, pairs, ranks, k);
        FilePassesFrom(MergeAll(symbols, pairs[k].0, pairs[k].1), pairs, ranks, k + 1);
      } else {
        LineIsIdle(symbols, pairs, ranks, k);
        FilePassesFrom(symbols, pairs, ranks, k + 1);
      }
    }
  }

  lemma PastLastLine(symbols: seq<Symbol>, pairs: seq<Pair>, ranks: Ranks)
    requires IsRankTable(ranks, pairs) && NothingBelow(symbols, ranks, |pairs|)
    ensures Encode(symbols, ranks) == symbols
  {
    hide MergeAll;
    var best := Best(symbols, ranks);
    if best.Some? {
      RankIsLine(symbols, pairs, ranks, best.value);
    }
  }

  lemma RankIsLine(symbols: seq<Symbol>, pairs: seq<Pair>, ranks: Ranks, i: nat)
    requires IsRankTable(ranks, pairs) && Ranked(symbols, ranks, i)
    ensures RankAt(symbols, ranks, i) < |pairs|
  {
  }

  /** The next rank is present: the loop's round is the pass of that line. */
  lemma BestIsLine(symbols: seq<Symbol>, pairs: seq<Pair>, ranks: Ranks, k: nat)
    requires IsRankTable(ranks, pairs) && Canonical(ranks) && Injective(ranks) && k < |pairs|
    requires Best(symbols, ranks).Some? && RankAt(symbols, ranks, Best(symbols, ranks).value) == k
    ensures pairs[k] in ranks && ranks[pairs[k]] == k
    ensures var merged := MergeAll(symbols, pairs[k].0, pairs[k].1);
            Encode(symbols, ranks) == Encode(merged, ranks) && NothingBelow(merged, ranks, k + 1)
  {
    var i := Best(symbols, ranks).value;
    var merged := MergeAll(symbols, symbols[i], symbols[i + 1]);
    assert pairs[k] == (symbols[i], symbols[i + 1]);
    MergeShrinks(symbols, i);
    forall j | Ranked(merged, ranks, j)
      ensures k + 1 <= RankAt(merged, ranks, j)
    {
      RoundRaisesRank(symbols, ranks, i, j);
    }
  }

  /** The next rank is absent: the pass of that line changes nothing. */
  lemma LineIsIdle(symbols: seq<Symbol>, pairs: seq<Pair>, ranks: Ranks, k: nat)
    requires IsRankTable(ranks, pairs) && k < |pairs| && NothingBelow(symbols, ranks, k)
    requires Best(symbols, ranks).Some? ==> RankAt(symbols, ranks, Best(symbols, ranks).value) != k
    ensures NothingBelow(symbols, ranks, k + 1)
    ensures pairs[k] in ranks && ranks[pairs[k]] == k ==> MergeAll(symbols, pairs[k].0, pairs[k].1) == symbols
  {
    if pairs[k] in ranks && ranks[pairs[k]] == k {
      if AdjacentIn(symbols, pairs[k].0, pairs[k].1) {
        AdjacentIsRanked(symbols, ranks, pairs[k]);
      } else {
        NothingToMerge(symbols, pairs[k].0, pairs[k].1);
      }
    }
  }

  lemma AdjacentIsRanked(symbols: seq<Symbol>, ranks: Ranks, p: Pair)
    requires p in ranks && AdjacentIn(symbols, p.0, p.1)
    ensures exists j :: Ranked(symbols, ranks, j) && RankAt(symbols, ranks, j) == ranks[p]
  {
    var j :| 0 <= j && j + 1 < |symbols| && symbols[j] == p.0 && symbols[j + 1] == p.1;
    assert Ranked(symbols, ranks, j);
  }

  /** For a canonical table the encoder is one greedy pass per merge, in file order. */
  lemma EncodeIsFilePasses(symbols: seq<Symbol>, pairs: seq<Pair>, ranks: Ranks)
    requires IsRankTable(ranks, pairs) && Canonical(ranks)
    ensures Encode(symbols, ranks) == FilePasses(symbols, pairs, ranks, 0)
  {
    FilePassesFrom(symbols, pairs, ranks, 0);
  }

  /** Without the canonical condition the two can differ: when the line that uses a symbol comes before
      the line that builds it, the loop still applies it, but its pass in file order comes too early. */
  lemma OrderMattersWithoutCanonicity(a: nat, b: nat, c: nat)
    requires a != b && a != c && b != c
    ensures var pairs := [([a, b], [c]), ([a], [b])];
            var ranks := map[([a, b], [c]) := 0, ([a], [b]) := 1];
            && IsRankTable(ranks, pairs) && !Canonical(ranks)
            && Encode([[a], [b], [c]], ranks) == [[a, b, c]]
            && FilePasses([[a], [b], [c]], pairs, ranks, 0) == [[a, b], [c]]
  {
    var pairs := [([a, b], [c]), ([a], [b])];
    var ranks := map[([a, b], [c]) := 0, ([a], [b]) := 1];
    assert ([a], [b]) in ranks && ([a, b], [c]) in ranks && [a] + [b] == [a, b];
    var start := [[a], [b], [c]];
    var middle := [[a, b], [c]];
    FirstRounds(a, b, c, ranks);
    assert pairs[0] in ranks && ranks[pairs[0]] == 0 && pairs[1] in ranks && ranks[pairs[1]] == 1;
    assert FilePasses(middle, pairs, ranks, 2) == middle;
    assert FilePasses(start, pairs, ranks, 1) == middle;
    NothingToMerge(start, [a, b], [c]);
  }

  lemma FirstRounds(a: nat, b: nat, c: nat, ranks: Ranks)
    requires a != b && a != c && b != c
    requires ranks == map[([a, b], [c]) := 0, ([a], [b]) := 1]
    ensures MergeAll([[a], [b], [c]], [a], [b]) == [[a, b], [c]]
    ensures Encode([[a], [b], [c]], ranks) == [[a, b, c]]
  {
    var start, middle, final := [[a], [b], [c]], [[a, b], [c]], [[a, b, c]];
    assert [a] + [b] == [a, b] && [a, b] + [c] == [a, b, c];
    assert start[2..] == [[c]] && [[c]][1..] == [] && middle[2..] == [];
    assert MergeAll([[c]], [a], [b]) == [[c]] + MergeAll([[c]][1..], [a], [b]) == [[c]];
    assert MergeAll(start, [a], [b]) == [[a] + [b]] + MergeAll(start[2..], [a], [b]);
    assert MergeAll(middle, [a, b], [c]) == [[a, b] + [c]] + MergeAll(middle[2..], [a, b], [c]) == final;
    assert Ranked(start, ranks, 0) && Best(start, ranks) == Some(0) by {
      assert !Ranked(start, ranks, 1);
    }
    assert Ranked(middle, ranks, 0) && Best(middle, ranks) == Some(0);
    assert Best(final, ranks) == None;
    assert Encode(final, ranks) == final;
    assert Encode(middle, ranks) == Encode(MergeAll(middle, middle[0], middle[1]), ranks);
  }
}
