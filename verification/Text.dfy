/** Text handling on UTF-8 byte strings: validity, trimming, case folding, number parsing and
    printing, and the header-line syntax shared by responses and multipart parts. */
module Text {
  import opened Bytes

  const COLON: byte := 58
  const SEMICOLON: byte := 59
  const PLUS: byte := 43
  const SPACE: byte := 32
  const TAB: byte := 9
  const DASH: byte := 45
  const QUOTE: byte := 34
  const EQUALS: byte := 61

  function Lower(b: byte): byte {
    if 65 <= b <= 90 then b + 32 else b
  }

  function LowerAll(s: bytes): (r: bytes)
    ensures |r| == |s|
  {
    seq(|s|, i requires 0 <= i < |s| => Lower(s[i]))
  }

  // ---- UTF-8 (section 3.9 of the Unicode Standard, table 3-7) ----

  predicate Continuation(b: byte) { 0x80 <= b <= 0xBF }

  /** Length of the well-formed scalar value encoded at the front of `s`, or 0. */
  function ScalarLength(s: bytes): (n: nat)
    requires s != []
    ensures n <= |s|
  {
    if s[0] <= 0x7F then 1
    else if 0xC2 <= s[0] <= 0xDF && |s| >= 2 && Continuation(s[1]) then 2
    else if 0xE0 <= s[0] <= 0xEF && |s| >= 3 && Continuation(s[1]) && Continuation(s[2])
            && (s[0] == 0xE0 ==> s[1] >= 0xA0) && (s[0] == 0xED ==> s[1] <= 0x9F) then 3
    else if 0xF0 <= s[0] <= 0xF4 && |s| >= 4 && Continuation(s[1]) && Continuation(s[2]) && Continuation(s[3])
            && (s[0] == 0xF0 ==> s[1] >= 0x90) && (s[0] == 0xF4 ==> s[1] <= 0x8F) then 4
    else 0
  }

  predicate ValidUtf8(s: bytes) {
    s == [] || (var n := ScalarLength(s); n > 0 && ValidUtf8(s[n..]))
  }

  predicate Ascii(s: bytes) {
    forall b | b in s :: b <= 0x7F
  }

  lemma {:induction false} AsciiIsUtf8(s: bytes)
    requires Ascii(s)
    ensures ValidUtf8(s)
  {
    if s != [] {
      assert s[0] in s && forall b | b in s[1..] :: b in s;
      AsciiIsUtf8(s[1..]);
    }
  }

  // ---- Trimming of Unicode White_Space ----

  /** The White_Space characters, by the length of their encoding. */
  predicate Space1(a: byte) { 9 <= a <= 13 || a == SPACE }

  predicate Space2(a: byte, b: byte) { a == 0xC2 && (b == 0x85 || b == 0xA0) }

  predicate Space3(a: byte, b: byte, c: byte) {
    || (a == 0xE1 && b == 0x9A && c == 0x80)
    || (a == 0xE2 && b == 0x80 && (0x80 <= c <= 0x8A || c == 0xA8 || c == 0xA9 || c == 0xAF))
    || (a == 0xE2 && b == 0x81 && c == 0x9F)
    || (a == 0xE3 && b == 0x80 && c == 0x80)
  }

  function LeadingSpace(s: bytes): (n: nat)
    ensures n <= |s|
  {
    if |s| >= 1 && Space1(s[0]) then 1
    else if |s| >= 2 && Space2(s[0], s[1]) then 2
    else if |s| >= 3 && Space3(s[0], s[1], s[2]) then 3
    else 0
  }

  function TrailingSpace(s: bytes): (n: nat)
    ensures n <= |s|
  {
    if |s| >= 1 && Space1(s[|s| - 1]) then 1
    else if |s| >= 2 && Space2(s[|s| - 2], s[|s| - 1]) then 2
    else if |s| >= 3 && Space3(s[|s| - 3], s[|s| - 2], s[|s| - 1]) then 3
    else 0
  }

  function TrimStart(s: bytes): bytes {
    var n := LeadingSpace(s);
    if n == 0 then s else TrimStart(s[n..])
  }

  function TrimEnd(s: bytes): bytes {
    var n := TrailingSpace(s);
    if n == 0 then s else TrimEnd(s[..|s| - n])
  }

  function Trim(s: bytes): bytes {
    TrimEnd(TrimStart(s))
  }

  // ---- Numbers ----

  function DigitValue(b: byte): Option<nat> {
    if 48 <= b <= 57 then Some(b - 48)
    else if 97 <= b <= 102 then Some(b - 87)
    else if 65 <= b <= 70 then Some(b - 55)
    else None
  }

  predicate IsDigit(b: byte, radix: nat) {
    DigitValue(b).Some? && DigitValue(b).value < radix
  }

  /** The number a digit string denotes. */
  function DigitsValue(s: bytes, radix: nat): (r: Option<nat>) {
    if s == [] then Some(0)
    else if !IsDigit(s[|s| - 1], radix) then None
    else match DigitsValue(s[..|s| - 1], radix)
      case None => None
      case Some(high) => Some(high * radix + DigitValue(s[|s| - 1]).value)
  }

  /** Unsigned parsing as the Rust standard library does it: an optional plus sign, at least one
      digit, nothing else, and a value below `limit`. */
  function ParseUnsigned(s: bytes, radix: nat, limit: nat): Option<nat> {
    var digits := if |s| >= 2 && s[0] == PLUS then s[1..] else s;
    if digits == [] then None
    else match DigitsValue(digits, radix)
      case None => None
      case Some(v) => if v < limit then Some(v) else None
  }

  function DigitByte(d: nat): byte
    requires d < 16
  {
    if d < 10 then 48 + d else 87 + d
  }

  function PrintUnsigned(n: nat, radix: nat): (s: bytes)
    requires 2 <= radix <= 16
    ensures s != []
  {
    if n < radix then [DigitByte(n)] else PrintUnsigned(n / radix, radix) + [DigitByte(n % radix)]
  }

  lemma {:induction false} PrintedDigits(n: nat, radix: nat)
    requires 2 <= radix <= 16
    ensures DigitsValue(PrintUnsigned(n, radix), radix) == Some(n)
    ensures forall b | b in PrintUnsigned(n, radix) :: IsDigit(b, radix)
  {
    hide DigitByte;
    var s := PrintUnsigned(n, radix);
    if n < radix {
      assert [] + [DigitByte(n)] == s;
      AppendDigit([], 0, n, radix);
    } else {
      var high, low := n / radix, n % radix;
      DivisionStep(n, radix);
      PrintedDigits(high, radix);
      AppendDigit(PrintUnsigned(high, radix), high, low, radix);
    }
  }

  lemma DivisionStep(n: nat, radix: nat)
    requires 2 <= radix <= n
    ensures n / radix < n && n % radix < radix && n / radix * radix + n % radix == n
  {
  }

  lemma AppendDigit(s: bytes, high: nat, low: nat, radix: nat)
    requires low < radix <= 16 && DigitsValue(s, radix) == Some(high)
    ensures DigitsValue(s + [DigitByte(low)], radix) == Some(high * radix + low)
    ensures IsDigit(DigitByte(low), radix)
  {
    var t := s + [DigitByte(low)];
    assert t[..|t| - 1] == s;
  }

  lemma PrintParse(n: nat, radix: nat, limit: nat)
    requires 2 <= radix <= 16 && n < limit
    ensures ParseUnsigned(PrintUnsigned(n, radix), radix, limit) == Some(n)
  {
    PrintedDigits(n, radix);
    var s := PrintUnsigned(n, radix);
    assert s[0] in s;
  }

  function ZeroDigits(n: nat): (s: bytes)
    ensures |s| == n
  {
    seq(n, _ => 48)
  }

  /** The text is a number in decimal digits, perhaps with zeros in front of it and a plus sign in front of those. */
  predicate IsDecimal(s: bytes, n: nat, zeros: nat, plus: bool) {
    s == (if plus then Ascii8("+") else []) + ZeroDigits(zeros) + PrintUnsigned(n, 10)
  }

  /** Zeros in front of a number do not change it. */
  lemma {:induction false} LeadingZeros(s: bytes, zeros: nat)
    requires s != []
    ensures DigitsValue(ZeroDigits(zeros) + s, 10) == DigitsValue(s, 10)
  {
    var t: bytes := ZeroDigits(zeros) + s;
    if |s| == 1 {
      assert t[..|t| - 1] == ZeroDigits(zeros) && s[..0] == [];
      OnlyZeros(zeros);
    } else {
      assert t[..|t| - 1] == ZeroDigits(zeros) + s[..|s| - 1];
      LeadingZeros(s[..|s| - 1], zeros);
    }
  }

  lemma {:induction false} OnlyZeros(zeros: nat)
    ensures DigitsValue(ZeroDigits(zeros), 10) == Some(0)
  {
    if zeros > 0 {
      var t: bytes := ZeroDigits(zeros);
      assert t[..zeros - 1] == ZeroDigits(zeros - 1);
      OnlyZeros(zeros - 1);
    }
  }

  /** Every decimal number below the limit is read as what it says. */
  lemma DecimalParses(s: bytes, n: nat, zeros: nat, plus: bool, limit: nat)
    requires IsDecimal(s, n, zeros, plus) && n < limit
    ensures ParseUnsigned(s, 10, limit) == Some(n)
  {
    hide PrintUnsigned, DigitsValue;
    var printed := PrintUnsigned(n, 10);
    var digits: bytes := ZeroDigits(zeros) + printed;
    PrintedDigits(n, 10);
    LeadingZeros(printed, zeros);
    assert Ascii8("+") == [PLUS];
    assert printed[0] in printed;
    assert digits[0] != PLUS;
    assert if plus then s == [PLUS] + digits && s[1..] == digits else s == digits;
  }

  /** Digits that are not the number as it is printed have zeros in front of it. */
  lemma {:induction false} DigitsAreDecimal(s: bytes)
    requires s != [] && DigitsValue(s, 10).Some?
    ensures exists zeros: nat :: IsDecimal(s, DigitsValue(s, 10).value, zeros, false)
  {
    var n, last := DigitsValue(s, 10).value, DigitValue(s[|s| - 1]).value;
    DigitPrinted(s[|s| - 1]);
    assert s == s[..|s| - 1] + [s[|s| - 1]];
    if |s| == 1 {
      assert s == ZeroDigits(0) + PrintUnsigned(n, 10);
      assert IsDecimal(s, n, 0, false);
    } else {
      var front := s[..|s| - 1];
      DigitsAreDecimal(front);
      var high := DigitsValue(front, 10).value;
      var zeros: nat :| IsDecimal(front, high, zeros, false);
      if high == 0 {
        assert PrintUnsigned(0, 10) == [48];
        assert front == ZeroDigits(zeros + 1);
        assert s == ZeroDigits(zeros + 1) + PrintUnsigned(n, 10);
        assert IsDecimal(s, n, zeros + 1, false);
      } else {
        assert n / 10 == high && n % 10 == last;
        assert PrintUnsigned(n, 10) == PrintUnsigned(high, 10) + [DigitByte(last)];
        assert s == ZeroDigits(zeros) + PrintUnsigned(n, 10);
        assert IsDecimal(s, n, zeros, false);
      }
    }
  }

  lemma DigitPrinted(b: byte)
    requires IsDigit(b, 10)
    ensures DigitByte(DigitValue(b).value) == b
  {
  }

  /** What is read is a decimal number below the limit: nothing else is accepted. */
  lemma ParsedIsDecimal(s: bytes, limit: nat)
    requires ParseUnsigned(s, 10, limit).Some?
    ensures var n := ParseUnsigned(s, 10, limit).value;
            n < limit && exists zeros: nat, plus: bool :: IsDecimal(s, n, zeros, plus)
  {
    hide DigitsValue, IsDecimal;
    var n := ParseUnsigned(s, 10, limit).value;
    var plus := |s| >= 2 && s[0] == PLUS;
    var digits := if plus then s[1..] else s;
    DigitsAreDecimal(digits);
    var zeros: nat :| IsDecimal(digits, n, zeros, false);
    if plus {
      PlusInFront(digits, n, zeros);
      assert s == [PLUS] + digits;
    }
  }

  lemma PlusInFront(digits: bytes, n: nat, zeros: nat)
    requires IsDecimal(digits, n, zeros, false)
    ensures IsDecimal([PLUS] + digits, n, zeros, true)
  {
    hide PrintUnsigned, ZeroDigits;
    assert Ascii8("+") == [PLUS];
    assert digits == ZeroDigits(zeros) + PrintUnsigned(n, 10);
    assert [PLUS] + (ZeroDigits(zeros) + PrintUnsigned(n, 10)) == [PLUS] + ZeroDigits(zeros) + PrintUnsigned(n, 10);
  }

  /** A string without white space at either end is left alone. */
  predicate Trimmed(s: bytes) {
    LeadingSpace(s) == 0 && TrailingSpace(s) == 0
  }

  lemma TrimmedIsFixed(s: bytes)
    requires Trimmed(s)
    ensures Trim(s) == s
  {
  }

  lemma VisibleAsciiIsTrimmed(s: bytes)
    requires s != [] && 33 <= s[0] <= 126 && 33 <= s[|s| - 1] <= 126
    ensures Trimmed(s)
  {
  }

  lemma PrintedIsPlainText(n: nat, radix: nat)
    requires 2 <= radix <= 16
    ensures var s := PrintUnsigned(n, radix);
              Ascii(s) && Trimmed(s) && CR !in s && LF !in s && SEMICOLON !in s && COLON !in s
  {
    PrintedDigits(n, radix);
    var s := PrintUnsigned(n, radix);
    assert s[0] in s && s[|s| - 1] in s;
    VisibleAsciiIsTrimmed(s);
  }

  // ---- Lines and fields ----

  /** The pieces between successive line breaks. */
  function SplitLines(s: bytes): (lines: seq<bytes>)
    ensures lines != []
    decreases |s|
  {
    match FirstIndex(s, CRLF)
    case None => [s]
    case Some(p) => [s[..p]] + SplitLines(s[p + 2..])
  }

  function IndexOf(s: bytes, b: byte): (r: Option<nat>)
    ensures r.Some? ==> r.value < |s| && s[r.value] == b && b !in s[..r.value]
    ensures r.None? ==> b !in s
  {
    if s == [] then None
    else if s[0] == b then Some(0)
    else match IndexOf(s[1..], b)
      case None => None
      case Some(i) => assert s[..i + 1] == [s[0]] + s[1..][..i]; Some(i + 1)
  }

  lemma {:induction false} FirstOfByte(front: bytes, back: bytes, b: byte)
    requires b !in front && back != [] && back[0] == b
    ensures IndexOf(front + back, b) == Some(|front|) && (front + back)[..|front|] == front
  {
    if front == [] {
      assert front + back == back;
    } else {
      assert (front + back)[1..] == front[1..] + back;
      assert forall x | x in front[1..] :: x in front;
      FirstOfByte(front[1..], back, b);
    }
  }

  function JoinLines(lines: seq<bytes>): bytes {
    if lines == [] then []
    else if |lines| == 1 then lines[0] else lines[0] + CRLF + JoinLines(lines[1..])
  }

  /** A line that can be framed by line breaks: neither of the two break bytes occurs in it. */
  predicate PlainLine(line: bytes) {
    CR !in line && LF !in line
  }

  lemma PlainLineBreak(line: bytes, rest: bytes)
    requires PlainLine(line)
    ensures FirstIndex(line + CRLF + rest, CRLF) == Some(|line|)
    ensures (line + CRLF + rest)[..|line|] == line && (line + CRLF + rest)[|line| + 2..] == rest
  {
    var text := line + CRLF + rest;
    assert text[|line|..|line| + 2] == CRLF;
    forall q | q < |line|
      ensures !OccursAt(text, CRLF, q)
    {
      if 0 <= q {
        assert text[q] == line[q];
      }
    }
    FirstIndexUnique(text, CRLF, |line|);
  }

  lemma {:induction false} SplitJoined(lines: seq<bytes>)
    requires lines != [] && forall l | l in lines :: PlainLine(l)
    ensures SplitLines(JoinLines(lines)) == lines
  {
    var joined := JoinLines(lines);
    assert lines[0] in lines;
    if |lines| == 1 {
      forall q
        ensures !OccursAt(joined, CRLF, q)
      {
        if 0 <= q < |joined| {
          assert joined[q] != CR;
        }
      }
    } else {
      PlainLineBreak(lines[0], JoinLines(lines[1..]));
      SplitJoined(lines[1..]);
    }
  }

  // ---- Order ----

  /** The order of byte strings: by the first byte that differs, a prefix first. */
  predicate Before(a: bytes, b: bytes) {
    b != [] && (a == [] || a[0] < b[0] || (a[0] == b[0] && Before(a[1..], b[1..])))
  }

  lemma {:induction false} BeforeTransitive(a: bytes, b: bytes, c: bytes)
    requires Before(a, b) && Before(b, c)
    ensures Before(a, c)
  {
    if a != [] && a[0] == b[0] == c[0] {
      BeforeTransitive(a[1..], b[1..], c[1..]);
    }
  }

  lemma {:induction false} BeforeOrAfter(a: bytes, b: bytes)
    ensures a == b || Before(a, b) || Before(b, a)
    ensures !(Before(a, b) && Before(b, a)) && !Before(a, a)
  {
    if a != [] && b != [] {
      BeforeOrAfter(a[1..], b[1..]);
      if a[0] == b[0] && a[1..] == b[1..] {
        assert a == [a[0]] + a[1..] && b == [b[0]] + b[1..];
      }
    }
    if a != [] {
      BeforeOrAfter(a[1..], a[1..]);
    }
  }

  // ---- Digests ----

  predicate LowerHex(b: byte) { 48 <= b <= 57 || 97 <= b <= 102 }

  /** Exactly 64 lowercase hexadecimal digits. */
  predicate DigestText(encoded: bytes) {
    |encoded| == 64 && forall i | 0 <= i < 64 :: LowerHex(encoded[i])
  }
}
