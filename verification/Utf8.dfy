/** What the text functions mean in terms of characters: UTF-8 as the encoding of scalar values, white space by
    its code points, letters and digits by the characters themselves. */
module Utf8 {
  import opened Bytes
  import opened Text

  // ---- Encoded characters (section 3.9 of the Unicode Standard, table 3-6) ----

  /** A Unicode scalar value: any code point but the surrogates. */
  type Scalar = c: int | 0 <= c < 0xD800 || 0xE000 <= c < 0x11_0000

  function Encode(c: Scalar): (r: bytes)
    ensures r != []
  {
    if c < 0x80 then [c]
    else if c < 0x800 then [0xC0 + c / 64, 0x80 + c % 64]
    else if c < 0x1_0000 then [0xE0 + c / 4096, 0x80 + c / 64 % 64, 0x80 + c % 64]
    else [0xF0 + c / 0x4_0000, 0x80 + c / 4096 % 64, 0x80 + c / 64 % 64, 0x80 + c % 64]
  }

  function EncodeAll(cs: seq<Scalar>): bytes {
    if cs == [] then [] else Encode(cs[0]) + EncodeAll(cs[1..])
  }

  /** The bounds on the second byte of longer encodings. */
  lemma SecondOfThree(c: Scalar)
    requires 0x800 <= c < 0x1_0000
    ensures var a, b := c / 4096, c / 64 % 64;
            0 <= a < 16 && (a == 0 ==> b >= 32) && (a == 13 ==> b < 32)
  {
    var h := c / 64;
    assert h / 64 == c / 4096 && h == 64 * (h / 64) + h % 64;
  }

  lemma SecondOfFour(c: Scalar)
    requires 0x1_0000 <= c
    ensures var a, b := c / 0x4_0000, c / 4096 % 64;
            0 <= a <= 4 && (a == 0 ==> b >= 16) && (a == 4 ==> b < 16)
  {
    var h := c / 4096;
    assert h / 64 == c / 0x4_0000 && h == 64 * (h / 64) + h % 64;
  }

  lemma ScalarInFront(c: Scalar, rest: bytes)
    ensures ScalarLength(Encode(c) + rest) == |Encode(c)|
  {
    var s, e := Encode(c) + rest, Encode(c);
    if c < 0x800 {
      assert s[0] == e[0] && (|e| == 2 ==> s[1] == e[1]);
    } else if c < 0x1_0000 {
      SecondOfThree(c);
      assert s[0] == e[0] && s[1] == e[1] && s[2] == e[2];
      assert Continuation(s[1]) && Continuation(s[2]);
    } else {
      SecondOfFour(c);
      assert s[0] == e[0] && s[1] == e[1] && s[2] == e[2] && s[3] == e[3];
      assert Continuation(s[1]) && Continuation(s[2]) && Continuation(s[3]);
    }
  }

  /** The scalar value at the front of a text. */
  function ScalarAt(s: bytes): (c: Scalar)
    requires s != [] && ScalarLength(s) > 0
    ensures Encode(c) == s[..ScalarLength(s)]
  {
    var n := ScalarLength(s);
    var a: int := s[0];
    if n == 1 then a
    else
      var b: int := s[1] - 0x80;
      if n == 2 then
        TwoBytes(a - 0xC0, b);
        (a - 0xC0) * 64 + b
      else
        var c: int := s[2] - 0x80;
        if n == 3 then
          ThreeBytes(a - 0xE0, b, c);
          (a - 0xE0) * 4096 + b * 64 + c
        else
          var d: int := s[3] - 0x80;
          FourBytes(a - 0xF0, b, c, d);
          (a - 0xF0) * 0x4_0000 + b * 4096 + c * 64 + d
  }

  lemma TwoBytes(a: int, b: int)
    requires 0 <= b < 64
    ensures (a * 64 + b) / 64 == a && (a * 64 + b) % 64 == b
  {
  }

  lemma ThreeBytes(a: int, b: int, c: int)
    requires 0 <= a && 0 <= b < 64 && 0 <= c < 64
    ensures var n := a * 4096 + b * 64 + c; n / 4096 == a && n / 64 % 64 == b && n % 64 == c
  {
    var n := a * 4096 + b * 64 + c;
    assert n / 64 == a * 64 + b;
  }

  lemma FourBytes(a: int, b: int, c: int, d: int)
    requires 0 <= a && 0 <= b < 64 && 0 <= c < 64 && 0 <= d < 64
    ensures var n := a * 0x4_0000 + b * 4096 + c * 64 + d;
            n / 0x4_0000 == a && n / 4096 % 64 == b && n / 64 % 64 == c && n % 64 == d
  {
    var n := a * 0x4_0000 + b * 4096 + c * 64 + d;
    assert n / 64 == a * 4096 + b * 64 + c;
    assert n / 4096 == a * 64 + b;
  }

  /** A text is accepted exactly if it is the encoding of some scalar values. */
  lemma Utf8Iff(s: bytes)
    ensures ValidUtf8(s) <==> exists cs :: EncodeAll(cs) == s
  {
    if ValidUtf8(s) {
      var cs := Decoded(s);
      assert EncodeAll(cs) == s;
    }
    forall cs | EncodeAll(cs) == s
      ensures ValidUtf8(s)
    {
      EncodedIsValid(cs);
    }
  }

  lemma {:induction false} Decoded(s: bytes) returns (cs: seq<Scalar>)
    requires ValidUtf8(s)
    ensures EncodeAll(cs) == s
  {
    if s == [] {
      cs := [];
    } else {
      var n, c := ScalarLength(s), ScalarAt(s);
      var rest := Decoded(s[n..]);
      cs := [c] + rest;
      assert cs[1..] == rest && s == s[..n] + s[n..];
    }
  }

  lemma {:induction false} EncodedIsValid(cs: seq<Scalar>)
    ensures ValidUtf8(EncodeAll(cs))
  {
    if cs != [] {
      EncodedIsValid(cs[1..]);
      ScalarInFront(cs[0], EncodeAll(cs[1..]));
      var s, n := EncodeAll(cs), |Encode(cs[0])|;
      assert s[n..] == EncodeAll(cs[1..]);
    }
  }

  // ---- White space, by code point ----

  predicate White(c: Scalar) {
    || 0x09 <= c <= 0x0D || c == 0x20 || c == 0x85 || c == 0xA0 || c == 0x1680 || 0x2000 <= c <= 0x200A
    || c == 0x2028 || c == 0x2029 || c == 0x202F || c == 0x205F || c == 0x3000
  }

  /** The encodings of the white space characters. */
  lemma WhiteEncoded(c: Scalar)
    requires White(c)
    ensures var e := Encode(c);
            && (|e| == 1 ==> Space1(e[0])) && (|e| == 2 ==> Space2(e[0], e[1]))
            && (|e| == 3 ==> Space3(e[0], e[1], e[2])) && |e| <= 3 && (|e| > 1 ==> !Space1(e[|e| - 1]))
            && (|e| == 3 ==> !Space2(e[1], e[2]) && !Space2(e[0], e[1])) && (|e| > 1 ==> !Space1(e[0]))
  {
  }

  lemma EncodedWhite(e: bytes)
    requires (|e| == 1 && Space1(e[0])) || (|e| == 2 && Space2(e[0], e[1])) || (|e| == 3 && Space3(e[0], e[1], e[2]))
    ensures exists c :: White(c) && Encode(c) == e
  {
    var x: int, y: int, z: int := e[0], if |e| > 1 then e[1] else 0, if |e| > 2 then e[2] else 0;
    var c := if |e| == 1 then x else if |e| == 2 then y else (x - 0xE0) * 4096 + (y - 0x80) * 64 + (z - 0x80);
    assert White(c) && Encode(c) == e;
  }

  /** White space is found in front of a text exactly if a white space character is there. */
  lemma LeadingSpaceIff(s: bytes)
    ensures LeadingSpace(s) > 0 <==> exists c :: White(c) && Encode(c) <= s
    ensures LeadingSpace(s) > 0 ==> exists c :: White(c) && Encode(c) == s[..LeadingSpace(s)]
  {
    hide White, Encode;
    var n := LeadingSpace(s);
    if n > 0 {
      EncodedWhite(s[..n]);
    }
    forall c | White(c) && Encode(c) <= s
      ensures n > 0
    {
      WhiteEncoded(c);
      assert Encode(c) == s[..|Encode(c)|];
    }
  }

  lemma TrailingSpaceIff(s: bytes)
    ensures TrailingSpace(s) > 0 <==> exists c :: White(c) && |Encode(c)| <= |s| && Encode(c) == s[|s| - |Encode(c)|..]
    ensures TrailingSpace(s) > 0 ==> exists c :: White(c) && Encode(c) == s[|s| - TrailingSpace(s)..]
  {
    hide White, Encode;
    var n := TrailingSpace(s);
    if n > 0 {
      EncodedWhite(s[|s| - n..]);
    }
    forall c | White(c) && |Encode(c)| <= |s| && Encode(c) == s[|s| - |Encode(c)|..]
      ensures n > 0
    {
      WhiteEncoded(c);
    }
  }

  predicate AllWhite(cs: seq<Scalar>) {
    forall i | 0 <= i < |cs| :: White(cs[i])
  }

  lemma {:induction false} EncodedConcat(a: seq<Scalar>, b: seq<Scalar>)
    ensures EncodeAll(a + b) == EncodeAll(a) + EncodeAll(b)
  {
    if a == [] {
      assert a + b == b;
    } else {
      assert (a + b)[1..] == a[1..] + b;
      EncodedConcat(a[1..], b);
    }
  }

  lemma {:induction false} TrimStartKeeps(s: bytes) returns (a: seq<Scalar>)
    ensures AllWhite(a) && s == EncodeAll(a) + TrimStart(s) && LeadingSpace(TrimStart(s)) == 0
    decreases |s|
  {
    hide White, Encode, LeadingSpace;
    var n := LeadingSpace(s);
    if n == 0 {
      a := [];
    } else {
      LeadingSpaceIff(s);
      var c :| White(c) && Encode(c) == s[..n];
      var rest := TrimStartKeeps(s[n..]);
      a := [c] + rest;
      assert a[1..] == rest && s == s[..n] + s[n..];
    }
  }

  lemma {:induction false} TrimEndKeeps(s: bytes) returns (b: seq<Scalar>)
    ensures AllWhite(b) && s == TrimEnd(s) + EncodeAll(b) && TrailingSpace(TrimEnd(s)) == 0
    decreases |s|
  {
    hide White, Encode, TrailingSpace, EncodeAll;
    var n := TrailingSpace(s);
    if n == 0 {
      b := [];
      NoneEncoded();
    } else {
      TrailingSpaceIff(s);
      var c :| White(c) && Encode(c) == s[|s| - n..];
      var front := TrimEndKeeps(s[..|s| - n]);
      b := front + [c];
      EncodedConcat(front, [c]);
      EncodedOne(c);
      assert s == (TrimEnd(s) + EncodeAll(front)) + Encode(c);
      assert (TrimEnd(s) + EncodeAll(front)) + Encode(c) == TrimEnd(s) + (EncodeAll(front) + Encode(c));
    }
  }

  lemma NoneEncoded()
    ensures EncodeAll([]) == []
  {
  }

  lemma EncodedOne(c: Scalar)
    ensures EncodeAll([c]) == Encode(c)
  {
    assert [c][1..] == [];
  }

  /** No white space character is at the front of a text, or at its end. */
  ghost predicate NoneInFront(s: bytes) {
    forall c | White(c) :: !(Encode(c) <= s)
  }

  ghost predicate NoneBehind(s: bytes) {
    forall c | White(c) && |Encode(c)| <= |s| :: Encode(c) != s[|s| - |Encode(c)|..]
  }

  lemma NoneInFrontIff(s: bytes)
    ensures NoneInFront(s) <==> LeadingSpace(s) == 0
  {
    hide White, Encode, LeadingSpace;
    LeadingSpaceIff(s);
  }

  lemma NoneBehindIff(s: bytes)
    ensures NoneBehind(s) <==> TrailingSpace(s) == 0
  {
    hide White, Encode, TrailingSpace;
    TrailingSpaceIff(s);
  }

  lemma NoneInFrontOfPrefix(s: bytes, t: bytes)
    requires NoneInFront(t) && s <= t
    ensures NoneInFront(s)
  {
    hide White, Encode;
    forall c | White(c)
      ensures !(Encode(c) <= s)
    {
      assert Encode(c) <= s ==> Encode(c) <= t;
    }
  }

  /** Trimming takes white space away at both ends, nothing else, and leaves none there. */
  lemma TrimKeeps(s: bytes) returns (a: seq<Scalar>, b: seq<Scalar>)
    ensures AllWhite(a) && AllWhite(b) && s == EncodeAll(a) + Trim(s) + EncodeAll(b)
    ensures NoneInFront(Trim(s)) && NoneBehind(Trim(s))
  {
    hide NoneInFront, NoneBehind, TrailingSpace, LeadingSpace, TrimStart, TrimEnd, EncodeAll, AllWhite;
    a := TrimStartKeeps(s);
    b := TrimEndKeeps(TrimStart(s));
    assert EncodeAll(a) + (Trim(s) + EncodeAll(b)) == EncodeAll(a) + Trim(s) + EncodeAll(b);
    NoneBehindIff(Trim(s));
    NoneInFrontIff(TrimStart(s));
    NoneInFrontOfPrefix(Trim(s), TrimStart(s));
  }

  // ---- Letters and digits ----

  /** Folding takes the capital letters to the small ones and changes nothing else. */
  lemma LettersFold(b: byte)
    ensures Lower(b) == if 'A' as int <= b <= 'Z' as int then 'a' as int + (b - 'A' as int) else b
  {
  }

  /** The digits of a number are the decimal digits and the first letters, small or capital. */
  lemma DigitIff(c: char, value: nat)
    requires c < 128 as char
    ensures DigitValue(c as int) == Some(value)
       <==> value < 16 && (c == "0123456789abcdef"[value] || c == "0123456789ABCDEF"[value])
  {
    if value < 16 {
      SmallDigit(value);
      CapitalDigit(value);
    }
  }

  lemma SmallDigit(value: nat)
    requires value < 16
    ensures "0123456789abcdef"[value] as int == if value < 10 then '0' as int + value else 'a' as int + value - 10
  {
  }

  lemma CapitalDigit(value: nat)
    requires value < 16
    ensures "0123456789ABCDEF"[value] as int == if value < 10 then '0' as int + value else 'A' as int + value - 10
  {
  }

  /** A digest is written as 64 of the decimal digits and the small letters up to f. */
  lemma DigestTextIff(s: bytes)
    ensures DigestText(s) <==> |s| == 64 && forall b | b in s :: b as char in "0123456789abcdef"
  {
    hide LowerHex;
    forall b: byte
      ensures LowerHex(b) <==> b as char in "0123456789abcdef"
    {
      LowerHexIff(b);
    }
    assert forall i | 0 <= i < |s| :: s[i] in s;
  }

  lemma LowerHexIff(b: byte)
    ensures LowerHex(b) <==> b as char in "0123456789abcdef"
  {
    assert |"0123456789abcdef"| == 16;
    if LowerHex(b) {
      SmallDigit(if b <= 57 then b - 48 else b - 87);
    }
  }
}
