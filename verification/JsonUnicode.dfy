/** The \u escapes of JSON strings: UTF-16 code units become the UTF-8 bytes of exactly the
    code point they stand for. */
module JsonUnicode {
  import opened CString
  import opened JsonValue
  import opened JsonText

  // ---------------------------------------------------------------- machine words

  /** The bitwise operators of C on unsigned words, bit by bit. */
  function And(a: nat, b: nat): (r: nat)
    ensures r <= a && r <= b
  {
    if a == 0 || b == 0 then 0 else 2 * And(a / 2, b / 2) + (if a % 2 == 1 && b % 2 == 1 then 1 else 0)
  }

  function Or(a: nat, b: nat): (r: nat)
    ensures r >= a && r >= b
    decreases a + b
  {
    if a == 0 then b else if b == 0 then a
    else 2 * Or(a / 2, b / 2) + (if a % 2 + b % 2 > 0 then 1 else 0)
  }

  function Pow2(k: nat): (p: nat)
    ensures p > 0
  {
    if k == 0 then 1 else 2 * Pow2(k - 1)
  }

  /** A mask of k ones keeps the last k bits. */
  lemma {:induction false} AndMask(q: nat, r: nat, k: nat)
    requires r < Pow2(k)
    ensures And(q * Pow2(k) + r, Pow2(k) - 1) == r
  {
    hide And;
    if k == 0 {
      And1(q, 0);
      NoBits(q);
    } else {
      var p := Pow2(k - 1);
      AndMask(q, r / 2, k - 1);
      AndBit(q * p + r / 2, r % 2, p - 1);
      assert q * (2 * p) == 2 * (q * p);
    }
  }

  lemma NoBits(a: nat)
    ensures And(a, 0) == 0
  {
  }

  /** Where no bit is set in both, or-ing is adding. */
  lemma {:induction false} OrAdds(a: nat, b: nat, k: nat)
    requires b < Pow2(k)
    ensures Or(a * Pow2(k), b) == a * Pow2(k) + b
  {
    if k > 0 && a > 0 && b > 0 {
      var p := Pow2(k - 1);
      OrAdds(a, b / 2, k - 1);
      assert a * (2 * p) == 2 * (a * p);
      assert (2 * (a * p)) / 2 == a * p;
    }
  }

  lemma Or1(a: nat, b: nat)
    ensures Or(a, b) == 2 * Or(a / 2, b / 2) + (if a % 2 + b % 2 > 0 then 1 else 0)
  {
  }

  lemma And1(a: nat, b: nat)
    ensures And(a, b) == 2 * And(a / 2, b / 2) + (if a % 2 == 1 && b % 2 == 1 then 1 else 0)
  {
  }

  /** One bit under a mask that has it. */
  lemma MaskedBit(h: nat, bit: nat, mark: nat, mask: nat)
    requires bit < 2
    ensures And(Or(2 * h + bit, 2 * mark), 2 * mask + 1) == 2 * And(Or(h, mark), mask) + bit
  {
    hide And, Or;
    OrBit(h, bit, mark);
    AndBit(Or(h, mark), bit, mask);
  }

  lemma OrBit(h: nat, bit: nat, mark: nat)
    requires bit < 2
    ensures Or(2 * h + bit, 2 * mark) == 2 * Or(h, mark) + bit
  {
    hide And, Or;
    var c := 2 * h + bit;
    assert c / 2 == h && c % 2 == bit && 2 * mark / 2 == mark;
    Or1(c, 2 * mark);
  }

  lemma AndBit(h: nat, bit: nat, mask: nat)
    requires bit < 2
    ensures And(2 * h + bit, 2 * mask + 1) == 2 * And(h, mask) + bit
  {
    hide And, Or;
    var c, m := 2 * h + bit, 2 * mask + 1;
    assert c / 2 == h && c % 2 == bit && m / 2 == mask && m % 2 == 1;
    And1(c, m);
  }

  /** One continuation byte as utf16_literal_to_utf8 computes it. */
  lemma ContinuationByte(c: nat)
    ensures And(Or(c, 0x80), 0xBF) == 0x80 + c % 64
  {
    hide And, Or;
    var h, l := c / 64, c % 64;
    Digits2(l);
    var l1, l2, l3, l4, l5 := l / 2, l / 4, l / 8, l / 16, l / 32;
    SixBits(h, l5, l4 - 2 * l5, l3 - 2 * l4, l2 - 2 * l3, l1 - 2 * l2, l - 2 * l1);
  }

  lemma Digits2(l: nat)
    requires l < 64
    ensures 0 <= l - 2 * (l / 2) < 2 && 0 <= l / 2 - 2 * (l / 4) < 2 && 0 <= l / 4 - 2 * (l / 8) < 2
    ensures 0 <= l / 8 - 2 * (l / 16) < 2 && 0 <= l / 16 - 2 * (l / 32) < 2 && l / 32 < 2
  {
  }

  lemma SixBits(h: nat, b5: nat, b4: nat, b3: nat, b2: nat, b1: nat, b0: nat)
    requires b5 < 2 && b4 < 2 && b3 < 2 && b2 < 2 && b1 < 2 && b0 < 2
    ensures var l := 32 * b5 + 16 * b4 + 8 * b3 + 4 * b2 + 2 * b1 + b0;
            And(Or(64 * h + l, 0x80), 0xBF) == 0x80 + l
  {
    hide And, Or;
    var c5 := 2 * h + b5;
    var c4 := 2 * c5 + b4;
    var c3 := 2 * c4 + b3;
    var c2 := 2 * c3 + b2;
    var c1 := 2 * c2 + b1;
    MaskedBit(c1, b0, 0x40, 0x5F);
    MaskedBit(c2, b1, 0x20, 0x2F);
    MaskedBit(c3, b2, 0x10, 0x17);
    MaskedBit(c4, b3, 0x08, 0x0B);
    MaskedBit(c5, b4, 0x04, 0x05);
    MaskedBit(h, b5, 0x02, 0x02);
    TopBits(h);
  }

  lemma TopBits(c: nat)
    ensures And(Or(c, 2), 2) == 2
  {
    hide And, Or;
    var h := c / 2;
    assert c == 2 * h + c % 2;
    OrBit(h, c % 2, 1);
    OddOr(h);
    SecondBit(Or(h, 1), c % 2);
  }

  lemma OddOr(h: nat)
    ensures Or(h, 1) % 2 == 1
  {
    hide And, Or;
    Or1(h, 1);
  }

  lemma SecondBit(o: nat, bit: nat)
    requires o % 2 == 1 && bit < 2
    ensures And(2 * o + bit, 2) == 2
  {
    hide And, Or;
    var c := 2 * o + bit;
    assert c / 2 == o;
    And1(c, 2);
    And1(o, 1);
    NoBits(o / 2);
  }

  /** The first byte with its length mark, cut to eight bits. */
  lemma LeadByte(c: nat)
    ensures c < 0x20 ==> And(Or(c, 0xC0), 0xFF) == 0xC0 + c
    ensures c < 0x10 ==> And(Or(c, 0xE0), 0xFF) == 0xE0 + c
    ensures c < 0x08 ==> And(Or(c, 0xF0), 0xFF) == 0xF0 + c
    ensures c < 0x80 ==> And(c, 0x7F) == c
  {
    hide And, Or;
    Powers();
    if c < 0x20 {
      OrAdds(6, c, 5);
      OrSwap(c, 0xC0);
      AndMask(0, 0xC0 + c, 8);
    }
    if c < 0x10 {
      OrAdds(14, c, 4);
      OrSwap(c, 0xE0);
      AndMask(0, 0xE0 + c, 8);
    }
    if c < 0x08 {
      OrAdds(30, c, 3);
      OrSwap(c, 0xF0);
      AndMask(0, 0xF0 + c, 8);
    }
    if c < 0x80 { AndMask(0, c, 7); }
  }

  lemma Powers()
    ensures Pow2(0) == 1 && Pow2(1) == 2 && Pow2(2) == 4 && Pow2(3) == 8 && Pow2(4) == 16 && Pow2(5) == 32
    ensures Pow2(6) == 64 && Pow2(7) == 128 && Pow2(8) == 256 && Pow2(9) == 512 && Pow2(10) == 0x400
  {
  }

  lemma {:induction false} OrSwap(a: nat, b: nat)
    ensures Or(a, b) == Or(b, a)
    decreases a + b
  {
    if a > 0 && b > 0 { OrSwap(a / 2, b / 2); }
  }

  /** Putting a surrogate pair together. */
  lemma JoinBits(first: nat, second: nat)
    ensures 0x10000 + Or(And(first, 0x3FF) * 0x400, And(second, 0x3FF)) == Join(first, second)
  {
    Powers();
    hide And, Or;
    AndMask(first / 0x400, first % 0x400, 10);
    AndMask(second / 0x400, second % 0x400, 10);
    OrAdds(first % 0x400, second % 0x400, 10);
  }

  // ---------------------------------------------------------------- UTF-8

  predicate Continuation(c: char)
  {
    0x80 <= c as int < 0xC0
  }

  function Low6(c: char): nat
  {
    c as int % 64
  }

  /** Reading one UTF-8 sequence (section 3 of RFC 3629), shortest form only: the code point
      and what follows. */
  function ReadUtf8(p: string): Option<(nat, string)>
  {
    if p == "" then None
    else
      var a := p[0] as int;
      if a < 0x80 then Some((a, p[1..]))
      else if 0xC2 <= a < 0xE0 then
        if |p| >= 2 && Continuation(p[1]) then Some(((a - 0xC0) * 64 + Low6(p[1]), p[2..])) else None
      else if 0xE0 <= a < 0xF0 then
        if |p| >= 3 && Continuation(p[1]) && Continuation(p[2]) then
          var c := (a - 0xE0) * 4096 + Low6(p[1]) * 64 + Low6(p[2]);
          if c >= 0x800 then Some((c, p[3..])) else None
        else None
      else if 0xF0 <= a < 0xF5 then
        if |p| >= 4 && Continuation(p[1]) && Continuation(p[2]) && Continuation(p[3]) then
          var c := (a - 0xF0) * 262144 + Low6(p[1]) * 4096 + Low6(p[2]) * 64 + Low6(p[3]);
          if 0x10000 <= c <= 0x10FFFF then Some((c, p[4..])) else None
        else None
      else None
  }

  lemma SplitThree(c: nat)
    requires c < 0x10000
    ensures c == c / 4096 * 4096 + c / 64 % 64 * 64 + c % 64 && c / 4096 < 16
  {
    assert c / 64 / 64 == c / 4096;
  }

  lemma SplitFour(c: nat)
    requires c <= 0x10FFFF
    ensures c == c / 262144 * 262144 + c / 4096 % 64 * 4096 + c / 64 % 64 * 64 + c % 64 && c / 262144 < 5
  {
    assert c / 64 / 64 == c / 4096;
    assert c / 4096 / 64 == c / 262144;
  }

  /** What is emitted for a code point reads back as that code point and nothing more. */
  lemma Utf8Reads(c: nat, rest: string)
    requires c <= 0x10FFFF
    ensures ReadUtf8(Utf8(c) + rest) == Some((c, rest))
  {
    var u := Utf8(c);
    var p := u + rest;
    hide Utf8;
    Utf8Shape(c);
    assert p[0] == u[0] && p[|u|..] == rest;
    if |u| > 1 { assert p[1] == u[1]; }
    if |u| > 2 { assert p[2] == u[2]; }
    if |u| > 3 { assert p[3] == u[3]; }
  }

  /** What a reader needs to know of the bytes. */
  lemma Utf8Shape(c: nat)
    requires c <= 0x10FFFF
    ensures var u := Utf8(c);
            && 1 <= |u| <= 4 && (forall k :: 0 < k < |u| ==> Continuation(u[k]))
            && (|u| == 1 ==> u[0] as int == c < 0x80)
            && (|u| == 2 ==> 0xC2 <= u[0] as int < 0xE0 && (u[0] as int - 0xC0) * 64 + Low6(u[1]) == c)
            && (|u| == 3 ==> 0xE0 <= u[0] as int < 0xF0 && c >= 0x800
                             && (u[0] as int - 0xE0) * 4096 + Low6(u[1]) * 64 + Low6(u[2]) == c)
            && (|u| == 4 ==> 0xF0 <= u[0] as int < 0xF5 && c >= 0x10000
                             && (u[0] as int - 0xF0) * 262144 + Low6(u[1]) * 4096 + Low6(u[2]) * 64 + Low6(u[3]) == c)
  {
    hide Utf8, Low6;
    if c < 0x800 {
      ShapeShort(c);
    } else if c < 0x10000 {
      ShapeThree(c);
    } else {
      ShapeFour(c);
    }
  }

  lemma ShapeShort(c: nat)
    requires c < 0x800
    ensures var u := Utf8(c);
            && |u| == (if c < 0x80 then 1 else 2)
            && (|u| == 1 ==> u[0] as int == c)
            && (|u| == 2 ==> 0xC2 <= u[0] as int < 0xE0 && Continuation(u[1]) && (u[0] as int - 0xC0) * 64 + Low6(u[1]) == c)
  {
  }

  lemma ShapeThree(c: nat)
    requires 0x800 <= c < 0x10000
    ensures var u := Utf8(c);
            && |u| == 3 && 0xE0 <= u[0] as int < 0xF0 && Continuation(u[1]) && Continuation(u[2])
            && (u[0] as int - 0xE0) * 4096 + Low6(u[1]) * 64 + Low6(u[2]) == c
  {
    SplitThree(c);
  }

  lemma ShapeFour(c: nat)
    requires 0x10000 <= c <= 0x10FFFF
    ensures var u := Utf8(c);
            && |u| == 4 && 0xF0 <= u[0] as int < 0xF5 && Continuation(u[1]) && Continuation(u[2]) && Continuation(u[3])
            && (u[0] as int - 0xF0) * 262144 + Low6(u[1]) * 4096 + Low6(u[2]) * 64 + Low6(u[3]) == c
  {
    SplitFour(c);
  }

  // ---------------------------------------------------------------- UTF-16

  function Hex4Text(h: nat): (s: string)
    requires h < 0x10000
    ensures |s| == 4
  {
    [HexDigit(h / 4096), HexDigit(h / 256 % 16), HexDigit(h / 16 % 16), HexDigit(h % 16)]
  }

  lemma Hex4Reads(h: nat)
    requires h < 0x10000
    ensures Hex4(Hex4Text(h)) == h
  {
    assert h / 16 / 16 == h / 256 && h / 256 / 16 == h / 4096;
  }

  predicate HighSurrogate(u: nat) { 0xD800 <= u <= 0xDBFF }
  predicate LowSurrogate(u: nat) { 0xDC00 <= u <= 0xDFFF }

  function Join(hi: nat, lo: nat): nat
  {
    0x10000 + hi % 0x400 * 0x400 + lo % 0x400
  }

  function HighOf(c: nat): nat
    requires 0x10000 <= c <= 0x10FFFF
  {
    0xD800 + (c - 0x10000) / 0x400
  }

  function LowOf(c: nat): nat
    requires 0x10000 <= c <= 0x10FFFF
  {
    0xDC00 + c % 0x400
  }

  /** Surrogate pairs and the code points from U+10000 to U+10FFFF correspond one to one
      (section 2.2 of RFC 2781). */
  lemma PairsCover(hi: nat, lo: nat, c: nat)
    requires HighSurrogate(hi) && LowSurrogate(lo) && 0x10000 <= c <= 0x10FFFF
    ensures 0x10000 <= Join(hi, lo) <= 0x10FFFF
    ensures HighSurrogate(HighOf(c)) && LowSurrogate(LowOf(c)) && Join(HighOf(c), LowOf(c)) == c
    ensures Join(hi, lo) == c <==> hi == HighOf(c) && lo == LowOf(c)
  {
    var d := c - 0x10000;
    assert c % 0x400 == d % 0x400;
    assert hi % 0x400 == hi - 0xD800 && lo % 0x400 == lo - 0xDC00;
    var h, l := hi - 0xD800, lo - 0xDC00;
    assert (h * 0x400 + l) / 0x400 == h && (h * 0x400 + l) % 0x400 == l;
    var q := d / 0x400;
    assert (0xD800 + q) % 0x400 == q;
  }

  lemma HighAndLow(c: nat)
    requires 0x10000 <= c <= 0x10FFFF
    ensures HighSurrogate(HighOf(c)) && LowSurrogate(LowOf(c)) && Join(HighOf(c), LowOf(c)) == c
  {
    PairsCover(0xD800, 0xDC00, c);
  }

  /** A code point as JSON escapes it. */
  function EscapeText(c: nat): string
    requires c <= 0x10FFFF
  {
    if c < 0x10000 then "\\u" + Hex4Text(c)
    else "\\u" + Hex4Text(HighOf(c)) + "\\u" + Hex4Text(LowOf(c))
  }

  lemma PlainIsRead(a: string, rest: string, c: nat)
    requires |a| == 4 && Hex4(a) == c && c < 0x10000 && !HighSurrogate(c) && !LowSurrogate(c)
    ensures Utf16Literal("\\u" + (a + rest)) == Some((Utf8(c), 6))
  {
    hide Hex4, Utf8;
    var p := "\\u" + (a + rest);
    assert p[2..6] == a;
  }

  lemma PairIsRead(a: string, b: string, rest: string)
    requires |a| == 4 && |b| == 4 && HighSurrogate(Hex4(a)) && LowSurrogate(Hex4(b))
    ensures Utf16Literal("\\u" + (a + ("\\u" + (b + rest)))) ==
              Some((Utf8(0x10000 + (Hex4(a) % 0x400) * 0x400 + Hex4(b) % 0x400), 12))
  {
    hide Hex4, Utf8;
    var p := "\\u" + (a + ("\\u" + (b + rest)));
    assert p[2..6] == a && p[8..12] == b;
    assert p[6] == '\\' && p[7] == 'u';
  }

  /** Every escaped code point other than a lone surrogate is emitted as its UTF-8 form, and
      the whole escape is read. */
  lemma EscapeIsRead(c: nat, rest: string)
    requires c <= 0x10FFFF && !HighSurrogate(c) && !LowSurrogate(c)
    ensures Utf16Literal(EscapeText(c) + rest) == Some((Utf8(c), |EscapeText(c)|))
  {
    hide Hex4, Hex4Text, Utf8, Utf16Literal, HighOf, LowOf;
    if c < 0x10000 {
      Hex4Reads(c);
      PlainIsRead(Hex4Text(c), rest, c);
      assert ("\\u" + Hex4Text(c)) + rest == "\\u" + (Hex4Text(c) + rest);
    } else {
      HighAndLow(c);
      var a, b := Hex4Text(HighOf(c)), Hex4Text(LowOf(c));
      Hex4Reads(HighOf(c));
      Hex4Reads(LowOf(c));
      PairIsRead(a, b, rest);
      assert ("\\u" + a + "\\u" + b) + rest == "\\u" + (a + ("\\u" + (b + rest)));
    }
  }

  // ---------------------------------------------------------------- exactly what is accepted

  predicate Scalar(c: nat)
  {
    c <= 0x10FFFF && !HighSurrogate(c) && !LowSurrogate(c)
  }

  /** The text begins with the escape of c, its hexadecimal digits in either case. */
  predicate Spells(p: string, c: nat)
    requires c <= 0x10FFFF
  {
    if c < 0x10000 then |p| >= 6 && p[..2] == "\\u" && Lower(p[2..6]) == Hex4Text(c)
    else
      && |p| >= 12 && p[..2] == "\\u" && Lower(p[2..6]) == Hex4Text(HighOf(c))
      && p[6..8] == "\\u" && Lower(p[8..12]) == Hex4Text(LowOf(c))
  }

  lemma DigitOf(c: char)
    requires HexValue(c).Some?
    ensures HexValue(c).value < 16 && HexDigit(HexValue(c).value) == ToLower(c)
    ensures HexValue(ToLower(c)) == HexValue(c)
  {
  }

  lemma DigitBack(c: char, n: nat)
    requires n < 16 && ToLower(c) == HexDigit(n)
    ensures HexValue(c) == Some(n)
  {
  }

  /** Four hexadecimal digits are, but for their case, the ones their value is written with. */
  lemma HexSpells(t: string, h: nat)
    requires |t| == 4 && h < 0x10000
    ensures AllHex(t) && Hex4(t) == h <==> Lower(t) == Hex4Text(h)
  {
    if AllHex(t) && Hex4(t) == h {
      DigitOf(t[0]);
      DigitOf(t[1]);
      DigitOf(t[2]);
      DigitOf(t[3]);
      FourDigits(HexValue(t[0]).value, HexValue(t[1]).value, HexValue(t[2]).value, HexValue(t[3]).value);
    }
    if Lower(t) == Hex4Text(h) {
      hide HexValue;
      var u := Hex4Text(h);
      assert ToLower(t[0]) == u[0] && ToLower(t[1]) == u[1] && ToLower(t[2]) == u[2] && ToLower(t[3]) == u[3];
      DigitBack(t[0], h / 4096);
      DigitBack(t[1], h / 256 % 16);
      DigitBack(t[2], h / 16 % 16);
      DigitBack(t[3], h % 16);
      assert h / 16 / 16 == h / 256 && h / 256 / 16 == h / 4096;
    }
  }

  lemma FourDigits(a: nat, b: nat, c: nat, d: nat)
    requires a < 16 && b < 16 && c < 16 && d < 16
    ensures var h := ((a * 16 + b) * 16 + c) * 16 + d;
            h / 4096 == a && h / 256 % 16 == b && h / 16 % 16 == c && h % 16 == d
  {
    var h := ((a * 16 + b) * 16 + c) * 16 + d;
    assert h / 16 == (a * 16 + b) * 16 + c;
    assert h / 256 == a * 16 + b;
  }

  lemma SpelledIsRead(p: string, c: nat)
    requires Scalar(c) && Spells(p, c)
    ensures Utf16Literal(p) == Some((Utf8(c), if c < 0x10000 then 6 else 12))
  {
    hide Hex4, Hex4Text, Utf8, HighOf, LowOf, AllHex;
    if c < 0x10000 {
      HexSpells(p[2..6], c);
    } else {
      HighAndLow(c);
      HexSpells(p[2..6], HighOf(c));
      HexSpells(p[8..12], LowOf(c));
      assert p[6..8][0] == p[6] && p[6..8][1] == p[7];
    }
  }

  lemma ReadIsSpelled(p: string) returns (c: nat)
    requires |p| >= 6 && p[..2] == "\\u" && AllHex(p[2..6]) && Utf16Literal(p).Some?
    ensures Scalar(c) && Spells(p, c)
  {
    hide Hex4, Hex4Text, Utf8;
    var first := Hex4(p[2..6]);
    HexSpells(p[2..6], first);
    if HighSurrogate(first) {
      var second := Hex4(p[8..12]);
      c := Join(first, second);
      PairsCover(first, second, c);
      BadIsZero(p[8..12]);
      HexSpells(p[8..12], second);
      assert p[6..8] == "\\u";
    } else {
      c := first;
    }
  }

  lemma BadIsZero(t: string)
    requires |t| == 4
    ensures !AllHex(t) ==> Hex4(t) == 0
  {
  }

  /** An escape is accepted exactly if it spells a code point that is no surrogate, alone or
      as a proper pair, or if it has a bad digit, in which case it reads as U+0000. */
  lemma LiteralExact(p: string)
    requires |p| >= 2 && p[..2] == "\\u"
    ensures Utf16Literal(p).Some? <==> |p| >= 6 && (AllHex(p[2..6]) ==> exists c :: Scalar(c) && Spells(p, c))
    ensures forall c :: Scalar(c) && Spells(p, c) ==> Utf16Literal(p) == Some((Utf8(c), if c < 0x10000 then 6 else 12))
    ensures |p| >= 6 && !AllHex(p[2..6]) ==> Utf16Literal(p) == Some((Utf8(0), 6))
  {
    hide Hex4, Hex4Text, Utf8, HighOf, LowOf, AllHex, Spells;
    forall c | Scalar(c) && Spells(p, c) ensures Utf16Literal(p) == Some((Utf8(c), if c < 0x10000 then 6 else 12)) {
      SpelledIsRead(p, c);
    }
    if |p| >= 6 {
      BadIsZero(p[2..6]);
      if AllHex(p[2..6]) && Utf16Literal(p).Some? {
        var c := ReadIsSpelled(p);
      }
    }
  }
}
