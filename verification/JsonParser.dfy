/** The parser as cJSON runs it: a buffer with an offset and a nesting depth that the parse
    functions move along. It does what the functions of JsonText say, and the buffer that
    parse_string sizes in one pass is never overrun by its other pass. */
module JsonParser {
  import opened CString
  import opened JsonValue
  import opened JsonText
  import opened JsonUnicode

  lemma Drop(s: string, i: nat, j: nat)
    requires i + j <= |s|
    ensures s[i..][j..] == s[i+j..]
  {
  }

  // ---------------------------------------------------------------- the size of a decoded string

  /** How many characters and escape pairs the sizing pass counts in the content p. */
  function Units(p: string): nat
    decreases |p|
  {
    if p == "" then 0
    else if p[0] == '\\' then 1 + Units(if |p| > 1 then p[2..] else "")
    else 1 + Units(p[1..])
  }

  /** Starting one character later loses at most one unit, wherever the escapes start. */
  lemma {:induction false} UnitsStep(p: string)
    requires p != ""
    ensures Units(p[1..]) <= Units(p) <= 1 + Units(p[1..])
    decreases |p|
  {
    if p[0] == '\\' && |p| > 1 {
      UnitsStep(p[1..]);
      Drop(p, 1, 1);
    }
  }

  lemma {:induction false} UnitsDrop(p: string, n: nat)
    requires n <= |p|
    ensures Units(p[n..]) <= Units(p)
    decreases n
  {
    if n > 0 {
      UnitsStep(p);
      Drop(p, 1, n - 1);
      UnitsDrop(p[1..], n - 1);
    } else {
      assert p[0..] == p;
    }
  }

  lemma {:induction false} UnitsPlain(p: string, n: nat)
    requires n <= |p| && forall i :: 0 <= i < n ==> p[i] != '\\'
    ensures Units(p) == n + Units(p[n..])
    decreases n
  {
    if n > 0 {
      Drop(p, 1, n - 1);
      UnitsPlain(p[1..], n - 1);
    } else {
      assert p[0..] == p;
    }
  }

  /** A \u escape never emits more bytes than the units it covers, even one with bad digits,
      over which the two passes may disagree about where the next escape starts. */
  lemma LiteralFits(p: string)
    requires p != "" && p[0] == '\\' && Utf16Literal(p).Some?
    ensures var (bytes, n) := Utf16Literal(p).value;
            |bytes| + Units(p[n..]) <= Units(p)
  {
    var (bytes, n) := Utf16Literal(p).value;
    var first := Hex4(p[2..6]);
    assert Units(p) == 1 + Units(p[2..]);
    if AllHex(p[2..6]) {
      HexRun(p, 2);
      Drop(p, 2, 4);
      UnitsPlain(p[2..], 4);
      if n == 12 {
        var second := Hex4(p[8..12]);
        assert AllHex(p[8..12]);
        var q := p[6..];
        assert q[0] == '\\' && q[2..] == p[8..] by { Drop(p, 6, 2); }
        assert Units(q) == 1 + Units(p[8..]);
        HexRun(p, 8);
        Drop(p, 8, 4);
        UnitsPlain(p[8..], 4);
      }
    } else {
      Drop(p, 2, 4);
      UnitsDrop(p[2..], 4);
    }
  }

  lemma HexRun(p: string, i: nat)
    requires i + 4 <= |p| && AllHex(p[i..i+4])
    ensures forall k :: 0 <= k < 4 ==> p[i..][k] != '\\'
  {
    forall k | 0 <= k < 4 ensures p[i..][k] != '\\' {
      assert p[i..i+4][k] == p[i+k];
    }
  }

  // ---------------------------------------------------------------- loops over characters

  /** parse_hex4. */
  method ParseHex4(input: string) returns (h: nat)
    requires |input| == 4
    ensures h == Hex4(input)
  {
    h := 0;
    var i := 0;
    while i < 4
      invariant i <= 4
      invariant forall k :: 0 <= k < i ==> HexValue(input[k]).Some?
      invariant i == 1 ==> h == HexValue(input[0]).value * 16
      invariant i == 2 ==> h == (HexValue(input[0]).value * 16 + HexValue(input[1]).value) * 16
      invariant i == 3 ==> h == ((HexValue(input[0]).value * 16 + HexValue(input[1]).value) * 16 + HexValue(input[2]).value) * 16
      invariant i == 0 ==> h == 0
      invariant i == 4 ==> h == Hex4(input)
    {
      var c := input[i];
      if '0' <= c <= '9' {
        h := h + (c as int - '0' as int);
      } else if 'A' <= c <= 'F' {
        h := h + (10 + c as int - 'A' as int);
      } else if 'a' <= c <= 'f' {
        h := h + (10 + c as int - 'a' as int);
      } else {
        return 0;
      }
      if i < 3 { h := h * 16; }
      i := i + 1;
    }
  }

  /** The encoding loop of utf16_literal_to_utf8: last byte first. */
  method EmitUtf8(codepoint: nat, output: array<char>, pos: nat) returns (length: nat)
    requires codepoint <= 0x10FFFF && pos + |Utf8(codepoint)| <= output.Length
    modifies output
    ensures length == |Utf8(codepoint)|
    ensures output[..pos + length] == old(output[..pos]) + Utf8(codepoint)
  {
    hide Utf8, Shifted, Tail, And, Or;
    Utf8IsTail(codepoint);
    var mark;
    length, mark := FirstByteMark(codepoint);
    var code := EmitTail(codepoint, output, pos, length);
    LeadByte(code);
    PutFirst(output, pos, length, if length > 1 then And(Or(code, mark), 0xFF) as char else And(code, 0x7F) as char);
  }

  /** How long the UTF-8 form is, and the bits that say so in its first byte. */
  function Mark(length: nat): nat
  {
    if length == 2 then 0xC0 else if length == 3 then 0xE0 else if length == 4 then 0xF0 else 0
  }

  method FirstByteMark(codepoint: nat) returns (length: nat, mark: nat)
    requires codepoint <= 0x10FFFF
    ensures length == |Utf8(codepoint)| && mark == Mark(length)
  {
    mark := 0;
    if codepoint < 0x80 {
      length := 1;
    } else if codepoint < 0x800 {
      length := 2;
      mark := 0xC0;
    } else if codepoint < 0x10000 {
      length := 3;
      mark := 0xE0;
    } else {
      length := 4;
      mark := 0xF0;
    }
  }

  method PutFirst(output: array<char>, pos: nat, length: nat, c: char)
    requires 0 < length && pos + length <= output.Length
    modifies output
    ensures output[..pos + length] == old(output[..pos]) + ([c] + old(output[pos + 1..pos + length]))
  {
    output[pos] := c;
    assert output[pos..pos + length] == [c] + old(output[pos + 1..pos + length]);
    assert output[..pos + length] == output[..pos] + output[pos..pos + length];
  }

  /** The continuation bytes, the last one first; what is left of the code point goes into the
      first byte. */
  method EmitTail(codepoint: nat, output: array<char>, pos: nat, length: nat) returns (code: nat)
    requires 0 < length && pos + length <= output.Length
    modifies output
    ensures code == Shifted(codepoint, length - 1)
    ensures output[..pos] == old(output[..pos]) && output[pos + 1..pos + length] == Tail(codepoint, length - 1)
  {
    hide Shifted, Tail, And, Or;
    var position := length - 1;
    code := codepoint;
    NoTail(codepoint);
    while position > 0
      invariant 0 <= position < length
      invariant output[..pos] == old(output[..pos])
      invariant code == Shifted(codepoint, length - 1 - position)
      invariant output[pos + position + 1..pos + length] == Tail(codepoint, length - 1 - position)
    {
      TailMore(codepoint, length - 1 - position);
      ContinuationByte(code);
      output[pos + position] := And(Or(code, 0x80), 0xBF) as char;
      assert output[pos + position..pos + length] == [output[pos + position]] + output[pos + position + 1..pos + length];
      code := code / 64;
      position := position - 1;
    }
  }

  /** The code point shifted by 6 bits n times. */
  function Shifted(c: nat, n: nat): nat
  {
    if n == 0 then c else Shifted(c, n - 1) / 64
  }

  /** The last n bytes of the UTF-8 form. */
  function Tail(c: nat, n: nat): (r: string)
    ensures |r| == n
  {
    if n == 0 then "" else [(0x80 + Shifted(c, n - 1) % 64) as char] + Tail(c, n - 1)
  }

  lemma NoTail(c: nat)
    ensures Shifted(c, 0) == c && Tail(c, 0) == ""
  {
  }

  lemma TailMore(c: nat, n: nat)
    ensures Shifted(c, n + 1) == Shifted(c, n) / 64
    ensures Tail(c, n + 1) == [(0x80 + Shifted(c, n) % 64) as char] + Tail(c, n)
  {
  }

  lemma Utf8IsTail(c: nat)
    requires c <= 0x10FFFF
    ensures var n := |Utf8(c)|;
            && Shifted(c, n - 1) < (if n == 1 then 0x80 else if n == 2 then 0x20 else if n == 3 then 0x10 else 0x08)
            && Utf8(c) == [(Mark(n) + Shifted(c, n - 1)) as char] + Tail(c, n - 1)
  {
    NoTail(c);
    TailMore(c, 0);
    TailMore(c, 1);
    TailMore(c, 2);
    hide Shifted, Tail;
    Divisions(c);
  }

  lemma Divisions(c: nat)
    ensures c / 64 / 64 == c / 4096 && c / 64 / 64 / 64 == c / 262144
  {
    assert c / 4096 / 64 == c / 262144;
  }

  /** utf16_literal_to_utf8: 0 if the escape is refused. */
  method Utf16LiteralToUtf8(p: string, output: array<char>, pos: nat) returns (used: nat, next: nat)
    requires pos <= output.Length
    requires Utf16Literal(p).Some? ==> pos + |Utf16Literal(p).value.0| <= output.Length
    modifies output
    ensures used == 0 <==> Utf16Literal(p).None?
    ensures used > 0 ==> used == Utf16Literal(p).value.1 && next == pos + |Utf16Literal(p).value.0| <= output.Length
    ensures used > 0 ==> output[..next] == old(output[..pos]) + Utf16Literal(p).value.0
  {
    used, next := 0, pos;
    if |p| < 6 { return; }
    var first := ParseHex4(p[2..6]);
    if 0xDC00 <= first <= 0xDFFF { return; }
    var codepoint;
    if 0xD800 <= first <= 0xDBFF {
      if |p| < 12 { return; }
      if p[6] != '\\' || p[7] != 'u' { return; }
      var second := ParseHex4(p[8..12]);
      if second < 0xDC00 || second > 0xDFFF { return; }
      codepoint := 0x10000 + Or(And(first, 0x3FF) * 0x400, And(second, 0x3FF));
      JoinBits(first, second);
      used := 12;
    } else {
      codepoint := first;
      used := 6;
    }
    var length := EmitUtf8(codepoint, output, pos);
    next := pos + length;
  }

  // ---------------------------------------------------------------- the parse buffer

  /** The sizing pass from i: where it stands and how many backslashes it has skipped, as
      what is still missing to the closing quote. */
  lemma SizingStep(content: string, i: nat)
    requires i < |content| && content[i] != '\"'
    requires content[i] == '\\' ==> i + 1 < |content|
    ensures var k := if content[i] == '\\' then 2 else 1;
            ClosingQuote(content[i..]) ==
              var r := ClosingQuote(content[i + k..]);
              if r.Some? then Some(r.value + k) else None
  {
    var k := if content[i] == '\\' then 2 else 1;
    Drop(content, i, k);
  }

  /** Where the search for the closing quote ends. */
  lemma QuoteHere(content: string, i: nat)
    requires i <= |content|
    ensures i == |content| ==> ClosingQuote(content[i..]).None?
    ensures i < |content| && content[i] == '\"' ==> ClosingQuote(content[i..]) == Some(0)
    ensures i + 1 == |content| && content[i] == '\\' ==> ClosingQuote(content[i..]).None?
  {
  }

  /** Scanned in whole units: `skipped` backslashes took a character each along. */
  ghost predicate ScannedUnits(content: string, from: nat, i: nat, skipped: nat)
    requires from <= i <= |content|
  {
    forall end :: i <= end <= |content| ==>
      Units(content[from..end]) == (i - from) - skipped + Units(content[i..end])
  }

  lemma ScannedStart(content: string, from: nat)
    requires from <= |content|
    ensures ScannedUnits(content, from, from, 0)
  {
  }

  lemma ScannedEnd(content: string, from: nat, end: nat, skipped: nat)
    requires from <= end <= |content| && ScannedUnits(content, from, end, skipped)
    ensures Units(content[from..end]) == (end - from) - skipped
  {
    assert content[end..end] == "";
  }

  lemma ScannedStep(content: string, from: nat, i: nat, skipped: nat)
    requires from <= i < |content| && ScannedUnits(content, from, i, skipped) && skipped <= i - from
    ensures content[i] != '\\' ==> ScannedUnits(content, from, i + 1, skipped)
    ensures content[i] == '\\' && i + 1 < |content| ==> ScannedUnits(content, from, i + 2, skipped + 1)
  {
    var k := if content[i] == '\\' then 2 else 1;
    if i + k <= |content| {
      forall end | i + k <= end <= |content|
        ensures Units(content[i..end]) == 1 + Units(content[i + k..end])
      {
        assert content[i..end][k..] == content[i + k..end];
      }
    }
  }

  /** What is left of the content from n on; a two-character escape may step past its end. */
  function Left(body: string, n: nat): string
  {
    if n <= |body| then body[n..] else ""
  }

  /** The decoding pass has written `done` for the first n characters of the content, and
      what is still to come has no more units than there is room for. */
  ghost predicate Decoding(body: string, done: string, n: nat)
  {
    Decode(body) == Cons(done, Decode(Left(body, n))) && |done| + Units(Left(body, n)) <= Units(body)
  }

  lemma DecodingStart(body: string)
    ensures Decoding(body, "", 0)
  {
    assert Left(body, 0) == body;
    var rest := Decode(body);
    if rest.Some? { assert "" + rest.value == rest.value; }
  }

  lemma DecodingEnd(body: string, done: string, n: nat)
    requires Decoding(body, done, n) && n >= |body|
    ensures Decode(body) == Some(done) && |done| <= Units(body)
  {
    assert Left(body, n) == "";
    assert done + "" == done;
  }

  /** While there is content left, one more character fits, and so does an escape. */
  lemma DecodingRoom(body: string, done: string, n: nat)
    requires Decoding(body, done, n) && n < |body|
    ensures |done| < Units(body)
    ensures body[n] == '\\' && Utf16Literal(Left(body, n)).Some? ==>
              |done| + |Utf16Literal(Left(body, n)).value.0| <= Units(body)
  {
    var p := Left(body, n);
    assert p[0] == body[n];
    if body[n] == '\\' && Utf16Literal(p).Some? { LiteralFits(p); }
  }

  lemma ConsAssoc(a: string, b: string, rest: Option<string>)
    ensures Cons(a, Cons(b, rest)) == Cons(a + b, rest)
  {
    if rest.Some? { assert a + (b + rest.value) == (a + b) + rest.value; }
  }

  lemma DecodingPlain(body: string, done: string, n: nat)
    requires Decoding(body, done, n) && n < |body| && body[n] != '\\'
    ensures Decoding(body, done + [body[n]], n + 1)
  {
    var p := Left(body, n);
    assert p[0] == body[n] && p[1..] == Left(body, n + 1);
    ConsAssoc(done, [body[n]], Decode(p[1..]));
  }

  /** A backslash with the character behind it, which may be the closing quote. */
  lemma DecodingSimple(body: string, done: string, n: nat, c: char)
    requires Decoding(body, done, n) && n < |body| && body[n] == '\\' && c != 'u'
    requires c == if n + 1 < |body| then body[n+1] else '\"'
    ensures Unescaped(c).None? ==> Decode(body).None?
    ensures Unescaped(c).Some? ==> Decoding(body, done + [Unescaped(c).value], n + 2)
  {
    hide Utf16Literal, Unescaped;
    var p, q := Left(body, n), Left(body, n + 2);
    assert p[0] == body[n] && (|p| > 1 ==> p[1] == c);
    assert q == if |p| > 1 then p[2..] else "";
    if Unescaped(c).Some? { ConsAssoc(done, [Unescaped(c).value], Decode(q)); }
  }

  lemma DecodingUnicode(body: string, done: string, n: nat)
    requires Decoding(body, done, n) && n + 1 < |body| && body[n] == '\\' && body[n+1] == 'u'
    ensures var u := Utf16Literal(Left(body, n));
            && (u.None? ==> Decode(body).None?)
            && (u.Some? ==> Decoding(body, done + u.value.0, n + u.value.1) && n + u.value.1 <= |body|)
  {
    hide Utf16Literal, Unescaped;
    var p := Left(body, n);
    assert p[0] == body[n] && p[1] == body[n+1];
    var u := Utf16Literal(p);
    if u.Some? {
      assert p[u.value.1..] == Left(body, n + u.value.1);
      LiteralFits(p);
      ConsAssoc(done, u.value.0, Decode(p[u.value.1..]));
    }
  }

  class ParseBuffer {
    const content: string
    var offset: nat
    var depth: nat

    constructor (value: string)
      ensures content == value + "\0" && offset == 0 && depth == 0
    {
      content := value + "\0";
      offset := 0;
      depth := 0;
    }

    ghost predicate Valid()
      reads this
    {
      0 < |content| && offset <= |content|
    }

    ghost function Rest(): string
      requires Valid()
      reads this
    {
      content[offset..]
    }

    /** skip_utf8_bom. */
    method SkipUtf8Bom()
      requires Valid() && offset == 0
      modifies this`offset
      ensures Valid() && Rest() == SkipBom(content)
    {
      if |content| > 4 && content[0] == 0xEF as char && content[1] == 0xBB as char && content[2] == 0xBF as char {
        offset := offset + 3;
      }
    }

    /** buffer_skip_whitespace. */
    method SkipWhitespace()
      requires Valid()
      modifies this`offset
      ensures Valid() && old(offset) <= offset
      ensures Rest() == SkipSpace(old(Rest()))
    {
      if offset >= |content| { return; }
      while offset < |content| && content[offset] <= ' '
        invariant old(offset) <= offset <= |content|
        invariant SkipSpace(old(Rest())) ==
                  if offset < |content| then SkipSpace(content[offset..]) else content[|content| - 1..]
      {
        Drop(content, offset, 1);
        offset := offset + 1;
      }
      if offset == |content| { offset := offset - 1; }
    }

    /** The sizing pass of parse_string, from behind the opening quote: where the closing
        quote is, and how many backslashes it skipped. */
    method SizeString(start: nat) returns (ok: bool, end: nat, skipped: nat)
      requires start <= |content|
      ensures ok <==> ClosingQuote(content[start..]).Some?
      ensures ok ==> start <= end < |content| && end == start + ClosingQuote(content[start..]).value
      ensures ok ==> skipped <= end - start && Units(content[start..end]) == (end - start) - skipped
    {
      hide ScannedUnits, ClosingQuote;
      ok, end, skipped := false, start, 0;
      ScannedStart(content, start);
      while end < |content| && content[end] != '\"'
        invariant start <= end <= |content| && skipped <= end - start
        invariant ScannedUnits(content, start, end, skipped)
        invariant ClosingQuote(content[start..]) ==
                  var r := ClosingQuote(content[end..]);
                  if r.Some? then Some(r.value + (end - start)) else None
      {
        QuoteHere(content, end);
        if content[end] == '\\' && end + 1 >= |content| { return; }
        SizingStep(content, end);
        ScannedStep(content, start, end, skipped);
        if content[end] == '\\' {
          skipped := skipped + 1;
          end := end + 1;
        }
        end := end + 1;
      }
      QuoteHere(content, end);
      if end >= |content| { return; }
      ScannedEnd(content, start, end, skipped);
      ok := true;
    }

    /** The decoding pass, into a buffer with room for every unit. */
    method DecodeString(start: nat, end: nat, output: array<char>) returns (ok: bool, position: nat)
      requires start <= end < |content| && content[end] == '\"'
      requires Units(content[start..end]) <= output.Length
      modifies output
      ensures ok <==> Decode(content[start..end]).Some?
      ensures ok ==> position <= Units(content[start..end]) && output[..position] == Decode(content[start..end]).value
    {
      hide Decode, Units, Utf16Literal, Unescaped, Decoding;
      ghost var body := content[start..end];
      var input;
      ok, input, position := false, start, 0;
      assert output[..0] == "";
      DecodingStart(body);
      while input < end
        invariant start <= input <= end + 1 && position <= output.Length
        invariant Decoding(body, output[..position], input - start)
      {
        ghost var n := input - start;
        DecodingRoom(body, output[..position], n);
        if content[input] != '\\' {
          DecodingPlain(body, output[..position], n);
          output[position] := content[input];
          assert output[..position + 1] == output[..position] + [content[input]];
          position, input := position + 1, input + 1;
        } else if content[input + 1] == 'u' {
          DecodingUnicode(body, output[..position], n);
          assert content[input..end] == Left(body, n);
          var used, next := Utf16LiteralToUtf8(content[input..end], output, position);
          if used == 0 { return; }
          position, input := next, input + used;
        } else {
          var c := content[input + 1];
          DecodingSimple(body, output[..position], n, c);
          var d := Unescaped(c);
          if d.None? { return; }
          output[position] := d.value;
          assert output[..position + 1] == output[..position] + [d.value];
          position, input := position + 1, input + 2;
        }
      }
      DecodingEnd(body, output[..position], input - start);
      ok := true;
    }

    /** parse_string: the buffer is one longer than the units of the content and the quote
        that was counted with them, and is never overrun. */
    method ParseStringItem() returns (ok: bool, s: string)
      requires Valid() && offset < |content|
      modifies this`offset
      ensures ok <==> ParseString(old(Rest())).Some?
      ensures ok ==> Valid() && old(offset) < offset
                     && s == ParseString(old(Rest())).value.0 && Rest() == ParseString(old(Rest())).value.1
    {
      ok, s := false, "";
      if content[offset] != '\"' { return; }
      var start := offset + 1;
      Drop(content, offset, 1);
      var sized, end, skipped := SizeString(start);
      if !sized { return; }
      assert content[start..][..end - start] == content[start..end];
      Drop(content, start, end - start + 1);
      var output := new char[(end - offset) - skipped + 1];
      var decoded, position := DecodeString(start, end, output);
      if !decoded { return; }
      output[position] := '\0';
      s := ReadCString(output, position);
      offset := end + 1;
      ok := true;
    }

    /** parse_number: at most 63 characters are copied for strtod. */
    method ParseNumberItem(strtod: Strtod) returns (ok: bool, item: Json)
      requires Valid()
      modifies this`offset
      ensures ok <==> ParseNumber(strtod, old(Rest())).Some?
      ensures ok ==> Valid() && old(offset) < offset
                     && item == ParseNumber(strtod, old(Rest())).value.0 && Rest() == ParseNumber(strtod, old(Rest())).value.1
    {
      var numberString, i := CopyNumber();
      var (n, used) := strtod(numberString[..i]);
      ok, item := false, Null;
      if 0 < used <= i {
        Drop(content, offset, used);
        offset := offset + used;
        ok, item := true, Number(n);
      }
    }

    /** The characters a number may have, at most 63 of them. */
    method CopyNumber() returns (numberString: array<char>, i: nat)
      requires Valid()
      ensures i <= numberString.Length && fresh(numberString) && numberString[..i] == NumberRun(Rest(), 63)
    {
      hide NumberRun, NumberChar, Copied;
      numberString := new char[64];
      i := 0;
      ghost var t := "";
      CopiedNothing(content, offset);
      while i < 63 && offset + i < |content| && NumberChar(content[offset + i])
        invariant i <= 63 && offset + i <= |content|
        invariant numberString[..i] == t && Copied(content, offset, i, t)
      {
        CopiedOne(content, offset, i, t);
        numberString[i] := content[offset + i];
        t := t + [content[offset + i]];
        i := i + 1;
      }
      CopiedAll(content, offset, i, t);
    }

    /** parse_value. */
    method ParseValueItem(strtod: Strtod) returns (ok: bool, item: Json)
      requires Valid()
      modifies this
      ensures ok <==> ParseValue(strtod, old(Rest()), old(depth)).Some?
      ensures ok ==> Advanced(old(offset), old(depth))
                     && (item, Rest()) == ParseValue(strtod, old(Rest()), old(depth)).value
      decreases |content| - offset, 1
    {
      ok, item := false, Null;
      if LooksAt("null") {
        Drop(content, offset, 4);
        offset := offset + 4;
        return true, Null;
      }
      if LooksAt("false") {
        Drop(content, offset, 5);
        offset := offset + 5;
        return true, False;
      }
      if LooksAt("true") {
        Drop(content, offset, 4);
        offset := offset + 4;
        return true, True;
      }
      if offset >= |content| { return; }
      if content[offset] == '\"' {
        var s;
        ok, s := ParseStringItem();
        item := String(s);
      } else if content[offset] == '-' || '0' <= content[offset] <= '9' {
        ok, item := ParseNumberItem(strtod);
      } else if content[offset] == '[' {
        ok, item := ParseArrayItem(strtod);
      } else if content[offset] == '{' {
        ok, item := ParseObjectItem(strtod);
      }
    }

    ghost predicate Advanced(start: nat, level: nat)
      reads this
    {
      Valid() && start < offset && depth == level
    }

    predicate LooksAt(word: string)
      reads this
    {
      offset + |word| <= |content| && content[offset..offset + |word|] == word
    }

    /** parse_array. */
    method ParseArrayItem(strtod: Strtod) returns (ok: bool, item: Json)
      requires Valid() && offset < |content| && content[offset] == '['
      modifies this
      ensures ok <==> ParseValue(strtod, old(Rest()), old(depth)).Some?
      ensures ok ==> Advanced(old(offset), old(depth))
                     && (item, Rest()) == ParseValue(strtod, old(Rest()), old(depth)).value
      decreases |content| - offset, 0
    {
      hide ParseValue, SkipSpace, ParseElements;
      ok, item := false, Null;
      ArrayValue(strtod, old(Rest()), depth);
      if depth >= NESTING_LIMIT { return; }
      depth := depth + 1;
      Drop(content, offset, 1);
      offset := offset + 1;
      SkipWhitespace();
      if offset < |content| && content[offset] == ']' {
        depth := depth - 1;
        Drop(content, offset, 1);
        offset := offset + 1;
        return true, Array([]);
      }
      if offset >= |content| { return; }
      var items;
      ok, items := ParseElementItems(strtod);
      item := Array(items);
    }

    /** The loop of parse_array, from the first element on, and what follows it. */
    method ParseElementItems(strtod: Strtod) returns (ok: bool, items: seq<Json>)
      requires Valid() && offset < |content| && 0 < depth
      modifies this
      ensures ok <==> ParseElements(strtod, old(Rest()), old(depth)).Some?
      ensures ok ==> Advanced(old(offset), old(depth) - 1)
                     && (items, Rest()) == ParseElements(strtod, old(Rest()), old(depth)).value
      decreases |content| - offset, 2
    {
      hide ParseValue, ParseElements;
      ghost var start, level := old(Rest()), depth;
      ok, items := false, [];
      assert ElementsSoFar(strtod, start, level, [], start) by { ElementsStart(strtod, start, level); }
      while true
        invariant Valid() && depth == level && old(offset) <= offset
        invariant ElementsSoFar(strtod, start, level, items, Rest())
        decreases |content| - offset
      {
        ghost var before := Rest();
        SkipWhitespace();
        ghost var here := Rest();
        var parsed, v := ParseValueItem(strtod);
        if !parsed { ElementsFail(strtod, start, level, items, before); return; }
        ghost var behind := Rest();
        SkipWhitespace();
        ElementsGo(strtod, start, level, items, before, v, behind);
        items := items + [v];
        if !(offset < |content| && content[offset] == ',') { break; }
        Drop(content, offset, 1);
        offset := offset + 1;
      }
      if offset >= |content| || content[offset] != ']' { return; }
      depth := depth - 1;
      Drop(content, offset, 1);
      offset := offset + 1;
      ok := true;
    }

    /** parse_object. */
    method ParseObjectItem(strtod: Strtod) returns (ok: bool, item: Json)
      requires Valid() && offset < |content| && content[offset] == '{'
      modifies this
      ensures ok <==> ParseValue(strtod, old(Rest()), old(depth)).Some?
      ensures ok ==> Advanced(old(offset), old(depth))
                     && (item, Rest()) == ParseValue(strtod, old(Rest()), old(depth)).value
      decreases |content| - offset, 0
    {
      hide ParseValue, SkipSpace, ParseMembers;
      ok, item := false, Null;
      ObjectValue(strtod, old(Rest()), depth);
      if depth >= NESTING_LIMIT { return; }
      depth := depth + 1;
      Drop(content, offset, 1);
      offset := offset + 1;
      SkipWhitespace();
      if offset < |content| && content[offset] == '}' {
        depth := depth - 1;
        Drop(content, offset, 1);
        offset := offset + 1;
        return true, Object([]);
      }
      if offset >= |content| { return; }
      var members;
      ok, members := ParseMemberItems(strtod);
      item := Object(members);
    }

    /** The name of a member, and the white space around it. */
    method ParseNameItem() returns (ok: bool, key: string)
      requires Valid()
      modifies this`offset
      ensures ok <==> ParseString(SkipSpace(old(Rest()))).Some?
      ensures ok ==> Valid() && old(offset) < offset
                     && key == ParseString(SkipSpace(old(Rest()))).value.0
                     && Rest() == SkipSpace(ParseString(SkipSpace(old(Rest()))).value.1)
    {
      hide ParseString, SkipSpace;
      ok, key := false, "";
      SkipWhitespace();
      if offset >= |content| { NoString(Rest()); return; }
      ok, key := ParseStringItem();
      if !ok { return; }
      SkipWhitespace();
    }

    /** One member of parse_object. */
    method ParseMemberItem(strtod: Strtod) returns (ok: bool, m: Member)
      requires Valid()
      modifies this
      ensures ok <==> ParseMember(strtod, old(Rest()), old(depth)).Some?
      ensures ok ==> Advanced(old(offset), old(depth))
                     && (m, Rest()) == ParseMember(strtod, old(Rest()), old(depth)).value
      decreases |content| - offset, 2
    {
      hide ParseValue, ParseString, SkipSpace;
      ok, m := false, Member("", Null);
      var named, key := ParseNameItem();
      if !named { return; }
      if offset >= |content| || content[offset] != ':' { return; }
      Drop(content, offset, 1);
      offset := offset + 1;
      SkipWhitespace();
      var parsed, v := ParseValueItem(strtod);
      if !parsed { return; }
      return true, Member(key, v);
    }

    /** The loop of parse_object, from the first member on, and what follows it. */
    method ParseMemberItems(strtod: Strtod) returns (ok: bool, members: seq<Member>)
      requires Valid() && offset < |content| && 0 < depth
      modifies this
      ensures ok <==> ParseMembers(strtod, old(Rest()), old(depth)).Some?
      ensures ok ==> Advanced(old(offset), old(depth) - 1)
                     && (members, Rest()) == ParseMembers(strtod, old(Rest()), old(depth)).value
      decreases |content| - offset, 3
    {
      hide ParseMember, ParseMembers;
      ghost var start, level := old(Rest()), depth;
      ok, members := false, [];
      assert MembersSoFar(strtod, start, level, [], start) by { MembersStart(strtod, start, level); }
      while true
        invariant Valid() && depth == level && old(offset) <= offset
        invariant MembersSoFar(strtod, start, level, members, Rest())
        decreases |content| - offset
      {
        ghost var before := Rest();
        var parsed, m := ParseMemberItem(strtod);
        if !parsed { MembersFail(strtod, start, level, members, before); return; }
        ghost var behind := Rest();
        SkipWhitespace();
        MembersGo(strtod, start, level, members, before, m, behind);
        members := members + [m];
        if !(offset < |content| && content[offset] == ',') { break; }
        Drop(content, offset, 1);
        offset := offset + 1;
      }
      if offset >= |content| || content[offset] != '}' { return; }
      depth := depth - 1;
      Drop(content, offset, 1);
      offset := offset + 1;
      ok := true;
    }
  }

  lemma NotAWord(p: string)
    requires p != "" && p[0] != 'n' && p[0] != 'f' && p[0] != 't'
    ensures !StartsWith(p, "null") && !StartsWith(p, "false") && !StartsWith(p, "true")
  {
    if |p| >= 4 { assert p[..4][0] == p[0]; }
    if |p| >= 5 { assert p[..5][0] == p[0]; }
  }

  /** t is the first i characters of the number that begins at k. */
  ghost predicate Copied(content: string, k: nat, i: nat, t: string)
    requires i <= 63 && k + i <= |content|
  {
    NumberRun(content[k..], 63) == t + NumberRun(content[k + i..], 63 - i)
  }

  lemma CopiedNothing(content: string, k: nat)
    requires k <= |content|
    ensures Copied(content, k, 0, "")
  {
    hide NumberRun;
    assert "" + NumberRun(content[k..], 63) == NumberRun(content[k..], 63);
  }

  lemma CopiedOne(content: string, k: nat, i: nat, t: string)
    requires i < 63 && k + i < |content| && Copied(content, k, i, t) && NumberChar(content[k + i])
    ensures Copied(content, k, i + 1, t + [content[k + i]])
  {
    hide NumberRun, NumberChar;
    NumberRunFrom(content, k + i, 63 - i);
    var c, rest := content[k + i], NumberRun(content[k + i + 1..], 62 - i);
    assert t + ([c] + rest) == (t + [c]) + rest;
  }

  lemma CopiedAll(content: string, k: nat, i: nat, t: string)
    requires i <= 63 && k + i <= |content| && Copied(content, k, i, t)
    requires i == 63 || k + i == |content| || !NumberChar(content[k + i])
    ensures NumberRun(content[k..], 63) == t
  {
    hide NumberRun, NumberChar;
    NumberRunFrom(content, k + i, 63 - i);
    assert t + "" == t;
  }

  lemma NumberRunFrom(content: string, k: nat, max: nat)
    requires k <= |content|
    ensures NumberRun(content[k..], max) ==
              if k < |content| && max > 0 && NumberChar(content[k])
              then [content[k]] + NumberRun(content[k+1..], max - 1) else ""
  {
    if k < |content| { Drop(content, k, 1); }
  }

  /** parse_value in front of a bracket. */
  lemma ArrayValue(strtod: Strtod, p: string, depth: nat)
    requires p != "" && p[0] == '['
    ensures ParseValue(strtod, p, depth) ==
              var q := SkipSpace(p[1..]);
              if depth >= NESTING_LIMIT || q == "" then None
              else if q[0] == ']' then Some((Array([]), q[1..]))
              else
                var r := ParseElements(strtod, q, depth + 1);
                if r.None? then None else Some((Array(r.value.0), r.value.1))
  {
    hide SkipSpace, ParseElements;
    NotAWord(p);
  }

  lemma ObjectValue(strtod: Strtod, p: string, depth: nat)
    requires p != "" && p[0] == '{'
    ensures ParseValue(strtod, p, depth) ==
              var q := SkipSpace(p[1..]);
              if depth >= NESTING_LIMIT || q == "" then None
              else if q[0] == '}' then Some((Object([]), q[1..]))
              else
                var r := ParseMembers(strtod, q, depth + 1);
                if r.None? then None else Some((Object(r.value.0), r.value.1))
  {
    hide SkipSpace, ParseMembers;
    NotAWord(p);
  }

  lemma NoString(p: string)
    requires p == ""
    ensures ParseString(p).None?
  {
  }

  /** The elements parsed so far, in front of what parsing the rest gives. */
  ghost predicate ElementsSoFar(strtod: Strtod, start: string, level: nat, items: seq<Json>, rest: string)
  {
    var all, r := ParseElements(strtod, start, level), ParseElements(strtod, rest, level);
    all == if r.None? then None else Some((items + r.value.0, r.value.1))
  }

  lemma ElementsStart(strtod: Strtod, start: string, level: nat)
    ensures ElementsSoFar(strtod, start, level, [], start)
  {
    hide ParseElements;
    var r := ParseElements(strtod, start, level);
    if r.Some? { assert [] + r.value.0 == r.value.0; }
  }

  lemma ElementsFail(strtod: Strtod, start: string, level: nat, items: seq<Json>, rest: string)
    requires ElementsSoFar(strtod, start, level, items, rest)
    requires ParseValue(strtod, SkipSpace(rest), level).None?
    ensures ParseElements(strtod, start, level).None?
  {
    hide ParseValue;
  }

  lemma ElementsGo(strtod: Strtod, start: string, level: nat, items: seq<Json>, rest: string, v: Json, behind: string)
    requires ElementsSoFar(strtod, start, level, items, rest)
    requires ParseValue(strtod, SkipSpace(rest), level) == Some((v, behind))
    ensures var q := SkipSpace(behind);
            && (q != "" && q[0] == ',' ==> ElementsSoFar(strtod, start, level, items + [v], q[1..]))
            && (q != "" && q[0] == ']' ==> ParseElements(strtod, start, level) == Some((items + [v], q[1..])))
            && (q == "" || (q[0] != ',' && q[0] != ']') ==> ParseElements(strtod, start, level).None?)
  {
    hide ParseValue, SkipSpace;
    var q := SkipSpace(behind);
    if q != "" && q[0] == ',' {
      var r := ParseElements(strtod, q[1..], level);
      if r.Some? { assert items + ([v] + r.value.0) == (items + [v]) + r.value.0; }
    }
  }

  ghost predicate MembersSoFar(strtod: Strtod, start: string, level: nat, members: seq<Member>, rest: string)
  {
    var all, r := ParseMembers(strtod, start, level), ParseMembers(strtod, rest, level);
    all == if r.None? then None else Some((members + r.value.0, r.value.1))
  }

  lemma MembersStart(strtod: Strtod, start: string, level: nat)
    ensures MembersSoFar(strtod, start, level, [], start)
  {
    hide ParseMembers;
    var r := ParseMembers(strtod, start, level);
    if r.Some? { assert [] + r.value.0 == r.value.0; }
  }

  lemma MembersFail(strtod: Strtod, start: string, level: nat, members: seq<Member>, rest: string)
    requires MembersSoFar(strtod, start, level, members, rest)
    requires ParseMember(strtod, rest, level).None?
    ensures ParseMembers(strtod, start, level).None?
  {
    hide ParseMember;
  }

  lemma MembersGo(strtod: Strtod, start: string, level: nat, members: seq<Member>, rest: string, m: Member, behind: string)
    requires MembersSoFar(strtod, start, level, members, rest)
    requires ParseMember(strtod, rest, level) == Some((m, behind))
    ensures var q := SkipSpace(behind);
            && (q != "" && q[0] == ',' ==> MembersSoFar(strtod, start, level, members + [m], q[1..]))
            && (q != "" && q[0] == '}' ==> ParseMembers(strtod, start, level) == Some((members + [m], q[1..])))
            && (q == "" || (q[0] != ',' && q[0] != '}') ==> ParseMembers(strtod, start, level).None?)
  {
    hide ParseMember;
    var q := SkipSpace(behind);
    if q != "" && q[0] == ',' {
      var r := ParseMembers(strtod, q[1..], level);
      if r.Some? { assert members + ([m] + r.value.0) == (members + [m]) + r.value.0; }
    }
  }

  lemma ParseSteps(strtod: Strtod, value: string, requireEnd: bool)
    ensures var r := ParseValue(strtod, SkipSpace(SkipBom(value + "\0")), 0);
            Parse(strtod, value, requireEnd) ==
              if r.None? then None
              else if requireEnd && (SkipSpace(r.value.1) == "" || SkipSpace(r.value.1)[0] != '\0') then None
              else Some(r.value.0)
  {
    hide ParseValue, SkipSpace, SkipBom;
  }

  /** cJSON_ParseWithOpts. */
  method ParseWithOpts(strtod: Strtod, value: string, requireEnd: bool) returns (ok: bool, item: Json)
    ensures ok <==> Parse(strtod, value, requireEnd).Some?
    ensures ok ==> item == Parse(strtod, value, requireEnd).value
  {
    hide Parse, ParseValue, SkipSpace, SkipBom;
    ParseSteps(strtod, value, requireEnd);
    var buffer := new ParseBuffer(value);
    buffer.SkipUtf8Bom();
    buffer.SkipWhitespace();
    ok, item := buffer.ParseValueItem(strtod);
    if ok && requireEnd {
      buffer.SkipWhitespace();
      ok := buffer.offset < |buffer.content| && buffer.content[buffer.offset] == '\0';
    }
  }

  /** The string a C reader finds in the buffer. */
  method ReadCString(output: array<char>, length: nat) returns (s: string)
    requires length < output.Length && output[length] == '\0'
    ensures s == CutAtNul(output[..length])
  {
    var i := 0;
    s := "";
    assert output[0..length] == output[..length];
    while output[i] != '\0'
      invariant i <= length && s == output[..i]
      invariant CutAtNul(output[..length]) == s + CutAtNul(output[i..length])
      decreases length - i
    {
      assert output[i..length][1..] == output[i+1..length];
      s := s + [output[i]];
      i := i + 1;
    }
  }
}
