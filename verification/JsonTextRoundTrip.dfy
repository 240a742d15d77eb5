/** Parsing undoes printing, formatted or not. */
module JsonTextRoundTrip {
  import opened CString
  import opened JsonValue
  import opened JsonText

  // ---------------------------------------------------------------- strings

  lemma HexOfDigit(n: nat)
    requires n < 16
    ensures HexValue(HexDigit(n)) == Some(n)
  {
  }

  /** The escape of a control character reads back as that character. */
  lemma UnicodeEscape(c: char, rest: string)
    requires c < ' '
    ensures Utf16Literal("\\u00" + [HexDigit(c as int / 16), HexDigit(c as int % 16)] + rest) == Some(([c], 6))
  {
    var hi, lo := HexDigit(c as int / 16), HexDigit(c as int % 16);
    var p := "\\u00" + [hi, lo] + rest;
    HexOfDigit(c as int / 16);
    HexOfDigit(c as int % 16);
    assert p[2..6] == ['0', '0', hi, lo];
    assert Hex4(p[2..6]) == c as int;
  }

  /** Decoding an escaped character and what follows. */
  lemma DecodeEscape(c: char, rest: string)
    requires c != '\0'
    ensures Decode(Escape(c) + rest) == Cons([c], Decode(rest))
  {
    var p := Escape(c) + rest;
    if c < ' ' && c != BACKSPACE && c != FORM_FEED && c != '\n' && c != '\r' && c != '\t' {
      UnicodeEscape(c, rest);
      assert p == "\\u00" + [HexDigit(c as int / 16), HexDigit(c as int % 16)] + rest;
      assert p[6..] == rest;
    } else if |Escape(c)| == 2 {
      assert p[2..] == rest;
    } else {
      assert p[1..] == rest;
    }
  }

  lemma {:induction false} DecodeAll(s: string)
    requires NulFree(s)
    ensures Decode(EscapeAll(s)) == Some(s)
  {
    if s != "" {
      DecodeAll(s[1..]);
      DecodeEscape(s[0], EscapeAll(s[1..]));
      assert [s[0]] + s[1..] == s;
    }
  }

  lemma EscapeShape(c: char)
    ensures |Escape(c)| == 1 || |Escape(c)| == 2 || |Escape(c)| == 6
    ensures |Escape(c)| == 1 ==> Escape(c)[0] != '\"' && Escape(c)[0] != '\\'
    ensures |Escape(c)| == 2 ==> Escape(c)[0] == '\\'
    ensures |Escape(c)| == 6 ==> c < ' ' && Escape(c) == "\\u00" + [HexDigit(c as int / 16), HexDigit(c as int % 16)]
  {
  }

  /** The search for the closing quote gets from p to `rest`, n characters on. */
  ghost predicate StepsOver(p: string, n: nat, rest: string)
  {
    var r := ClosingQuote(rest);
    ClosingQuote(p) == if r.Some? then Some(r.value + n) else None
  }

  lemma StepsBoth(p: string, n: nat, q: string, m: nat, rest: string)
    requires StepsOver(p, n, q) && StepsOver(q, m, rest)
    ensures StepsOver(p, n + m, rest)
  {
    hide ClosingQuote;
  }

  /** The sizing pass steps over an escaped character. */
  lemma QuoteEscape(c: char, rest: string)
    requires c != '\0'
    ensures StepsOver(Escape(c) + rest, |Escape(c)|, rest)
  {
    hide Escape, StepsOver;
    var e, p := Escape(c), Escape(c) + rest;
    EscapeShape(c);
    if |e| == 6 {
      HexOfDigit(c as int / 16);
      HexOfDigit(c as int % 16);
      var tail := ['0', '0', e[4], e[5]];
      assert p[2..] == tail + rest;
      QuotePair(p);
      PlainSteps(tail, rest);
      StepsBoth(p, 2, tail + rest, 4, rest);
    } else if |e| == 2 {
      assert p[2..] == rest;
      QuotePair(p);
    } else {
      PlainSteps(e, rest);
    }
  }

  lemma QuotePair(p: string)
    requires |p| >= 2 && p[0] == '\\'
    ensures StepsOver(p, 2, p[2..])
  {
  }

  lemma {:induction false} PlainSteps(s: string, rest: string)
    requires forall i :: 0 <= i < |s| ==> s[i] != '\"' && s[i] != '\\'
    ensures StepsOver(s + rest, |s|, rest)
  {
    if s == "" {
      assert s + rest == rest;
    } else {
      assert (s + rest)[1..] == s[1..] + rest;
      PlainSteps(s[1..], rest);
      PlainStep(s + rest);
      hide StepsOver;
      StepsBoth(s + rest, 1, s[1..] + rest, |s| - 1, rest);
    }
  }

  lemma PlainStep(p: string)
    requires p != "" && p[0] != '\"' && p[0] != '\\'
    ensures StepsOver(p, 1, p[1..])
  {
  }

  lemma {:induction false} QuoteFound(s: string, rest: string)
    requires NulFree(s)
    ensures ClosingQuote(EscapeAll(s) + ("\"" + rest)) == Some(|EscapeAll(s)|)
  {
    hide ClosingQuote, Escape;
    if s == "" {
      assert EscapeAll(s) + ("\"" + rest) == "\"" + rest;
      QuoteHere(rest);
    } else {
      QuoteFound(s[1..], rest);
      QuoteEscape(s[0], EscapeAll(s[1..]) + ("\"" + rest));
      assert EscapeAll(s) + ("\"" + rest) == Escape(s[0]) + (EscapeAll(s[1..]) + ("\"" + rest));
    }
  }

  lemma QuoteHere(rest: string)
    ensures ClosingQuote("\"" + rest) == Some(0)
  {
  }

  lemma {:induction false} CutNothing(s: string)
    requires NulFree(s)
    ensures CutAtNul(s) == s
  {
    if s != "" {
      CutNothing(s[1..]);
      assert [s[0]] + s[1..] == s;
    }
  }

  lemma ParseStringText(s: string, rest: string)
    requires NulFree(s)
    ensures ParseString(StringText(s) + rest) == Some((s, rest))
  {
    var p, e := StringText(s) + rest, EscapeAll(s);
    assert p[1..] == e + ("\"" + rest);
    QuoteFound(s, rest);
    DecodeAll(s);
    CutNothing(s);
    assert p[1..][..|e|] == e;
    assert p[1..][|e| + 1..] == rest;
  }

  // ---------------------------------------------------------------- values

  /** The documents the round trip is about: 32-bit integers, strings and keys without NUL. */
  predicate Printable(j: Json)
  {
    match j
    case Invalid => false
    case Number(n) => -0x8000_0000 <= n < 0x8000_0000
    case String(s) => NulFree(s)
    case Array(items) => forall i :: 0 <= i < |items| ==> Printable(items[i])
    case Object(ms) => forall i :: 0 <= i < |ms| ==> NulFree(ms[i].key) && Printable(ms[i].value)
    case _ => true
  }

  function Max(a: nat, b: nat): nat { if a < b then b else a }

  /** How deeply arrays and objects are nested. */
  function Nesting(j: Json): nat
    decreases j, 1
  {
    match j
    case Array(items) => 1 + NestingItems(items)
    case Object(ms) => 1 + NestingMembers(ms)
    case _ => 0
  }

  function NestingItems(items: seq<Json>): nat
    decreases items, 0
  {
    if items == [] then 0 else Max(Nesting(items[0]), NestingItems(items[1..]))
  }

  function NestingMembers(ms: seq<Member>): nat
    decreases ms, 0
  {
    if ms == [] then 0 else Max(Nesting(ms[0].value), NestingMembers(ms[1..]))
  }

  /** What may follow a printed value: something no number goes on with. */
  predicate Stops(rest: string)
  {
    rest != "" && !NumberChar(rest[0])
  }

  predicate Starts(t: string)
  {
    t != "" && t[0] > ' ' && t[0] != ']' && t[0] != '}'
  }

  lemma TextStarts(j: Json, fmt: bool, depth: nat)
    requires Printable(j)
    ensures Starts(Text(j, fmt, depth))
  {
  }

  predicate AllSpace(s: string)
  {
    forall i :: 0 <= i < |s| ==> s[i] <= ' '
  }

  lemma {:induction false} SkipSpaces(space: string, t: string)
    requires AllSpace(space) && t != "" && t[0] > ' '
    ensures SkipSpace(space + t) == t
  {
    if space == "" {
      assert space + t == t;
    } else {
      assert (space + t)[1..] == space[1..] + t;
      SkipSpaces(space[1..], t);
    }
  }

  lemma {:induction false} NumberRunIs(s: string, rest: string, max: nat)
    requires |s| <= max && Stops(rest) && forall i :: 0 <= i < |s| ==> NumberChar(s[i])
    ensures NumberRun(s + rest, max) == s
  {
    if s == "" {
      assert s + rest == rest;
    } else {
      assert (s + rest)[1..] == s[1..] + rest;
      NumberRunIs(s[1..], rest, max - 1);
    }
  }

  /** A 32-bit integer prints as at most 11 characters. */
  lemma IntTextLength(n: int)
    requires -0x8000_0000 <= n < 0x8000_0000
    ensures |IntText(n)| <= 11
  {
    var m := if n < 0 then -n else n;
    TenDigits(m, 10);
  }

  function Pow10(k: nat): nat { if k == 0 then 1 else 10 * Pow10(k - 1) }

  lemma {:induction false} DigitsBound(n: nat, k: nat)
    requires k > 0 && n < Pow10(k)
    ensures |NatText(n)| <= k
  {
    if n >= 10 {
      assert k > 1;
      DigitsBound(n / 10, k - 1);
    }
  }

  lemma TenDigits(n: nat, k: nat)
    requires n <= 0x8000_0000 && k == 10
    ensures |NatText(n)| <= 10
  {
    assert Pow10(10) == 10 * 10 * 10 * 10 * 10 * 10 * 10 * 10 * 10 * 10 by {
      assert Pow10(5) == 100000;
      assert Pow10(8) == 1000 * Pow10(5);
      assert Pow10(10) == 100 * Pow10(8);
    }
    DigitsBound(n, 10);
  }

  lemma ParseNumberText(strtod: Strtod, n: int, rest: string, depth: nat)
    requires ReadsIntegers(strtod) && -0x8000_0000 <= n < 0x8000_0000 && Stops(rest)
    ensures ParseValue(strtod, IntText(n) + rest, depth) == Some((Number(n), rest))
  {
    var t := IntText(n);
    IntTextLength(n);
    NumberRunIs(t, rest, 63);
    assert (t + rest)[|t|..] == rest;
    assert (t + rest)[0] == t[0];
  }

  lemma WordParses(strtod: Strtod, j: Json, word: string, rest: string, depth: nat)
    requires (j == Null && word == "null") || (j == False && word == "false") || (j == True && word == "true")
    ensures ParseValue(strtod, word + rest, depth) == Some((j, rest))
  {
    var p := word + rest;
    assert p[..|word|] == word && p[|word|..] == rest;
    assert p[0] == word[0];
    if StartsWith(p, "null") { assert p[..4][0] == 'n'; }
    if StartsWith(p, "false") { assert p[..5][0] == 'f'; }
  }

  lemma NoWord(p: string)
    requires p != "" && p[0] != 'n' && p[0] != 'f' && p[0] != 't'
    ensures !StartsWith(p, "null") && !StartsWith(p, "false") && !StartsWith(p, "true")
  {
    if |p| >= 4 { assert p[..4][0] == p[0]; }
    if |p| >= 5 { assert p[..5][0] == p[0]; }
  }

  ghost predicate Parses(strtod: Strtod, j: Json, fmt: bool, k: nat, rest: string, depth: nat)
  {
    ParseValue(strtod, Text(j, fmt, k) + rest, depth) == Some((j, rest))
  }

  /** Parsing the text of a value gives the value and stops right behind it. */
  lemma {:induction false} ParseText(strtod: Strtod, j: Json, fmt: bool, k: nat, rest: string, depth: nat)
    requires ReadsIntegers(strtod) && Printable(j) && Stops(rest)
    requires depth + Nesting(j) <= NESTING_LIMIT
    ensures Parses(strtod, j, fmt, k, rest, depth)
    decreases j, 1
  {
    match j
    case Null => WordParses(strtod, j, "null", rest, depth);
    case False => WordParses(strtod, j, "false", rest, depth);
    case True => WordParses(strtod, j, "true", rest, depth);
    case Number(n) => ParseNumberText(strtod, n, rest, depth);
    case String(s) =>
      ParseStringText(s, rest);
      assert (StringText(s) + rest)[0] == '\"';
      NoWord(StringText(s) + rest);
    case Array(items) =>
      if items == [] { EmptyArrayDone(strtod, fmt, k, rest, depth); }
      else { ParseArrayText(strtod, items, fmt, k, rest, depth); }
    case Object(ms) =>
      if ms == [] { EmptyObjectDone(strtod, fmt, k, rest, depth); }
      else { ParseObjectText(strtod, ms, fmt, k, rest, depth); }
  }

  lemma Assoc(a: string, b: string, c: string)
    ensures (a + b) + c == a + (b + c)
  {
  }

  lemma NoSpace(t: string)
    requires t != "" && t[0] > ' '
    ensures SkipSpace(t) == t
  {
  }

  /** One step of parse_value at an opening bracket. */
  lemma ValueIsArray(strtod: Strtod, q: string, depth: nat)
    requires q != "" && depth < NESTING_LIMIT
    ensures ParseValue(strtod, "[" + q, depth) ==
              var r := SkipSpace(q);
              if r[0] == ']' then Some((Array([]), r[1..]))
              else
                var e := ParseElements(strtod, r, depth + 1);
                if e.None? then None else Some((Array(e.value.0), e.value.1))
  {
    var p := "[" + q;
    assert p[0] == '[' && p[1..] == q;
    NoWord(p);
  }

  lemma ValueIsObject(strtod: Strtod, q: string, depth: nat)
    requires q != "" && depth < NESTING_LIMIT
    ensures ParseValue(strtod, "{" + q, depth) ==
              var r := SkipSpace(q);
              if r[0] == '}' then Some((Object([]), r[1..]))
              else
                var e := ParseMembers(strtod, r, depth + 1);
                if e.None? then None else Some((Object(e.value.0), e.value.1))
  {
    var p := "{" + q;
    assert p[0] == '{' && p[1..] == q;
    NoWord(p);
  }

  lemma ArrayShape(items: seq<Json>, fmt: bool, k: nat, rest: string)
    ensures Text(Array(items), fmt, k) + rest == "[" + (ElementsText(items, fmt, k + 1) + ("]" + rest))
  {
    var body := ElementsText(items, fmt, k + 1);
    Assoc("[", body + "]", rest);
    Assoc(body, "]", rest);
  }

  lemma ElementsShape(items: seq<Json>, fmt: bool, k: nat, close: string)
    requires |items| > 1
    ensures ElementsText(items, fmt, k) + close ==
              Text(items[0], fmt, k) + ("," + ((if fmt then " " else "") + (ElementsText(items[1..], fmt, k) + close)))
  {
    var t, gap, tail := Text(items[0], fmt, k), if fmt then " " else "", ElementsText(items[1..], fmt, k);
    Assoc(t, "," + (gap + tail), close);
    Assoc(",", gap + tail, close);
    Assoc(gap, tail, close);
  }

  lemma {:induction false} ParseArrayText(strtod: Strtod, items: seq<Json>, fmt: bool, k: nat, rest: string, depth: nat)
    requires ReadsIntegers(strtod) && items != []
    requires forall i :: 0 <= i < |items| ==> Printable(items[i])
    requires depth + 1 + NestingItems(items) <= NESTING_LIMIT
    ensures Parses(strtod, Array(items), fmt, k, rest, depth)
    decreases items, 2
  {
    hide *;
    var q := ElementsText(items, fmt, k + 1) + ("]" + rest);
    ElementsStart(items, fmt, k + 1, "]" + rest);
    ParseElementsText(strtod, items, fmt, k + 1, "", rest, depth + 1);
    ArrayDone(strtod, items, fmt, k, q, rest, depth);
  }

  lemma ElementsStart(items: seq<Json>, fmt: bool, k: nat, close: string)
    requires items != [] && Printable(items[0])
    ensures Starts(ElementsText(items, fmt, k) + close)
    ensures "" + (ElementsText(items, fmt, k) + close) == ElementsText(items, fmt, k) + close
  {
    TextStarts(items[0], fmt, k);
    assert (ElementsText(items, fmt, k) + close)[0] == Text(items[0], fmt, k)[0];
  }

  lemma EmptyArrayDone(strtod: Strtod, fmt: bool, k: nat, rest: string, depth: nat)
    requires depth < NESTING_LIMIT
    ensures Parses(strtod, Array([]), fmt, k, rest, depth)
  {
    var q := "]" + rest;
    ArrayShape([], fmt, k, rest);
    assert ElementsText([], fmt, k + 1) + q == q;
    ValueIsArray(strtod, q, depth);
    NoSpace(q);
    assert q[1..] == rest;
  }

  lemma ArrayDone(strtod: Strtod, items: seq<Json>, fmt: bool, k: nat, q: string, rest: string, depth: nat)
    requires depth < NESTING_LIMIT && q == ElementsText(items, fmt, k + 1) + ("]" + rest) && Starts(q)
    requires ParseElements(strtod, q, depth + 1) == Some((items, rest))
    ensures Parses(strtod, Array(items), fmt, k, rest, depth)
  {
    ArrayShape(items, fmt, k, rest);
    ValueIsArray(strtod, q, depth);
    NoSpace(q);
  }

  /** One turn of the loop of parse_array. */
  lemma ElementsStep(strtod: Strtod, space: string, t: string, v: Json, after: string, depth: nat)
    requires AllSpace(space) && Starts(t) && after != "" && after[0] > ' '
    requires ParseValue(strtod, t + after, depth) == Some((v, after))
    ensures ParseElements(strtod, space + (t + after), depth) ==
              if after[0] == ',' then
                var r := ParseElements(strtod, after[1..], depth);
                if r.None? then None else Some(([v] + r.value.0, r.value.1))
              else if after[0] == ']' then Some(([v], after[1..]))
              else None
  {
    SkipSpaces(space, t + after);
    NoSpace(after);
  }

  lemma {:induction false} ParseElementsText(strtod: Strtod, items: seq<Json>, fmt: bool, k: nat, space: string, rest: string, depth: nat)
    requires ReadsIntegers(strtod) && items != [] && AllSpace(space)
    requires forall i :: 0 <= i < |items| ==> Printable(items[i])
    requires depth + NestingItems(items) <= NESTING_LIMIT
    ensures ParseElements(strtod, space + (ElementsText(items, fmt, k) + ("]" + rest)), depth) == Some((items, rest))
    decreases items, 1
  {
    var t, close := Text(items[0], fmt, k), "]" + rest;
    TextStarts(items[0], fmt, k);
    if |items| == 1 {
      ParseText(strtod, items[0], fmt, k, close, depth);
      LastElement(strtod, items, fmt, k, space, rest, depth);
    } else {
      var gap := if fmt then " " else "";
      var q := gap + (ElementsText(items[1..], fmt, k) + close);
      ParseText(strtod, items[0], fmt, k, "," + q, depth);
      ParseElementsText(strtod, items[1..], fmt, k, gap, rest, depth);
      FirstElement(strtod, items, fmt, k, space, q, rest, depth);
    }
  }

  lemma LastElement(strtod: Strtod, items: seq<Json>, fmt: bool, k: nat, space: string, rest: string, depth: nat)
    requires AllSpace(space) && |items| == 1 && Starts(Text(items[0], fmt, k))
    requires Parses(strtod, items[0], fmt, k, "]" + rest, depth)
    ensures ParseElements(strtod, space + (ElementsText(items, fmt, k) + ("]" + rest)), depth) == Some((items, rest))
  {
    ElementsStep(strtod, space, Text(items[0], fmt, k), items[0], "]" + rest, depth);
    assert ("]" + rest)[1..] == rest;
    assert [items[0]] == items;
  }

  lemma FirstElement(strtod: Strtod, items: seq<Json>, fmt: bool, k: nat, space: string, q: string, rest: string, depth: nat)
    requires AllSpace(space) && |items| > 1 && Starts(Text(items[0], fmt, k))
    requires q == (if fmt then " " else "") + (ElementsText(items[1..], fmt, k) + ("]" + rest))
    requires Parses(strtod, items[0], fmt, k, "," + q, depth)
    requires ParseElements(strtod, q, depth) == Some((items[1..], rest))
    ensures ParseElements(strtod, space + (ElementsText(items, fmt, k) + ("]" + rest)), depth) == Some((items, rest))
  {
    ElementsShape(items, fmt, k, "]" + rest);
    ElementsStep(strtod, space, Text(items[0], fmt, k), items[0], "," + q, depth);
    assert ("," + q)[1..] == q;
    assert [items[0]] + items[1..] == items;
  }

  lemma ObjectShape(ms: seq<Member>, fmt: bool, k: nat, rest: string)
    ensures Text(Object(ms), fmt, k) + rest ==
              "{" + (NewLine(fmt) + (MembersText(ms, fmt, k + 1) + (Indent(fmt, k) + ("}" + rest))))
  {
    var open, body, tabs := NewLine(fmt), MembersText(ms, fmt, k + 1), Indent(fmt, k);
    Assoc("{", open + (body + (tabs + "}")), rest);
    Assoc(open, body + (tabs + "}"), rest);
    Assoc(body, tabs + "}", rest);
    Assoc(tabs, "}", rest);
  }

  lemma {:induction false} ParseObjectText(strtod: Strtod, ms: seq<Member>, fmt: bool, k: nat, rest: string, depth: nat)
    requires ReadsIntegers(strtod) && ms != []
    requires forall i :: 0 <= i < |ms| ==> NulFree(ms[i].key) && Printable(ms[i].value)
    requires depth + 1 + NestingMembers(ms) <= NESTING_LIMIT
    ensures Parses(strtod, Object(ms), fmt, k, rest, depth)
    decreases ms, 3
  {
    hide ParseMembers, ParseValue, MembersRest, Text, StringText;
    ParseMembersText(strtod, ms, fmt, k + 1, "", Indent(fmt, k), rest, depth + 1);
    ObjectDone(strtod, ms, fmt, k, rest, depth);
  }

  lemma NothingBefore(q: string)
    ensures "" + q == q
  {
  }

  lemma EmptyObjectDone(strtod: Strtod, fmt: bool, k: nat, rest: string, depth: nat)
    requires depth < NESTING_LIMIT
    ensures Parses(strtod, Object([]), fmt, k, rest, depth)
  {
    var open, tabs := NewLine(fmt), Indent(fmt, k);
    ObjectShape([], fmt, k, rest);
    assert MembersText([], fmt, k + 1) + (tabs + ("}" + rest)) == tabs + ("}" + rest);
    ValueIsObject(strtod, open + (tabs + ("}" + rest)), depth);
    Assoc(open, tabs, "}" + rest);
    SkipSpaces(open + tabs, "}" + rest);
    assert ("}" + rest)[1..] == rest;
  }

  lemma ObjectDone(strtod: Strtod, ms: seq<Member>, fmt: bool, k: nat, rest: string, depth: nat)
    requires depth < NESTING_LIMIT && ms != []
    requires ParseMembers(strtod, "" + (StringText(ms[0].key) + (MembersRest(ms, fmt, k + 1) + (Indent(fmt, k) + ("}" + rest)))), depth + 1)
             == Some((ms, rest))
    ensures Parses(strtod, Object(ms), fmt, k, rest, depth)
  {
    var q := StringText(ms[0].key) + (MembersRest(ms, fmt, k + 1) + (Indent(fmt, k) + ("}" + rest)));
    NothingBefore(q);
    ObjectAt(strtod, ms, fmt, k, q, rest, depth);
  }

  lemma ObjectAt(strtod: Strtod, ms: seq<Member>, fmt: bool, k: nat, q: string, rest: string, depth: nat)
    requires depth < NESTING_LIMIT && ms != []
    requires q == StringText(ms[0].key) + (MembersRest(ms, fmt, k + 1) + (Indent(fmt, k) + ("}" + rest)))
    requires ParseMembers(strtod, q, depth + 1) == Some((ms, rest))
    ensures Parses(strtod, Object(ms), fmt, k, rest, depth)
  {
    hide ParseMembers, ParseValue, MembersRest, MembersText, StringText, Text;
    var open, lead, close := NewLine(fmt), Indent(fmt, k + 1), Indent(fmt, k) + ("}" + rest);
    ObjectShape(ms, fmt, k, rest);
    MembersStart(ms, fmt, k + 1, close);
    StringStarts(ms[0].key, MembersRest(ms, fmt, k + 1) + close);
    Assoc(open, lead, q);
    ValueIsObject(strtod, open + (lead + q), depth);
    SkipSpaces(open + lead, q);
  }

  lemma StringStarts(key: string, r: string)
    ensures StringText(key) + r != "" && (StringText(key) + r)[0] == '\"'
  {
  }

  /** The text of the members behind the first key. */
  function MembersRest(ms: seq<Member>, fmt: bool, k: nat): string
    requires ms != []
  {
    ":" + ((if fmt then "\t" else "") + (Text(ms[0].value, fmt, k)
    + ((if |ms| > 1 then "," else "") + (NewLine(fmt) + MembersText(ms[1..], fmt, k)))))
  }

  lemma MembersStart(ms: seq<Member>, fmt: bool, k: nat, close: string)
    requires ms != []
    ensures MembersText(ms, fmt, k) + close == Indent(fmt, k) + (StringText(ms[0].key) + (MembersRest(ms, fmt, k) + close))
  {
    Assoc(Indent(fmt, k), StringText(ms[0].key) + MembersRest(ms, fmt, k), close);
    Assoc(StringText(ms[0].key), MembersRest(ms, fmt, k), close);
  }

  /** What follows the value of the first member. */
  function MembersMore(ms: seq<Member>, fmt: bool, k: nat, close: string): string
    requires ms != []
  {
    (if |ms| > 1 then "," else "") + (NewLine(fmt) + (MembersText(ms[1..], fmt, k) + close))
  }

  lemma MembersValue(ms: seq<Member>, fmt: bool, k: nat, close: string)
    requires ms != []
    ensures MembersRest(ms, fmt, k) + close ==
              ":" + ((if fmt then "\t" else "") + (Text(ms[0].value, fmt, k) + MembersMore(ms, fmt, k, close)))
  {
    var comma, tab, t := if |ms| > 1 then "," else "", if fmt then "\t" else "", Text(ms[0].value, fmt, k);
    var more := MembersText(ms[1..], fmt, k);
    Assoc(":", tab + (t + (comma + (NewLine(fmt) + more))), close);
    Assoc(tab, t + (comma + (NewLine(fmt) + more)), close);
    Assoc(t, comma + (NewLine(fmt) + more), close);
    Assoc(comma, NewLine(fmt) + more, close);
    Assoc(NewLine(fmt), more, close);
  }

  /** One turn of the loop of parse_object. */
  lemma MembersStep(strtod: Strtod, p: string, m: Member, space: string, after: string, depth: nat)
    requires AllSpace(space) && after != "" && after[0] > ' '
    requires ParseMember(strtod, p, depth) == Some((m, space + after))
    ensures ParseMembers(strtod, p, depth) ==
              if after[0] == ',' then
                var r := ParseMembers(strtod, after[1..], depth);
                if r.None? then None else Some(([m] + r.value.0, r.value.1))
              else if after[0] == '}' then Some(([m], after[1..]))
              else None
  {
    SkipSpaces(space, after);
  }

  lemma SpacesAhead(fmt: bool, k: nat)
    ensures AllSpace(NewLine(fmt) + Indent(fmt, k))
  {
  }

  lemma {:induction false} ParseMembersText(strtod: Strtod, ms: seq<Member>, fmt: bool, k: nat, space: string, end: string, rest: string, depth: nat)
    requires ReadsIntegers(strtod) && ms != [] && AllSpace(space) && AllSpace(end)
    requires forall i :: 0 <= i < |ms| ==> NulFree(ms[i].key) && Printable(ms[i].value)
    requires depth + NestingMembers(ms) <= NESTING_LIMIT
    ensures ParseMembers(strtod, space + (StringText(ms[0].key) + (MembersRest(ms, fmt, k) + (end + ("}" + rest)))), depth)
            == Some((ms, rest))
    decreases ms, 2
  {
    hide ParseMembers, ParseMember, MembersRest, MembersMore, MembersText, StringText, Text, Indent, NewLine;
    var close := end + ("}" + rest);
    SpacesAhead(fmt, k);
    StopsMore(ms, fmt, k, end, rest);
    MembersValue(ms, fmt, k, close);
    ParseMemberText(strtod, ms[0], fmt, k, space, MembersMore(ms, fmt, k, close), depth);
    var p := space + (StringText(ms[0].key) + (MembersRest(ms, fmt, k) + close));
    if |ms| > 1 {
      ParseMembersText(strtod, ms[1..], fmt, k, NewLine(fmt) + Indent(fmt, k), end, rest, depth);
      FirstMember(strtod, ms, fmt, k, p, close, rest, depth);
    } else {
      LastMember(strtod, ms, fmt, k, p, end, rest, depth);
    }
  }

  lemma FirstMember(strtod: Strtod, ms: seq<Member>, fmt: bool, k: nat, p: string, close: string, rest: string, depth: nat)
    requires |ms| > 1 && ParseMember(strtod, p, depth) == Some((ms[0], MembersMore(ms, fmt, k, close)))
    requires ParseMembers(strtod, (NewLine(fmt) + Indent(fmt, k)) + (StringText(ms[1].key) + (MembersRest(ms[1..], fmt, k) + close)), depth)
             == Some((ms[1..], rest))
    ensures ParseMembers(strtod, p, depth) == Some((ms, rest))
  {
    hide ParseMembers, ParseMember, MembersRest, StringText, Indent, NewLine, MembersMore;
    var q := (NewLine(fmt) + Indent(fmt, k)) + (StringText(ms[1].key) + (MembersRest(ms[1..], fmt, k) + close));
    MembersGap(ms, fmt, k, close);
    assert "" + ("," + q) == "," + q;
    MembersStep(strtod, p, ms[0], "", "," + q, depth);
    assert ("," + q)[1..] == q;
    assert [ms[0]] + ms[1..] == ms;
  }

  lemma LastMember(strtod: Strtod, ms: seq<Member>, fmt: bool, k: nat, p: string, end: string, rest: string, depth: nat)
    requires |ms| == 1 && AllSpace(end)
    requires ParseMember(strtod, p, depth) == Some((ms[0], MembersMore(ms, fmt, k, end + ("}" + rest))))
    ensures ParseMembers(strtod, p, depth) == Some((ms, rest))
  {
    var close := end + ("}" + rest);
    assert MembersText(ms[1..], fmt, k) + close == close;
    Assoc(NewLine(fmt), end, "}" + rest);
    assert MembersMore(ms, fmt, k, close) == (NewLine(fmt) + end) + ("}" + rest);
    MembersStep(strtod, p, ms[0], NewLine(fmt) + end, "}" + rest, depth);
    assert ("}" + rest)[1..] == rest;
    assert [ms[0]] == ms;
  }

  lemma MembersGap(ms: seq<Member>, fmt: bool, k: nat, close: string)
    requires |ms| > 1
    ensures MembersMore(ms, fmt, k, close) ==
              "," + ((NewLine(fmt) + Indent(fmt, k)) + (StringText(ms[1].key) + (MembersRest(ms[1..], fmt, k) + close)))
  {
    var q := StringText(ms[1].key) + (MembersRest(ms[1..], fmt, k) + close);
    MembersStart(ms[1..], fmt, k, close);
    Assoc(NewLine(fmt), Indent(fmt, k), q);
  }

  lemma StopsMore(ms: seq<Member>, fmt: bool, k: nat, end: string, rest: string)
    requires ms != [] && AllSpace(end)
    ensures Stops(MembersMore(ms, fmt, k, end + ("}" + rest)))
  {
    if |ms| == 1 && !fmt && end != "" { assert end[0] <= ' '; }
  }

  lemma {:induction false} ParseMemberText(strtod: Strtod, m: Member, fmt: bool, k: nat, space: string, more: string, depth: nat)
    requires ReadsIntegers(strtod) && AllSpace(space) && Stops(more)
    requires NulFree(m.key) && Printable(m.value) && depth + Nesting(m.value) <= NESTING_LIMIT
    ensures ParseMember(strtod, space + (StringText(m.key) + (":" + ((if fmt then "\t" else "") + (Text(m.value, fmt, k) + more)))), depth)
            == Some((m, more))
    decreases m, 0
  {
    var tab, t := if fmt then "\t" else "", Text(m.value, fmt, k) + more;
    var colon := ":" + (tab + t);
    StringStarts(m.key, colon);
    SkipSpaces(space, StringText(m.key) + colon);
    ParseStringText(m.key, colon);
    NoSpace(colon);
    TextStarts(m.value, fmt, k);
    assert colon[1..] == tab + t;
    SkipSpaces(tab, t);
    ParseText(strtod, m.value, fmt, k, more, depth);
  }

  /** cJSON_ParseWithOpts undoes cJSON_Print and cJSON_PrintUnformatted, whether or not the
      text has to end behind the value. */
  lemma PrintParseRoundTrip(strtod: Strtod, j: Json, fmt: bool, requireEnd: bool)
    requires ReadsIntegers(strtod) && Printable(j) && Nesting(j) <= NESTING_LIMIT
    ensures Parse(strtod, Text(j, fmt, 0), requireEnd) == Some(j)
  {
    var t := Text(j, fmt, 0);
    TextStarts(j, fmt, 0);
    assert (t + "\0")[0] == t[0];
    NoBom(j, fmt);
    SkipSpaces("", t + "\0");
    assert "" + (t + "\0") == t + "\0";
    ParseText(strtod, j, fmt, 0, "\0", 0);
  }

  lemma NoBom(j: Json, fmt: bool)
    requires Printable(j)
    ensures Text(j, fmt, 0) != "" && Text(j, fmt, 0)[0] < 0x80 as char
  {
  }

  // ---------------------------------------------------------------- a strtod that reads integers

  /** The digits at the front of s behind the ones that gave acc: the number, and how many. */
  function ReadDigits(s: string, acc: nat): (int, nat)
    decreases |s|
  {
    if s == "" || !('0' <= s[0] <= '9') then (acc, 0)
    else
      var (n, used) := ReadDigits(s[1..], 10 * acc + (s[0] as int - '0' as int));
      (n, used + 1)
  }

  /** What strtod does with a number that has neither fraction nor exponent. */
  function ReadDecimal(s: string): (int, nat)
  {
    var negative := s != "" && s[0] == '-';
    var (n, used) := ReadDigits(if negative then s[1..] else s, 0);
    (if negative then -n else n, if negative && used > 0 then used + 1 else used)
  }

  lemma ReadDigit(n: nat, tail: string, acc: nat)
    requires n < 10
    ensures var c := ('0' as int + n) as char;
            ReadDigits([c] + tail, acc) == (ReadDigits(tail, 10 * acc + n).0, ReadDigits(tail, 10 * acc + n).1 + 1)
  {
    assert ([('0' as int + n) as char] + tail)[1..] == tail;
  }

  lemma {:induction false} ReadDigitsText(n: nat, tail: string)
    ensures ReadDigits(NatText(n) + tail, 0) == (ReadDigits(tail, n).0, |NatText(n)| + ReadDigits(tail, n).1)
  {
    hide ReadDigits;
    if n < 10 {
      ReadDigit(n, tail, 0);
    } else {
      var c := ('0' as int + n % 10) as char;
      assert NatText(n) + tail == NatText(n / 10) + ([c] + tail);
      ReadDigitsText(n / 10, [c] + tail);
      ReadDigit(n % 10, tail, n / 10);
    }
  }

  /** So what is asked of strtod can be met. */
  lemma DecimalReads()
    ensures ReadsIntegers(ReadDecimal)
  {
    hide NatText, ReadDigits;
    forall n: int ensures ReadDecimal(IntText(n)) == (n, |IntText(n)|) {
      var m := if n < 0 then -n else n;
      ReadDigitsText(m, "");
      NoMoreDigits(m);
      assert NatText(m) + "" == NatText(m);
      if n < 0 { assert ("-" + NatText(m))[1..] == NatText(m); }
    }
  }

  lemma NoMoreDigits(n: nat)
    ensures ReadDigits("", n) == (n, 0) && NatText(n)[0] != '-'
  {
  }

  /** The round trip with that reader, nothing assumed. */
  lemma IntegerRoundTrip(j: Json, fmt: bool, requireEnd: bool)
    requires Printable(j) && Nesting(j) <= NESTING_LIMIT
    ensures Parse(ReadDecimal, Text(j, fmt, 0), requireEnd) == Some(j)
  {
    DecimalReads();
    PrintParseRoundTrip(ReadDecimal, j, fmt, requireEnd);
  }
}
