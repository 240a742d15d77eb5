/** The text cJSON prints for a document, and the parser for JSON texts, both as functions.
    The parser works on what is left of the input, whose last character is the NUL that
    cJSON_ParseWithOpts counts in. */
module JsonText {
  import opened CString
  import opened JsonValue

  const NESTING_LIMIT: nat := 1000

  const BACKSPACE: char := 8 as char
  const FORM_FEED: char := 12 as char

  // ---------------------------------------------------------------- printing

  function HexDigit(n: nat): char
    requires n < 16
  {
    if n < 10 then ('0' as int + n) as char else ('a' as int + n - 10) as char
  }

  /** print_string_ptr, one character. */
  function Escape(c: char): (r: string)
    ensures r != ""
  {
    if c == '\"' then "\\\""
    else if c == '\\' then "\\\\"
    else if c == BACKSPACE then "\\b"
    else if c == FORM_FEED then "\\f"
    else if c == '\n' then "\\n"
    else if c == '\r' then "\\r"
    else if c == '\t' then "\\t"
    else if c < ' ' then "\\u00" + [HexDigit(c as int / 16), HexDigit(c as int % 16)]
    else [c]
  }

  function EscapeAll(s: string): string
  {
    if s == "" then "" else Escape(s[0]) + EscapeAll(s[1..])
  }

  function StringText(s: string): string
  {
    "\"" + EscapeAll(s) + "\""
  }

  function NatText(n: nat): (s: string)
    ensures s != "" && forall i :: 0 <= i < |s| ==> '0' <= s[i] <= '9'
  {
    if n < 10 then [('0' as int + n) as char] else NatText(n / 10) + [('0' as int + n % 10) as char]
  }

  /** printf's %d. */
  function IntText(n: int): (s: string)
    ensures s != "" && (s[0] == '-' || '0' <= s[0] <= '9')
    ensures forall i :: 0 <= i < |s| ==> s[i] == '-' || '0' <= s[i] <= '9'
  {
    if n < 0 then "-" + NatText(-n) else NatText(n)
  }

  function Tabs(n: nat): (s: string)
    ensures |s| == n && forall i :: 0 <= i < n ==> s[i] == '\t'
  {
    seq(n, _ => '\t')
  }

  /** print_value at a nesting depth. An Invalid item has no text. */
  function Text(j: Json, fmt: bool, depth: nat): string
    decreases j, 1
  {
    match j
    case Invalid => ""
    case Null => "null"
    case False => "false"
    case True => "true"
    case Number(n) => IntText(n)
    case String(s) => StringText(s)
    case Array(items) => "[" + (ElementsText(items, fmt, depth + 1) + "]")
    case Object(ms) =>
      "{" + (NewLine(fmt) + (MembersText(ms, fmt, depth + 1) + (Indent(fmt, depth) + "}")))
  }

  function NewLine(fmt: bool): string { if fmt then "\n" else "" }

  function Indent(fmt: bool, depth: nat): string { if fmt then Tabs(depth) else "" }

  function ElementsText(items: seq<Json>, fmt: bool, depth: nat): string
    decreases items, 0
  {
    if items == [] then ""
    else if |items| == 1 then Text(items[0], fmt, depth)
    else Text(items[0], fmt, depth) + ("," + ((if fmt then " " else "") + ElementsText(items[1..], fmt, depth)))
  }

  function MembersText(ms: seq<Member>, fmt: bool, depth: nat): string
    decreases ms, 0
  {
    if ms == [] then ""
    else
      Indent(fmt, depth) + (StringText(ms[0].key) + (":" + ((if fmt then "\t" else "") + (Text(ms[0].value, fmt, depth)
      + ((if |ms| > 1 then "," else "") + (NewLine(fmt) + MembersText(ms[1..], fmt, depth)))))))
  }

  // ---------------------------------------------------------------- parsing strings

  /** parse_hex4: four hexadecimal digits, or 0 if one of them is not. */
  function HexValue(c: char): Option<nat>
  {
    if '0' <= c <= '9' then Some(c as int - '0' as int)
    else if 'A' <= c <= 'F' then Some(10 + c as int - 'A' as int)
    else if 'a' <= c <= 'f' then Some(10 + c as int - 'a' as int)
    else None
  }

  predicate AllHex(s: string)
  {
    forall i :: 0 <= i < |s| ==> HexValue(s[i]).Some?
  }

  function Hex4(s: string): (h: nat)
    requires |s| == 4
    ensures h < 0x10000
  {
    if AllHex(s) then
      ((HexValue(s[0]).value * 16 + HexValue(s[1]).value) * 16 + HexValue(s[2]).value) * 16 + HexValue(s[3]).value
    else 0
  }

  /** The UTF-8 form of a code point (section 3 of RFC 3629), each byte as a character. */
  function Utf8(c: nat): (s: string)
    requires c <= 0x10FFFF
    ensures 1 <= |s| <= 4
    ensures c < 0x80 ==> |s| == 1
    ensures c < 0x10000 ==> |s| <= 3
  {
    if c < 0x80 then [c as char]
    else if c < 0x800 then [(0xC0 + c / 64) as char, (0x80 + c % 64) as char]
    else if c < 0x10000 then [(0xE0 + c / 4096) as char, (0x80 + c / 64 % 64) as char, (0x80 + c % 64) as char]
    else [(0xF0 + c / 262144) as char, (0x80 + c / 4096 % 64) as char, (0x80 + c / 64 % 64) as char, (0x80 + c % 64) as char]
  }

  /** utf16_literal_to_utf8 on the rest p of the string content, which starts with "\u":
      the bytes and the number of characters read, or None. */
  function Utf16Literal(p: string): (r: Option<(string, nat)>)
    ensures r.Some? ==> 6 <= r.value.1 <= |p|
  {
    if |p| < 6 then None
    else
      var first := Hex4(p[2..6]);
      if 0xDC00 <= first <= 0xDFFF then None
      else if 0xD800 <= first <= 0xDBFF then
        if |p| < 12 || p[6] != '\\' || p[7] != 'u' then None
        else
          var second := Hex4(p[8..12]);
          if second < 0xDC00 || second > 0xDFFF then None
          else Some((Utf8(0x10000 + (first % 0x400) * 0x400 + second % 0x400), 12))
      else Some((Utf8(first), 6))
  }

  /** The decoding pass of parse_string over the content p, which the closing quote follows. */
  function Decode(p: string): Option<string>
    decreases |p|
  {
    if p == "" then Some("")
    else if p[0] != '\\' then Cons([p[0]], Decode(p[1..]))
    else
      // a backslash at the very end is followed by the closing quote
      var c := if |p| > 1 then p[1] else '\"';
      var rest := if |p| > 1 then p[2..] else "";
      if c == 'u' then
        var u := Utf16Literal(p);
        if u.None? then None else Cons(u.value.0, Decode(p[u.value.1..]))
      else
        var d := Unescaped(c);
        if d.None? then None else Cons([d.value], Decode(rest))
  }

  /** The single character escapes of parse_string. */
  function Unescaped(c: char): Option<char>
  {
    if c == 'b' then Some(BACKSPACE)
    else if c == 'f' then Some(FORM_FEED)
    else if c == 'n' then Some('\n')
    else if c == 'r' then Some('\r')
    else if c == 't' then Some('\t')
    else if c == '\"' || c == '\\' || c == '/' then Some(c)
    else None
  }

  function Cons(s: string, rest: Option<string>): Option<string>
  {
    if rest.Some? then Some(s + rest.value) else None
  }

  /** The sizing pass: the index of the closing quote, skipping a character after each backslash. */
  function ClosingQuote(p: string): (r: Option<nat>)
    ensures r.Some? ==> r.value < |p| && p[r.value] == '\"'
    decreases |p|
  {
    if p == "" then None
    else if p[0] == '\"' then Some(0)
    else if p[0] == '\\' then
      if |p| < 2 then None
      else
        var r := ClosingQuote(p[2..]);
        if r.Some? then Some(r.value + 2) else None
    else
      var r := ClosingQuote(p[1..]);
      if r.Some? then Some(r.value + 1) else None
  }

  /** What a C reader sees of decoded bytes: they end at the first NUL. */
  function CutAtNul(s: string): string
  {
    if s == "" || s[0] == '\0' then "" else [s[0]] + CutAtNul(s[1..])
  }

  /** parse_string. */
  function ParseString(p: string): (r: Option<(string, string)>)
    ensures r.Some? ==> |r.value.1| < |p|
  {
    if p == "" || p[0] != '\"' then None
    else
      var end := ClosingQuote(p[1..]);
      if end.None? then None
      else
        var s := Decode(p[1..][..end.value]);
        if s.None? then None else Some((CutAtNul(s.value), p[1..][end.value + 1..]))
  }

  // ---------------------------------------------------------------- parsing values

  /** buffer_skip_whitespace: it never leaves the last character. */
  function SkipSpace(p: string): (r: string)
    ensures |r| <= |p| && (p != "" ==> r != "")
    decreases |p|
  {
    if |p| <= 1 || p[0] > ' ' then p else SkipSpace(p[1..])
  }

  predicate NumberChar(c: char)
  {
    '0' <= c <= '9' || c == '+' || c == '-' || c == 'e' || c == 'E' || c == '.'
  }

  /** The characters parse_number copies, at most `max` of them. */
  function NumberRun(p: string, max: nat): (r: string)
    ensures |r| <= |p|
  {
    if p == "" || max == 0 || !NumberChar(p[0]) then "" else [p[0]] + NumberRun(p[1..], max - 1)
  }

  /** strtod: the number read and how many characters it took. */
  type Strtod = string -> (int, nat)

  /** strtod reads the text of every 32-bit integer. */
  ghost predicate ReadsIntegers(strtod: Strtod)
  {
    forall n: int :: -0x8000_0000 <= n < 0x8000_0000 ==> strtod(IntText(n)) == (n, |IntText(n)|)
  }

  function ParseNumber(strtod: Strtod, p: string): (r: Option<(Json, string)>)
    ensures r.Some? ==> |r.value.1| < |p|
  {
    var run := NumberRun(p, 63);
    var (n, used) := strtod(run);
    if 0 < used <= |run| then Some((Number(n), p[used..])) else None
  }

  predicate StartsWith(p: string, word: string)
  {
    |p| >= |word| && p[..|word|] == word
  }

  function ParseValue(strtod: Strtod, p: string, depth: nat): (r: Option<(Json, string)>)
    ensures r.Some? ==> |r.value.1| < |p|
    decreases |p|, 1
  {
    if StartsWith(p, "null") then Some((Null, p[4..]))
    else if StartsWith(p, "false") then Some((False, p[5..]))
    else if StartsWith(p, "true") then Some((True, p[4..]))
    else if p == "" then None
    else if p[0] == '\"' then
      var r := ParseString(p);
      if r.None? then None else Some((String(r.value.0), r.value.1))
    else if p[0] == '-' || '0' <= p[0] <= '9' then ParseNumber(strtod, p)
    else if p[0] == '[' then
      if depth >= NESTING_LIMIT then None
      else
        var q := SkipSpace(p[1..]);
        if q == "" then None
        else if q[0] == ']' then Some((Array([]), q[1..]))
        else
          var r := ParseElements(strtod, q, depth + 1);
          if r.None? then None else Some((Array(r.value.0), r.value.1))
    else if p[0] == '{' then
      if depth >= NESTING_LIMIT then None
      else
        var q := SkipSpace(p[1..]);
        if q == "" then None
        else if q[0] == '}' then Some((Object([]), q[1..]))
        else
          var r := ParseMembers(strtod, q, depth + 1);
          if r.None? then None else Some((Object(r.value.0), r.value.1))
    else None
  }

  /** The loop of parse_array, from behind '[' or ','. */
  function ParseElements(strtod: Strtod, p: string, depth: nat): (r: Option<(seq<Json>, string)>)
    ensures r.Some? ==> |r.value.1| < |p|
    decreases |p|, 2
  {
    var v := ParseValue(strtod, SkipSpace(p), depth);
    if v.None? then None
    else
      var q := SkipSpace(v.value.1);
      if q == "" then None
      else if q[0] == ',' then
        var r := ParseElements(strtod, q[1..], depth);
        if r.None? then None else Some(([v.value.0] + r.value.0, r.value.1))
      else if q[0] == ']' then Some(([v.value.0], q[1..]))
      else None
  }

  /** One member of parse_object: key, colon and value. */
  function ParseMember(strtod: Strtod, p: string, depth: nat): (r: Option<(Member, string)>)
    ensures r.Some? ==> |r.value.1| < |p|
    decreases |p|, 2
  {
    var k := ParseString(SkipSpace(p));
    if k.None? then None
    else
      var q := SkipSpace(k.value.1);
      if q == "" || q[0] != ':' then None
      else
        var v := ParseValue(strtod, SkipSpace(q[1..]), depth);
        if v.None? then None else Some((Member(k.value.0, v.value.0), v.value.1))
  }

  /** The loop of parse_object, from behind '{' or ','. */
  function ParseMembers(strtod: Strtod, p: string, depth: nat): (r: Option<(seq<Member>, string)>)
    ensures r.Some? ==> |r.value.1| < |p|
    decreases |p|, 3
  {
    var m := ParseMember(strtod, p, depth);
    if m.None? then None
    else
      var q := SkipSpace(m.value.1);
      if q == "" then None
      else if q[0] == ',' then
        var r := ParseMembers(strtod, q[1..], depth);
        if r.None? then None else Some(([m.value.0] + r.value.0, r.value.1))
      else if q[0] == '}' then Some(([m.value.0], q[1..]))
      else None
  }

  /** skip_utf8_bom. */
  function SkipBom(p: string): string
  {
    if |p| > 4 && p[0] == 0xEF as char && p[1] == 0xBB as char && p[2] == 0xBF as char then p[3..] else p
  }

  /** cJSON_ParseWithOpts. */
  function Parse(strtod: Strtod, value: string, requireEnd: bool): Option<Json>
  {
    var p := SkipSpace(SkipBom(value + "\0"));
    var r := ParseValue(strtod, p, 0);
    if r.None? then None
    else
      var rest := SkipSpace(r.value.1);
      if requireEnd && (rest == "" || rest[0] != '\0') then None else Some(r.value.0)
  }
}
