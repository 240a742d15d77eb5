/** How minIni reads and writes one line of an INI file. */
module IniText {
  import opened CString
  import opened JsonValue

  const BUFFER_SIZE: nat := 512
  const LINE_TERM: string := "\r\n"

  predicate Blank(c: char) { '\0' < c <= ' ' }

  /** skipleading. */
  function SkipLeading(s: string): (r: string)
    ensures |r| <= |s|
  {
    if s == "" || !Blank(s[0]) then s else SkipLeading(s[1..])
  }

  /** What is left is the end of the text, and begins with no blank. */
  lemma {:induction false} SkipIsSuffix(s: string)
    ensures var r := SkipLeading(s); r == s[|s|-|r|..] && (r != "" ==> !Blank(r[0]))
  {
    if s != "" && Blank(s[0]) { SkipIsSuffix(s[1..]); }
  }

  /** skiptrailing from the end of s. */
  function TrimEnd(s: string): (r: string)
    ensures |r| <= |s|
  {
    if s == "" || !Blank(s[|s|-1]) then s else TrimEnd(s[..|s|-1])
  }

  /** What is left is the beginning of the text, and ends with no blank. */
  lemma {:induction false} TrimIsPrefix(s: string)
    ensures var r := TrimEnd(s); r == s[..|r|] && (r != "" ==> !Blank(r[|r|-1]))
  {
    if s != "" && Blank(s[|s|-1]) { TrimIsPrefix(s[..|s|-1]); }
  }

  /** The index of the first c, or the length. */
  function IndexOf(s: string, c: char): (i: nat)
    ensures i <= |s| && (i < |s| ==> s[i] == c) && c !in s[..i]
  {
    if s == "" || s[0] == c then 0 else 1 + IndexOf(s[1..], c)
  }

  /** The index of the last c, or the length. */
  function LastIndexOf(s: string, c: char): (i: nat)
    ensures i <= |s| && (i < |s| ==> s[i] == c && c !in s[i+1..]) && (i == |s| ==> c !in s)
  {
    if s == "" then 0
    else if s[|s|-1] == c then |s| - 1
    else
      var i := LastIndexOf(s[..|s|-1], c);
      assert s == s[..|s|-1] + [s[|s|-1]];
      if i < |s| - 1 then assert s[i+1..] == s[..|s|-1][i+1..] + [s[|s|-1]]; i else |s|
  }

  predicate OpensSection(line: string)
  {
    var sp := SkipLeading(line);
    sp != "" && sp[0] == '['
  }

  /** The name between '[' and the last ']' of a section line. */
  function SectionName(line: string): Option<string>
  {
    var sp := SkipLeading(line);
    var e := LastIndexOf(sp, ']');
    if sp != "" && sp[0] == '[' && e < |sp| then Some(TrimEnd(SkipLeading(sp[1..e]))) else None
  }

  predicate IsSection(line: string, section: string)
  {
    var name := SectionName(line);
    name.Some? && Lower(name.value) == Lower(section)
  }

  /** The index of the '=', or else of the ':', or the length. */
  function Separator(sp: string): (i: nat)
    ensures i <= |sp|
  {
    if IndexOf(sp, '=') < |sp| then IndexOf(sp, '=') else IndexOf(sp, ':')
  }

  /** Does the text before the separator name this key? This is how ini_puts tests it. */
  predicate NamesKey(line: string, key: string)
  {
    var sp := SkipLeading(line);
    var e := Separator(sp);
    e < |sp| && key != "" && Lower(TrimEnd(sp[..e])) == Lower(key)
  }

  /** The test of getkeystring, which passes over comment lines. */
  predicate IsKey(line: string, key: string)
  {
    var sp := SkipLeading(line);
    NamesKey(line, key) && sp[0] != ';' && sp[0] != '#'
  }

  // ---------------------------------------------------------------- values

  /** The loop of cleanstring: what stands in front of a comment. */
  function CutComment(s: string, inString: bool): (r: string)
    ensures |r| <= |s|
  {
    if s == "" then ""
    else if (s[0] == ';' || s[0] == '#') && !inString then ""
    else if s[0] == '\"' then
      if |s| > 1 && s[1] == '\"' then s[..2] + CutComment(s[2..], inString)
      else [s[0]] + CutComment(s[1..], !inString)
    else if s[0] == '\\' && |s| > 1 && s[1] == '\"' then s[..2] + CutComment(s[2..], inString)
    else [s[0]] + CutComment(s[1..], inString)
  }

  /** The QUOTE_DEQUOTE copy of ini_strncpy, before truncation. */
  function Dequote(s: string): string
  {
    if s == "" then ""
    else if (s[0] == '\"' || s[0] == '\\') && |s| > 1 && s[1] == '\"' then ['\"'] + Dequote(s[2..])
    else [s[0]] + Dequote(s[1..])
  }

  /** cleanstring and the copy that follows it. */
  function CleanValue(s: string): string
  {
    var t := TrimEnd(CutComment(s, false));
    if t != "" && t[0] == '\"' && t[|t|-1] == '\"' then
      Dequote(if |t| == 1 then "" else t[1..|t|-1])
    else t
  }

  /** The value of a key line, as getkeystring extracts it. */
  function LineValue(line: string): string
  {
    var sp := SkipLeading(line);
    var e := Separator(sp);
    if e < |sp| then CleanValue(SkipLeading(sp[e+1..])) else ""
  }

  // ---------------------------------------------------------------- writing

  function Take(s: string, n: nat): (r: string)
    ensures |r| <= n && |r| <= |s| && r == s[..|r|] && (|s| <= n ==> r == s)
  {
    if |s| <= n then s else s[..n]
  }

  /** check_enquote. */
  predicate NeedsQuotes(v: string)
  {
    '\"' in v || ';' in v || '#' in v || (v != "" && v[|v|-1] == ' ')
  }

  /** The QUOTE_ENQUOTE loop of ini_strncpy, with `room` characters left for the text. */
  function EscapeQuotes(v: string, room: nat): (r: string)
    ensures |r| <= room
  {
    if v == "" || room == 0 then ""
    else if v[0] == '\"' then
      if room < 2 then "" else "\\\"" + EscapeQuotes(v[1..], room - 2)
    else [v[0]] + EscapeQuotes(v[1..], room - 1)
  }

  /** ini_strncpy for writing, into a buffer of `size` characters. */
  function Quoted(v: string, size: nat): (r: string)
    requires size > 0
    ensures |r| < size
  {
    if NeedsQuotes(v) && size >= 3 then "\"" + EscapeQuotes(v, size - 3) + "\"" else Take(v, size - 1)
  }

  /** writekey. */
  function KeyLine(key: string, v: string): (r: string)
    ensures 2 < |r| < BUFFER_SIZE
    ensures r[|r|-2..] == LINE_TERM
  {
    var k := Take(key, BUFFER_SIZE - 4) + "=";
    k + Quoted(v, BUFFER_SIZE - |k| - 2) + LINE_TERM
  }

  /** writesection. */
  function SectionLine(section: string): (r: string)
    ensures |r| < BUFFER_SIZE
  {
    if section == "" then "" else "[" + Take(section, BUFFER_SIZE - 5) + "]" + LINE_TERM
  }

  /** A value with its quotes escaped. */
  function Escaped(v: string): (r: string)
    ensures |r| >= |v|
  {
    if v == "" then "" else (if v[0] == '\"' then "\\\"" else [v[0]]) + Escaped(v[1..])
  }

  lemma {:induction false} EscapeAllRoom(v: string, room: nat)
    requires |Escaped(v)| <= room
    ensures EscapeQuotes(v, room) == Escaped(v)
  {
    if v != "" { EscapeAllRoom(v[1..], room - if v[0] == '\"' then 2 else 1); }
  }

  // ---------------------------------------------------------------- a written value reads back

  lemma {:induction false} DequoteEscaped(v: string)
    ensures Dequote(Escaped(v)) == v
  {
    if v != "" {
      DequoteEscaped(v[1..]);
      var e := Escaped(v);
      if v[0] == '\"' {
        assert e[2..] == Escaped(v[1..]);
      } else {
        assert e[1..] == Escaped(v[1..]);
        EscapedStart(v[1..]);
        assert |e| > 1 ==> e[1] == Escaped(v[1..])[0];
      }
      assert v == [v[0]] + v[1..];
    }
  }

  lemma EscapedStart(v: string)
    ensures Escaped(v) != "" ==> Escaped(v)[0] != '\"'
  {
  }

  predicate Plain(c: char)
  {
    c != '\"' && c != ';' && c != '#'
  }

  predicate AllPlain(w: string)
  {
    forall i :: 0 <= i < |w| ==> Plain(w[i])
  }

  lemma {:induction false} CutPlain(w: string, inString: bool)
    requires AllPlain(w)
    ensures CutComment(w, inString) == w
  {
    if w != "" {
      CutPlain(w[1..], inString);
      assert [w[0]] + w[1..] == w;
    }
  }

  /** One step over a character that is neither a quote nor in front of one. */
  lemma CutStep(c: char, rest: string, inString: bool)
    requires c != '\"' && (inString || (c != ';' && c != '#'))
    requires c == '\\' ==> rest == "" || rest[0] != '\"'
    ensures CutComment([c] + rest, inString) == [c] + CutComment(rest, inString)
  {
    var p := [c] + rest;
    assert p[0] == c && p[1..] == rest;
  }

  lemma CutPair(c: char, rest: string, inString: bool)
    requires c == '\\'
    ensures CutComment([c, '\"'] + rest, inString) == [c, '\"'] + CutComment(rest, inString)
  {
    var p := [c, '\"'] + rest;
    assert p[0] == c && p[1] == '\"' && p[..2] == [c, '\"'] && p[2..] == rest;
  }

  /** Inside quotes nothing is taken for a comment, and every escape is stepped over. */
  lemma {:induction false} CutEscaped(v: string, w: string)
    requires AllPlain(w)
    ensures CutComment(Escaped(v) + ("\"" + w), true) == Escaped(v) + ("\"" + w)
    decreases |v|
  {
    hide CutComment;
    var close := "\"" + w;
    CutClose(w);
    if v == "" {
      assert Escaped(v) + close == close;
    } else {
      var tail := Escaped(v[1..]) + close;
      CutEscaped(v[1..], w);
      EscapedStart(v[1..]);
      if v[0] == '\"' {
        assert Escaped(v) + close == ['\\', '\"'] + tail;
        CutPair('\\', tail, true);
      } else {
        assert Escaped(v) + close == [v[0]] + tail;
        if v[1..] == "" {
          assert tail == close;
          CutLast(v[0], w);
        } else {
          assert tail[0] == Escaped(v[1..])[0];
          CutStep(v[0], tail, true);
        }
      }
    }
  }

  lemma CutClose(w: string)
    requires AllPlain(w)
    ensures CutComment("\"" + w, true) == "\"" + w
  {
    var p := "\"" + w;
    assert p[1..] == w;
    CutPlain(w, false);
  }

  /** The last character of the value, a backslash for example, in front of the closing quote. */
  lemma CutLast(c: char, w: string)
    requires AllPlain(w) && c != '\"'
    ensures CutComment([c] + ("\"" + w), true) == [c] + ("\"" + w)
  {
    CutClose(w);
    if c == '\\' {
      assert [c] + ("\"" + w) == [c, '\"'] + w;
      CutPair(c, w, true);
      CutPlain(w, true);
    } else {
      CutStep(c, "\"" + w, true);
    }
  }

  /** Written text has no blank at either end. */
  predicate Trimmed(v: string)
  {
    v == "" || (!Blank(v[0]) && !Blank(v[|v|-1]))
  }

  lemma {:induction false} TrimTerm(t: string)
    requires t == "" || !Blank(t[|t|-1])
    ensures TrimEnd(t + LINE_TERM) == t && TrimEnd(t) == t
  {
    TrimTail(t);
  }

  /** A value that needs quotes is written so that it reads back. */
  lemma QuotedReads(v: string)
    requires v != ""
    ensures CleanValue("\"" + Escaped(v) + "\"" + LINE_TERM) == v
  {
    var e := Escaped(v);
    var s := "\"" + e + "\"" + LINE_TERM;
    EscapedStart(v);
    assert s[1..] == e + ("\"" + LINE_TERM);
    assert s[1] == e[0];
    CutEscaped(v, LINE_TERM);
    assert CutComment(s, false) == ("\"" + e + "\"") + LINE_TERM;
    var t := "\"" + e + "\"";
    TrimTerm(t);
    assert t[1..|t|-1] == e;
    DequoteEscaped(v);
  }

  /** One that does not is written as it is, and reads back without its outer blanks. */
  lemma UnquotedReads(v: string)
    requires !NeedsQuotes(v)
    ensures CleanValue(SkipLeading(v + LINE_TERM)) == v <==> Trimmed(v)
  {
    hide SkipLeading, TrimEnd, CutComment, Dequote;
    var s, w := SkipLeading(v + LINE_TERM), SkipLeading(v);
    var t := TrimEnd(w);
    SkipTerm(v);
    PlainEnd(v, w);
    CutPlain(s, false);
    TrimTail(w);
    TrimEmpty();
    assert TrimEnd(s) == t;
    TrimIsPrefix(w);
    assert t != "" ==> Plain(t[0]);
    OuterBlanks(v);
  }

  lemma TrimEmpty()
    ensures TrimEnd("") == ""
  {
  }

  /** What is skipped to is still without quotes and comments. */
  lemma PlainEnd(v: string, w: string)
    requires !NeedsQuotes(v) && w == SkipLeading(v)
    ensures AllPlain(w) && AllPlain(if w == "" then "" else w + LINE_TERM)
  {
    SkipIsSuffix(v);
    forall i | 0 <= i < |w| ensures Plain(w[i]) {
      assert w[i] == v[|v| - |w| + i] && v[|v| - |w| + i] in v;
    }
  }

  lemma OuterBlanks(v: string)
    ensures TrimEnd(SkipLeading(v)) == v <==> Trimmed(v)
  {
    SkipIsSuffix(v);
    TrimIsPrefix(SkipLeading(v));
    if TrimEnd(SkipLeading(v)) == v { assert v[0..] == v; }
  }

  lemma {:induction false} SkipTerm(v: string)
    ensures SkipLeading(v + LINE_TERM) == if SkipLeading(v) == "" then "" else SkipLeading(v) + LINE_TERM
  {
    if v == "" {
      TermSkips();
      assert v + LINE_TERM == LINE_TERM;
    } else {
      hide LINE_TERM, SkipLeading;
      SkipTerm(v[1..]);
      var u := v + LINE_TERM;
      assert u[0] == v[0] && u[1..] == v[1..] + LINE_TERM;
      SkipOne(v);
      SkipOne(u);
    }
  }

  lemma SkipOne(v: string)
    requires v != ""
    ensures SkipLeading(v) == if Blank(v[0]) then SkipLeading(v[1..]) else v
  {
  }

  lemma TermSkips()
    ensures SkipLeading(LINE_TERM) == ""
  {
    assert LINE_TERM[1..] == "\n";
    assert "\n"[1..] == "";
  }

  lemma TrimTail(w: string)
    ensures TrimEnd(w + LINE_TERM) == TrimEnd(w)
  {
    var u, t := w + LINE_TERM, w + "\r";
    assert u[|u|-1] == '\n' && u[..|u|-1] == t;
    assert TrimEnd(u) == TrimEnd(t);
    assert t[|t|-1] == '\r' && t[..|t|-1] == w;
  }

  /** A written value reads back exactly if it is put in quotes or has no blank at either end. */
  lemma ValueReads(v: string)
    ensures CleanValue(SkipLeading((if NeedsQuotes(v) then "\"" + Escaped(v) + "\"" else v) + LINE_TERM)) == v
            <==> NeedsQuotes(v) || Trimmed(v)
  {
    if NeedsQuotes(v) { QuotedReads(v); } else { UnquotedReads(v); }
  }
}
