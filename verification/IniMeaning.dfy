/** What the lines of an INI file mean, told from their text: blanks around names, keys and
    values do not count, nor does case in names and keys; comments are passed over. */
module IniMeaning {
  import opened CString
  import opened JsonValue
  import opened IniText
  import opened IniFile

  // ---------------------------------------------------------------- blanks

  predicate Blanks(w: string)
  {
    forall i :: 0 <= i < |w| ==> '\0' < w[i] <= ' '
  }

  /** Text with no blank at either end. */
  predicate Tight(s: string)
  {
    s == "" || (!('\0' < s[0] <= ' ') && !('\0' < s[|s|-1] <= ' '))
  }

  lemma {:induction false} SkipBlanks(w: string, s: string)
    requires Blanks(w) && (s == "" || !Blank(s[0]))
    ensures SkipLeading(w + s) == s
  {
    if w == "" {
      assert w + s == s;
    } else {
      assert (w + s)[0] == w[0] && (w + s)[1..] == w[1..] + s;
      SkipBlanks(w[1..], s);
    }
  }

  lemma {:induction false} TrimBlanks(s: string, w: string)
    requires Blanks(w) && (s == "" || !Blank(s[|s|-1]))
    ensures TrimEnd(s + w) == s
    decreases |w|
  {
    var u := s + w;
    if w == "" {
      assert u == s;
    } else {
      assert u[|u|-1] == w[|w|-1] && u[..|u|-1] == s + w[..|w|-1];
      TrimBlanks(s, w[..|w|-1]);
    }
  }

  lemma FreeIn(a: string, b: string, c: char)
    ensures c !in a && c !in b <==> c !in a + b
  {
    if c in a { var i :| 0 <= i < |a| && a[i] == c; assert (a + b)[i] == c; }
    if c in b { var i :| 0 <= i < |b| && b[i] == c; assert (a + b)[|a| + i] == c; }
  }

  lemma {:induction false} IndexBehind(a: string, c: char, b: string)
    requires c !in a
    ensures IndexOf(a + [c] + b, c) == |a|
  {
    var s := a + [c] + b;
    if a != "" {
      assert a[0] in a;
      assert s[1..] == a[1..] + [c] + b;
      forall d | d in a[1..] ensures d in a { }
      IndexBehind(a[1..], c, b);
    }
  }

  // ---------------------------------------------------------------- key lines

  /** A setting as people write it: a key, '=' or ':', and the text of the value, with blanks
      anywhere around them. Where ':' separates, there is no '=' in the line. */
  predicate Setting(key: string, w: string, sep: char, tail: string)
  {
    && key != "" && Tight(key) && key[0] != ';' && key[0] != '#' && key[0] != '[' && Blanks(w)
    && ((sep == '=' && '=' !in key) || (sep == ':' && ':' !in key && '=' !in key && '=' !in tail))
  }

  lemma SeparatorAt(key: string, w: string, sep: char, tail: string)
    requires Setting(key, w, sep, tail)
    ensures Separator(key + w + [sep] + tail) == |key + w|
  {
    var a := key + w;
    FreeIn(key, w, '=');
    FreeIn(key, w, ':');
    IndexBehind(a, sep, tail);
    if sep == ':' {
      var s := a + [sep] + tail;
      FreeIn(a, [sep], '=');
      FreeIn(a + [sep], tail, '=');
      assert IndexOf(s, '=') < |s| ==> s[IndexOf(s, '=')] == '=' && s[IndexOf(s, '=')] in s;
    }
  }

  /** Such a line is a line of this key in any spelling, and of no other key; it opens no
      section; and its value is what cleaning makes of the text behind the separator. */
  lemma SettingMeans(u: string, key: string, w: string, sep: char, tail: string, other: string)
    requires Blanks(u) && Setting(key, w, sep, tail)
    ensures var l := u + (key + w + [sep] + tail);
            && !OpensSection(l) && SectionName(l).None?
            && (NamesKey(l, other) <==> Lower(other) == Lower(key))
            && (IsKey(l, other) <==> Lower(other) == Lower(key))
            && LineValue(l) == CleanValue(SkipLeading(tail))
  {
    hide SkipLeading, TrimEnd, CleanValue, Separator, LastIndexOf;
    var sp := key + w + [sep] + tail;
    assert sp[0] == key[0];
    SkipBlanks(u, sp);
    SeparatorAt(key, w, sep, tail);
    assert sp[..|key + w|] == key + w && sp[|key + w| + 1..] == tail;
    TrimBlanks(key, w);
    assert |Lower(other)| == |other| && |Lower(key)| == |key|;
  }

  /** Text that is no quote and begins no comment. */
  predicate PlainText(v: string)
  {
    '\"' !in v && ';' !in v && '#' !in v
  }

  lemma PlainAll(v: string)
    requires PlainText(v)
    ensures AllPlain(v)
  {
    forall i | 0 <= i < |v| ensures Plain(v[i]) { assert v[i] in v; }
  }

  lemma BlanksPlain(w: string)
    requires Blanks(w)
    ensures PlainText(w)
  {
  }

  /** A comment is cut off behind plain text. */
  lemma {:induction false} CutAt(v: string, rest: string)
    requires PlainText(v) && (rest == "" || rest[0] == ';' || rest[0] == '#')
    ensures CutComment(v + rest, false) == v
  {
    if v == "" {
      assert v + rest == rest;
    } else {
      var s := v + rest;
      assert v[0] in v;
      assert s[0] == v[0] && s[1..] == v[1..] + rest;
      forall c | c in v[1..] ensures c in v { }
      CutAt(v[1..], rest);
      assert |v| > 1 ==> v[1] in v;
      assert [v[0]] + v[1..] == v;
    }
  }

  /** A plain value reads as it stands, without the blanks around it and any comment behind. */
  lemma PlainValue(x: string, v: string, y: string, comment: string)
    requires Blanks(x) && Blanks(y) && Tight(v) && PlainText(v)
    requires comment == "" || comment[0] == ';' || comment[0] == '#'
    ensures CleanValue(SkipLeading(x + (v + y + comment))) == v
  {
    hide SkipLeading, TrimEnd, CutComment, Dequote;
    BlanksPlain(y);
    FreeIn(v, y, '\"');
    FreeIn(v, y, ';');
    FreeIn(v, y, '#');
    if v == "" {
      EmptyValue(x, y, comment);
    } else {
      var s := v + y + comment;
      assert s[0] == v[0];
      SkipBlanks(x, s);
      CutAt(v + y, comment);
      TrimBlanks(v, y);
      assert v[0] in v;
    }
  }

  lemma EmptyValue(x: string, y: string, comment: string)
    requires Blanks(x) && Blanks(y) && (comment == "" || comment[0] == ';' || comment[0] == '#')
    ensures CleanValue(SkipLeading(x + ("" + y + comment))) == ""
  {
    hide SkipLeading, CleanValue, Blanks;
    assert x + ("" + y + comment) == (x + y) + comment;
    BlanksConcat(x, y);
    SkipBlanks(x + y, comment);
    CommentOnly(comment);
  }

  lemma BlanksConcat(x: string, y: string)
    requires Blanks(x) && Blanks(y)
    ensures Blanks(x + y)
  {
  }

  lemma CommentOnly(comment: string)
    requires comment == "" || comment[0] == ';' || comment[0] == '#'
    ensures CleanValue(comment) == ""
  {
  }

  /** A value in quotes reads as what the quotes enclose, blanks, comment signs and escaped
      quotes included, whatever comment follows. */
  lemma QuotedValue(x: string, v: string, y: string)
    requires Blanks(x) && Blanks(y) && v != ""
    ensures CleanValue(SkipLeading(x + ("\"" + Escaped(v) + "\"" + y))) == v
  {
    hide SkipLeading, TrimEnd, CutComment, Dequote;
    var e := Escaped(v);
    var t := "\"" + e + "\"";
    BlanksPlain(y);
    PlainAll(y);
    SkipBlanks(x, t + y);
    EscapedStart(v);
    CutQuoted(v, y);
    TrimBlanks(t, y);
    assert t[1..|t|-1] == e;
    DequoteEscaped(v);
  }

  lemma CutQuoted(v: string, y: string)
    requires v != "" && AllPlain(y)
    ensures CutComment("\"" + Escaped(v) + "\"" + y, false) == "\"" + Escaped(v) + "\"" + y
  {
    var e := Escaped(v);
    var s := "\"" + e + "\"" + y;
    EscapedStart(v);
    assert s[1..] == e + ("\"" + y) && s[1] == e[0];
    CutEscaped(v, y);
    assert ['\"'] + s[1..] == s;
  }

  // ---------------------------------------------------------------- section lines and others

  /** A section line: blanks, '[', blanks, the name, blanks, and the last ']'. */
  lemma SectionMeans(u: string, w: string, name: string, x: string, rest: string, other: string)
    requires Blanks(u) && Blanks(w) && Blanks(x) && Tight(name) && ']' !in rest
    ensures var l := u + ("[" + w + name + x + "]" + rest);
            OpensSection(l) && (IsSection(l, other) <==> Lower(other) == Lower(name))
  {
    hide SkipLeading, TrimEnd, LastIndexOf;
    var inner := w + name + x;
    var sp := "[" + w + name + x + "]" + rest;
    assert sp == ("[" + inner) + [']'] + rest;
    SkipBlanks(u, sp);
    LastBehind("[" + inner, ']', rest);
    assert sp[1..|inner| + 1] == inner;
    InnerName(w, name, x);
  }

  lemma LastBehind(a: string, c: char, b: string)
    requires c !in b
    ensures LastIndexOf(a + [c] + b, c) == |a|
  {
    var s := a + [c] + b;
    assert s[|a|] == c && s[|a|+1..] == b;
  }

  lemma InnerName(w: string, name: string, x: string)
    requires Blanks(w) && Blanks(x) && Tight(name)
    ensures TrimEnd(SkipLeading(w + name + x)) == name
  {
    hide SkipLeading, TrimEnd;
    if name == "" {
      assert w + name + x == (w + x) + "";
      SkipBlanks(w + x, "");
      TrimBlanks("", "");
      assert "" + "" == "";
    } else {
      assert w + name + x == w + (name + x);
      SkipBlanks(w, name + x);
      TrimBlanks(name, x);
    }
  }

  /** A comment line is no setting for ini_gets, and neither is a line without separator. */
  lemma CommentMeans(u: string, rest: string, key: string)
    requires Blanks(u) && rest != "" && (rest[0] == ';' || rest[0] == '#')
    ensures !IsKey(u + rest, key) && !OpensSection(u + rest)
  {
    hide Separator, TrimEnd;
    SkipBlanks(u, rest);
    hide SkipLeading;
  }

  lemma NoSeparatorMeans(l: string, key: string)
    requires '=' !in l && ':' !in l
    ensures !IsKey(l, key) && !NamesKey(l, key)
  {
    SkipIsSuffix(l);
    var sp := SkipLeading(l);
    forall c | c in sp ensures c in l {
      var i :| 0 <= i < |sp| && sp[i] == c;
      assert l[|l| - |sp| + i] == c;
    }
    NotFound(sp, '=');
    NotFound(sp, ':');
    hide SkipLeading, TrimEnd, IndexOf;
  }

  lemma NotFound(s: string, c: char)
    requires c !in s
    ensures IndexOf(s, c) == |s|
  {
  }

  // ---------------------------------------------------------------- the lines of a file

  /** The lines as they are read: each with its newline, or as much as the buffer takes. */
  function Lines(f: string): (ls: seq<string>)
    decreases |f|
  {
    if f == "" then [] else [Line(f)] + Lines(AfterLine(f))
  }

  function Joined(ls: seq<string>): string
  {
    if ls == [] then "" else ls[0] + Joined(ls[1..])
  }

  /** Nothing is lost between the lines; each fits the buffer, and ends with its first newline,
      unless it fills the buffer or is the last. */
  lemma {:induction false} LinesAre(f: string)
    ensures Joined(Lines(f)) == f
    ensures forall i :: 0 <= i < |Lines(f)| ==>
              var l := Lines(f)[i];
              && 0 < |l| <= 511 && (forall k :: 0 <= k < |l| - 1 ==> l[k] != '\n')
              && (l[|l|-1] == '\n' || |l| == 511 || i == |Lines(f)| - 1)
    decreases |f|
  {
    hide Line;
    if f != "" {
      LinesAre(AfterLine(f));
      LineInside(f, BUFFER_SIZE - 1);
      LineIs(f);
      if !Full(Line(f)) { LastLine(f); }
      assert Lines(f)[1..] == Lines(AfterLine(f));
    }
  }

  lemma LineIs(f: string)
    requires f != ""
    ensures 0 < |Line(f)| <= 511 && Line(f) == FirstLine(f, BUFFER_SIZE - 1)
  {
  }

  /** Line j stands in the section: behind the first line of that section, or from the start
      for the nameless one, with no line that opens a section in between. */
  ghost predicate InSection(ls: seq<string>, section: string, j: nat)
    requires j < |ls|
  {
    if section == "" then Unopened(ls, 0, j)
    else exists h :: 0 <= h < j && FirstOf(ls, section, h) && Unopened(ls, h + 1, j)
  }

  ghost predicate FirstOf(ls: seq<string>, section: string, h: nat)
    requires h < |ls|
  {
    IsSection(ls[h], section) && forall i :: 0 <= i < h ==> !IsSection(ls[i], section)
  }

  ghost predicate Unopened(ls: seq<string>, from: nat, to: nat)
    requires to < |ls|
  {
    forall i :: from <= i <= to ==> !OpensSection(ls[i])
  }

  /** The first line of the section with this key. */
  ghost predicate FirstSetting(ls: seq<string>, section: string, key: string, j: nat)
    requires j < |ls|
  {
    && InSection(ls, section, j) && IsKey(ls[j], key)
    && forall i :: 0 <= i < j && InSection(ls, section, i) ==> !IsKey(ls[i], key)
  }

  /** The first of the lines that belongs to the key, no section being opened before. */
  ghost predicate FirstKey(ls: seq<string>, key: string, j: nat)
    requires j < |ls|
  {
    Unopened(ls, 0, j) && IsKey(ls[j], key) && forall i :: 0 <= i < j ==> !IsKey(ls[i], key)
  }

  lemma {:induction false} KeyLookupExact(f: string, key: string)
    ensures forall j :: 0 <= j < |Lines(f)| && FirstKey(Lines(f), key, j) ==> KeyLookup(f, key) == Some(LineValue(Lines(f)[j]))
    ensures KeyLookup(f, key).Some? ==> exists j :: 0 <= j < |Lines(f)| && FirstKey(Lines(f), key, j)
    decreases |f|
  {
    hide OpensSection, IsKey, LineValue, Line, AfterLine;
    if f != "" {
      var ls, l, rest := Lines(f), Line(f), AfterLine(f);
      var ms := Lines(rest);
      assert ls == [l] + ms;
      KeyLookupExact(rest, key);
      forall j | 0 <= j < |ls| && FirstKey(ls, key, j) ensures KeyLookup(f, key) == Some(LineValue(ls[j])) {
        assert !OpensSection(ls[0]);
        if j > 0 { FirstKeyTail(l, ms, key, j - 1); }
      }
      if KeyLookup(f, key).Some? {
        if IsKey(l, key) {
          assert FirstKey(ls, key, 0);
        } else {
          var j :| 0 <= j < |ms| && FirstKey(ms, key, j);
          FirstKeyTail(l, ms, key, j);
          assert FirstKey(ls, key, j + 1);
        }
      }
    }
  }

  lemma FirstKeyTail(l: string, ms: seq<string>, key: string, j: nat)
    requires j < |ms|
    ensures FirstKey([l] + ms, key, j + 1) <==> !OpensSection(l) && !IsKey(l, key) && FirstKey(ms, key, j)
  {
    hide OpensSection, IsKey;
    var ls := [l] + ms;
    assert forall i :: 0 < i < |ls| ==> ls[i] == ms[i-1];
    assert ls[0] == l;
    if FirstKey(ls, key, j + 1) {
      forall i | 0 <= i <= j ensures !OpensSection(ms[i]) && (i < j ==> !IsKey(ms[i], key)) { assert ls[i+1] == ms[i]; }
    }
  }

  lemma {:induction false} SectionExact(f: string, section: string)
    ensures SectionRest(f, section).None? ==> forall h :: 0 <= h < |Lines(f)| ==> !IsSection(Lines(f)[h], section)
    ensures SectionRest(f, section).Some? ==>
              exists h :: 0 <= h < |Lines(f)| && FirstOf(Lines(f), section, h)
                          && Lines(SectionRest(f, section).value) == Lines(f)[h+1..]
    decreases |f|
  {
    hide IsSection, Line, AfterLine;
    if f != "" {
      var ls, l, rest := Lines(f), Line(f), AfterLine(f);
      var ms := Lines(rest);
      assert ls == [l] + ms;
      if IsSection(l, section) {
        assert FirstOf(ls, section, 0) && ls[1..] == ms;
      } else {
        SectionExact(rest, section);
        if SectionRest(rest, section).Some? {
          var h :| 0 <= h < |ms| && FirstOf(ms, section, h) && Lines(SectionRest(rest, section).value) == ms[h+1..];
          FirstOfTail(l, ms, section, h);
          assert ls[h+2..] == ms[h+1..];
        }
      }
    }
  }

  lemma FirstOfTail(l: string, ms: seq<string>, section: string, h: nat)
    requires h < |ms| && FirstOf(ms, section, h) && !IsSection(l, section)
    ensures FirstOf([l] + ms, section, h + 1)
  {
    hide IsSection;
    var ls := [l] + ms;
    forall i | 0 <= i < h + 1 ensures !IsSection(ls[i], section) { if i > 0 { assert ls[i] == ms[i-1]; } }
  }

  lemma OneFirst(ls: seq<string>, section: string, g: nat, h: nat)
    requires g < |ls| && h < |ls| && FirstOf(ls, section, g) && FirstOf(ls, section, h)
    ensures g == h
  {
  }

  /** Behind the section's line, the first line with the key is the section's setting. */
  lemma BehindSection(ls: seq<string>, section: string, key: string, h: nat, j: nat)
    requires section != "" && h < |ls| && FirstOf(ls, section, h) && j < |ls[h+1..]|
    ensures FirstSetting(ls, section, key, h + 1 + j) <==> FirstKey(ls[h+1..], key, j)
  {
    hide IsSection, OpensSection, IsKey;
    var ms := ls[h+1..];
    forall i | 0 <= i < |ms| ensures InSection(ls, section, h + 1 + i) <==> Unopened(ms, 0, i) { BehindOpens(ls, section, h, i); }
    forall g | 0 <= g < |ls| && FirstOf(ls, section, g) ensures g == h { OneFirst(ls, section, g, h); }
    forall i | 0 <= i < |ms| ensures ms[i] == ls[h + 1 + i] { }
    if FirstKey(ms, key, j) {
      forall i | 0 <= i < h + 1 + j && InSection(ls, section, i) ensures !IsKey(ls[i], key) {
        assert i > h && ls[i] == ms[i - h - 1];
      }
    }
    if FirstSetting(ls, section, key, h + 1 + j) {
      forall i | 0 <= i < j ensures !IsKey(ms[i], key) { assert Unopened(ms, 0, i) && InSection(ls, section, h + 1 + i); }
    }
  }

  lemma BehindOpens(ls: seq<string>, section: string, h: nat, i: nat)
    requires section != "" && h < |ls| && FirstOf(ls, section, h) && i < |ls[h+1..]|
    ensures InSection(ls, section, h + 1 + i) <==> Unopened(ls[h+1..], 0, i)
  {
    hide IsSection, OpensSection;
    var ms := ls[h+1..];
    assert forall k :: 0 <= k < |ms| ==> ms[k] == ls[h + 1 + k];
    if Unopened(ms, 0, i) {
      forall k | h + 1 <= k <= h + 1 + i ensures !OpensSection(ls[k]) { assert ls[k] == ms[k - h - 1]; }
      assert Unopened(ls, h + 1, h + 1 + i);
    }
    if InSection(ls, section, h + 1 + i) {
      var g :| 0 <= g < h + 1 + i && FirstOf(ls, section, g) && Unopened(ls, g + 1, h + 1 + i);
      OneFirst(ls, section, g, h);
    }
  }

  /** What is found is the value of the first line with the key in the section, if there is one. */
  lemma LookupExact(f: string, section: string, key: string)
    ensures forall j :: 0 <= j < |Lines(f)| && FirstSetting(Lines(f), section, key, j) ==>
              Lookup(f, section, key) == Some(LineValue(Lines(f)[j]))
    ensures Lookup(f, section, key).Some? ==> exists j :: 0 <= j < |Lines(f)| && FirstSetting(Lines(f), section, key, j)
  {
    hide IsSection, OpensSection, IsKey, LineValue, Lines, KeyLookup, SectionRest;
    var ls := Lines(f);
    if section == "" {
      KeyLookupExact(f, key);
      forall j | 0 <= j < |ls| ensures FirstSetting(ls, section, key, j) <==> FirstKey(ls, key, j) { Nameless(ls, key, j); }
    } else {
      SectionExact(f, section);
      var rest := SectionRest(f, section);
      if rest.Some? {
        var h :| 0 <= h < |ls| && FirstOf(ls, section, h) && Lines(rest.value) == ls[h+1..];
        KeyLookupExact(rest.value, key);
        forall j | 0 <= j < |ls| && FirstSetting(ls, section, key, j)
          ensures j > h && FirstKey(ls[h+1..], key, j - h - 1) && ls[h+1..][j-h-1] == ls[j]
        {
          var g :| 0 <= g < j && FirstOf(ls, section, g);
          OneFirst(ls, section, g, h);
          BehindSection(ls, section, key, h, j - h - 1);
        }
        if KeyLookup(rest.value, key).Some? {
          var j :| 0 <= j < |ls[h+1..]| && FirstKey(ls[h+1..], key, j);
          BehindSection(ls, section, key, h, j);
        }
      }
    }
  }

  lemma Nameless(ls: seq<string>, key: string, j: nat)
    requires j < |ls|
    ensures FirstSetting(ls, "", key, j) <==> FirstKey(ls, key, j)
  {
    hide OpensSection, IsKey;
  }

  lemma {:induction false} FirstExists(ls: seq<string>, section: string, key: string, j: nat) returns (i: nat)
    requires j < |ls| && InSection(ls, section, j) && IsKey(ls[j], key)
    ensures i < |ls| && FirstSetting(ls, section, key, i)
  {
    hide InSection, IsKey;
    if k :| 0 <= k < j && InSection(ls, section, k) && IsKey(ls[k], key) { i := FirstExists(ls, section, key, k); } else { i := j; }
  }

  /** ini_gets returns the default exactly when no line of the section belongs to the key, and
      otherwise the value of the first that does; as much of it as the caller's buffer takes. */
  lemma GetsExact(f: string, section: string, key: string, def: string, size: nat)
    requires size > 0
    ensures var ls, r := Lines(f), Gets(Some(f), section, key, def, size);
            && ((forall j :: 0 <= j < |ls| && InSection(ls, section, j) ==> !IsKey(ls[j], key)) ==>
                  r == if |def| < size then def else def[..size-1])
            && (forall j :: 0 <= j < |ls| && FirstSetting(ls, section, key, j) ==>
                  var v := LineValue(ls[j]); r == if |v| < size then v else v[..size-1])
    ensures Lookup(f, section, key).None? <==>
              forall j :: 0 <= j < |Lines(f)| && InSection(Lines(f), section, j) ==> !IsKey(Lines(f)[j], key)
  {
    hide Lookup, Lines, InSection, IsKey, LineValue;
    LookupExact(f, section, key);
    var ls := Lines(f);
    if j :| 0 <= j < |ls| && InSection(ls, section, j) && IsKey(ls[j], key) {
      var i := FirstExists(ls, section, key, j);
    }
  }

  /** A file that does not exist has no settings. */
  lemma NoFile(section: string, key: string, def: string, size: nat)
    requires size > 0
    ensures Gets(None, section, key, def, size) == if |def| < size then def else def[..size-1]
  {
  }

  /** A setting someone wrote, with blanks around its key and value and a comment behind, reads
      as the value, under every spelling of its key that differs in case only. */
  lemma SettingReads(f: string, section: string, key: string, j: nat, u: string, k: string, w: string, sep: char,
                     x: string, v: string, y: string, comment: string, def: string, size: nat)
    requires size > 0 && j < |Lines(f)| && InSection(Lines(f), section, j) && Lower(key) == Lower(k)
    requires forall i :: 0 <= i < j && InSection(Lines(f), section, i) ==> !IsKey(Lines(f)[i], key)
    requires Lines(f)[j] == u + (k + w + [sep] + (x + (v + y + comment)))
    requires Blanks(u) && Setting(k, w, sep, x + (v + y + comment))
    requires Blanks(x) && Blanks(y) && Tight(v) && PlainText(v)
    requires comment == "" || comment[0] == ';' || comment[0] == '#'
    ensures Gets(Some(f), section, key, def, size) == if |v| < size then v else v[..size-1]
  {
    hide Gets, Lines, InSection, IsKey, LineValue, CleanValue, Setting;
    SettingMeans(u, k, w, sep, x + (v + y + comment), key);
    PlainValue(x, v, y, comment);
    GetsExact(f, section, key, def, size);
  }

  // ---------------------------------------------------------------- what is written

  /** A value too long for the line is cut: as much of it is written as fits, and no escape is
      torn apart. */
  lemma {:induction false} CutValue(v: string, room: nat) returns (k: nat)
    ensures k <= |v| && EscapeQuotes(v, room) == Escaped(v[..k]) && |Escaped(v[..k])| <= room
    ensures k < |v| ==> |Escaped(v[..k+1])| > room
  {
    if v == "" || room == 0 || (v[0] == '\"' && room == 1) {
      k := 0;
      assert v[..0] == "";
      if v != "" { assert v[..1] == [v[0]] && [v[0]][1..] == ""; }
    } else {
      var cost := if v[0] == '\"' then 2 else 1;
      var j := CutValue(v[1..], room - cost);
      k := j + 1;
      assert v[..k][1..] == v[1..][..j];
      if k < |v| { assert v[..k+1][1..] == v[1..][..j+1]; }
    }
  }

  lemma {:induction false} BatchHasLast(p: string, size: nat)
    requires p != ""
    ensures var ls := Lines(p); ls != [] && Batch(p, size) >= |ls[|ls|-1]|
    decreases |p|
  {
    hide Line;
    var rest := AfterLine(p);
    var next := if size + |Line(p)| >= BUFFER_SIZE then |Line(p)| else size + |Line(p)|;
    if rest != "" {
      BatchHasLast(rest, next);
      assert Lines(p)[1..] == Lines(rest);
    } else {
      assert Lines(p) == [Line(p)];
    }
  }

  /** No blank line is put in front of a line added at the end, if the text ends in a line
      terminator behind something; it is closed with one if it does not. */
  lemma GapMeans(p: string)
    ensures |p| < 2 || p[|p|-2..] != "\r\n" ==> Gap(p) == "\r\n"
    ensures |p| >= 2 && p[|p|-2..] == "\r\n" && |Lines(p)[|Lines(p)|-1]| > 2 ==> Gap(p) == ""
  {
    hide Line, Batch;
    if p != "" { BatchHasLast(p, 0); }
  }
}
