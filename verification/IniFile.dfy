/** What minIni finds in an INI file and what ini_puts makes of it, as functions of the
    file's text, and the main results: a written setting reads back, and every other
    setting reads as before. */
module IniFile {
  import opened CString
  import opened JsonValue
  import opened IniText

  // ---------------------------------------------------------------- reading

  /** fgets: up to and with the first newline, at most max characters. */
  function FirstLine(p: string, max: nat): (r: string)
    ensures |r| <= |p| && |r| <= max && r == p[..|r|]
    ensures p != "" && max > 0 ==> r != ""
  {
    if p == "" || max == 0 then ""
    else if p[0] == '\n' then "\n"
    else [p[0]] + FirstLine(p[1..], max - 1)
  }

  function Line(p: string): (r: string)
    ensures |r| <= |p| && r == p[..|r|] && (p != "" ==> r != "")
  {
    FirstLine(p, BUFFER_SIZE - 1)
  }

  function AfterLine(p: string): (r: string)
    ensures p != "" ==> |r| < |p|
    ensures p == Line(p) + r
  {
    p[|Line(p)|..]
  }

  /** The second half of getkeystring: the value of the key in front of the next section. */
  function KeyLookup(p: string, key: string): Option<string>
    decreases |p|
  {
    if p == "" || OpensSection(Line(p)) then None
    else if IsKey(Line(p), key) then Some(LineValue(Line(p)))
    else KeyLookup(AfterLine(p), key)
  }

  /** The first half of getkeystring: what follows the section line. */
  function SectionRest(p: string, section: string): (r: Option<string>)
    ensures r.Some? ==> |r.value| <= |p|
    decreases |p|
  {
    if p == "" then None
    else if IsSection(Line(p), section) then Some(AfterLine(p))
    else SectionRest(AfterLine(p), section)
  }

  function Lookup(f: string, section: string, key: string): Option<string>
  {
    if section == "" then KeyLookup(f, key)
    else
      var rest := SectionRest(f, section);
      if rest.None? then None else KeyLookup(rest.value, key)
  }

  /** ini_gets with a buffer of `size` characters; None is a file that does not exist. */
  function Gets(file: Option<string>, section: string, key: string, def: string, size: nat): string
    requires size > 0
  {
    var v := if file.Some? then Lookup(file.value, section, key) else None;
    Take(if v.Some? then v.value else def, size - 1)
  }

  // ---------------------------------------------------------------- writing

  datatype Spot =
    | AtEnd
    | AtSection(pos: nat)
    | AtKey(pos: nat, len: nat)

  function Shift(n: nat, s: Spot): Spot
  {
    match s
    case AtEnd => AtEnd
    case AtSection(pos) => AtSection(n + pos)
    case AtKey(pos, len) => AtKey(n + pos, len)
  }

  /** Where ini_puts stops copying the lines of the section. */
  function FindSpot(p: string, key: string): (s: Spot)
    ensures Inside(s, |p|)
    decreases |p|
  {
    if p == "" then AtEnd
    else if OpensSection(Line(p)) then AtSection(0)
    else if NamesKey(Line(p), key) then AtKey(0, |Line(p)|)
    else
      var s := FindSpot(AfterLine(p), key);
      ShiftInside(|Line(p)|, s, |AfterLine(p)|);
      Shift(|Line(p)|, s)
  }

  ghost predicate Inside(s: Spot, n: nat)
  {
    match s
    case AtEnd => true
    case AtSection(pos) => pos <= n
    case AtKey(pos, len) => pos + len <= n
  }

  lemma ShiftInside(m: nat, s: Spot, n: nat)
    requires Inside(s, n)
    ensures Inside(Shift(m, s), m + n)
  {
  }

  /** How much of the copied text is in the cache at the end: lines are added until they would
      fill the buffer, and then the cache starts again. */
  function Batch(p: string, size: nat): nat
    decreases |p|
  {
    if p == "" then size
    else Batch(AfterLine(p), if size + |Line(p)| >= BUFFER_SIZE then |Line(p)| else size + |Line(p)|)
  }

  predicate EndsWith(p: string, tail: string)
  {
    |p| >= |tail| && p[|p| - |tail|..] == tail
  }

  /** The line terminator that is put behind copied text that does not seem to end in one. */
  function Gap(p: string): (g: string)
    ensures g == "" || g == LINE_TERM
    ensures g == "" ==> EndsWith(p, LINE_TERM)
  {
    if Batch(p, 0) > |LINE_TERM| && EndsWith(p, LINE_TERM) then "" else LINE_TERM
  }

  function PutInArea(p: string, key: string, v: string): string
  {
    match FindSpot(p, key)
    case AtEnd => p + Gap(p) + KeyLine(key, v)
    case AtSection(pos) => p[..pos] + KeyLine(key, v) + p[pos..]
    case AtKey(pos, len) => p[..pos] + KeyLine(key, v) + p[pos + len..]
  }

  /** The copy that ini_puts writes when it cannot change the file in place. */
  function Rewrite(f: string, section: string, key: string, v: string): string
  {
    if section == "" then PutInArea(f, key, v)
    else
      var rest := SectionRest(f, section);
      if rest.None? then f + Gap(f) + SectionLine(section) + KeyLine(key, v)
      else Before(f, rest.value) + PutInArea(rest.value, key, v)
  }

  /** What stands in front of a suffix. */
  function Before(f: string, rest: string): string
    requires |rest| <= |f|
  {
    f[..|f| - |rest|]
  }

  /** Where getkeystring finds the key; AtEnd if it does not. */
  function KeySpot(p: string, key: string): (s: Spot)
    ensures Inside(s, |p|)
    decreases |p|
  {
    if p == "" || OpensSection(Line(p)) then AtEnd
    else if IsKey(Line(p), key) then AtKey(0, |Line(p)|)
    else
      var s := KeySpot(AfterLine(p), key);
      ShiftInside(|Line(p)|, s, |AfterLine(p)|);
      Shift(|Line(p)|, s)
  }

  lemma KeySpotNext(p: string, key: string)
    requires p != "" && !OpensSection(Line(p)) && !IsKey(Line(p), key)
    ensures KeySpot(p, key) == Shift(|Line(p)|, KeySpot(AfterLine(p), key))
    ensures KeyLookup(p, key) == KeyLookup(AfterLine(p), key)
  {
    hide NamesKey, IsKey, OpensSection, Line, AfterLine, Shift;
  }

  lemma FindSpotNext(p: string, key: string)
    requires p != "" && !OpensSection(Line(p)) && !NamesKey(Line(p), key)
    ensures FindSpot(p, key) == Shift(|Line(p)|, FindSpot(AfterLine(p), key))
  {
    hide NamesKey, IsKey, OpensSection, Line, AfterLine, Shift;
  }

  function ReplaceLine(f: string, lo: nat, hi: nat, l: string): string
    requires lo <= hi <= |f|
  {
    f[..lo] + l + f[hi..]
  }

  /** ini_puts with a key and a value: a new file, nothing to do, in place, or a rewrite. */
  function Puts(file: Option<string>, section: string, key: string, v: string): string
  {
    if file.None? then SectionLine(section) + KeyLine(key, v)
    else
      var f := file.value;
      var found := Lookup(f, section, key);
      if found.Some? && Take(found.value, BUFFER_SIZE - 1) == v then f
      else
        var area := if section == "" then Some(f) else SectionRest(f, section);
        var spot := if area.Some? then KeySpot(area.value, key) else AtEnd;
        if spot.AtKey? && spot.len == |KeyLine(key, v)| then
          var head := |f| - |area.value| + spot.pos;
          ReplaceLine(f, head, head + spot.len, KeyLine(key, v))
        else Rewrite(f, section, key, v)
  }

  // ---------------------------------------------------------------- complete lines

  predicate Terminated(l: string)
  {
    l != "" && l[|l|-1] == '\n'
  }

  /** What is read does not change when more text follows: a line with its newline, or as much
      as the buffer takes. */
  predicate Full(l: string)
  {
    Terminated(l) || |l| == BUFFER_SIZE - 1
  }

  /** Full lines only. */
  predicate Closed(p: string)
    decreases |p|
  {
    p == "" || (Full(Line(p)) && Closed(AfterLine(p)))
  }

  predicate HasSection(p: string)
    decreases |p|
  {
    p != "" && (OpensSection(Line(p)) || HasSection(AfterLine(p)))
  }

  lemma {:induction false} FirstLineConcat(p: string, q: string, max: nat)
    requires Terminated(FirstLine(p, max)) || |FirstLine(p, max)| == max
    ensures FirstLine(p + q, max) == FirstLine(p, max)
  {
    if p != "" && max > 0 {
      var r := p + q;
      assert r[0] == p[0] && r[1..] == p[1..] + q;
      if p[0] != '\n' {
        var t := FirstLine(p[1..], max - 1);
        assert FirstLine(p, max) == [p[0]] + t;
        FirstLineConcat(p[1..], q, max - 1);
      }
    }
  }

  lemma LineConcat(p: string, q: string)
    requires p != "" && Full(Line(p))
    ensures Line(p + q) == Line(p) && AfterLine(p + q) == AfterLine(p) + q
  {
    FirstLineConcat(p, q, BUFFER_SIZE - 1);
  }

  lemma {:induction false} FirstLineAgain(p: string, max: nat)
    ensures FirstLine(FirstLine(p, max), max) == FirstLine(p, max)
  {
    if p != "" && max > 0 && p[0] != '\n' {
      FirstLineAgain(p[1..], max - 1);
      var t := FirstLine(p[1..], max - 1);
      assert ([p[0]] + t)[1..] == t;
    }
  }

  /** A line that is not full is the last of the file. */
  lemma {:induction false} OpenIsLast(p: string, max: nat)
    requires !Terminated(FirstLine(p, max)) && |FirstLine(p, max)| < max
    ensures FirstLine(p, max) == p
  {
    if p != "" {
      var t := FirstLine(p[1..], max - 1);
      assert FirstLine(p, max) == [p[0]] + t;
      if t != "" { assert ([p[0]] + t)[|t|] == t[|t|-1]; }
      OpenIsLast(p[1..], max - 1);
    }
  }

  lemma LastLine(p: string)
    requires p != "" && !Full(Line(p))
    ensures Line(p) == p && AfterLine(p) == "" && |p| < BUFFER_SIZE - 1 && !Terminated(p)
  {
    OpenIsLast(p, BUFFER_SIZE - 1);
  }

  /** A single complete line in front of anything is read as that line. */
  lemma {:induction false} FirstLineIs(l: string, q: string, max: nat)
    requires l != "" && |l| <= max && l[|l|-1] == '\n' && '\n' !in l[..|l|-1]
    ensures FirstLine(l + q, max) == l
  {
    var r := l + q;
    assert r[0] == l[0] && r[1..] == l[1..] + q;
    if |l| > 1 {
      assert l[0] == l[..|l|-1][0];
      forall i | 0 <= i < |l| - 2 ensures l[1..][i] != '\n' { assert l[1..][i] == l[..|l|-1][i+1]; }
      FirstLineIs(l[1..], q, max - 1);
    }
  }

  lemma {:induction false} ClosedConcat(p: string, q: string)
    requires Closed(p) && Closed(q)
    ensures Closed(p + q)
    decreases |p|
  {
    if p == "" {
      assert p + q == q;
    } else {
      LineConcat(p, q);
      ClosedConcat(AfterLine(p), q);
    }
  }

  /** Looking for a key goes through complete lines and on into what follows, unless it is
      found or a section starts first. */
  lemma {:induction false} KeyConcat(p: string, q: string, key: string)
    requires Closed(p)
    ensures KeyLookup(p + q, key) ==
              if KeyLookup(p, key).Some? || HasSection(p) then KeyLookup(p, key) else KeyLookup(q, key)
    decreases |p|
  {
    if p == "" {
      assert p + q == q;
    } else {
      LineConcat(p, q);
      KeyConcat(AfterLine(p), q, key);
    }
  }

  lemma {:induction false} SectionConcat(p: string, q: string, section: string)
    requires Closed(p)
    ensures SectionRest(p + q, section) ==
              var r := SectionRest(p, section);
              if r.Some? then Some(r.value + q) else SectionRest(q, section)
    decreases |p|
  {
    if p == "" {
      assert p + q == q;
    } else {
      LineConcat(p, q);
      SectionConcat(AfterLine(p), q, section);
    }
  }

  lemma {:induction false} RestIsClosed(p: string, section: string)
    requires Closed(p) && SectionRest(p, section).Some?
    ensures Closed(SectionRest(p, section).value)
    decreases |p|
  {
    if !IsSection(Line(p), section) { RestIsClosed(AfterLine(p), section); }
  }

  /** If no section follows the one section's line, the other section came before it. */
  lemma {:induction false} OtherSection(p: string, section: string, other: string)
    requires Lower(section) != Lower(other)
    requires SectionRest(p, section).Some? && !HasSection(SectionRest(p, section).value)
    requires SectionRest(p, other).Some?
    ensures HasSection(SectionRest(p, other).value)
    decreases |p|
  {
    if IsSection(Line(p), section) {
      NoSectionRest(AfterLine(p), other);
    } else if IsSection(Line(p), other) {
      FoundHasSection(AfterLine(p), section);
    } else {
      OtherSection(AfterLine(p), section, other);
    }
  }

  lemma {:induction false} NoSectionRest(p: string, section: string)
    requires !HasSection(p)
    ensures SectionRest(p, section).None?
    decreases |p|
  {
    if p != "" { NoSectionRest(AfterLine(p), section); }
  }

  lemma {:induction false} FoundHasSection(p: string, section: string)
    requires SectionRest(p, section).Some?
    ensures HasSection(p)
    decreases |p|
  {
    if !IsSection(Line(p), section) { FoundHasSection(AfterLine(p), section); }
  }

  lemma {:induction false} SameSectionRest(p: string, a: string, b: string)
    requires Lower(a) == Lower(b)
    ensures SectionRest(p, a) == SectionRest(p, b)
    decreases |p|
  {
    if p != "" { SameSectionRest(AfterLine(p), a, b); }
  }

  lemma {:induction false} SameKeyLookup(p: string, a: string, b: string)
    requires Lower(a) == Lower(b)
    ensures KeyLookup(p, a) == KeyLookup(p, b)
    decreases |p|
  {
    assert a == "" <==> b == "" by { assert |Lower(a)| == |a| && |Lower(b)| == |b|; }
    if p != "" { SameKeyLookup(AfterLine(p), a, b); }
  }

  // ---------------------------------------------------------------- a blank more at the end

  predicate LineBlank(b: char)
  {
    b == '\r' || b == '\n'
  }

  lemma {:induction false} IndexOfBlank(s: string, c: char, b: char)
    requires c != b
    ensures IndexOf(s + [b], c) == if IndexOf(s, c) < |s| then IndexOf(s, c) else |s| + 1
  {
    if s == "" {
      assert s + [b] == [b] && [b][1..] == "";
    } else {
      assert (s + [b])[1..] == s[1..] + [b];
      IndexOfBlank(s[1..], c, b);
    }
  }

  lemma SeparatorBlank(s: string, b: char)
    requires LineBlank(b)
    ensures Separator(s + [b]) == if Separator(s) < |s| then Separator(s) else |s| + 1
  {
    IndexOfBlank(s, '=', b);
    IndexOfBlank(s, ':', b);
  }

  lemma LastIndexBlank(s: string, c: char, b: char)
    requires c != b
    ensures LastIndexOf(s + [b], c) == if LastIndexOf(s, c) < |s| then LastIndexOf(s, c) else |s| + 1
  {
    var u := s + [b];
    assert u[|u|-1] == b && u[..|u|-1] == s;
  }

  lemma TrimBlank(w: string, b: char)
    requires LineBlank(b)
    ensures TrimEnd(w + [b]) == TrimEnd(w)
  {
    var u := w + [b];
    assert u[|u|-1] == b && u[..|u|-1] == w;
  }

  lemma {:induction false} SkipBlank(v: string, b: char)
    requires LineBlank(b)
    ensures SkipLeading(v + [b]) == if SkipLeading(v) == "" then "" else SkipLeading(v) + [b]
  {
    var u := v + [b];
    SkipOne(u);
    if v == "" {
      assert u == [b] && u[1..] == "";
    } else {
      SkipBlank(v[1..], b);
      assert u[0] == v[0] && u[1..] == v[1..] + [b];
      SkipOne(v);
    }
  }

  ghost predicate UpToBlank(x: string, y: string, b: char)
  {
    x == y || x == y + [b]
  }

  lemma UpToBlankPrefix(a: string, x: string, y: string, b: char)
    requires UpToBlank(x, y, b)
    ensures UpToBlank(a + x, a + y, b)
  {
    assert a + (y + [b]) == (a + y) + [b];
  }

  lemma {:induction false} CutBlank(s: string, inString: bool, b: char)
    requires LineBlank(b)
    ensures UpToBlank(CutComment(s + [b], inString), CutComment(s, inString), b)
    decreases |s|
  {
    if s == "" {
      assert s + [b] == [b] && "" + [b] == [b];
      CutPlain([b], inString);
    } else if |s| == 1 {
      CutBlankOne(s[0], inString, b);
      assert s == [s[0]];
    } else {
      CutBlankMore(s, inString, b);
    }
  }

  lemma {:induction false} CutBlankMore(s: string, inString: bool, b: char)
    requires |s| > 1 && LineBlank(b)
    ensures UpToBlank(CutComment(s + [b], inString), CutComment(s, inString), b)
    decreases |s|, 0
  {
    CutBlank(s[1..], inString, b);
    CutBlank(s[1..], !inString, b);
    CutBlank(s[2..], inString, b);
    var u := s + [b];
    assert u[0] == s[0] && u[1] == s[1] && u[..2] == s[..2];
    assert u[1..] == s[1..] + [b] && u[2..] == s[2..] + [b];
    hide UpToBlank;
    UpToBlankPrefix([s[0]], CutComment(u[1..], inString), CutComment(s[1..], inString), b);
    UpToBlankPrefix([s[0]], CutComment(u[1..], !inString), CutComment(s[1..], !inString), b);
    UpToBlankPrefix(s[..2], CutComment(u[2..], inString), CutComment(s[2..], inString), b);
    SameUpToBlank("", b);
  }

  lemma SameUpToBlank(x: string, b: char)
    ensures UpToBlank(x, x, b)
  {
  }

  lemma CutBlankOne(c: char, inString: bool, b: char)
    requires LineBlank(b)
    ensures UpToBlank(CutComment([c] + [b], inString), CutComment([c], inString), b)
  {
    var u := [c] + [b];
    assert u[1..] == [b] && u[1] == b && [c][1..] == "";
    CutPlain([b], true);
    CutPlain([b], false);
  }

  lemma CleanBlank(s: string, b: char)
    requires LineBlank(b)
    ensures CleanValue(s + [b]) == CleanValue(s)
  {
    CutBlank(s, false, b);
    TrimBlank(CutComment(s, false), b);
    hide CutComment, TrimEnd;
  }

  lemma NameBlank(l: string, b: char)
    requires LineBlank(b)
    ensures OpensSection(l + [b]) == OpensSection(l)
    ensures SectionName(l + [b]) == SectionName(l)
  {
    hide SkipLeading, LastIndexOf, TrimEnd;
    var sp := SkipLeading(l);
    SkipBlank(l, b);
    if sp != "" {
      NameInBlank(sp, b);
    }
  }

  lemma NameInBlank(sp: string, b: char)
    requires sp != "" && LineBlank(b)
    ensures var e, u := LastIndexOf(sp, ']'), sp + [b];
            && u[0] == sp[0]
            && (LastIndexOf(u, ']') < |u| <==> e < |sp|)
            && (e < |sp| ==> LastIndexOf(u, ']') == e && (sp[0] == '[' ==> 1 <= e && u[1..e] == sp[1..e]))
  {
    hide LastIndexOf;
    LastIndexBlank(sp, ']', b);
    var e := LastIndexOf(sp, ']');
    if e < |sp| && sp[0] == '[' { assert (sp + [b])[1..e] == sp[1..e]; }
  }

  lemma KeyBlank(l: string, key: string, b: char)
    requires LineBlank(b)
    ensures NamesKey(l + [b], key) == NamesKey(l, key)
    ensures IsKey(l + [b], key) == IsKey(l, key)
  {
    hide SkipLeading, TrimEnd, Separator;
    var sp := SkipLeading(l);
    SkipBlank(l, b);
    if sp != "" {
      SeparatorBlank(sp, b);
      var e := Separator(sp);
      if e < |sp| { assert (sp + [b])[..e] == sp[..e]; }
    } else {
      NoSeparator();
    }
  }

  lemma NoSeparator()
    ensures Separator("") == 0
  {
  }

  lemma ValueBlank(l: string, b: char)
    requires LineBlank(b)
    ensures LineValue(l + [b]) == LineValue(l)
  {
    hide SkipLeading, CleanValue, Separator;
    var sp := SkipLeading(l);
    SkipBlank(l, b);
    if sp != "" {
      SeparatorBlank(sp, b);
      var e := Separator(sp);
      if e < |sp| {
        assert (sp + [b])[e+1..] == sp[e+1..] + [b];
        SkipBlank(sp[e+1..], b);
        CleanBlank(SkipLeading(sp[e+1..]), b);
      }
    } else {
      NoSeparator();
    }
  }

  /** A line means the same with a carriage return or a whole line terminator behind it. */
  lemma LineTermMeans(l: string, w: string, key: string)
    requires w == "\r" || w == LINE_TERM
    ensures OpensSection(l + w) == OpensSection(l) && SectionName(l + w) == SectionName(l)
    ensures NamesKey(l + w, key) == NamesKey(l, key) && IsKey(l + w, key) == IsKey(l, key)
    ensures LineValue(l + w) == LineValue(l)
  {
    hide OpensSection, SectionName, NamesKey, IsKey, LineValue;
    var u := l + ['\r'];
    NameBlank(l, '\r');
    KeyBlank(l, key, '\r');
    ValueBlank(l, '\r');
    if w == "\r" {
      assert l + w == u;
    } else {
      assert l + w == u + ['\n'];
      NameBlank(u, '\n');
      KeyBlank(u, key, '\n');
      ValueBlank(u, '\n');
    }
  }

  lemma EndsWithConcat(a: string, b: string, c: string)
    requires EndsWith(b, c)
    ensures EndsWith(a + b, c)
  {
    assert (a + b)[|a + b| - |c|..] == b[|b| - |c|..];
  }

  lemma {:induction false} RestIsSuffix(p: string, section: string)
    requires SectionRest(p, section).Some?
    ensures EndsWith(p, SectionRest(p, section).value)
    ensures p == Before(p, SectionRest(p, section).value) + SectionRest(p, section).value
    decreases |p|
  {
    var r, t := SectionRest(p, section).value, AfterLine(p);
    if !IsSection(Line(p), section) {
      RestIsSuffix(t, section);
    } else {
      assert t[0..] == t;
    }
    hide SectionRest, AfterLine, Line, IsSection;
    EndsWithConcat(Line(p), t, r);
  }

  // ---------------------------------------------------------------- closing the file

  lemma {:induction false} ClosedEnd(p: string)
    requires EndsWith(p, LINE_TERM)
    ensures Closed(p)
    decreases |p|
  {
    if Full(Line(p)) {
      var t := AfterLine(p);
      if t != "" {
        ClosedTail(p);
      }
    } else {
      LastLine(p);
    }
  }

  /** What is left after a line ends in a newline still, if anything is left. */
  lemma {:induction false} ClosedTail(p: string)
    requires p != "" && Terminated(p)
    ensures Closed(p)
    decreases |p|
  {
    var t := AfterLine(p);
    if Full(Line(p)) {
      if t != "" {
        assert t[|t|-1] == p[|p|-1];
        ClosedTail(t);
      }
    } else {
      LastLine(p);
    }
  }

  predicate OneLine(r: string)
  {
    forall i :: 0 <= i < |r| - 1 ==> r[i] != '\n'
  }

  lemma {:induction false} LineInside(p: string, max: nat)
    ensures OneLine(FirstLine(p, max))
  {
    if p != "" && max > 0 && p[0] != '\n' {
      LineInside(p[1..], max - 1);
      var t := FirstLine(p[1..], max - 1);
      var r := [p[0]] + t;
      forall i | 0 <= i < |r| - 1 ensures r[i] != '\n' {
        if i > 0 { assert r[i] == t[i-1]; }
      }
    }
  }

  /** The last line of a file, when its newline is missing, becomes a full line, with the
      newline itself left over if there is no more room for it in the buffer. */
  lemma LastLineTerm(p: string)
    requires p != "" && !Full(Line(p))
    ensures var w := if |p| + 2 < BUFFER_SIZE then LINE_TERM else "\r";
            Line(p + LINE_TERM) == p + w && AfterLine(p + LINE_TERM) == (if w == LINE_TERM then "" else "\n") && Full(p + w)
  {
    LastLine(p);
    LineInside(p, BUFFER_SIZE - 1);
    forall i | 0 <= i < |p| ensures p[i] != '\n' {
      assert OneLine(p);
    }
    var u := p + LINE_TERM;
    if |p| + 2 < BUFFER_SIZE {
      assert u[..|u|-1] == p + "\r";
      FirstLineIs(u, "", BUFFER_SIZE - 1);
      assert u + "" == u;
    } else {
      assert u == (p + "\r") + "\n";
      NoNewlines(p + "\r", "\n", BUFFER_SIZE - 1);
    }
  }

  lemma {:induction false} NoNewlines(l: string, q: string, max: nat)
    requires |l| == max && '\n' !in l
    ensures FirstLine(l + q, max) == l
  {
    if l != "" {
      assert l[0] in l;
      forall c | c in l[1..] ensures c in l { }
      assert (l + q)[1..] == l[1..] + q;
      NoNewlines(l[1..], q, max - 1);
    }
  }

  lemma BlankLine(w: string)
    requires w == "\n" || w == LINE_TERM
    ensures Line(w) == w && AfterLine(w) == "" && Full(w)
    ensures !OpensSection(w) && SectionName(w).None?
    ensures forall key :: !NamesKey(w, key) && !IsKey(w, key)
  {
    TermSkips();
    assert "\n"[1..] == "" && SkipLeading("") == "";
    NoSeparator();
    FirstLineIs(w, "", BUFFER_SIZE - 1);
    assert w + "" == w;
  }

  lemma BlankReads(w: string, key: string, section: string)
    requires w == "\n" || w == LINE_TERM
    ensures Closed(w) && KeyLookup(w, key).None? && !HasSection(w) && SectionRest(w, section).None?
    ensures KeyLookup("", key).None?
  {
    BlankLine(w);
    hide Line, AfterLine, OpensSection, SectionName, IsKey;
    assert w != "";
  }

  /** Closing a file changes nothing that is read from it. */
  lemma {:induction false} CloseWithTerm(p: string, key: string)
    ensures Closed(p + LINE_TERM)
    ensures KeyLookup(p + LINE_TERM, key) == KeyLookup(p, key)
    ensures HasSection(p + LINE_TERM) == HasSection(p)
    decreases |p|
  {
    hide OpensSection, IsKey, LineValue, Line, AfterLine, Full;
    if p == "" {
      BlankReads(LINE_TERM, key, "");
      assert p + LINE_TERM == LINE_TERM;
    } else if Full(Line(p)) {
      LineConcat(p, LINE_TERM);
      CloseWithTerm(AfterLine(p), key);
    } else {
      LastLine(p);
      LastLineTerm(p);
      LineTermMeans(p, if |p| + 2 < BUFFER_SIZE then LINE_TERM else "\r", key);
      BlankReads("\n", key, "");
    }
  }

  lemma {:induction false} CloseSection(p: string, section: string)
    ensures SectionRest(p, section).None? ==> SectionRest(p + LINE_TERM, section).None?
    ensures SectionRest(p, section).Some? ==>
              var r := SectionRest(p, section).value;
              SectionRest(p + LINE_TERM, section) == Some(r + LINE_TERM)
              || (r == "" && SectionRest(p + LINE_TERM, section) == Some(""))
              || (r == "" && SectionRest(p + LINE_TERM, section) == Some("\n"))
    decreases |p|
  {
    hide OpensSection, SectionName, Line, AfterLine, Full;
    if p == "" {
      BlankReads(LINE_TERM, "", section);
      assert p + LINE_TERM == LINE_TERM;
    } else if Full(Line(p)) {
      LineConcat(p, LINE_TERM);
      CloseSection(AfterLine(p), section);
    } else {
      LastLine(p);
      LastLineTerm(p);
      LineTermMeans(p, if |p| + 2 < BUFFER_SIZE then LINE_TERM else "\r", "");
      BlankReads("\n", "", section);
    }
  }
}
