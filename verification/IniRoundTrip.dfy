/** What ini_puts writes reads back, and every other setting reads as before, in files with
    lines of any length: what does not fit the line buffer is read as a line of its own. */
module IniRoundTrip {
  import opened CString
  import opened JsonValue
  import opened IniText
  import opened IniFile

  // ---------------------------------------------------------------- what can be written

  predicate KeyOk(key: string)
  {
    && key != "" && Trimmed(key) && '\n' !in key && '=' !in key && NulFree(key)
    && key[0] != ';' && key[0] != '#' && key[0] != '['
  }

  predicate SectionOk(section: string)
  {
    Trimmed(section) && '\n' !in section && |section| <= BUFFER_SIZE - 5
  }

  function Stored(v: string): string
  {
    if NeedsQuotes(v) then "\"" + Escaped(v) + "\"" else v
  }

  /** The setting fits one line and its value has no newline. */
  predicate Fits(key: string, v: string)
  {
    '\n' !in v && |key| + 1 + |Stored(v)| + |LINE_TERM| < BUFFER_SIZE
  }

  lemma KeyLineIs(key: string, v: string)
    requires Fits(key, v)
    ensures KeyLine(key, v) == key + "=" + Stored(v) + LINE_TERM
  {
    hide Quoted, Stored;
    QuotedIs(v, BUFFER_SIZE - (|key| + 1) - 2);
  }

  /** With room enough nothing is cut off. */
  lemma QuotedIs(v: string, size: nat)
    requires |Stored(v)| < size
    ensures Quoted(v, size) == Stored(v)
  {
    if NeedsQuotes(v) { EscapeAllRoom(v, size - 3); }
  }

  lemma {:induction false} NoNewline(v: string)
    requires '\n' !in v
    ensures '\n' !in Escaped(v)
  {
    if v != "" {
      assert v[0] in v;
      forall c | c in v[1..] ensures c in v { }
      NoNewline(v[1..]);
    }
  }

  lemma NewlineFree(a: string, b: string)
    requires '\n' !in a && '\n' !in b
    ensures '\n' !in a + b
  {
  }

  lemma SkipNothing(s: string)
    requires s == "" || !Blank(s[0])
    ensures SkipLeading(s) == s
  {
  }

  lemma TrimNothing(s: string)
    requires s == "" || !Blank(s[|s|-1])
    ensures TrimEnd(s) == s
  {
  }

  lemma {:induction false} IndexAfter(a: string, c: char, b: string)
    requires c !in a
    ensures IndexOf(a + [c] + b, c) == |a|
  {
    var s := a + [c] + b;
    if a != "" {
      assert a[0] in a;
      assert s[1..] == a[1..] + [c] + b;
      forall d | d in a[1..] ensures d in a { }
      IndexAfter(a[1..], c, b);
    }
  }

  /** The written key line, read in front of anything. */
  lemma KeyLineReads(key: string, v: string, rest: string)
    requires KeyOk(key) && Fits(key, v)
    ensures var l := KeyLine(key, v);
            && Line(l + rest) == l && AfterLine(l + rest) == rest
            && !OpensSection(l) && SectionName(l).None? && NamesKey(l, key) && IsKey(l, key)
            && (forall other :: Lower(other) != Lower(key) ==> !NamesKey(l, other))
            && LineValue(l) == CleanValue(SkipLeading(Stored(v) + LINE_TERM))
  {
    var l, tail := KeyLine(key, v), Stored(v) + LINE_TERM;
    KeyLineIs(key, v);
    assert l == key + ['='] + tail;
    KeyLineIsLine(key, v, rest);
    assert l[0] == key[0];
    SkipNothing(l);
    IndexAfter(key, '=', tail);
    assert l[..|key|] == key && l[|key|+1..] == tail;
    TrimNothing(key);
    hide SkipLeading, TrimEnd, CleanValue, IndexOf, KeyLine, LastIndexOf;
  }

  lemma KeyLineIsLine(key: string, v: string, rest: string)
    requires KeyOk(key) && Fits(key, v)
    ensures var l := KeyLine(key, v); Line(l + rest) == l && AfterLine(l + rest) == rest
  {
    var l := KeyLine(key, v);
    KeyLineIs(key, v);
    if NeedsQuotes(v) { NoNewline(v); }
    NewlineFree(key, "=");
    NewlineFree(key + "=", Stored(v));
    NewlineFree(key + "=" + Stored(v), "\r");
    assert l[..|l|-1] == key + "=" + Stored(v) + "\r";
    FirstLineIs(l, rest, BUFFER_SIZE - 1);
  }

  lemma LastAfter(a: string, c: char, b: string)
    requires c !in b
    ensures LastIndexOf(a + [c] + b, c) == |a|
  {
    var s := a + [c] + b;
    assert s[|a|] == c;
    assert s[|a|+1..] == b;
  }

  lemma SectionLineReads(section: string, rest: string)
    requires SectionOk(section) && section != ""
    ensures var l := SectionLine(section);
            && Line(l + rest) == l && AfterLine(l + rest) == rest
            && OpensSection(l) && SectionName(l) == Some(section)
  {
    var l := SectionLine(section);
    assert l == "[" + section + "]" + LINE_TERM;
    SectionLineIsLine(section, rest);
    SectionLineName(section);
  }

  lemma SectionLineIsLine(section: string, rest: string)
    requires SectionOk(section) && section != ""
    ensures var l := "[" + section + "]" + LINE_TERM;
            Line(l + rest) == l && AfterLine(l + rest) == rest
  {
    var l := "[" + section + "]" + LINE_TERM;
    NewlineFree("[", section);
    NewlineFree("[" + section, "]\r");
    assert l[..|l|-1] == "[" + section + "]\r";
    FirstLineIs(l, rest, BUFFER_SIZE - 1);
  }

  lemma SectionLineName(section: string)
    requires SectionOk(section) && section != ""
    ensures var l := "[" + section + "]" + LINE_TERM;
            OpensSection(l) && SectionName(l) == Some(section)
  {
    var l := "[" + section + "]" + LINE_TERM;
    SkipNothing(l);
    assert l == ("[" + section) + [']'] + LINE_TERM;
    LastAfter("[" + section, ']', LINE_TERM);
    SkipNothing(section);
    TrimNothing(section);
    hide SkipLeading, TrimEnd, LastIndexOf;
    assert l[0] == '[' && l[1..|section|+1] == section;
  }

  // ---------------------------------------------------------------- changing what follows a section

  /** Complete lines up to a place inside the section where the key has not been met. */
  ghost predicate Area(g: string, section: string, key: string)
  {
    && Closed(g)
    && if section == "" then !HasSection(g) && KeyLookup(g, key).None?
       else
         && SectionRest(g, section).Some?
         && !HasSection(SectionRest(g, section).value)
         && KeyLookup(SectionRest(g, section).value, key).None?
  }

  lemma LookupInArea(g: string, section: string, key: string, y: string)
    requires Area(g, section, key)
    ensures Lookup(g + y, section, key) == KeyLookup(y, key)
  {
    if section == "" {
      KeyConcat(g, y, key);
    } else {
      SectionConcat(g, y, section);
      RestIsClosed(g, section);
      KeyConcat(SectionRest(g, section).value, y, key);
    }
  }

  /** x and y read the same for everything but this key of the section they continue. */
  ghost predicate SameBut(key: string, x: string, y: string, section': string, key': string)
  {
    && (section' != "" ==> SectionRest(x, section') == SectionRest(y, section'))
    && (Lower(key') != Lower(key) ==> KeyLookup(x, key') == KeyLookup(y, key'))
  }

  lemma Swap(g: string, section: string, key: string, x: string, y: string, section': string, key': string)
    requires Area(g, section, key) && SameBut(key, x, y, section', key')
    requires Lower(section') != Lower(section) || Lower(key') != Lower(key)
    ensures Lookup(g + x, section', key') == Lookup(g + y, section', key')
  {
    if section' == "" {
      KeyConcat(g, x, key');
      KeyConcat(g, y, key');
      if section != "" { FoundHasSection(g, section); }
    } else {
      SectionConcat(g, x, section');
      SectionConcat(g, y, section');
      var r := SectionRest(g, section');
      if r.Some? {
        RestIsClosed(g, section');
        KeyConcat(r.value, x, key');
        KeyConcat(r.value, y, key');
        if Lower(section') != Lower(section) {
          if section == "" { NoSectionRest(g, section'); } else { OtherSection(g, section, section'); }
        }
      }
    }
  }

  // ---------------------------------------------------------------- where ini_puts stops

  lemma KeysAgree(l: string, key: string)
    requires KeyOk(key) && NamesKey(l, key)
    ensures IsKey(l, key) && !OpensSection(l)
  {
    var sp := SkipLeading(l);
    var name := TrimEnd(sp[..Separator(sp)]);
    assert |Lower(name)| == |name| && |Lower(key)| == |key|;
    TrimIsPrefix(sp[..Separator(sp)]);
    assert name[0] == sp[0];
    assert Lower(name)[0] == Lower(key)[0];
    assert ToLower(name[0]) == ToLower(key[0]);
  }

  lemma OtherKey(l: string, key: string, other: string)
    requires NamesKey(l, key) && Lower(other) != Lower(key)
    ensures !IsKey(l, other)
  {
  }

  /** The lines before the stop are complete, without a section line and without the key. */
  ghost predicate Passed(q: string, key: string)
  {
    Closed(q) && !HasSection(q) && KeyLookup(q, key).None?
  }

  lemma LineAlone(p: string, q: string)
    requires p != "" && Full(Line(p))
    ensures Line(Line(p) + q) == Line(p) && AfterLine(Line(p) + q) == q
  {
    FirstLineAgain(p, BUFFER_SIZE - 1);
    LineConcat(Line(p), q);
    assert AfterLine(Line(p)) == "";
  }

  lemma PassLine(p: string, q: string, key: string)
    requires p != "" && Full(Line(p)) && Passed(q, key)
    requires !OpensSection(Line(p)) && !NamesKey(Line(p), key)
    ensures Passed(Line(p) + q, key)
  {
    LineAlone(p, q);
  }

  ghost predicate Stops(p: string, key: string, s: Spot)
    requires Inside(s, |p|)
  {
    match s
    case AtEnd => !HasSection(p) && KeyLookup(p, key).None?
    case AtSection(pos) => Passed(p[..pos], key) && p[pos..] != "" && OpensSection(Line(p[pos..]))
    case AtKey(pos, len) =>
      Passed(p[..pos], key) && p[pos..] != "" && len == |Line(p[pos..])| && NamesKey(Line(p[pos..]), key)
      && !OpensSection(Line(p[pos..]))
  }

  lemma {:induction false} SpotStops(p: string, key: string)
    ensures Stops(p, key, FindSpot(p, key))
    decreases |p|
  {
    if p != "" {
      var l, t := Line(p), AfterLine(p);
      if OpensSection(l) || NamesKey(l, key) {
        assert p[..0] == "" && p[0..] == p;
      } else if t == "" {
        assert FindSpot(t, key) == AtEnd;
      } else {
        SpotStops(t, key);
        var s := FindSpot(t, key);
        if !Full(l) { LastLine(p); }
        if s.AtEnd? { NotFoundShifts(p, key); } else { SpotShifts(p, key, s); }
      }
    }
  }

  lemma NotFoundShifts(p: string, key: string)
    requires p != "" && !OpensSection(Line(p)) && !NamesKey(Line(p), key)
    requires !HasSection(AfterLine(p)) && KeyLookup(AfterLine(p), key).None?
    ensures !HasSection(p) && KeyLookup(p, key).None?
  {
  }

  lemma SpotShifts(p: string, key: string, s: Spot)
    requires p != "" && Full(Line(p)) && !OpensSection(Line(p)) && !NamesKey(Line(p), key)
    requires !s.AtEnd? && Inside(s, |AfterLine(p)|) && Stops(AfterLine(p), key, s)
    ensures Inside(Shift(|Line(p)|, s), |p|) && Stops(p, key, Shift(|Line(p)|, s))
  {
    var l, t := Line(p), AfterLine(p);
    hide Closed, KeyLookup, HasSection, NamesKey, OpensSection, Line;
    PassLine(p, t[..s.pos], key);
    assert p[..|l| + s.pos] == l + t[..s.pos];
    assert p[|l| + s.pos..] == t[s.pos..];
  }

  /** The key's place, or none. */
  function SpotOfKey(s: Spot): Spot
  {
    if s.AtKey? then s else AtEnd
  }

  lemma NotTheKey(l: string, key: string)
    requires !NamesKey(l, key)
    ensures !IsKey(l, key)
  {
  }

  lemma KeySpotStep(p: string, key: string)
    requires p != "" && !OpensSection(Line(p)) && !NamesKey(Line(p), key)
    requires KeySpot(AfterLine(p), key) == SpotOfKey(FindSpot(AfterLine(p), key))
    ensures KeySpot(p, key) == SpotOfKey(FindSpot(p, key))
  {
    hide *;
    NotTheKey(Line(p), key);
    KeySpotNext(p, key);
    FindSpotNext(p, key);
    ShiftedSpot(|Line(p)|, FindSpot(AfterLine(p), key));
  }

  lemma ShiftedSpot(n: nat, s: Spot)
    ensures SpotOfKey(Shift(n, s)) == Shift(n, SpotOfKey(s))
  {
  }

  /** getkeystring finds the key exactly where ini_puts would stop for it. */
  lemma {:induction false} SpotIsKeySpot(p: string, key: string)
    requires KeyOk(key)
    ensures KeySpot(p, key) == SpotOfKey(FindSpot(p, key))
    decreases |p|
  {
    if p == "" {
    } else if NamesKey(Line(p), key) {
      KeysAgree(Line(p), key);
      hide NamesKey, IsKey, OpensSection, Line, AfterLine;
    } else if OpensSection(Line(p)) {
      hide NamesKey, IsKey, OpensSection, Line, AfterLine;
    } else {
      hide NamesKey, IsKey, OpensSection, Line, KeySpot, FindSpot;
      SpotIsKeySpot(AfterLine(p), key);
      KeySpotStep(p, key);
    }
  }

  // ---------------------------------------------------------------- the parts of a rewrite

  /** Up to and with the section line, when anything follows it. */
  lemma {:induction false} UpToSection(f: string, section: string)
    requires SectionRest(f, section).Some? && SectionRest(f, section).value != ""
    ensures var b := Before(f, SectionRest(f, section).value);
            Closed(b) && SectionRest(b, section) == Some("")
    decreases |f|
  {
    var l, t, r := Line(f), AfterLine(f), SectionRest(f, section).value;
    if !Full(l) { LastLine(f); }
    if IsSection(l, section) {
      LineAlone(f, "");
      assert Before(f, r) == l && l + "" == l;
    } else {
      UpToSection(t, section);
      var b := Before(t, r);
      LineAlone(f, b);
      assert Before(f, r) == l + b;
    }
  }

  /** The file with its last line closed, if ini_puts thinks it necessary. */
  lemma Closing(f: string, p: string, section': string, key': string)
    requires EndsWith(f, p)
    ensures Closed(f + Gap(p))
    ensures Lookup(f + Gap(p), section', key') == Lookup(f, section', key')
  {
    hide Closed, Lookup;
    if Gap(p) == "" {
      assert f + "" == f;
      assert f == f[..|f|-|p|] + p;
      EndsWithConcat(f[..|f|-|p|], p, LINE_TERM);
      ClosedEnd(f);
    } else {
      ClosingTerm(f, section', key');
    }
  }

  lemma ClosingTerm(f: string, section': string, key': string)
    ensures Closed(f + LINE_TERM)
    ensures Lookup(f + LINE_TERM, section', key') == Lookup(f, section', key')
  {
    hide Closed, KeyLookup, SectionRest, LINE_TERM;
    CloseWithTerm(f, key');
    if section' != "" {
      CloseSection(f, section');
      var r := SectionRest(f, section');
      if r.Some? {
        CloseWithTerm(r.value, key');
        BlankReads("\n", key', "");
      }
    }
  }

  lemma AreaAtEnd(f: string, section: string, key: string, p: string)
    requires if section == "" then p == f else SectionRest(f, section) == Some(p)
    requires !HasSection(p) && KeyLookup(p, key).None?
    ensures Area(f + Gap(p), section, key)
  {
    if section == "" { assert f[0..] == p; } else { RestIsSuffix(f, section); }
    Closing(f, p, section, key);
    if Gap(p) == "" {
      assert f + "" == f;
    } else if section == "" {
      CloseWithTerm(f, key);
    } else {
      CloseSection(f, section);
      CloseWithTerm(p, key);
      BlankReads("\n", key, "");
    }
  }

  /** The text copied in front of the new line. */
  function Copied(f: string, p: string, pos: nat): string
    requires |p| <= |f| && pos <= |p|
  {
    Before(f, p) + p[..pos]
  }

  lemma AreaInside(f: string, section: string, key: string, p: string, pos: nat)
    requires if section == "" then p == f else SectionRest(f, section) == Some(p)
    requires pos < |p| && Passed(p[..pos], key)
    ensures Area(Copied(f, p, pos), section, key)
  {
    if section == "" {
      assert Copied(f, p, pos) == p[..pos];
    } else {
      UpToSection(f, section);
      ClosedConcat(Before(f, p), p[..pos]);
      SectionConcat(Before(f, p), p[..pos], section);
      assert "" + p[..pos] == p[..pos];
    }
  }

  // ---------------------------------------------------------------- what the new line changes

  /** The written value, as getkeystring reads it from the new line. */
  function ReadBack(v: string): string
  {
    CleanValue(SkipLeading(Stored(v) + LINE_TERM))
  }

  /** The setting reads as written in `after`; the other one as it did in `before`. */
  ghost predicate Written(before: string, after: string, section: string, key: string, v: string,
                          section': string, key': string)
  {
    && Lookup(after, section, key) == Some(ReadBack(v))
    && (Lower(section') != Lower(section) || Lower(key') != Lower(key) ==>
          Lookup(after, section', key') == Lookup(before, section', key'))
  }

  /** If the copied text continues in these two ways, the setting was written. */
  lemma Continued(g: string, section: string, key: string, v: string, x: string, y: string,
                  section': string, key': string)
    requires Area(g, section, key) && KeyLookup(y, key) == Some(ReadBack(v)) && SameBut(key, x, y, section', key')
    ensures Written(g + x, g + y, section, key, v, section', key')
  {
    hide Area, KeyLookup, SameBut, Lookup, Lower, ReadBack;
    LookupInArea(g, section, key, y);
    if Lower(section') != Lower(section) || Lower(key') != Lower(key) {
      Swap(g, section, key, x, y, section', key');
    }
  }

  /** The first line of y, of which it is known what it reads as, in front of the rest. */
  lemma KeyLineFirst(key: string, v: string, rest: string, section': string, key': string)
    requires KeyOk(key) && Fits(key, v)
    ensures var y := KeyLine(key, v) + rest;
            && KeyLookup(y, key) == Some(ReadBack(v))
            && SectionRest(y, section') == SectionRest(rest, section')
            && (Lower(key') != Lower(key) ==> KeyLookup(y, key') == KeyLookup(rest, key'))
  {
    var l := KeyLine(key, v);
    KeyLineReads(key, v, rest);
    assert !IsSection(l, section');
    if Lower(key') != Lower(key) { NotTheKey(l, key'); }
    hide KeyOk, Fits, KeyLine, Line, AfterLine, NamesKey, IsKey, IsSection, SectionName, OpensSection, LineValue, Lower;
  }

  lemma NewLine(g: string, section: string, key: string, v: string, x: string, section': string, key': string)
    requires KeyOk(key) && Fits(key, v) && Area(g, section, key)
    ensures Written(g + x, g + (KeyLine(key, v) + x), section, key, v, section', key')
  {
    hide KeyOk, Fits, Area, KeyLine, KeyLookup, SectionRest, Written, Lower, ReadBack;
    KeyLineFirst(key, v, x, section', key');
    Continued(g, section, key, v, x, KeyLine(key, v) + x, section', key');
  }

  /** The old line of the key, in front of the rest. */
  lemma OldLineFirst(x: string, key: string, section': string, key': string)
    requires x != "" && NamesKey(Line(x), key) && !OpensSection(Line(x))
    ensures SectionRest(x, section') == SectionRest(AfterLine(x), section')
    ensures Lower(key') != Lower(key) ==> KeyLookup(x, key') == KeyLookup(AfterLine(x), key')
  {
    var l := Line(x);
    assert !IsSection(l, section');
    if Lower(key') != Lower(key) { OtherKey(l, key, key'); }
    hide Line, AfterLine, NamesKey, IsKey, IsSection, SectionName, OpensSection, LineValue, Lower;
  }

  lemma ReplacedLine(g: string, section: string, key: string, v: string, x: string, section': string, key': string)
    requires KeyOk(key) && Fits(key, v) && Area(g, section, key)
    requires x != "" && NamesKey(Line(x), key) && !OpensSection(Line(x))
    ensures Written(g + x, g + (KeyLine(key, v) + AfterLine(x)), section, key, v, section', key')
  {
    hide KeyOk, Fits, Area, KeyLine, KeyLookup, SectionRest, Written, Lower, ReadBack, NamesKey, OpensSection, Line, AfterLine;
    KeyLineFirst(key, v, AfterLine(x), section', key');
    OldLineFirst(x, key, section', key');
    Continued(g, section, key, v, x, KeyLine(key, v) + AfterLine(x), section', key');
  }

  lemma NewSection(f: string, section: string, key: string, v: string, section': string, key': string)
    requires KeyOk(key) && Fits(key, v) && SectionOk(section)
    requires section != "" && SectionRest(f, section).None?
    ensures Written(f, Rewrite(f, section, key, v), section, key, v, section', key')
  {
    hide *;
    var g := f + Gap(f);
    EndsWithItself(f);
    Closing(f, f, section', key');
    NoSectionYet(f, section);
    AddedSection(g, section, key, v, section', key');
    RewriteAtEnd(f, section, key, v);
    WrittenFrom(f, g, g + (SectionLine(section) + KeyLine(key, v)), section, key, v, section', key');
  }

  lemma EndsWithItself(f: string)
    ensures EndsWith(f, f)
  {
    assert f[0..] == f;
  }

  lemma RewriteAtEnd(f: string, section: string, key: string, v: string)
    requires section != "" && SectionRest(f, section).None?
    ensures Rewrite(f, section, key, v) == f + Gap(f) + (SectionLine(section) + KeyLine(key, v))
  {
    hide SectionRest, Gap, SectionLine, KeyLine;
    var g, a, b := f + Gap(f), SectionLine(section), KeyLine(key, v);
    assert g + a + b == g + (a + b);
  }

  /** The file in front may be any that reads the same. */
  lemma WrittenFrom(f: string, g: string, after: string, section: string, key: string, v: string,
                    section': string, key': string)
    requires Written(g, after, section, key, v, section', key')
    requires Lookup(g, section', key') == Lookup(f, section', key')
    ensures Written(f, after, section, key, v, section', key')
  {
  }

  lemma NoSectionYet(f: string, section: string)
    requires SectionRest(f, section).None?
    ensures SectionRest(f + Gap(f), section).None?
  {
    CloseSection(f, section);
    assert f + "" == f;
  }

  lemma AddedSection(g: string, section: string, key: string, v: string, section': string, key': string)
    requires KeyOk(key) && Fits(key, v) && SectionOk(section) && Closed(g)
    requires section != "" && SectionRest(g, section).None?
    ensures Written(g, g + (SectionLine(section) + KeyLine(key, v)), section, key, v, section', key')
  {
    hide KeyOk, Fits, SectionOk, KeyLine, SectionLine, KeyLookup, SectionRest, Closed, ReadBack;
    var y := SectionLine(section) + KeyLine(key, v);
    SectionConcat(g, y, section);
    NewSectionReads(section, key, v, section', key');
    if section' == "" {
      KeyConcat(g, y, key');
    } else {
      SectionConcat(g, y, section');
      var r := SectionRest(g, section');
      if r.Some? {
        RestIsClosed(g, section');
        KeyConcat(r.value, y, key');
      }
      if Lower(section') == Lower(section) { SameSectionRest(g, section, section'); }
    }
  }

  /** The new section and its one key, on their own. */
  lemma NewSectionReads(section: string, key: string, v: string, section': string, key': string)
    requires KeyOk(key) && Fits(key, v) && SectionOk(section) && section != ""
    ensures var l := KeyLine(key, v);
            var y := SectionLine(section) + l;
            && SectionRest(y, section) == Some(l) && KeyLookup(l, key) == Some(ReadBack(v))
            && KeyLookup(y, key') == None
            && (Lower(section') != Lower(section) ==> SectionRest(y, section') == None)
            && (Lower(section') == Lower(section) ==> SectionRest(y, section') == Some(l))
            && (Lower(key') != Lower(key) ==> KeyLookup(l, key') == None)
  {
    var l := KeyLine(key, v);
    LoneKeyLine(key, v, section', key');
    SectionLineReads(section, l);
    hide KeyOk, Fits, SectionOk, KeyLine, SectionLine, Line, AfterLine, LineValue, OpensSection, SectionName, NamesKey, IsKey;
  }

  lemma LoneKeyLine(key: string, v: string, section': string, key': string)
    requires KeyOk(key) && Fits(key, v)
    ensures var l := KeyLine(key, v);
            && KeyLookup(l, key) == Some(ReadBack(v)) && SectionRest(l, section') == None
            && (Lower(key') != Lower(key) ==> KeyLookup(l, key') == None)
  {
    var l := KeyLine(key, v);
    KeyLineReads(key, v, "");
    assert l + "" == l;
    assert !IsSection(l, section');
    if Lower(key') != Lower(key) { NotTheKey(l, key'); }
    hide KeyOk, Fits, KeyLine, Line, AfterLine, LineValue, OpensSection, SectionName, NamesKey, IsKey, IsSection;
  }

  lemma RewriteWrites(f: string, section: string, key: string, v: string, section': string, key': string)
    requires KeyOk(key) && Fits(key, v) && SectionOk(section)
    ensures Written(f, Rewrite(f, section, key, v), section, key, v, section', key')
  {
    hide *;
    if section != "" && SectionRest(f, section).None? {
      NewSection(f, section, key, v, section', key');
    } else {
      var p := if section == "" then f else SectionRest(f, section).value;
      RewriteIsPut(f, section, key, v, p);
      SpotStops(p, key);
      RewriteInArea(f, section, key, v, p, section', key');
    }
  }

  lemma RewriteIsPut(f: string, section: string, key: string, v: string, p: string)
    requires if section == "" then p == f else SectionRest(f, section) == Some(p)
    ensures |p| <= |f| && f == Before(f, p) + p && EndsWith(f, p)
    ensures Rewrite(f, section, key, v) == Before(f, p) + PutInArea(p, key, v)
  {
    hide SectionRest, PutInArea;
    if section == "" {
      EndsWithItself(f);
      assert Before(f, p) == "" && "" + f == f && "" + PutInArea(p, key, v) == PutInArea(p, key, v);
    } else {
      RestIsSuffix(f, section);
    }
  }

  lemma RewriteInArea(f: string, section: string, key: string, v: string, p: string, section': string, key': string)
    requires KeyOk(key) && Fits(key, v)
    requires if section == "" then p == f else SectionRest(f, section) == Some(p)
    requires |p| <= |f| && f == Before(f, p) + p && EndsWith(f, p)
    requires Stops(p, key, FindSpot(p, key))
    ensures Written(f, Before(f, p) + PutInArea(p, key, v), section, key, v, section', key')
  {
    hide *;
    match FindSpot(p, key)
    case AtEnd => PutAtEnd(f, section, key, v, p, section', key');
    case AtSection(pos) => PutAtSection(f, section, key, v, p, section', key');
    case AtKey(pos, len) => PutAtKey(f, section, key, v, p, section', key');
  }

  lemma PutAtEnd(f: string, section: string, key: string, v: string, p: string, section': string, key': string)
    requires KeyOk(key) && Fits(key, v) && |p| <= |f| && f == Before(f, p) + p && EndsWith(f, p)
    requires if section == "" then p == f else SectionRest(f, section) == Some(p)
    requires FindSpot(p, key).AtEnd? && Stops(p, key, FindSpot(p, key))
    ensures Written(f, Before(f, p) + PutInArea(p, key, v), section, key, v, section', key')
  {
    hide *;
    var g, l := f + Gap(p), KeyLine(key, v);
    PutCases(p, key, v);
    StopCases(p, key);
    AreaAtEnd(f, section, key, p);
    Closing(f, p, section', key');
    NewLine(g, section, key, v, "", section', key');
    EndShape(Before(f, p), p, Gap(p), l);
    WrittenFrom(f, g, g + (l + ""), section, key, v, section', key');
  }

  lemma EndShape(b: string, p: string, gap: string, l: string)
    ensures var g := (b + p) + gap; g + "" == g && g + (l + "") == b + (p + gap + l)
  {
  }

  lemma PutAtSection(f: string, section: string, key: string, v: string, p: string, section': string, key': string)
    requires KeyOk(key) && Fits(key, v) && |p| <= |f| && f == Before(f, p) + p
    requires if section == "" then p == f else SectionRest(f, section) == Some(p)
    requires FindSpot(p, key).AtSection? && Stops(p, key, FindSpot(p, key))
    ensures Written(f, Before(f, p) + PutInArea(p, key, v), section, key, v, section', key')
  {
    hide *;
    var pos := FindSpot(p, key).pos;
    PutCases(p, key, v);
    StopCases(p, key);
    AreaInside(f, section, key, p, pos);
    NewLine(Copied(f, p, pos), section, key, v, p[pos..], section', key');
    CopiedIs(f, p, pos);
    InsideShape(Before(f, p), p, pos, KeyLine(key, v), p[pos..]);
  }

  lemma PutAtKey(f: string, section: string, key: string, v: string, p: string, section': string, key': string)
    requires KeyOk(key) && Fits(key, v) && |p| <= |f| && f == Before(f, p) + p
    requires if section == "" then p == f else SectionRest(f, section) == Some(p)
    requires FindSpot(p, key).AtKey? && Stops(p, key, FindSpot(p, key))
    ensures Written(f, Before(f, p) + PutInArea(p, key, v), section, key, v, section', key')
  {
    hide *;
    var pos := FindSpot(p, key).pos;
    PutCases(p, key, v);
    StopCases(p, key);
    AreaInside(f, section, key, p, pos);
    ReplacedLine(Copied(f, p, pos), section, key, v, p[pos..], section', key');
    CopiedIs(f, p, pos);
    InsideShape(Before(f, p), p, pos, KeyLine(key, v), AfterLine(p[pos..]));
  }

  lemma CopiedIs(f: string, p: string, pos: nat)
    requires |p| <= |f| && pos <= |p|
    ensures Copied(f, p, pos) == Before(f, p) + p[..pos]
  {
  }

  lemma InsideShape(b: string, p: string, pos: nat, l: string, tail: string)
    requires pos <= |p|
    ensures (b + p[..pos]) + p[pos..] == b + p
    ensures (b + p[..pos]) + (l + tail) == b + (p[..pos] + l + tail)
  {
  }

  lemma PutCases(p: string, key: string, v: string)
    ensures var s := FindSpot(p, key);
            && (s.AtEnd? ==> PutInArea(p, key, v) == p + Gap(p) + KeyLine(key, v))
            && (s.AtSection? ==> PutInArea(p, key, v) == p[..s.pos] + KeyLine(key, v) + p[s.pos..])
            && (s.AtKey? ==> PutInArea(p, key, v) == p[..s.pos] + KeyLine(key, v) + p[s.pos + s.len..])
  {
    hide FindSpot, KeyLine, Gap;
  }

  lemma StopCases(p: string, key: string)
    requires Stops(p, key, FindSpot(p, key))
    ensures var s := FindSpot(p, key);
            && (s.AtEnd? ==> !HasSection(p) && KeyLookup(p, key).None?)
            && (!s.AtEnd? ==> s.pos < |p| && Passed(p[..s.pos], key))
            && (s.AtKey? ==>
                  && NamesKey(Line(p[s.pos..]), key) && !OpensSection(Line(p[s.pos..]))
                  && AfterLine(p[s.pos..]) == p[s.pos + s.len..])
  {
    hide FindSpot, HasSection, KeyLookup, Passed, NamesKey, OpensSection, Line;
  }

  // ---------------------------------------------------------------- the write paths agree

  lemma {:induction false} DequoteShrinks(s: string)
    ensures |Dequote(s)| <= |s|
  {
    if s != "" {
      DequoteShrinks(s[1..]);
      if |s| > 1 { DequoteShrinks(s[2..]); }
    }
  }

  lemma CleanShrinks(s: string)
    ensures |CleanValue(s)| <= |s|
  {
    var t := TrimEnd(CutComment(s, false));
    DequoteShrinks(if |t| <= 1 then "" else t[1..|t|-1]);
  }

  lemma LineValueFits(l: string)
    requires |l| < BUFFER_SIZE
    ensures |LineValue(l)| < BUFFER_SIZE
  {
    hide CleanValue, SkipLeading, Separator;
    var sp := SkipLeading(l);
    var e := Separator(sp);
    if e < |sp| { CleanShrinks(SkipLeading(sp[e+1..])); }
  }

  lemma {:induction false} ValueFits(p: string, key: string)
    ensures var r := KeyLookup(p, key); r.Some? ==> |r.value| < BUFFER_SIZE
    decreases |p|
  {
    hide LineValue, IsKey, OpensSection;
    if p != "" {
      LineValueFits(Line(p));
      ValueFits(AfterLine(p), key);
    }
  }

  /** Writing in place gives the file that the rewrite would have given. */
  lemma PutsIsRewrite(f: string, section: string, key: string, v: string)
    requires KeyOk(key)
    ensures Puts(Some(f), section, key, v) ==
              if Lookup(f, section, key) == Some(v) then f else Rewrite(f, section, key, v)
  {
    hide KeyLine, KeySpot, FindSpot, KeyLookup, KeyOk, SectionRest, Rewrite, PutInArea, ReplaceLine, Take;
    ghost var area := if section == "" then Some(f) else SectionRest(f, section);
    if area.Some? {
      var p := area.value;
      ValueFits(p, key);
      SpotIsKeySpot(p, key);
      RewriteIsPut(f, section, key, v, p);
      if FindSpot(p, key).AtKey? { InPlace(f, p, key, v, FindSpot(p, key)); }
    }
  }

  lemma InPlace(f: string, p: string, key: string, v: string, s: Spot)
    requires |p| <= |f| && f == Before(f, p) + p
    requires s == FindSpot(p, key) && s.AtKey? && s.pos + s.len <= |p|
    ensures var head := |f| - |p| + s.pos;
            ReplaceLine(f, head, head + s.len, KeyLine(key, v)) == Before(f, p) + PutInArea(p, key, v)
  {
    hide *;
    PutCases(p, key, v);
    Spliced(Before(f, p), p, s.pos, s.len, KeyLine(key, v));
  }

  lemma Spliced(b: string, p: string, pos: nat, len: nat, l: string)
    requires pos + len <= |p|
    ensures var f, head := b + p, |b| + pos;
            ReplaceLine(f, head, head + len, l) == b + (p[..pos] + l + p[pos + len..])
  {
    var f, head := b + p, |b| + pos;
    assert f[..head] == b + p[..pos];
    assert f[head + len..] == p[pos + len..];
  }

  // ---------------------------------------------------------------- the rest of the file

  /** The file is left as it is; or one line, of this key, has been exchanged for the new one;
      or the new line has been put in between; or it has been put behind everything, with a
      line terminator and the section's line in front where they are needed. */
  ghost predicate OneLineChanged(f: string, g: string, section: string, key: string, line: string)
  {
    || g == f
    || (exists a, was, b :: f == a + was + b && g == a + line + b && (was == "" || NamesKey(was, key)))
    || g == f + line || g == f + "\r\n" + line
    || g == f + SectionLine(section) + line || g == f + "\r\n" + SectionLine(section) + line
  }

  lemma SplicedAt(f: string, section: string, key: string, line: string, a: string, was: string, b: string)
    requires f == a + was + b && (was == "" || NamesKey(was, key))
    ensures OneLineChanged(f, a + line + b, section, key, line)
  {
    hide NamesKey, SectionLine;
  }

  /** Everything else in the file stays byte for byte, comments and blank lines included. */
  lemma PutChangesOneLine(f: string, section: string, key: string, v: string)
    requires KeyOk(key)
    ensures OneLineChanged(f, Puts(Some(f), section, key, v), section, key, KeyLine(key, v))
  {
    hide *;
    PutsIsRewrite(f, section, key, v);
    if Lookup(f, section, key) == Some(v) {
      Unchanged(f, section, key, KeyLine(key, v));
    } else if section != "" && SectionRest(f, section).None? {
      RewriteAtEnd(f, section, key, v);
      PutBehind(f, section, key, KeyLine(key, v));
    } else {
      var p := if section == "" then f else SectionRest(f, section).value;
      RewriteIsPut(f, section, key, v, p);
      PutCases(p, key, v);
      PutInside(f, p, section, key, v);
    }
  }

  lemma Unchanged(f: string, section: string, key: string, line: string)
    ensures OneLineChanged(f, f, section, key, line)
  {
    hide NamesKey, SectionLine;
  }

  lemma PutBehind(f: string, section: string, key: string, line: string)
    ensures OneLineChanged(f, f + Gap(f) + (SectionLine(section) + line), section, key, line)
  {
    hide NamesKey, SectionLine, Batch;
    var s := SectionLine(section);
    assert f + "" == f;
    assert f + (s + line) == f + s + line;
    assert f + "\r\n" + (s + line) == f + "\r\n" + s + line;
  }

  lemma SplicedIn(b: string, p: string, lo: nat, hi: nat, section: string, key: string, line: string)
    requires lo <= hi <= |p| && (lo == hi || NamesKey(p[lo..hi], key))
    ensures OneLineChanged(b + p, b + (p[..lo] + line + p[hi..]), section, key, line)
  {
    hide NamesKey, OneLineChanged;
    var x, y := b + p[..lo], p[hi..];
    assert b + p == x + p[lo..hi] + y;
    SplicedAt(b + p, section, key, line, x, p[lo..hi], y);
    assert b + (p[..lo] + line + y) == x + line + y;
  }

  lemma PutInside(f: string, p: string, section: string, key: string, v: string)
    requires |p| <= |f| && f == Before(f, p) + p
    ensures OneLineChanged(f, Before(f, p) + PutInArea(p, key, v), section, key, KeyLine(key, v))
  {
    hide *;
    PutCases(p, key, v);
    SpotInside(p, key);
    var s, line, b := FindSpot(p, key), KeyLine(key, v), Before(f, p);
    match s
    case AtEnd => PutLast(b, p, section, key, line);
    case AtSection(pos) => SplicedIn(b, p, pos, pos, section, key, line);
    case AtKey(pos, len) =>
      KeyAtSpot(p, key);
      SplicedIn(b, p, pos, pos + len, section, key, line);
  }

  lemma SpotInside(p: string, key: string)
    ensures FindSpot(p, key).AtSection? ==> FindSpot(p, key).pos <= |p|
  {
    hide FindSpot;
  }

  lemma PutLast(b: string, p: string, section: string, key: string, line: string)
    ensures OneLineChanged(b + p, b + (p + Gap(p) + line), section, key, line)
  {
    hide NamesKey, SectionLine, Gap;
    GapIs(p);
    assert b + (p + "" + line) == (b + p) + line;
    assert b + (p + "\r\n" + line) == (b + p) + "\r\n" + line;
  }

  lemma GapIs(p: string)
    ensures Gap(p) == "" || Gap(p) == "\r\n"
  {
    hide Batch;
  }

  lemma {:induction false} KeyAtSpot(p: string, key: string)
    requires FindSpot(p, key).AtKey?
    ensures var s := FindSpot(p, key); s.pos + s.len <= |p| && NamesKey(p[s.pos..s.pos + s.len], key)
    decreases |p|
  {
    hide NamesKey, OpensSection, Line;
    var l, t := Line(p), AfterLine(p);
    if NamesKey(l, key) && !OpensSection(l) {
      assert p[0..|l|] == l;
    } else {
      KeyAtSpot(t, key);
      var s := FindSpot(t, key);
      assert p[|l| + s.pos..|l| + s.pos + s.len] == t[s.pos..s.pos + s.len];
    }
  }

  // ---------------------------------------------------------------- main results

  function LookupIn(file: Option<string>, section: string, key: string): Option<string>
  {
    if file.None? then None else Lookup(file.value, section, key)
  }

  lemma PutsWrites(file: Option<string>, section: string, key: string, v: string, section': string, key': string)
    requires KeyOk(key) && SectionOk(section) && Fits(key, v)
    requires LookupIn(file, section, key) != Some(v)
    ensures Written(if file.Some? then file.value else "", Puts(file, section, key, v), section, key, v, section', key')
  {
    if file.Some? {
      PutsIsRewrite(file.value, section, key, v);
      RewriteWrites(file.value, section, key, v, section', key');
    } else if section != "" {
      AddedSection("", section, key, v, section', key');
      assert "" + (SectionLine(section) + KeyLine(key, v)) == SectionLine(section) + KeyLine(key, v);
    } else {
      NewLine("", section, key, v, "", section', key');
      var l := KeyLine(key, v);
      assert "" + "" == "" && "" + (l + "") == l && SectionLine(section) + l == l;
    }
  }

  /** A setting that was written reads back, unless it neither was there already, nor is put
      in quotes, nor is free of outer blanks. */
  lemma PutThenLookup(file: Option<string>, section: string, key: string, v: string)
    requires KeyOk(key) && SectionOk(section) && Fits(key, v)
    ensures Lookup(Puts(file, section, key, v), section, key) == Some(v)
            <==> LookupIn(file, section, key) == Some(v) || NeedsQuotes(v) || Trimmed(v)
  {
    if LookupIn(file, section, key) == Some(v) {
      PutsIsRewrite(file.value, section, key, v);
    } else {
      PutsWrites(file, section, key, v, section, key);
      ValueReads(v);
    }
  }

  /** Every other setting keeps its value, or stays absent. */
  lemma PutKeepsOthers(file: Option<string>, section: string, key: string, v: string, section': string, key': string)
    requires KeyOk(key) && SectionOk(section) && Fits(key, v)
    requires Lower(section') != Lower(section) || Lower(key') != Lower(key)
    ensures Lookup(Puts(file, section, key, v), section', key') == LookupIn(file, section', key')
  {
    if LookupIn(file, section, key) == Some(v) {
      PutsIsRewrite(file.value, section, key, v);
    } else {
      PutsWrites(file, section, key, v, section', key');
    }
  }

  /** As the callers see it: ini_gets returns the written value, cut to the caller's buffer,
      whatever the default. */
  lemma PutThenGets(file: Option<string>, section: string, key: string, v: string, def: string, size: nat)
    requires KeyOk(key) && SectionOk(section) && Fits(key, v)
    requires size > 0 && (NeedsQuotes(v) || Trimmed(v))
    ensures Gets(Some(Puts(file, section, key, v)), section, key, def, size) == Take(v, size - 1)
  {
    PutThenLookup(file, section, key, v);
  }
}
