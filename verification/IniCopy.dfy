/** ini_gets and ini_puts as minIni runs them, over file cursors and one line buffer. What
    is copied goes through a cache that only remembers a range of the input, which is read
    again when the cache is flushed; the copy is exact whatever the lengths of the lines. */
module IniCopy {
  import opened CString
  import opened JsonValue
  import opened IniText
  import opened IniBuffer
  import opened IniFile
  import opened IniStream

  // ---------------------------------------------------------------- reading a setting

  /** The first half of getkeystring: the cursor is behind the section line, or at the end. */
  method SeekSection(fp: Stream, section: string, b: array<char>) returns (found: bool)
    requires fp.Valid() && fp.pos == 0 && NulFree(section) && b.Length == BUFFER_SIZE
    modifies fp`pos, b
    ensures fp.Valid()
    ensures SectionRest(fp.text, section) == if found then Some(fp.text[fp.pos..]) else None
  {
    hide IsSection;
    assert fp.text[0..] == fp.text;
    while true
      invariant fp.Valid()
      invariant SectionRest(fp.text, section) == SectionRest(fp.text[fp.pos..], section)
      decreases |fp.text| - fp.pos
    {
      ghost var p := fp.text[fp.pos..];
      var ok := fp.Read(b, 0, BUFFER_SIZE);
      if !ok { return false; }
      assert fp.text[fp.pos..] == AfterLine(p);
      found := MatchSection(b, section, Line(p));
      if found { return true; }
    }
  }

  /** The key's line goes from lo to hi when the text that was searched begins at `start`. */
  predicate SpotIs(r: Spot, start: nat, lo: nat, hi: nat)
  {
    r.AtKey? && start + r.pos == lo && lo + r.len == hi
  }

  /** The second half: the key's line is in the buffer and `mark` in front of it. */
  method SeekKey(fp: Stream, key: string, b: array<char>) returns (found: bool, mark: nat)
    requires fp.Valid() && NulFree(key) && b.Length == BUFFER_SIZE
    modifies fp`pos, b
    ensures fp.Valid() && old(fp.pos) <= fp.pos
    ensures var p := fp.text[old(fp.pos)..];
            if found then
              && old(fp.pos) <= mark <= fp.pos
              && SpotIs(KeySpot(p, key), old(fp.pos), mark, fp.pos)
              && Holds(b[..], 0, fp.text[mark..fp.pos])
              && IsKey(fp.text[mark..fp.pos], key)
              && KeyLookup(p, key) == Some(LineValue(fp.text[mark..fp.pos]))
            else KeySpot(p, key) == AtEnd && KeyLookup(p, key) == None
  {
    hide IsKey, OpensSection, LineValue, NamesKey, KeySpot, KeyLookup, FirstLine;
    ghost var start, whole := fp.pos, fp.text[fp.pos..];
    ShiftTwice(0, 0, KeySpot(whole, key));
    while true
      invariant fp.Valid() && start <= fp.pos
      invariant KeyLookup(whole, key) == KeyLookup(fp.text[fp.pos..], key)
      invariant KeySpot(whole, key) == Shift(fp.pos - start, KeySpot(fp.text[fp.pos..], key))
      decreases |fp.text| - fp.pos
    {
      mark := fp.pos;
      ghost var p, n := fp.text[fp.pos..], fp.pos - start;
      var ok := fp.Read(b, 0, BUFFER_SIZE);
      if !ok {
        NoKeyHere(p, key);
        return false, mark;
      }
      ghost var l := Line(p);
      assert fp.text[mark..fp.pos] == l && fp.text[fp.pos..] == AfterLine(p);
      var c := FirstChar(b, l);
      if c == '[' {
        NoKeyHere(p, key);
        return false, mark;
      }
      var matches := MatchKey(b, key, l);
      KeyLine0(l, key, c);
      if c != ';' && c != '#' && matches {
        KeyHere(p, key);
        return true, mark;
      }
      KeySpotNext(p, key);
      ShiftTwice(n, |l|, KeySpot(AfterLine(p), key));
    }
  }

  lemma ShiftTwice(m: nat, n: nat, s: Spot)
    ensures Shift(m, Shift(n, s)) == Shift(m + n, s) && Shift(0, s) == s
  {
  }

  lemma KeyHere(p: string, key: string)
    requires p != "" && !OpensSection(Line(p)) && IsKey(Line(p), key)
    ensures KeySpot(p, key) == AtKey(0, |Line(p)|) && KeyLookup(p, key) == Some(LineValue(Line(p)))
  {
  }

  lemma NoKeyHere(p: string, key: string)
    requires p == "" || OpensSection(Line(p))
    ensures KeySpot(p, key) == AtEnd && KeyLookup(p, key) == None
  {
  }

  lemma KeyLine0(l: string, key: string, c: char)
    requires c == CharAt(SkipLeading(l), 0)
    ensures IsKey(l, key) <==> c != ';' && c != '#' && NamesKey(l, key)
  {
  }

  /** The part of the file in which a key of the section is looked for. */
  function SectionArea(f: string, section: string): (r: Option<string>)
    ensures r.Some? ==> |r.value| <= |f|
  {
    if section == "" then Some(f) else SectionRest(f, section)
  }

  /** The text between the separator and the comment, without its quotes. */
  method ExtractValue(local: array<char>, ghost l: string, buffer: array<char>, size: nat)
    requires local != buffer && Holds(local[..], 0, l) && Separator(SkipLeading(l)) < |SkipLeading(l)|
    requires 0 < size <= buffer.Length
    modifies local, buffer
    ensures Holds(buffer[..], 0, Take(LineValue(l), size - 1))
  {
    hide SkipLeading, Separator, CleanValue, Dequote, Take;
    var sp, ep := FindSeparator(local, l);
    ghost var s := SkipLeading(l);
    ghost var e := Separator(s);
    HoldsTail(local[..], sp, s, e + 1);
    sp := SkipLeadingAt(local, ep.value + 1, s[e+1..]);
    CopyClean(local, sp, SkipLeading(s[e+1..]), buffer, size);
  }

  method CopyClean(local: array<char>, at: nat, ghost v: string, buffer: array<char>, size: nat)
    requires local != buffer && Holds(local[..], at, v) && 0 < size <= buffer.Length
    modifies local, buffer
    ensures Holds(buffer[..], 0, Take(CleanValue(v), size - 1))
  {
    hide CleanValue, Dequote, Take;
    var sp, quotes, t := CleanString(local, at, v);
    var end := EndOf(local, sp, t);
    assert local[sp..end] == t;
    Strncpy(buffer, 0, local[sp..end], size, quotes);
  }

  /** getkeystring, for a key and no index. */
  method GetKeyString(fp: Stream, section: string, key: string, buffer: array<char>, size: nat)
    returns (found: bool, mark: nat)
    requires fp.Valid() && fp.pos == 0 && NulFree(section) && NulFree(key)
    requires 0 < size <= buffer.Length
    modifies fp`pos, buffer
    ensures fp.Valid()
    ensures found <==> Lookup(fp.text, section, key).Some?
    ensures found ==> Holds(buffer[..], 0, Take(Lookup(fp.text, section, key).value, size - 1))
    ensures var area := SectionArea(fp.text, section);
            if found
            then area.Some? && SpotIs(KeySpot(area.value, key), |fp.text| - |area.value|, mark, fp.pos)
            else area.Some? ==> KeySpot(area.value, key).AtEnd?
  {
    hide KeySpot, KeyLookup, SectionRest, LineValue, Take, Lookup, Holds, SectionArea, IsKey, SpotIs;
    var local := new char[BUFFER_SIZE];
    var inFile := true;
    WholeFile(fp.text);
    if |section| > 0 {
      inFile := SeekSection(fp, section, local);
    }
    ghost var p := fp.text[fp.pos..];
    SearchedArea(fp.text, section, key, if inFile then Some(p) else None);
    found, mark := false, 0;
    if inFile {
      found, mark := SeekKey(fp, key, local);
      if found {
        ghost var l := fp.text[mark..fp.pos];
        HasSeparator(l, key);
        ExtractValue(local, l, buffer, size);
      }
    }
  }

  lemma WholeFile(f: string)
    ensures f[0..] == f
  {
  }

  lemma SearchedArea(f: string, section: string, key: string, area: Option<string>)
    requires if section == "" then area == Some(f) else SectionRest(f, section) == area
    ensures SectionArea(f, section) == area
    ensures Lookup(f, section, key) == if area.Some? then KeyLookup(area.value, key) else None
  {
  }

  lemma HasSeparator(l: string, key: string)
    requires IsKey(l, key)
    ensures Separator(SkipLeading(l)) < |SkipLeading(l)|
  {
  }

  /** ini_gets: the text left in the caller's buffer, and its length. */
  method IniGets(file: Option<string>, section: string, key: string, def: string, buffer: array<char>, size: nat)
    returns (length: nat)
    requires file.Some? ==> NulFree(file.value)
    requires NulFree(section) && NulFree(key) && NulFree(def)
    requires 0 < size <= buffer.Length
    modifies buffer
    ensures Holds(buffer[..], 0, Gets(file, section, key, def, size))
    ensures length == |Gets(file, section, key, def, size)|
  {
    var ok := false;
    if file.Some? {
      var fp := new Stream(file.value);
      var mark;
      ok, mark := GetKeyString(fp, section, key, buffer, size);
    }
    if !ok {
      Strncpy(buffer, 0, def, size, QuoteNone);
    }
    length := EndOf(buffer, 0, Gets(file, section, key, def, size));
  }

  // ---------------------------------------------------------------- the cache

  /** The first n characters are what a number of reads gives. */
  predicate Aligned(p: string, n: nat)
    decreases |p|
  {
    n == 0 || (p != "" && |Line(p)| <= n && Aligned(AfterLine(p), n - |Line(p)|))
  }

  lemma {:induction false} AlignedInside(p: string, n: nat)
    requires Aligned(p, n)
    ensures n <= |p|
    decreases |p|
  {
    if n != 0 { AlignedInside(AfterLine(p), n - |Line(p)|); }
  }

  lemma {:induction false} AlignedMore(p: string, n: nat)
    requires Aligned(p, n) && n < |p|
    ensures Aligned(p, n + |Line(p[n..])|)
    decreases |p|
  {
    hide FirstLine;
    if n == 0 {
      assert p[0..] == p;
      AlignedNone(AfterLine(p));
    } else {
      var t, m := AfterLine(p), n - |Line(p)|;
      AlignedInside(t, m);
      assert p[n..] == t[m..];
      AlignedMore(t, m);
    }
  }

  lemma AlignedNone(p: string)
    ensures Aligned(p, 0)
  {
  }

  /** A line that fits less room is read the same with less room. */
  lemma {:induction false} LessRoom(p: string, max: nat, room: nat)
    requires |FirstLine(p, max)| <= room <= max
    ensures FirstLine(p, room) == FirstLine(p, max)
  {
    if p != "" && room > 0 && p[0] != '\n' {
      LessRoom(p[1..], max - 1, room - 1);
    }
  }

  /** cache_accum: there is no room for a string that would fill the buffer. */
  method CacheAccum(b: array<char>, size: nat, max: nat, ghost s: string) returns (ok: bool, total: nat)
    requires Holds(b[..], 0, s)
    ensures ok <==> size + |s| < max
    ensures total == if ok then size + |s| else size
  {
    var len := EndOf(b, 0, s);
    ok := size + len < max;
    total := if ok then size + len else size;
  }

  /** The loop of cache_flush: read again what the cache stands for. */
  method CacheFill(b: array<char>, size: nat, rfp: Stream) returns (pos: nat)
    requires b.Length == BUFFER_SIZE && size < BUFFER_SIZE && rfp.Valid()
    requires Aligned(rfp.text[rfp.pos..], size) && b[0] == '\0'
    modifies b, rfp`pos
    ensures pos == size && rfp.Valid() && rfp.pos == old(rfp.pos) + size
    ensures Holds(b[..], 0, rfp.text[old(rfp.pos)..rfp.pos])
  {
    hide Aligned, FirstLine, Holds;
    ghost var start := rfp.pos;
    pos := 0;
    var before: int := -1;
    EmptyAt(b[..], rfp.text, rfp.pos);
    while pos < size && pos != before
      invariant pos <= size && rfp.Valid() && rfp.pos == start + pos && (before == pos ==> pos == size)
      invariant Holds(b[..], 0, rfp.text[start..rfp.pos])
      invariant Aligned(rfp.text[rfp.pos..], size - pos)
      decreases size - pos
    {
      before := pos;
      pos := CacheRead(b, pos, size, rfp, start);
    }
  }

  /** One read of the cache's range; the buffer may end up full, hence the counting loop. */
  method CacheRead(b: array<char>, pos: nat, size: nat, rfp: Stream, ghost start: nat) returns (next: nat)
    requires b.Length == BUFFER_SIZE && pos < size < BUFFER_SIZE && rfp.Valid() && rfp.pos == start + pos
    requires Aligned(rfp.text[rfp.pos..], size - pos) && Holds(b[..], 0, rfp.text[start..rfp.pos])
    modifies b, rfp`pos
    ensures pos < next <= size && rfp.Valid() && rfp.pos == start + next
    ensures Aligned(rfp.text[rfp.pos..], size - next) && Holds(b[..], 0, rfp.text[start..rfp.pos])
  {
    hide FirstLine, NulFree;
    ghost var t, rest := rfp.text[start..rfp.pos], rfp.text[rfp.pos..];
    ghost var l := Line(rest);
    LessRoom(rest, BUFFER_SIZE - 1, BUFFER_SIZE - pos - 1);
    assert b[..pos] == t;
    var ok := rfp.Read(b, pos, BUFFER_SIZE - pos);
    assert b[..pos] == t;
    HoldsConcat(b[..], t, l);
    assert rfp.text[start..rfp.pos] == t + l && rfp.text[rfp.pos..] == AfterLine(rest);
    next := ToEnd(b, pos, size, l);
  }

  lemma EmptyAt(b: seq<char>, f: string, pos: nat)
    requires |b| > 0 && b[0] == '\0' && pos <= |f|
    ensures Holds(b, 0, f[pos..pos])
  {
  }

  lemma HoldsConcat(b: seq<char>, t: string, l: string)
    requires |t| <= |b| && b[..|t|] == t && NulFree(t) && Holds(b, |t|, l)
    ensures Holds(b, 0, t + l)
  {
    assert b[..|t| + |l|] == b[..|t|] + b[|t|..|t| + |l|];
  }

  method ToEnd(b: array<char>, at: nat, size: nat, ghost s: string) returns (pos: nat)
    requires Holds(b[..], at, s) && at + |s| <= size < b.Length
    ensures pos == at + |s|
  {
    pos := at;
    HoldsAt(b[..], at, s, 0);
    while pos < size && b[pos] != '\0'
      invariant at <= pos <= at + |s| && b[pos] == CharAt(s, pos - at)
    {
      HoldsAt(b[..], at, s, pos - at + 1);
      pos := pos + 1;
    }
  }

  /** The output is `base` and the input from `from` up to the mark, and the cache stands for
      the next `size` characters of the input: written and pending text together are exactly
      what was taken over so far. */
  ghost predicate Pending(rfp: Stream, wfp: Stream, mark: nat, size: nat, base: string, from: nat)
    reads rfp, wfp
  {
    && rfp != wfp && rfp.Valid() && wfp.Valid() && wfp.pos == |wfp.text|
    && from <= mark <= mark + size <= |rfp.text| && size < BUFFER_SIZE
    && Aligned(rfp.text[mark..], size)
    && wfp.text == base + rfp.text[from..mark]
  }

  /** The same, with the cursor where the cache ends. */
  ghost predicate Copying(rfp: Stream, wfp: Stream, mark: nat, size: nat, base: string, from: nat)
    reads rfp, wfp
  {
    Pending(rfp, wfp, mark, size, base, from) && rfp.pos == mark + size
  }

  /** What a pending copy amounts to. */
  lemma PendingIsExact(rfp: Stream, wfp: Stream, mark: nat, size: nat, base: string, from: nat)
    requires Pending(rfp, wfp, mark, size, base, from)
    ensures wfp.text + rfp.text[mark..mark + size] == base + rfp.text[from..mark + size]
  {
    assert rfp.text[from..mark] + rfp.text[mark..mark + size] == rfp.text[from..mark + size];
  }

  method Append(b: array<char>, wfp: Stream, ghost s: string)
    requires Holds(b[..], 0, s) && wfp.Valid() && wfp.pos == |wfp.text|
    modifies wfp
    ensures wfp.Valid() && wfp.pos == |wfp.text| && wfp.text == old(wfp.text) + s
  {
    wfp.Write(b, s);
  }

  /** cache_flush: the cached range is read again and written, and the mark moves behind it. */
  method CacheFlush(b: array<char>, size: nat, rfp: Stream, wfp: Stream, mark: nat, ghost base: string, ghost from: nat)
    returns (newSize: nat, newMark: nat, flag: bool)
    requires b.Length == BUFFER_SIZE && Pending(rfp, wfp, mark, size, base, from)
    modifies b, rfp`pos, wfp
    ensures newSize == 0 && newMark == mark + size && Copying(rfp, wfp, newMark, newSize, base, from)
    ensures flag <==> size > |LINE_TERM| && EndsWith(rfp.text[mark..newMark], LINE_TERM)
  {
    hide FirstLine, Aligned;
    rfp.pos := mark;
    b[0] := '\0';
    var pos := CacheFill(b, size, rfp);
    ghost var s := rfp.text[mark..mark + size];
    HoldsAt(b[..], 0, s, 0);
    PendingIsExact(rfp, wfp, mark, size, base, from);
    if b[0] != '\0' {
      b[pos] := '\0';
      assert b[..pos] == s;
      Append(b, wfp, s);
    } else {
      assert wfp.text + s == wfp.text;
    }
    newSize, newMark := 0, rfp.pos;
    NothingPending(rfp.text[newMark..]);
    var n := |LINE_TERM|;
    assert b[..pos] == s;
    flag := pos > n && b[pos - n..pos] == LINE_TERM;
    assert pos > n ==> s[|s| - n..] == b[pos - n..pos];
  }

  lemma NothingPending(p: string)
    ensures Aligned(p, 0)
  {
  }

  /** What ini_puts does with a line that it has read and wants to keep: it is added to the
      cache, or starts the cache again. The cursor is behind the line. */
  method CacheLine(b: array<char>, size: nat, rfp: Stream, wfp: Stream, mark: nat,
                   ghost base: string, ghost from: nat)
    returns (newSize: nat, newMark: nat)
    requires b.Length == BUFFER_SIZE && Pending(rfp, wfp, mark, size, base, from)
    requires mark + size < |rfp.text| && Holds(b[..], 0, Line(rfp.text[mark + size..]))
    requires rfp.pos == mark + size + |Line(rfp.text[mark + size..])|
    modifies b, rfp`pos, wfp
    ensures Copying(rfp, wfp, newMark, newSize, base, from) && rfp.pos == old(rfp.pos)
    ensures var n := |Line(rfp.text[mark + size..])|;
            newSize == if size + n >= BUFFER_SIZE then n else size + n
  {
    hide FirstLine, Aligned;
    ghost var l := Line(rfp.text[mark + size..]);
    AlignedLine(rfp.text, mark, size);
    var ok;
    newMark := mark;
    ok, newSize := CacheAccum(b, size, BUFFER_SIZE, l);
    if !ok {
      var flag;
      newSize, newMark, flag := CacheFlush(b, size, rfp, wfp, mark, base, from);
      ok := rfp.Read(b, 0, BUFFER_SIZE);
      AlignedLine(rfp.text, newMark, 0);
      ok, newSize := CacheAccum(b, newSize, BUFFER_SIZE, l);
    }
  }

  lemma AlignedLine(f: string, mark: nat, size: nat)
    requires mark + size <= |f| && Aligned(f[mark..], size)
    ensures mark + size < |f| ==> Aligned(f[mark..], size + |Line(f[mark + size..])|)
  {
    var p := f[mark..];
    assert p[size..] == f[mark + size..];
    if size < |p| { AlignedMore(p, size); }
  }

  // ---------------------------------------------------------------- writing lines

  method FormatKey(b: array<char>, key: string, v: string)
    requires b.Length == BUFFER_SIZE && NulFree(key) && NulFree(v)
    modifies b
    ensures Holds(b[..], 0, KeyLine(key, v))
  {
    var option := CheckEnquote(v);
    Strncpy(b, 0, key, BUFFER_SIZE - 3, QuoteNone);
    ghost var k := Take(key, BUFFER_SIZE - 4);
    var p := EndOf(b, 0, k);
    b[p] := '=';
    assert b[..p] == k;
    p := p + 1;
    assert b[..p] == k + "=";
    Strncpy(b, p, v, BUFFER_SIZE - p - 2, option);
    assert b[..p] == k + "=";
    ghost var q := Quoted(v, BUFFER_SIZE - p - 2);
    HoldsConcat(b[..], k + "=", q);
    p := EndOf(b, p, q);
    AppendTerm(b, p, k + "=" + q);
  }

  /** The line terminator behind the text of a line. */
  method AppendTerm(b: array<char>, p: nat, ghost t: string)
    requires Holds(b[..], 0, t) && p == |t| && p + |LINE_TERM| < b.Length
    modifies b
    ensures Holds(b[..], 0, t + LINE_TERM)
  {
    assert b[..p] == t;
    b[p], b[p+1], b[p+2] := '\r', '\n', '\0';
    assert b[..p] == t;
    assert Holds(b[..], |t|, LINE_TERM);
    HoldsConcat(b[..], t, LINE_TERM);
  }

  method WriteKey(b: array<char>, key: string, v: string, wfp: Stream)
    requires b.Length == BUFFER_SIZE && NulFree(key) && NulFree(v)
    requires wfp.Valid() && wfp.pos == |wfp.text|
    modifies b, wfp
    ensures wfp.Valid() && wfp.pos == |wfp.text| && wfp.text == old(wfp.text) + KeyLine(key, v)
  {
    FormatKey(b, key, v);
    Append(b, wfp, KeyLine(key, v));
  }

  method WriteSection(b: array<char>, section: string, wfp: Stream)
    requires b.Length == BUFFER_SIZE && NulFree(section)
    requires wfp.Valid() && wfp.pos == |wfp.text|
    modifies b, wfp
    ensures wfp.Valid() && wfp.pos == |wfp.text| && wfp.text == old(wfp.text) + SectionLine(section)
  {
    if |section| > 0 {
      b[0] := '[';
      Strncpy(b, 1, section, BUFFER_SIZE - 4, QuoteNone);
      ghost var t := Take(section, BUFFER_SIZE - 5);
      assert b[..1] == "[";
      HoldsConcat(b[..], "[", t);
      var p := EndOf(b, 0, "[" + t);
      assert b[..p] == "[" + t;
      b[p], b[p+1] := ']', '\0';
      assert b[..p+1] == "[" + t + "]";
      p := p + 1;
      AppendTerm(b, p, "[" + t + "]");
      Append(b, wfp, SectionLine(section));
    } else {
      assert wfp.text + "" == wfp.text;
    }
  }

  // ---------------------------------------------------------------- copying the file

  /** One line read while copying. */
  lemma LineRead(f: string, pos: nat)
    requires pos < |f|
    ensures var l := Line(f[pos..]);
            && l == FirstLine(f[pos..], BUFFER_SIZE - 1) && 0 < |l| && pos + |l| <= |f|
            && f[pos + |l|..] == AfterLine(f[pos..])
  {
  }

  lemma BatchNext(p: string, size: nat)
    requires p != ""
    ensures Batch(p, size) ==
              Batch(AfterLine(p), if size + |Line(p)| >= BUFFER_SIZE then |Line(p)| else size + |Line(p)|)
  {
  }

  lemma SectionNext(p: string, section: string)
    ensures SectionRest(p, section) ==
              if p == "" then None else if IsSection(Line(p), section) then Some(AfterLine(p))
              else SectionRest(AfterLine(p), section)
  {
  }

  /** The first loop of ini_puts: everything up to and with the section line. */
  method CopyToSection(b: array<char>, section: string, rfp: Stream, wfp: Stream)
    returns (found: bool, size: nat, mark: nat)
    requires b.Length == BUFFER_SIZE && NulFree(section) && Copying(rfp, wfp, 0, 0, "", 0)
    modifies b, rfp`pos, wfp
    ensures Copying(rfp, wfp, mark, size, "", 0)
    ensures SectionRest(rfp.text, section) == if found then Some(rfp.text[rfp.pos..]) else None
    ensures !found ==> rfp.pos == |rfp.text| && size == Batch(rfp.text, 0)
  {
    hide IsSection, SectionRest, Batch, FirstLine, Aligned;
    size, mark, found := 0, 0, false;
    WholeFile(rfp.text);
    while true
      invariant Copying(rfp, wfp, mark, size, "", 0)
      invariant SectionRest(rfp.text, section) == SectionRest(rfp.text[rfp.pos..], section)
      invariant Batch(rfp.text, 0) == Batch(rfp.text[rfp.pos..], size)
      decreases |rfp.text| - rfp.pos
    {
      ghost var p := rfp.text[rfp.pos..];
      SectionNext(p, section);
      var ok := rfp.Read(b, 0, BUFFER_SIZE);
      if !ok {
        BatchEmpty(size);
        return;
      }
      LineRead(rfp.text, mark + size);
      BatchNext(p, size);
      found := MatchSection(b, section, Line(p));
      size, mark := CacheLine(b, size, rfp, wfp, mark, "", 0);
      if found { return; }
    }
  }

  lemma BatchEmpty(size: nat)
    ensures Batch("", size) == size
  {
  }

  lemma SpotNext(p: string, key: string)
    ensures FindSpot(p, key) ==
              if p == "" then AtEnd
              else if OpensSection(Line(p)) then AtSection(0)
              else if NamesKey(Line(p), key) then AtKey(0, |Line(p)|)
              else Shift(|Line(p)|, FindSpot(AfterLine(p), key))
  {
  }

  /** The search stopped before this place: at a section or the key, or not before the end. */
  ghost predicate StoppedAt(area: string, key: string, at: nat, stopped: bool, flag: bool)
  {
    var s := FindSpot(area, key);
    && (s.AtEnd? <==> !stopped)
    && (s.AtSection? <==> stopped && flag)
    && (stopped ==> at == s.pos < |area|)
    && (s.AtKey? ==> s.len == |Line(area[at..])|)
  }

  /** The lines in front of this place did not stop the search. */
  ghost predicate NotStopped(area: string, key: string, at: nat)
  {
    at <= |area| && FindSpot(area, key) == Shift(at, FindSpot(area[at..], key))
  }

  lemma StopHere(area: string, key: string, at: nat)
    requires NotStopped(area, key, at)
    ensures at == |area| ==> StoppedAt(area, key, at, false, false)
    ensures at < |area| ==>
              var l := Line(area[at..]);
              if OpensSection(l) || NamesKey(l, key) then StoppedAt(area, key, at, true, OpensSection(l))
              else at + |l| <= |area| && NotStopped(area, key, at + |l|)
  {
    hide FirstLine, FindSpot, OpensSection, NamesKey;
    var p := area[at..];
    SpotNext(p, key);
    if p != "" {
      LineRead(area, at);
      ShiftTwice(at, |Line(p)|, FindSpot(AfterLine(p), key));
    }
  }

  lemma StartHere(area: string, key: string)
    ensures NotStopped(area, key, 0)
  {
    WholeFile(area);
    ShiftTwice(0, 0, FindSpot(area, key));
  }

  datatype Round = FileEnd | SectionLineRead | KeyLineRead | Kept

  /** One round of the second loop. */
  method SpotRound(b: array<char>, key: string, rfp: Stream, wfp: Stream, mark: nat, size: nat)
    returns (r: Round, newSize: nat, newMark: nat)
    requires b.Length == BUFFER_SIZE && NulFree(key) && Copying(rfp, wfp, mark, size, "", 0)
    modifies b, rfp`pos, wfp
    ensures var p := rfp.text[old(rfp.pos)..];
            && (r == FileEnd <==> p == "")
            && (r == SectionLineRead <==> p != "" && OpensSection(Line(p)))
            && (r == KeyLineRead <==> p != "" && !OpensSection(Line(p)) && NamesKey(Line(p), key))
            && (r == Kept ==>
                  && Copying(rfp, wfp, newMark, newSize, "", 0) && mark <= newMark
                  && rfp.pos == old(rfp.pos) + |Line(p)| && Batch(p, size) == Batch(AfterLine(p), newSize))
    ensures r != Kept ==> newSize == size && newMark == mark && Pending(rfp, wfp, mark, size, "", 0)
  {
    hide OpensSection, NamesKey, Batch, FirstLine, Aligned, SkipLeading, CharAt, Holds, NulFree;
    newSize, newMark := size, mark;
    ghost var p := rfp.text[rfp.pos..];
    var ok := rfp.Read(b, 0, BUFFER_SIZE);
    if !ok {
      r := FileEnd;
    } else {
      LineRead(rfp.text, mark + size);
      BatchNext(p, size);
      var matches := MatchKey(b, key, Line(p));
      var c := FirstChar(b, Line(p));
      r := if c == '[' then SectionLineRead else if matches then KeyLineRead else Kept;
      if r == Kept {
        newSize, newMark := CacheLine(b, size, rfp, wfp, mark, "", 0);
      }
    }
  }

  /** The second loop: the lines of the section up to the key or the next section. When it
      stops early, the line that stopped it has been read but is not in the cache. */
  method CopyToSpot(b: array<char>, key: string, rfp: Stream, wfp: Stream, start: nat)
    returns (stopped: bool, flag: bool, size: nat, mark: nat)
    requires b.Length == BUFFER_SIZE && NulFree(key) && Copying(rfp, wfp, start, 0, "", 0)
    modifies b, rfp`pos, wfp
    ensures Pending(rfp, wfp, mark, size, "", 0) && start <= mark
    ensures StoppedAt(rfp.text[start..], key, mark + size - start, stopped, flag)
    ensures !stopped ==> mark + size == |rfp.text| && size == Batch(rfp.text[start..], 0)
  {
    hide OpensSection, NamesKey, FindSpot, Batch, FirstLine, Aligned, Shift, StoppedAt, NotStopped;
    size, mark := 0, start;
    ghost var area := rfp.text[start..];
    StartHere(area, key);
    var r := Kept;
    while r == Kept
      invariant Pending(rfp, wfp, mark, size, "", 0) && start <= mark
      invariant r == Kept ==> rfp.pos == mark + size && NotStopped(area, key, mark + size - start)
      invariant r != Kept ==> StoppedAt(area, key, mark + size - start, r != FileEnd, r == SectionLineRead)
      invariant Batch(area, 0) == Batch(rfp.text[mark + size..], size)
      invariant r == FileEnd ==> mark + size == |rfp.text|
      decreases |rfp.text| - mark - size, r == Kept
    {
      ghost var at := mark + size;
      assert area[at - start..] == rfp.text[at..];
      StopHere(area, key, at - start);
      if at < |rfp.text| { LineRead(rfp.text, at); }
      r, size, mark := SpotRound(b, key, rfp, wfp, mark, size);
    }
    if r == FileEnd {
      assert rfp.text[mark + size..] == "";
      BatchEmpty(size);
    }
    stopped, flag := r != FileEnd, r == SectionLineRead;
  }

  /** The line at the cursor is in the buffer; without one the copy has reached the end. */
  ghost predicate Ahead(b: array<char>, rfp: Stream, at: nat, ok: bool)
    reads b, rfp
  {
    && at <= |rfp.text| && (ok <==> at < |rfp.text|)
    && (ok ==> Holds(b[..], 0, Line(rfp.text[at..])) && rfp.pos == at + |Line(rfp.text[at..])|)
  }

  method ReadAhead(b: array<char>, rfp: Stream, wfp: Stream, mark: nat, size: nat, ghost base: string, ghost from: nat)
    returns (ok: bool)
    requires b.Length == BUFFER_SIZE && Copying(rfp, wfp, mark, size, base, from)
    modifies b, rfp`pos
    ensures Pending(rfp, wfp, mark, size, base, from) && Ahead(b, rfp, mark + size, ok)
  {
    hide FirstLine, Aligned;
    ok := rfp.Read(b, 0, BUFFER_SIZE);
    if ok { LineRead(rfp.text, mark + size); }
  }

  lemma AheadHas(b: array<char>, rfp: Stream, at: nat)
    requires Ahead(b, rfp, at, true)
    ensures at < |rfp.text| && Holds(b[..], 0, Line(rfp.text[at..])) && rfp.pos == at + |Line(rfp.text[at..])|
    ensures |Line(rfp.text[at..])| > 0
  {
    hide FirstLine;
  }

  /** The last loop: the rest of the file. */
  method CopyRest(b: array<char>, rfp: Stream, wfp: Stream, mark0: nat, size0: nat, ghost base: string, ghost from: nat)
    requires b.Length == BUFFER_SIZE && Copying(rfp, wfp, mark0, size0, base, from)
    modifies b, rfp`pos, wfp
    ensures wfp.text == base + rfp.text[from..]
  {
    hide Line, Holds, Aligned, Ahead, Pending;
    var size: nat, mark: nat := size0, mark0;
    TwoStreams(rfp, wfp, mark, size, base, from);
    var ok := ReadAhead(b, rfp, wfp, mark, size, base, from);
    while ok
      invariant Pending(rfp, wfp, mark, size, base, from) && Ahead(b, rfp, mark + size, ok)
      decreases |rfp.text| - mark - size, ok
    {
      AheadHas(b, rfp, mark + size);
      ghost var before := mark + size;
      size, mark := CacheLine(b, size, rfp, wfp, mark, base, from);
      ok := ReadAhead(b, rfp, wfp, mark, size, base, from);
      StillInside(b, rfp, mark + size, ok);
    }
    StillInside(b, rfp, mark + size, ok);
    var flag;
    size, mark, flag := CacheFlush(b, size, rfp, wfp, mark, base, from);
    AllCopied(rfp, wfp, mark, base, from);
  }

  lemma TwoStreams(rfp: Stream, wfp: Stream, mark: nat, size: nat, base: string, from: nat)
    requires Copying(rfp, wfp, mark, size, base, from)
    ensures rfp != wfp
  {
  }

  lemma StillInside(b: array<char>, rfp: Stream, at: nat, ok: bool)
    requires Ahead(b, rfp, at, ok)
    ensures at <= |rfp.text| && (!ok ==> at == |rfp.text|)
  {
    hide Line, Holds;
  }

  lemma AllCopied(rfp: Stream, wfp: Stream, mark: nat, base: string, from: nat)
    requires Copying(rfp, wfp, mark, 0, base, from) && mark == |rfp.text|
    ensures wfp.text == base + rfp.text[from..]
  {
    assert rfp.text[from..mark] == rfp.text[from..];
  }

  // ---------------------------------------------------------------- ini_puts

  /** The terminator that the flag of the last flush asks for. */
  lemma GapIsFlag(f: string, area: string, mark: nat, size: nat)
    requires |area| <= |f| && area == f[|f| - |area|..]
    requires mark + size == |f| && size == Batch(area, 0) && size <= |area|
    ensures Gap(area) == if size > |LINE_TERM| && EndsWith(f[mark..], LINE_TERM) then "" else LINE_TERM
  {
    hide Batch;
    if size > |LINE_TERM| { SameEnd(f, |area|, size); }
  }

  lemma SameEnd(f: string, m: nat, n: nat)
    requires |LINE_TERM| <= m <= |f| && |LINE_TERM| <= n <= |f|
    ensures EndsWith(f[|f| - m..], LINE_TERM) == EndsWith(f[|f| - n..], LINE_TERM)
  {
    var a, b := f[|f| - m..], f[|f| - n..];
    assert a[|a| - 2..] == f[|f| - 2..] == b[|b| - 2..];
  }

  lemma {:induction false} BatchInside(p: string, size: nat)
    ensures Batch(p, size) <= size + |p|
    decreases |p|
  {
    if p != "" {
      BatchInside(AfterLine(p), if size + |Line(p)| >= BUFFER_SIZE then |Line(p)| else size + |Line(p)|);
    }
  }

  method AppendTerminator(wfp: Stream)
    requires wfp.Valid() && wfp.pos == |wfp.text|
    modifies wfp
    ensures wfp.Valid() && wfp.pos == |wfp.text| && wfp.text == old(wfp.text) + LINE_TERM
  {
    var term := new char[3];
    term[0], term[1], term[2] := '\r', '\n', '\0';
    Append(term, wfp, LINE_TERM);
  }

  /** Flush at the end of the file, and close the last line if it does not seem closed. */
  method FinishFile(b: array<char>, size: nat, rfp: Stream, wfp: Stream, mark: nat, ghost area: string)
    requires b.Length == BUFFER_SIZE && Pending(rfp, wfp, mark, size, "", 0)
    requires mark + size == |rfp.text| && |area| <= |rfp.text| && area == rfp.text[|rfp.text| - |area|..]
    requires size == Batch(area, 0)
    modifies b, rfp`pos, wfp
    ensures wfp.Valid() && wfp.pos == |wfp.text| && wfp.text == rfp.text + Gap(area)
  {
    hide Batch, FirstLine, Aligned, EndsWith, Gap;
    BatchInside(area, 0);
    GapIsFlag(rfp.text, area, mark, size);
    var size', mark', flag := CacheFlush(b, size, rfp, wfp, mark, "", 0);
    assert rfp.text[mark..mark'] == rfp.text[mark..] && rfp.text[0..mark'] == rfp.text;
    assert wfp.text == rfp.text;
    if flag {
      assert wfp.text + "" == wfp.text;
    } else {
      AppendTerminator(wfp);
    }
  }

  /** The new key line, then the line that stopped the search unless it is the old key's, then
      the rest of the file. */
  method CopyAround(b: array<char>, key: string, v: string, rfp: Stream, wfp: Stream,
                    size0: nat, mark0: nat, flag: bool)
    requires b.Length == BUFFER_SIZE && NulFree(key) && NulFree(v) && Pending(rfp, wfp, mark0, size0, "", 0)
    requires mark0 + size0 < |rfp.text|
    modifies b, rfp`pos, wfp
    ensures var f, at := rfp.text, mark0 + size0;
            var next := if flag then at else at + |Line(f[at..])|;
            next <= |f| && wfp.text == f[..at] + KeyLine(key, v) + f[next..]
  {
    hide FirstLine, Aligned, KeyLine;
    ghost var f, at := rfp.text, mark0 + size0;
    LineRead(f, at);
    var size, mark, closed := CacheFlush(b, size0, rfp, wfp, mark0, "", 0);
    assert wfp.text == f[..at] by { assert f[0..at] == f[..at] && "" + f[..at] == f[..at]; }
    WriteKey(b, key, v, wfp);
    ghost var base := wfp.text;
    var ok := rfp.Read(b, 0, BUFFER_SIZE);
    if flag {
      FreshCopy(rfp, wfp, at, base);
      size, mark := CacheLine(b, size, rfp, wfp, mark, base, at);
      CopyRest(b, rfp, wfp, mark, size, base, at);
    } else {
      mark := rfp.pos;
      FreshCopy(rfp, wfp, mark, base);
      CopyRest(b, rfp, wfp, mark, size, base, mark);
    }
  }

  /** The copy made by ini_puts when the section is there: `start` is where its keys begin. */
  method RewriteArea(b: array<char>, key: string, v: string, rfp: Stream, wfp: Stream, start: nat)
    requires b.Length == BUFFER_SIZE && NulFree(key) && NulFree(v) && Copying(rfp, wfp, start, 0, "", 0)
    modifies b, rfp`pos, wfp
    ensures wfp.text == rfp.text[..start] + PutInArea(rfp.text[start..], key, v)
  {
    hide FindSpot, Batch, FirstLine, Aligned, KeyLine, Gap, NamesKey, OpensSection, PutInArea, StoppedAt;
    ghost var f := rfp.text;
    var stopped, flag, size, mark := CopyToSpot(b, key, rfp, wfp, start);
    StoppedShape(f, key, v, start, mark + size, stopped, flag);
    if !stopped {
      FinishFile(b, size, rfp, wfp, mark, f[start..]);
      WriteKey(b, key, v, wfp);
    } else {
      CopyAround(b, key, v, rfp, wfp, size, mark, flag);
    }
  }

  lemma StoppedShape(f: string, key: string, v: string, start: nat, at: nat, stopped: bool, flag: bool)
    requires start <= at <= |f| && StoppedAt(f[start..], key, at - start, stopped, flag)
    ensures stopped ==> at < |f|
    ensures var l, put := KeyLine(key, v), f[..start] + PutInArea(f[start..], key, v);
            if !stopped then put == f + Gap(f[start..]) + l
            else
              var next := if flag then at else at + |Line(f[at..])|;
              next <= |f| && put == f[..at] + l + f[next..]
  {
    hide *;
    var area, l := f[start..], KeyLine(key, v);
    assert area[at - start..] == f[at..];
    PutWhereStopped(area, key, v, at - start, stopped, flag);
    if !stopped {
      AtEndShape(f, start, Gap(area), l);
    } else {
      InsertShape(f, start, at, if flag then at else at + |Line(f[at..])|, l);
    }
  }

  lemma PutWhereStopped(p: string, key: string, v: string, at: nat, stopped: bool, flag: bool)
    requires at <= |p| && StoppedAt(p, key, at, stopped, flag)
    ensures stopped ==> at < |p|
    ensures var l := KeyLine(key, v);
            if !stopped then PutInArea(p, key, v) == p + Gap(p) + l
            else
              var next := if flag then at else at + |Line(p[at..])|;
              next <= |p| && PutInArea(p, key, v) == p[..at] + l + p[next..]
  {
    hide FindSpot, FirstLine, KeyLine, Gap;
  }

  lemma FreshCopy(rfp: Stream, wfp: Stream, mark: nat, base: string)
    requires rfp != wfp && rfp.Valid() && wfp.Valid() && wfp.pos == |wfp.text| && mark <= |rfp.text|
    requires wfp.text == base
    ensures Pending(rfp, wfp, mark, 0, base, mark)
  {
    assert rfp.text[mark..mark] == "" && base + "" == base;
  }

  lemma AtEndShape(f: string, start: nat, gap: string, l: string)
    requires start <= |f|
    ensures f + gap + l == f[..start] + (f[start..] + gap + l)
  {
    assert f == f[..start] + f[start..];
  }

  lemma InsertShape(f: string, start: nat, at: nat, next: nat, l: string)
    requires start <= at <= next <= |f|
    ensures var p := f[start..];
            f[..at] + l + f[next..] == f[..start] + (p[..at - start] + l + p[next - start..])
  {
    var p := f[start..];
    assert f[..at] == f[..start] + p[..at - start];
    assert p[next - start..] == f[next..];
  }

  /** The copy that ini_puts makes: the new text of the file. */
  method RewriteFile(b: array<char>, f: string, section: string, key: string, v: string) returns (text: string)
    requires b.Length == BUFFER_SIZE && NulFree(f) && NulFree(section) && NulFree(key) && NulFree(v)
    modifies b
    ensures text == Rewrite(f, section, key, v)
  {
    hide FindSpot, Batch, FirstLine, KeyLine, SectionLine, Gap, PutInArea, SectionRest;
    var wfp := new Stream("");
    var rfp := new Stream(f);
    FreshCopy(rfp, wfp, 0, "");
    var found, size, mark := true, 0, 0;
    if |section| > 0 {
      found, size, mark := CopyToSection(b, section, rfp, wfp);
    }
    if !found {
      WholeFile(f);
      FinishFile(b, size, rfp, wfp, mark, f);
      WriteSection(b, section, wfp);
      WriteKey(b, key, v, wfp);
    } else {
      var flag;
      size, mark, flag := CacheFlush(b, size, rfp, wfp, mark, "", 0);
      RewriteArea(b, key, v, rfp, wfp, mark);
      WholeFile(f);
      RewriteShape(f, section, key, v, mark);
    }
    text := wfp.text;
  }

  lemma RewriteShape(f: string, section: string, key: string, v: string, start: nat)
    requires start <= |f|
    requires if section == "" then start == 0 else SectionRest(f, section) == Some(f[start..])
    ensures Rewrite(f, section, key, v) == f[..start] + PutInArea(f[start..], key, v)
  {
    hide PutInArea, SectionRest;
    if section == "" {
      assert f[0..] == f && f[..0] == "" && "" + PutInArea(f, key, v) == PutInArea(f, key, v);
    }
  }

  /** ini_puts for a key and a value, on a file that may not exist: the new contents. */
  method IniPuts(file: Option<string>, section: string, key: string, v: string) returns (text: string)
    requires file.Some? ==> NulFree(file.value)
    requires NulFree(section) && NulFree(key) && NulFree(v)
    ensures text == Puts(file, section, key, v)
  {
    hide KeyLine, SectionLine, Rewrite, Lookup, KeySpot, Holds;
    var b := new char[BUFFER_SIZE];
    if file.None? {
      var wfp := new Stream("");
      WriteSection(b, section, wfp);
      WriteKey(b, key, v, wfp);
      text := wfp.text;
    } else {
      var f := file.value;
      var rfp := new Stream(f);
      var found, head := GetKeyString(rfp, section, key, b, BUFFER_SIZE);
      if found {
        ghost var current := Take(Lookup(f, section, key).value, BUFFER_SIZE - 1);
        var same := SameText(b, v, current);
        if same { return f; }
        var tail := rfp.pos;
        FormatKey(b, key, v);
        var len := EndOf(b, 0, KeyLine(key, v));
        if len == tail - head {
          var wfp := new Stream(f);
          wfp.pos := head;
          wfp.Write(b, KeyLine(key, v));
          PutsInPlace(f, section, key, v, head, tail);
          return wfp.text;
        }
      }
      text := RewriteFile(b, f, section, key, v);
    }
  }

  lemma PutsInPlace(f: string, section: string, key: string, v: string, head: nat, tail: nat)
    requires var found := Lookup(f, section, key); found.Some? && Take(found.value, BUFFER_SIZE - 1) != v
    requires head <= tail <= |f| && tail - head == |KeyLine(key, v)|
    requires var area := SectionArea(f, section);
             area.Some? && SpotIs(KeySpot(area.value, key), |f| - |area.value|, head, tail)
    ensures Puts(Some(f), section, key, v) == Overwrite(f, head, KeyLine(key, v))
  {
    hide KeyLine, Rewrite, Lookup, KeySpot, Take;
  }

  /** strcmp of the buffer and a value. */
  method SameText(b: array<char>, v: string, ghost s: string) returns (same: bool)
    requires Holds(b[..], 0, s) && NulFree(v)
    ensures same <==> s == v
  {
    var n := 0;
    HoldsAt(b[..], 0, s, 0);
    while b[n] == CharAt(v, n) && b[n] != '\0'
      invariant n <= |s| && n <= |v| && s[..n] == v[..n] && b[n] == CharAt(s, n)
      decreases |s| - n
    {
      assert s[..n] + [s[n]] == s[..n+1] && v[..n] + [v[n]] == v[..n+1];
      HoldsAt(b[..], 0, s, n + 1);
      n := n + 1;
    }
    same := b[n] == CharAt(v, n);
    if same { assert s[..n] == s && v[..n] == v; }
  }
}
