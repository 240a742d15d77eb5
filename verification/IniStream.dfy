/** Files as minIni sees them, a cursor in a text, and its tests of a line that was read. */
module IniStream {
  import opened CString
  import opened JsonValue
  import opened IniText
  import opened IniBuffer
  import opened IniFile

  /** Text written over a text at a position, and beyond its end. */
  function Overwrite(text: string, pos: nat, s: string): string
    requires pos <= |text|
  {
    text[..pos] + s + (if pos + |s| <= |text| then text[pos + |s|..] else "")
  }

  /** After n characters of a read: the whole line, or as much of it as was read. */
  ghost predicate Reading(p: string, n: nat, max: nat, ended: bool)
  {
    && n <= |p| && n <= max
    && FirstLine(p, max) == if ended then p[..n] else p[..n] + FirstLine(p[n..], max - n)
  }

  lemma ReadStart(p: string, max: nat)
    ensures Reading(p, 0, max, false)
  {
    assert p[..0] == "" && p[0..] == p && "" + FirstLine(p, max) == FirstLine(p, max);
  }

  lemma ReadStep(p: string, n: nat, max: nat)
    requires n < |p| && n < max && Reading(p, n, max, false)
    ensures Reading(p, n + 1, max, p[n] == '\n')
  {
    assert p[n..][0] == p[n] && p[n..][1..] == p[n+1..];
    assert p[..n] + [p[n]] == p[..n+1];
  }

  lemma ReadEnd(p: string, n: nat, max: nat, ended: bool)
    requires Reading(p, n, max, ended) && (n == max || n == |p| || ended)
    ensures FirstLine(p, max) == p[..n]
  {
  }

  /** An open file. */
  class Stream {
    var text: string
    var pos: nat

    constructor (contents: string)
      requires NulFree(contents)
      ensures text == contents && pos == 0 && Valid()
    {
      text, pos := contents, 0;
    }

    ghost predicate Valid()
      reads this
    {
      pos <= |text| && NulFree(text)
    }

    /** ini_read, which is fgets: a line, or as much of it as there is room for. */
    method Read(b: array<char>, at: nat, size: nat) returns (ok: bool)
      requires Valid() && size >= 2 && at + size <= b.Length
      modifies this`pos, b
      ensures Valid() && (ok <==> old(pos) < |text|) && OnlyWithin(b, at, at + size)
      ensures var l := FirstLine(text[old(pos)..], size - 1);
              pos == old(pos) + |l| && (ok ==> Holds(b[..], at, l))
      ensures !ok ==> b[..] == old(b[..])
    {
      hide Reading;
      ghost var p, start := text[pos..], pos;
      if pos == |text| { return false; }
      var n, ended := 0, false;
      ReadStart(p, size - 1);
      while n < size - 1 && pos < |text| && !ended
        invariant n <= size - 1 && pos == start + n <= |text|
        invariant b[at..at + n] == p[..n] && OnlyWithin(b, at, at + size)
        invariant Reading(p, n, size - 1, ended)
      {
        ReadStep(p, n, size - 1);
        var c := text[pos];
        assert c == p[n];
        Store(b, at, n, c, p[..n]);
        assert p[..n] + [p[n]] == p[..n+1];
        ended := c == '\n';
        n, pos := n + 1, pos + 1;
      }
      ReadEnd(p, n, size - 1, ended);
      b[at + n] := '\0';
      assert b[at..at + n] == p[..n];
      return true;
    }

    /** ini_write, which is fputs. */
    method Write(b: array<char>, ghost s: string)
      requires Valid() && Holds(b[..], 0, s)
      modifies this
      ensures Valid() && text == Overwrite(old(text), old(pos), s) && pos == old(pos) + |s|
    {
      ghost var was, start := text, pos;
      var n := 0;
      HoldsAt(b[..], 0, s, 0);
      while b[n] != '\0'
        invariant n <= |s| && b[n] == CharAt(s, n)
        invariant pos == start + n && text == Overwrite(was, start, s[..n])
        decreases |s| - n
      {
        HoldsAt(b[..], 0, s, n + 1);
        OverwriteStep(was, start, s, n);
        text := text[..pos] + [b[n]] + (if pos < |text| then text[pos + 1..] else "");
        n, pos := n + 1, pos + 1;
      }
      assert s[..|s|] == s;
      forall i | 0 <= i < |text| ensures text[i] != '\0' {
        if start <= i < start + |s| { assert text[i] == s[i - start]; }
      }
    }
  }

  lemma OverwriteStep(was: string, start: nat, s: string, n: nat)
    requires start <= |was| && n < |s|
    ensures var t, p := Overwrite(was, start, s[..n]), start + n;
            p <= |t| && Overwrite(was, start, s[..n+1]) == t[..p] + [s[n]] + (if p < |t| then t[p + 1..] else "")
  {
  }

  // ---------------------------------------------------------------- matching a line

  lemma {:induction false} SkipWithin(t: string, k: nat)
    requires k < |t| && !Blank(t[k])
    ensures var n := |t| - |SkipLeading(t)|;
            n <= k && SkipLeading(t[..k]) == t[n..k]
  {
    if Blank(t[0]) {
      assert t[..k][1..] == t[1..][..k-1];
      SkipWithin(t[1..], k - 1);
      var n := |t| - |SkipLeading(t)|;
      assert t[1..][n-1..k-1] == t[n..k];
    } else if k > 0 {
      assert t[..k][0] == t[0];
    }
  }

  lemma NulFreeSlice(b: seq<char>, at: nat, s: string, i: nat, j: nat)
    requires Holds(b, at, s) && i <= j <= |s|
    ensures b[at + i..at + j] == s[i..j] && NulFree(s[i..j])
  {
    var t, u := b[at..at + |s|], b[at + i..at + j];
    assert t == s;
    forall k | 0 <= k < j - i ensures u[k] == s[i..j][k] { assert t[i + k] == b[at + i + k]; }
    assert u == s[i..j];
    forall k | 0 <= k < j - i ensures s[i..j][k] != '\0' { assert s[i + k] != '\0'; }
  }

  method SameName(name: string, other: string) returns (same: bool)
    requires NulFree(name) && NulFree(other)
    ensures same <==> Lower(name) == Lower(other)
  {
    if |name| != |other| {
      assert |Lower(name)| == |name| && |Lower(other)| == |other|;
      return false;
    }
    var r := CompareIgnoringCase(name, other);
    same := r == 0;
  }

  /** The trimmed name between the bracket at sp and the one at ep. */
  method TrimName(b: array<char>, sp: nat, ep: nat, ghost s: string) returns (start: nat, end: nat)
    requires Holds(b[..], sp, s) && sp < ep < sp + |s| && !Blank(s[ep - sp])
    ensures start <= end <= b.Length && NulFree(b[start..end])
    ensures b[start..end] == TrimEnd(SkipLeading(s[1..ep - sp]))
  {
    hide SkipLeading, TrimEnd;
    HoldsTail(b[..], sp, s, 1);
    start := SkipLeadingAt(b, sp + 1, s[1..]);
    SkipInside(b[..], sp, ep, s);
    end := SkipTrailing(b, ep, start);
    ghost var name := b[start..ep];
    assert b[start..end] == name[..end - start];
    assert NulFree(name) ==> NulFree(name[..end - start]);
  }

  lemma SkipInside(b: seq<char>, sp: nat, ep: nat, s: string)
    requires Holds(b, sp, s) && sp < ep < sp + |s| && !Blank(s[ep - sp])
    ensures var start := sp + |s| - |SkipLeading(s[1..])|;
            && start <= ep && b[start..ep] == SkipLeading(s[1..ep - sp]) && NulFree(b[start..ep])
  {
    hide *;
    var e, t := ep - sp, s[1..];
    var n := |t| - |SkipLeading(t)|;
    assert t[e-1] == s[e];
    SkipWithin(t, e - 1);
    SliceTail(s, n, e);
    NulFreeSlice(b, sp, s, 1 + n, e);
  }

  lemma SliceTail(s: string, n: nat, e: nat)
    requires 1 <= e <= |s| && 1 + n <= e
    ensures s[1..][..e-1] == s[1..e] && s[1..][n..e-1] == s[1 + n..e]
  {
  }

  /** Is this line the section's? */
  method MatchSection(b: array<char>, section: string, ghost l: string) returns (match_: bool)
    requires Holds(b[..], 0, l) && NulFree(section)
    ensures match_ <==> IsSection(l, section)
  {
    hide SkipLeading, TrimEnd, Lower;
    var sp := SkipLeadingAt(b, 0, l);
    ghost var s := SkipLeading(l);
    HoldsAt(b[..], sp, s, 0);
    var ep := Strrchr(b, sp, ']', s);
    match_ := b[sp] == '[' && ep.Some?;
    if match_ {
      var start, end := TrimName(b, sp, ep.value, s);
      match_ := SameName(b[start..end], section);
    }
  }

  /** Where the text of a line begins, and its separator. */
  method FindSeparator(b: array<char>, ghost l: string) returns (sp: nat, ep: Option<nat>)
    requires Holds(b[..], 0, l)
    ensures var s := SkipLeading(l);
            && sp == |l| - |s| && Holds(b[..], sp, s)
            && ep == if Separator(s) < |s| then Some(sp + Separator(s)) else None
  {
    hide SkipLeading, IndexOf;
    sp := SkipLeadingAt(b, 0, l);
    ghost var s := SkipLeading(l);
    ep := Strchr(b, sp, '=', s);
    if ep.None? { ep := Strchr(b, sp, ':', s); }
  }

  method MatchKey(b: array<char>, key: string, ghost l: string) returns (match_: bool)
    requires Holds(b[..], 0, l) && NulFree(key)
    ensures match_ <==> NamesKey(l, key)
  {
    hide SkipLeading, TrimEnd, Separator, Lower;
    var sp, ep := FindSeparator(b, l);
    match_ := ep.Some? && |key| > 0;
    if match_ {
      ghost var s := SkipLeading(l);
      NulFreeSlice(b[..], sp, s, 0, Separator(s));
      assert b[sp..ep.value] == s[..Separator(s)];
      var end := SkipTrailing(b, ep.value, sp);
      NulFreeSlice(b[..], sp, s, 0, end - sp);
      match_ := SameName(b[sp..end], key);
    }
  }

  /** The first character behind the leading blanks. */
  method FirstChar(b: array<char>, ghost l: string) returns (c: char)
    requires Holds(b[..], 0, l)
    ensures c == CharAt(SkipLeading(l), 0)
    ensures c == '[' <==> OpensSection(l)
  {
    var sp := SkipLeadingAt(b, 0, l);
    HoldsAt(b[..], sp, SkipLeading(l), 0);
    c := b[sp];
  }
}
