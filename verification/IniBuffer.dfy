/** The pointer loops of minIni over its line buffer, each proved against the function of
    IniText that says what it computes. A buffer holds a C string: characters up to a NUL. */
module IniBuffer {
  import opened CString
  import opened JsonValue
  import opened IniText

  /** The C string at `at` is s. */
  predicate Holds(b: seq<char>, at: nat, s: string)
  {
    && at + |s| < |b|
    && b[at..at + |s|] == s
    && b[at + |s|] == '\0'
    && NulFree(s)
  }

  lemma HoldsTail(b: seq<char>, at: nat, s: string, k: nat)
    requires Holds(b, at, s) && k <= |s|
    ensures Holds(b, at + k, s[k..])
  {
    forall i | 0 <= i < |s| - k ensures s[k..][i] != '\0' {
      assert s[k + i] != '\0';
    }
  }

  lemma HoldsAt(b: seq<char>, at: nat, s: string, i: nat)
    requires Holds(b, at, s) && i <= |s|
    ensures b[at + i] == CharAt(s, i)
  {
    if i < |s| { assert b[at..at + |s|][i] == s[i]; }
  }

  method SkipLeadingAt(b: array<char>, at: nat, ghost s: string) returns (p: nat)
    requires Holds(b[..], at, s)
    ensures p == at + |s| - |SkipLeading(s)| && Holds(b[..], p, SkipLeading(s))
  {
    hide SkipLeading;
    p := at;
    HoldsAt(b[..], at, s, 0);
    assert s[0..] == s;
    while Blank(b[p])
      invariant at <= p <= at + |s| && b[p] == CharAt(s, p - at)
      invariant SkipLeading(s) == SkipLeading(s[p - at..])
      decreases at + |s| - p
    {
      SkipStep(s, p - at);
      HoldsAt(b[..], at, s, p - at + 1);
      p := p + 1;
    }
    SkipStep(s, p - at);
    HoldsTail(b[..], at, s, p - at);
  }

  lemma SkipStep(s: string, k: nat)
    requires k <= |s|
    ensures SkipLeading(s[k..]) == if k < |s| && Blank(s[k]) then SkipLeading(s[k+1..]) else s[k..]
  {
    if k < |s| { assert s[k..][0] == s[k] && s[k..][1..] == s[k+1..]; }
  }

  /** skiptrailing: `str` stands behind the text s that begins at `base`. */
  method SkipTrailing(b: array<char>, str: nat, base: nat) returns (p: nat)
    requires base <= str <= b.Length
    ensures base <= p <= str && b[base..p] == TrimEnd(b[base..str])
  {
    hide TrimEnd;
    p := str;
    ghost var s := b[base..str];
    assert s[..|s|] == s;
    while p > base && Blank(b[p-1])
      invariant base <= p <= str
      invariant TrimEnd(s) == TrimEnd(s[..p - base])
    {
      TrimStep(s, p - base);
      p := p - 1;
    }
    TrimStep(s, p - base);
    assert b[base..p] == s[..p - base];
  }

  lemma TrimStep(s: string, n: nat)
    requires n <= |s|
    ensures n > 0 && Blank(s[n-1]) ==> TrimEnd(s[..n]) == TrimEnd(s[..n-1])
    ensures n == 0 || !Blank(s[n-1]) ==> TrimEnd(s[..n]) == s[..n]
  {
    var t := s[..n];
    if n > 0 { assert t[|t|-1] == s[n-1] && t[..|t|-1] == s[..n-1]; }
  }

  /** strchr, for the end of the string. */
  method EndOf(b: array<char>, at: nat, ghost s: string) returns (p: nat)
    requires Holds(b[..], at, s)
    ensures p == at + |s|
  {
    p := at;
    HoldsAt(b[..], at, s, 0);
    while b[p] != '\0'
      invariant at <= p <= at + |s| && b[p] == CharAt(s, p - at)
      decreases at + |s| - p
    {
      HoldsAt(b[..], at, s, p - at + 1);
      p := p + 1;
    }
  }

  /** strchr, for any other character; None is the null pointer. */
  method Strchr(b: array<char>, at: nat, c: char, ghost s: string) returns (r: Option<nat>)
    requires Holds(b[..], at, s) && c != '\0'
    ensures r == if IndexOf(s, c) < |s| then Some(at + IndexOf(s, c)) else None
  {
    var p := at;
    HoldsAt(b[..], at, s, 0);
    assert s[0..] == s;
    while b[p] != c
      invariant at <= p <= at + |s| && b[p] == CharAt(s, p - at)
      invariant IndexOf(s, c) == p - at + IndexOf(s[p - at..], c)
      decreases at + |s| - p
    {
      if b[p] == '\0' { return None; }
      ghost var k := p - at;
      assert s[k..][0] == s[k] && s[k..][1..] == s[k+1..];
      HoldsAt(b[..], at, s, k + 1);
      p := p + 1;
    }
    assert s[p - at..][0] == c;
    return Some(p);
  }

  lemma LastIndexUnique(s: string, c: char, i: nat)
    requires i < |s| && s[i] == c && c !in s[i+1..]
    ensures LastIndexOf(s, c) == i
  {
    var j := LastIndexOf(s, c);
    forall k | i < k < |s| ensures s[k] != c { assert s[k] == s[i+1..][k - i - 1]; }
    forall k | j < k < |s| ensures s[k] != c { assert s[k] == s[j+1..][k - j - 1]; }
  }

  method Strrchr(b: array<char>, at: nat, c: char, ghost s: string) returns (r: Option<nat>)
    requires Holds(b[..], at, s) && c != '\0'
    ensures r == if LastIndexOf(s, c) < |s| then Some(at + LastIndexOf(s, c)) else None
  {
    hide LastIndexOf;
    var p := at;
    r := None;
    HoldsAt(b[..], at, s, 0);
    while b[p] != '\0'
      invariant at <= p <= at + |s| && b[p] == CharAt(s, p - at)
      invariant r.Some? ==> at <= r.value
      invariant LastSoFar(s, c, p - at, if r.Some? then r.value - at else -1)
      decreases at + |s| - p
    {
      HoldsAt(b[..], at, s, p - at);
      HoldsAt(b[..], at, s, p - at + 1);
      if b[p] == c { r := Some(p); }
      p := p + 1;
    }
    LastIsFinal(s, c, if r.Some? then r.value - at else -1);
  }

  /** The last c in front of n is at i, or there is none and i is -1. */
  predicate LastSoFar(s: string, c: char, n: nat, i: int)
  {
    n <= |s| && -1 <= i < n && (i >= 0 ==> s[i] == c) && forall k :: i < k < n ==> s[k] != c
  }

  lemma LastIsFinal(s: string, c: char, i: int)
    requires LastSoFar(s, c, |s|, i)
    ensures LastIndexOf(s, c) == if i >= 0 then i else |s|
  {
    var j := LastIndexOf(s, c);
    if i >= 0 { LastIndexUnique(s, c, i); }
  }

  // ---------------------------------------------------------------- copying

  datatype Quoting = QuoteNone | Enquote | Dequoting

  /** check_enquote. */
  method CheckEnquote(v: string) returns (q: Quoting)
    requires NulFree(v)
    ensures q == if NeedsQuotes(v) then Enquote else QuoteNone
  {
    var p := 0;
    while CharAt(v, p) != '\0' && CharAt(v, p) != '\"' && CharAt(v, p) != ';' && CharAt(v, p) != '#'
      invariant p <= |v|
      invariant AllPlain(v[..p])
      decreases |v| - p
    {
      assert v[..p+1] == v[..p] + [v[p]];
      p := p + 1;
    }
    if p == |v| {
      assert v[..p] == v;
      forall c | c in v ensures Plain(c) {
        var i :| 0 <= i < |v| && v[i] == c;
        assert v[..p][i] == c;
      }
    } else {
      assert v[p] in v;
    }
    q := if CharAt(v, p) != '\0' || (p > 0 && v[p-1] == ' ') then Enquote else QuoteNone;
  }

  /** What ini_strncpy leaves in a destination of maxlen characters. */
  function Strncpied(source: string, maxlen: nat, option: Quoting): (r: string)
    requires maxlen > 0
    ensures |r| < maxlen
  {
    if option == Enquote && maxlen >= 3 then "\"" + EscapeQuotes(source, maxlen - 3) + "\""
    else if option == Dequoting then Take(Dequote(source), maxlen - 1)
    else Take(source, maxlen - 1)
  }

  /** Only these characters of the buffer have changed. */
  twostate predicate OnlyWithin(b: array<char>, lo: nat, hi: nat)
    reads b
  {
    forall i :: 0 <= i < b.Length && !(lo <= i < hi) ==> b[i] == old(b[i])
  }

  /** Write the next character through a cursor. */
  method Store(b: array<char>, at: nat, d: nat, x: char, ghost t: string)
    requires at + d < b.Length && b[at..at + d] == t
    modifies b
    ensures b[at..at + d + 1] == t + [x] && OnlyWithin(b, at + d, at + d + 1)
  {
    b[at + d] := x;
  }

  method CopyPlain(dest: array<char>, at: nat, source: string, maxlen: nat)
    requires maxlen > 0 && at + maxlen <= dest.Length && NulFree(source)
    modifies dest
    ensures Holds(dest[..], at, Take(source, maxlen - 1)) && OnlyWithin(dest, at, at + maxlen)
  {
    var d := 0;
    while d < maxlen - 1 && CharAt(source, d) != '\0'
      invariant d <= |source| && d < maxlen
      invariant dest[at..at + d] == source[..d]
      invariant OnlyWithin(dest, at, at + maxlen)
    {
      Store(dest, at, d, source[d], source[..d]);
      assert source[..d] + [source[d]] == source[..d+1];
      d := d + 1;
    }
    dest[at + d] := '\0';
    assert Take(source, maxlen - 1) == source[..d];
    assert dest[at..at + d] == source[..d];
  }

  /** How one character is written between quotes. */
  function Piece(c: char): (r: string)
    ensures r != "" && (c != '\0' ==> NulFree(r))
  {
    if c == '\"' then "\\\"" else [c]
  }

  lemma EscapeAt(v: string, s: nat, room: nat)
    requires s < |v| && room >= |Piece(v[s])|
    ensures EscapeQuotes(v[s..], room) == Piece(v[s]) + EscapeQuotes(v[s+1..], room - |Piece(v[s])|)
  {
    assert v[s..][1..] == v[s+1..];
  }

  lemma EscapeEnds(v: string, room: nat)
    requires v == "" || room < |Piece(v[0])|
    ensures EscapeQuotes(v, room) == ""
  {
  }

  lemma {:induction false} EscapeNulFree(v: string, room: nat)
    requires NulFree(v)
    ensures NulFree(EscapeQuotes(v, room))
  {
    if v != "" && |Piece(v[0])| <= room {
      assert v[0..] == v;
      EscapeAt(v, 0, room);
      EscapeNulFree(v[1..], room - |Piece(v[0])|);
    } else {
      EscapeEnds(v, room);
    }
  }

  lemma Regroup(a: string, b: string, c: string)
    ensures (a + b) + c == a + (b + c)
  {
  }

  method StorePiece(b: array<char>, at: nat, d: nat, c: char, ghost t: string) returns (next: nat)
    requires at + d + |Piece(c)| <= b.Length && b[at..at + d] == t
    modifies b
    ensures next == d + |Piece(c)| && b[at..at + next] == t + Piece(c) && OnlyWithin(b, at + d, at + next)
  {
    next := d;
    if c == '\"' {
      Store(b, at, next, '\\', t);
      next := next + 1;
    }
    Store(b, at, next, c, b[at..at + next]);
    next := next + 1;
  }

  /** How far the copy is: t is written, and v[s..] is to be written into the room left. */
  ghost predicate Enquoting(v: string, maxlen: nat, s: nat, t: string)
  {
    && 3 <= maxlen && s <= |v| && 1 <= |t| <= maxlen - 2 && t[0] == '\"'
    && EscapeQuotes(v, maxlen - 3) == t[1..] + EscapeQuotes(v[s..], maxlen - 2 - |t|)
  }

  lemma EnquoteStart(v: string, maxlen: nat)
    requires maxlen >= 3
    ensures Enquoting(v, maxlen, 0, "\"")
  {
    assert v[0..] == v && "\""[1..] == "";
    assert "" + EscapeQuotes(v, maxlen - 3) == EscapeQuotes(v, maxlen - 3);
  }

  lemma EnquoteStep(v: string, maxlen: nat, s: nat, t: string)
    requires Enquoting(v, maxlen, s, t) && s < |v| && |t| + |Piece(v[s])| <= maxlen - 2
    ensures Enquoting(v, maxlen, s + 1, t + Piece(v[s]))
  {
    hide EscapeQuotes;
    var room := maxlen - 2 - |t|;
    EscapeAt(v, s, room);
    Regroup(t[1..], Piece(v[s]), EscapeQuotes(v[s+1..], room - |Piece(v[s])|));
    assert (t + Piece(v[s]))[1..] == t[1..] + Piece(v[s]);
  }

  lemma EnquoteEnd(v: string, maxlen: nat, s: nat, t: string)
    requires Enquoting(v, maxlen, s, t)
    requires s == |v| || |t| + |Piece(v[s])| > maxlen - 2
    ensures t == "\"" + EscapeQuotes(v, maxlen - 3)
  {
    EscapeEnds(v[s..], maxlen - 2 - |t|);
    assert t == "\"" + t[1..];
  }

  method CopyEnquoted(dest: array<char>, at: nat, source: string, maxlen: nat)
    requires maxlen >= 3 && at + maxlen <= dest.Length && NulFree(source)
    modifies dest
    ensures Holds(dest[..], at, "\"" + EscapeQuotes(source, maxlen - 3) + "\"") && OnlyWithin(dest, at, at + maxlen)
  {
    hide EscapeQuotes, Enquoting, Holds;
    var d, s := 0, 0;
    dest[at] := '\"';
    d := d + 1;
    ghost var t := "\"";
    EnquoteStart(source, maxlen);
    while CharAt(source, s) != '\0' && d < maxlen - 2
      invariant s <= |source| && 1 <= d == |t| <= maxlen - 2
      invariant dest[at..at + d] == t && OnlyWithin(dest, at, at + maxlen)
      invariant Enquoting(source, maxlen, s, t)
      decreases |source| - s
    {
      if source[s] == '\"' && d >= maxlen - 3 { break; }
      EnquoteStep(source, maxlen, s, t);
      d := StorePiece(dest, at, d, source[s], t);
      t := t + Piece(source[s]);
      s := s + 1;
    }
    EnquoteEnd(source, maxlen, s, t);
    EscapeNulFree(source, maxlen - 3);
    CloseQuotes(dest, at, d, t);
  }

  method CloseQuotes(b: array<char>, at: nat, d: nat, ghost t: string)
    requires at + d + 1 < b.Length && b[at..at + d] == t && NulFree(t)
    modifies b
    ensures Holds(b[..], at, t + "\"") && OnlyWithin(b, at + d, at + d + 2)
  {
    b[at + d] := '\"';
    b[at + d + 1] := '\0';
    assert b[at..at + d + 1] == t + "\"";
  }

  lemma DequoteStep(v: string)
    requires v != ""
    ensures var pair := (v[0] == '\"' || v[0] == '\\') && |v| > 1 && v[1] == '\"';
            Dequote(v) == if pair then ['\"'] + Dequote(v[2..]) else [v[0]] + Dequote(v[1..])
  {
  }

  /** The index of the character that is copied next. */
  function Unescaped(v: string, s: nat): (n: nat)
    requires s < |v|
    ensures s <= n < |v|
  {
    if (v[s] == '\"' || v[s] == '\\') && CharAt(v, s + 1) == '\"' then s + 1 else s
  }

  lemma DequoteAt(v: string, s: nat)
    requires s < |v|
    ensures var n := Unescaped(v, s); Dequote(v[s..]) == [v[n]] + Dequote(v[n+1..])
  {
    var rest := v[s..];
    assert rest[0] == v[s] && rest[1..] == v[s+1..];
    if |rest| > 1 { assert rest[1] == v[s+1] && rest[2..] == v[s+2..]; }
    DequoteStep(rest);
  }

  lemma DequoteEmpty()
    ensures Dequote("") == ""
  {
  }

  lemma {:induction false} DequoteNulFree(v: string)
    requires NulFree(v)
    ensures NulFree(Dequote(v))
  {
    if v != "" {
      DequoteStep(v);
      DequoteNulFree(v[1..]);
      if |v| > 1 { DequoteNulFree(v[2..]); }
    }
  }

  method CopyDequoted(dest: array<char>, at: nat, source: string, maxlen: nat)
    requires maxlen > 0 && at + maxlen <= dest.Length && NulFree(source)
    modifies dest
    ensures Holds(dest[..], at, Take(Dequote(source), maxlen - 1)) && OnlyWithin(dest, at, at + maxlen)
  {
    hide Dequote;
    var d, s := 0, 0;
    ghost var t := "";
    assert source[0..] == source;
    while CharAt(source, s) != '\0' && d < maxlen - 1
      invariant s <= |source| && d == |t| < maxlen
      invariant dest[at..at + d] == t
      invariant Dequote(source) == t + Dequote(source[s..])
      invariant OnlyWithin(dest, at, at + maxlen)
      decreases |source| - s
    {
      DequoteAt(source, s);
      if (source[s] == '\"' || source[s] == '\\') && CharAt(source, s + 1) == '\"' {
        s := s + 1;
      }
      Store(dest, at, d, source[s], t);
      Regroup(t, [source[s]], Dequote(source[s+1..]));
      t := t + [source[s]];
      s, d := s + 1, d + 1;
    }
    dest[at + d] := '\0';
    DequoteNulFree(source);
    assert Dequote(source) == t + Dequote(source[s..]);
    DequoteEmpty();
    assert s == |source| ==> source[s..] == "";
    assert Take(Dequote(source), maxlen - 1) == t;
    assert dest[at..at + d] == t;
  }

  /** ini_strncpy. */
  method Strncpy(dest: array<char>, at: nat, source: string, maxlen: nat, option: Quoting)
    requires maxlen > 0 && at + maxlen <= dest.Length && NulFree(source)
    modifies dest
    ensures Holds(dest[..], at, Strncpied(source, maxlen, option)) && OnlyWithin(dest, at, at + maxlen)
  {
    var quotes := if option == Enquote && maxlen < 3 then QuoteNone else option;
    match quotes
    case QuoteNone => CopyPlain(dest, at, source, maxlen);
    case Enquote => CopyEnquoted(dest, at, source, maxlen);
    case Dequoting => CopyDequoted(dest, at, source, maxlen);
  }

  // ---------------------------------------------------------------- cleanstring

  /** One round of the search for a comment. */
  lemma CutNext(s: string, k: nat, inString: bool)
    requires k < |s| && !((s[k] == ';' || s[k] == '#') && !inString)
    ensures var pair := (s[k] == '\"' || s[k] == '\\') && CharAt(s, k + 1) == '\"';
            var n := if pair then k + 2 else k + 1;
            n <= |s| && s[..k] + CutComment(s[k..], inString) ==
              s[..n] + CutComment(s[n..], if pair || s[k] != '\"' then inString else !inString)
  {
    var rest := s[k..];
    assert rest[0] == s[k] && rest[1..] == s[k+1..];
    if |rest| > 1 { assert rest[1] == s[k+1] && rest[2..] == s[k+2..] && s[..k] + rest[..2] == s[..k+2]; }
    assert s[..k] + [s[k]] == s[..k+1];
  }

  lemma CutEnds(s: string, inString: bool)
    requires s == "" || ((s[0] == ';' || s[0] == '#') && !inString)
    ensures CutComment(s, inString) == ""
  {
  }

  /** cleanstring: the text that is left, and whether quotes were taken off it. */
  method CleanString(b: array<char>, at: nat, ghost s: string)
    returns (p: nat, option: Quoting, ghost t: string)
    requires Holds(b[..], at, s)
    modifies b
    ensures option != Enquote && Holds(b[..], p, t)
    ensures CleanValue(s) == if option == Dequoting then Dequote(t) else t
  {
    hide CutComment, TrimEnd, Dequote, Holds;
    var ep := CommentAt(b, at, s);
    ghost var cut := Terminate(b, at, s, ep);
    ghost var trimmed := StripTrailing(b, at, cut);
    p, option, t := TakeQuotes(b, at, trimmed);
  }

  /** Cut the string short at ep. */
  method Terminate(b: array<char>, at: nat, ghost s: string, ep: nat) returns (ghost cut: string)
    requires Holds(b[..], at, s) && at <= ep <= at + |s|
    modifies b
    ensures cut == s[..ep - at] && Holds(b[..], at, cut)
  {
    b[ep] := '\0';
    cut := s[..ep - at];
    assert b[at..ep] == cut;
  }

  method StripTrailing(b: array<char>, at: nat, ghost s: string) returns (ghost t: string)
    requires Holds(b[..], at, s)
    modifies b
    ensures t == TrimEnd(s) && Holds(b[..], at, t)
  {
    var end := EndOf(b, at, s);
    assert b[at..end] == s;
    end := SkipTrailing(b, end, at);
    assert b[at..end] == s[..end - at];
    t := Terminate(b, at, s, end);
  }

  /** Remove the quotes around a value. */
  method TakeQuotes(b: array<char>, at: nat, ghost s: string) returns (p: nat, option: Quoting, ghost t: string)
    requires Holds(b[..], at, s)
    modifies b
    ensures Holds(b[..], p, t)
    ensures if s != "" && s[0] == '\"' && s[|s|-1] == '\"'
            then option == Dequoting && t == (if |s| == 1 then "" else s[1..|s|-1])
            else option == QuoteNone && t == s
  {
    p, option, t := at, QuoteNone, s;
    HoldsAt(b[..], at, s, 0);
    if b[p] == '\"' {
      var ep := EndOf(b, p, s);
      HoldsAt(b[..], at, s, |s| - 1);
      if b[ep-1] == '\"' {
        p := p + 1;
        ep := ep - 1;
        t := if |s| == 1 then "" else s[1..|s|-1];
        b[ep] := '\0';
        option := Dequoting;
        assert b[p..p + |t|] == t;
      }
    }
  }

  /** The search for the comment. */
  method CommentAt(b: array<char>, at: nat, ghost s: string) returns (ep: nat)
    requires Holds(b[..], at, s)
    ensures at <= ep <= at + |s| && CutComment(s, false) == s[..ep - at]
  {
    hide CutComment;
    var isString := false;
    ep := at;
    HoldsAt(b[..], at, s, 0);
    assert s[0..] == s && s[..0] == "" && "" + CutComment(s, false) == CutComment(s, false);
    while b[ep] != '\0' && ((b[ep] != ';' && b[ep] != '#') || isString)
      invariant at <= ep <= at + |s| && b[ep] == CharAt(s, ep - at)
      invariant CutComment(s, false) == s[..ep - at] + CutComment(s[ep - at..], isString)
      decreases at + |s| - ep
    {
      HoldsAt(b[..], at, s, ep - at + 1);
      CutNext(s, ep - at, isString);
      if b[ep+1] == '\"' && (b[ep] == '\"' || b[ep] == '\\') {
        ep := ep + 1;
      } else if b[ep] == '\"' {
        isString := !isString;
      }
      HoldsAt(b[..], at, s, ep - at + 1);
      ep := ep + 1;
    }
    CutEnds(s[ep - at..], isString);

  }
}
