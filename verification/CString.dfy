/** C strings as the JSON and INI code uses them: sequences of characters (a byte is a
    character below 256) without the terminating NUL. Key comparison is strcmp, or
    the tolower-based comparison of compare_strings when case is ignored. */
module CString {

  function ToLower(c: char): (r: char)
  {
    if 'A' <= c <= 'Z' then (c as int + 32) as char else c
  }

  function Lower(s: string): (r: string)
    ensures |r| == |s|
    ensures forall i :: 0 <= i < |s| ==> r[i] == ToLower(s[i])
  {
    seq(|s|, i requires 0 <= i < |s| => ToLower(s[i]))
  }

  /** The spelling under which a key is compared: itself, or folded to lower case. */
  function Fold(cs: bool, s: string): string
  {
    if cs then s else Lower(s)
  }

  /** The sign of strcmp. */
  function Strcmp(a: string, b: string): (r: int)
    ensures -1 <= r <= 1
  {
    if a == "" then (if b == "" then 0 else -1)
    else if b == "" then 1
    else if a[0] < b[0] then -1
    else if a[0] > b[0] then 1
    else Strcmp(a[1..], b[1..])
  }

  /** The sign of compare_strings for two non-NULL strings. */
  function CompareStrings(cs: bool, a: string, b: string): (r: int)
    ensures -1 <= r <= 1
  {
    Strcmp(Fold(cs, a), Fold(cs, b))
  }

  predicate Less(a: string, b: string)
  {
    Strcmp(a, b) < 0
  }

  lemma {:induction false} StrcmpZero(a: string, b: string)
    ensures Strcmp(a, b) == 0 <==> a == b
  {
    if a != "" && b != "" && a[0] == b[0] {
      StrcmpZero(a[1..], b[1..]);
      assert a == [a[0]] + a[1..] && b == [b[0]] + b[1..];
    }
  }

  lemma {:induction false} StrcmpSwap(a: string, b: string)
    ensures Strcmp(a, b) == -Strcmp(b, a)
  {
    if a != "" && b != "" && a[0] == b[0] {
      StrcmpSwap(a[1..], b[1..]);
    }
  }

  lemma {:induction false} LessTrans(a: string, b: string, c: string)
    requires Less(a, b) && Less(b, c)
    ensures Less(a, c)
  {
    if a != "" && a[0] == b[0] && b[0] == c[0] {
      LessTrans(a[1..], b[1..], c[1..]);
    }
  }

  /** strcmp is a strict total order whose ties are equal strings. */
  lemma LessTotal(a: string, b: string)
    ensures Less(a, b) || a == b || Less(b, a)
    ensures !(Less(a, b) && Less(b, a))
    ensures Less(a, b) ==> a != b
  {
    StrcmpZero(a, b);
    StrcmpSwap(a, b);
  }

  /** The first difference decides; a string comes behind its own beginnings. */
  lemma {:induction false} StrcmpExact(a: string, b: string, n: nat)
    requires n <= |a| && n <= |b| && a[..n] == b[..n]
    ensures n == |a| < |b| ==> Strcmp(a, b) == -1
    ensures n == |b| < |a| ==> Strcmp(a, b) == 1
    ensures n < |a| && n < |b| && a[n] < b[n] ==> Strcmp(a, b) == -1
    ensures n < |a| && n < |b| && a[n] > b[n] ==> Strcmp(a, b) == 1
    decreases n
  {
    if n > 0 {
      assert a[0] == a[..n][0] == b[..n][0] == b[0];
      assert a[1..][..n-1] == a[..n][1..] && b[1..][..n-1] == b[..n][1..];
      StrcmpExact(a[1..], b[1..], n - 1);
    }
  }

  /** Two characters fold alike exactly if they are the same, or one letter in both cases. */
  lemma FoldsAlike(a: char, b: char)
    ensures ToLower(a) == ToLower(b) <==>
              a == b || exists i :: 0 <= i < 26 && {a, b} == {"ABCDEFGHIJKLMNOPQRSTUVWXYZ"[i], "abcdefghijklmnopqrstuvwxyz"[i]}
  {
    var upper, lower := "ABCDEFGHIJKLMNOPQRSTUVWXYZ", "abcdefghijklmnopqrstuvwxyz";
    Alphabets();
    if a != b && ToLower(a) == ToLower(b) {
      var i := if 'A' <= a <= 'Z' then a as int - 'A' as int else b as int - 'A' as int;
      assert upper[i] as int == 'A' as int + i && lower[i] as int == 'a' as int + i;
      assert {a, b} == {upper[i], lower[i]};
    }
    forall i | 0 <= i < 26 && {a, b} == {upper[i], lower[i]} ensures ToLower(a) == ToLower(b) {
      assert ToLower(upper[i]) == lower[i] == ToLower(lower[i]);
      assert a in {upper[i], lower[i]} && b in {upper[i], lower[i]};
    }
  }

  lemma Alphabets()
    ensures forall i :: 0 <= i < 26 ==>
              && "ABCDEFGHIJKLMNOPQRSTUVWXYZ"[i] as int == 'A' as int + i
              && "abcdefghijklmnopqrstuvwxyz"[i] as int == 'a' as int + i
  {
  }

  lemma FoldIdempotent(cs: bool, a: string, b: string)
    ensures Fold(cs, a) == Fold(cs, b) ==> Lower(a) == Lower(b)
  {
  }

  /** The character a C reader sees at index i: NUL at the end of the string. */
  function CharAt(s: string, i: nat): char
    requires i <= |s|
  {
    if i < |s| then s[i] else '\0'
  }

  predicate NulFree(s: string)
  {
    forall i :: 0 <= i < |s| ==> s[i] != '\0'
  }

  /** The case-ignoring loop of compare_strings and case_insensitive_strcmp. */
  method CompareIgnoringCase(a: string, b: string) returns (r: int)
    requires NulFree(a) && NulFree(b)
    ensures r < 0 <==> CompareStrings(false, a, b) < 0
    ensures r == 0 <==> Lower(a) == Lower(b)
  {
    var i := 0;
    var x, y := Lower(a), Lower(b);
    assert x[0..] == x && y[0..] == y;
    while ToLower(CharAt(a, i)) == ToLower(CharAt(b, i))
      invariant i <= |a| && i <= |b|
      invariant x[..i] == y[..i]
      invariant Strcmp(x, y) == Strcmp(x[i..], y[i..])
      decreases |a| - i
    {
      if CharAt(a, i) == '\0' {
        assert i == |a| == |b|;
        StrcmpZero(x, y);
        return 0;
      }
      assert x[i..][1..] == x[i+1..] && y[i..][1..] == y[i+1..];
      i := i + 1;
    }
    StrcmpZero(x, y);
    r := ToLower(CharAt(a, i)) as int - ToLower(CharAt(b, i)) as int;
  }
}
