/** The order sort_list puts a child list in: a merge sort by key that returns a strictly
    sorted list as it is and prefers the second half on ties. It is stated over any kind of
    list element, so that it serves both value trees and linked nodes. */
module ListSort {
  import opened CString

  function Compare<T>(key: T -> string, cs: bool, a: T, b: T): int
  {
    CompareStrings(cs, key(a), key(b))
  }

  /** The test sort_list makes first: every neighbour is strictly greater. */
  predicate Ascending<T>(key: T -> string, cs: bool, s: seq<T>)
  {
    forall i :: 0 <= i < |s| - 1 ==> Compare(key, cs, s[i], s[i+1]) < 0
  }

  predicate Ordered<T>(key: T -> string, cs: bool, s: seq<T>)
  {
    forall i, j :: 0 <= i < j < |s| ==> Compare(key, cs, s[i], s[j]) <= 0
  }

  predicate StrictlyOrdered<T>(key: T -> string, cs: bool, s: seq<T>)
  {
    forall i, j :: 0 <= i < j < |s| ==> Compare(key, cs, s[i], s[j]) < 0
  }

  predicate NoTies<T>(key: T -> string, cs: bool, s: seq<T>)
  {
    forall i, j :: 0 <= i < j < |s| ==> Fold(cs, key(s[i])) != Fold(cs, key(s[j]))
  }

  function Merge<T>(key: T -> string, cs: bool, a: seq<T>, b: seq<T>): (r: seq<T>)
    ensures |r| == |a| + |b|
    decreases |a| + |b|
  {
    if a == [] then b
    else if b == [] then a
    else if Compare(key, cs, a[0], b[0]) < 0 then [a[0]] + Merge(key, cs, a[1..], b)
    else [b[0]] + Merge(key, cs, a, b[1..])
  }

  function Sorted<T>(key: T -> string, cs: bool, s: seq<T>): (r: seq<T>)
    ensures |r| == |s|
    decreases |s|
  {
    if |s| <= 1 || Ascending(key, cs, s) then s
    else
      var mid := (|s| + 1) / 2;
      Merge(key, cs, Sorted(key, cs, s[..mid]), Sorted(key, cs, s[mid..]))
  }

  /** The definitions as facts, for proofs that hide the functions. */
  lemma MergeIs<T>(key: T -> string, cs: bool, a: seq<T>, b: seq<T>)
    ensures Merge(key, cs, a, b) ==
              if a == [] then b
              else if b == [] then a
              else if Compare(key, cs, a[0], b[0]) < 0 then [a[0]] + Merge(key, cs, a[1..], b)
              else [b[0]] + Merge(key, cs, a, b[1..])
  {
    hide Compare;
  }

  lemma SortedIs<T>(key: T -> string, cs: bool, s: seq<T>)
    ensures Sorted(key, cs, s) ==
              if |s| <= 1 || Ascending(key, cs, s) then s
              else
                var mid := (|s| + 1) / 2;
                Merge(key, cs, Sorted(key, cs, s[..mid]), Sorted(key, cs, s[mid..]))
  {
    hide Ascending, Merge;
  }

  lemma {:induction false} MergePermutes<T>(key: T -> string, cs: bool, a: seq<T>, b: seq<T>)
    ensures multiset(Merge(key, cs, a, b)) == multiset(a) + multiset(b)
    decreases |a| + |b|
  {
    hide Merge, Compare;
    MergeIs(key, cs, a, b);
    if a != [] && b != [] {
      if Compare(key, cs, a[0], b[0]) < 0 {
        MergePermutes(key, cs, a[1..], b);
        assert a == [a[0]] + a[1..];
      } else {
        MergePermutes(key, cs, a, b[1..]);
        assert b == [b[0]] + b[1..];
      }
    }
  }

  lemma {:induction false} SortedPermutes<T>(key: T -> string, cs: bool, s: seq<T>)
    ensures multiset(Sorted(key, cs, s)) == multiset(s)
    decreases |s|
  {
    hide Sorted, Merge, Ascending;
    SortedIs(key, cs, s);
    if !(|s| <= 1 || Ascending(key, cs, s)) {
      var mid := (|s| + 1) / 2;
      var a, b := s[..mid], s[mid..];
      SortedPermutes(key, cs, a);
      SortedPermutes(key, cs, b);
      MergePermutes(key, cs, Sorted(key, cs, a), Sorted(key, cs, b));
      assert s == a + b;
    }
  }

  lemma CompareTrans<T>(key: T -> string, cs: bool, a: T, b: T, c: T)
    requires Compare(key, cs, a, b) <= 0 && Compare(key, cs, b, c) <= 0
    ensures Compare(key, cs, a, c) <= 0
    ensures Compare(key, cs, a, b) < 0 || Compare(key, cs, b, c) < 0 ==> Compare(key, cs, a, c) < 0
  {
    var x, y, z := Fold(cs, key(a)), Fold(cs, key(b)), Fold(cs, key(c));
    StrcmpZero(x, y);
    StrcmpZero(y, z);
    if x != y && y != z { LessTrans(x, y, z); }
  }

  lemma {:induction false} AscendingIsStrict<T>(key: T -> string, cs: bool, s: seq<T>)
    requires Ascending(key, cs, s)
    ensures StrictlyOrdered(key, cs, s)
  {
    if |s| > 1 {
      var t := s[1..];
      forall i | 0 <= i < |t| - 1 ensures Compare(key, cs, t[i], t[i+1]) < 0 {
        assert t[i] == s[i+1] && t[i+1] == s[i+2];
        assert Compare(key, cs, s[i+1], s[i+1+1]) < 0;
      }
      AscendingIsStrict(key, cs, t);
      forall i, j | 0 <= i < j < |s| ensures Compare(key, cs, s[i], s[j]) < 0 {
        if i > 0 {
          assert s[i] == t[i-1] && s[j] == t[j-1];
        } else if j > 1 {
          assert s[1] == t[0] && s[j] == t[j-1];
          CompareTrans(key, cs, s[0], s[1], s[j]);
        }
      }
    }
  }

  predicate NotBelow<T>(key: T -> string, cs: bool, x: T, s: seq<T>)
  {
    forall i :: 0 <= i < |s| ==> Compare(key, cs, x, s[i]) <= 0
  }

  lemma OrderedCons<T>(key: T -> string, cs: bool, x: T, s: seq<T>)
    requires Ordered(key, cs, s) && NotBelow(key, cs, x, s)
    ensures Ordered(key, cs, [x] + s)
  {
    var r := [x] + s;
    forall i, j | 0 <= i < j < |r| ensures Compare(key, cs, r[i], r[j]) <= 0 {
      assert r[j] == s[j-1];
      if i > 0 { assert r[i] == s[i-1]; }
    }
  }

  lemma OrderedTail<T>(key: T -> string, cs: bool, s: seq<T>)
    requires Ordered(key, cs, s)
    ensures s != [] ==> Ordered(key, cs, s[1..])
  {
  }

  lemma {:induction false} MergeOrders<T>(key: T -> string, cs: bool, a: seq<T>, b: seq<T>)
    requires Ordered(key, cs, a) && Ordered(key, cs, b)
    ensures Ordered(key, cs, Merge(key, cs, a, b))
    decreases |a| + |b|
  {
    hide Merge, Compare, Ordered, NotBelow;
    MergeIs(key, cs, a, b);
    OrderedTail(key, cs, a);
    OrderedTail(key, cs, b);
    if a != [] && b != [] {
      if Compare(key, cs, a[0], b[0]) < 0 {
        MergeOrders(key, cs, a[1..], b);
        MergeNotBelow(key, cs, a[0], a[1..], b, a, b);
        OrderedCons(key, cs, a[0], Merge(key, cs, a[1..], b));
      } else {
        MergeOrders(key, cs, a, b[1..]);
        MergeNotBelow(key, cs, b[0], a, b[1..], a, b);
        OrderedCons(key, cs, b[0], Merge(key, cs, a, b[1..]));
      }
    }
  }

  lemma MergeNotBelow<T>(key: T -> string, cs: bool, x: T, a': seq<T>, b': seq<T>, a: seq<T>, b: seq<T>)
    requires a != [] && b != [] && Ordered(key, cs, a) && Ordered(key, cs, b)
    requires forall e :: e in a' ==> e in a
    requires forall e :: e in b' ==> e in b
    requires x == if Compare(key, cs, a[0], b[0]) < 0 then a[0] else b[0]
    ensures NotBelow(key, cs, x, Merge(key, cs, a', b'))
  {
    MergePermutes(key, cs, a', b');
    var r := Merge(key, cs, a', b');
    forall i | 0 <= i < |r| ensures Compare(key, cs, x, r[i]) <= 0 {
      assert r[i] in multiset(r);
      FrontIsLeast(key, cs, a, b, r[i]);
    }
  }

  lemma FrontIsLeast<T>(key: T -> string, cs: bool, a: seq<T>, b: seq<T>, e: T)
    requires a != [] && b != [] && Ordered(key, cs, a) && Ordered(key, cs, b)
    requires e in a || e in b
    ensures Compare(key, cs, a[0], b[0]) < 0 ==> Compare(key, cs, a[0], e) <= 0
    ensures Compare(key, cs, a[0], b[0]) >= 0 ==> Compare(key, cs, b[0], e) <= 0
  {
    StrcmpSwap(Fold(cs, key(a[0])), Fold(cs, key(b[0])));
    StrcmpZero(Fold(cs, key(e)), Fold(cs, key(e)));
    if e in a {
      var i :| 0 <= i < |a| && a[i] == e;
      assert i == 0 || Compare(key, cs, a[0], e) <= 0;
      if Compare(key, cs, a[0], b[0]) >= 0 { CompareTrans(key, cs, b[0], a[0], e); }
    } else {
      var i :| 0 <= i < |b| && b[i] == e;
      assert i == 0 || Compare(key, cs, b[0], e) <= 0;
      if Compare(key, cs, a[0], b[0]) < 0 { CompareTrans(key, cs, a[0], b[0], e); }
    }
  }

  lemma {:induction false} SortedOrders<T>(key: T -> string, cs: bool, s: seq<T>)
    ensures Ordered(key, cs, Sorted(key, cs, s))
    decreases |s|
  {
    hide Merge, Sorted;
    SortedIs(key, cs, s);
    if |s| > 1 {
      if Ascending(key, cs, s) {
        AscendingIsStrict(key, cs, s);
      } else {
        var mid := (|s| + 1) / 2;
        SortedOrders(key, cs, s[..mid]);
        SortedOrders(key, cs, s[mid..]);
        MergeOrders(key, cs, Sorted(key, cs, s[..mid]), Sorted(key, cs, s[mid..]));
      }
    }
  }

  lemma {:induction false} CountDistinct<T>(s: seq<T>, e: T)
    requires forall i, j :: 0 <= i < j < |s| ==> s[i] != s[j]
    ensures multiset(s)[e] <= 1
  {
    if s != [] {
      CountDistinct(s[1..], e);
      assert s == [s[0]] + s[1..];
      if s[0] == e { assert e !in s[1..]; }
    }
  }

  lemma CountTwice<T>(s: seq<T>, i: nat, j: nat)
    requires i < j < |s| && s[i] == s[j]
    ensures multiset(s)[s[i]] >= 2
  {
    assert s == s[..j] + s[j..];
    assert s[i] in s[..j] && s[i] in s[j..] by { assert s[..j][i] == s[i] && s[j..][0] == s[j]; }
    assert s[i] in multiset(s[..j]) && s[i] in multiset(s[j..]);
  }

  lemma NoTiesPermuted<T>(key: T -> string, cs: bool, a: seq<T>, b: seq<T>)
    requires NoTies(key, cs, a) && multiset(a) == multiset(b)
    ensures NoTies(key, cs, b)
  {
    forall i, j | 0 <= i < j < |b| ensures Fold(cs, key(b[i])) != Fold(cs, key(b[j])) {
      assert b[i] in multiset(b) && b[j] in multiset(b);
      var x :| 0 <= x < |a| && a[x] == b[i];
      var y :| 0 <= y < |a| && a[y] == b[j];
      if x == y {
        CountTwice(b, i, j);
        CountDistinct(a, b[i]);
        assert false;
      }
    }
  }

  /** A list without ties is sorted into the one strictly ordered arrangement of its elements. */
  lemma SortedStrict<T>(key: T -> string, cs: bool, s: seq<T>)
    requires NoTies(key, cs, s)
    ensures StrictlyOrdered(key, cs, Sorted(key, cs, s))
    ensures multiset(Sorted(key, cs, s)) == multiset(s)
  {
    SortedOrders(key, cs, s);
    SortedPermutes(key, cs, s);
    var r := Sorted(key, cs, s);
    NoTiesPermuted(key, cs, s, r);
    forall i, j | 0 <= i < j < |r| ensures Compare(key, cs, r[i], r[j]) < 0 {
      StrcmpZero(Fold(cs, key(r[i])), Fold(cs, key(r[j])));
    }
  }
}
