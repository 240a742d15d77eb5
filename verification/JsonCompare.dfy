/** The two structural comparisons: compare_json of cJSON_Utils, which sorts the members of
    both objects and walks them side by side, and cJSON_Compare, which looks every member up
    in the other object. */
module JsonCompare {
  import opened CString
  import opened JsonValue
  import opened ListSort

  function KeyOf(m: Member): string { m.key }

  function SortedMembers(cs: bool, ms: seq<Member>): (r: seq<Member>)
    ensures |r| == |ms|
    ensures forall m :: m in r <==> m in ms
  {
    SortedPermutes(KeyOf, cs, ms);
    var r := Sorted(KeyOf, cs, ms);
    assert forall m :: m in r <==> m in multiset(r);
    assert forall m :: m in ms <==> m in multiset(ms);
    r
  }

  /** compare_json on items of equal type; items of different type are unequal. */
  predicate CompareJson(cs: bool, a: Json, b: Json)
    decreases a, 1
  {
    match (a, b)
    case (Invalid, Invalid) => true
    case (Null, Null) => true
    case (False, False) => true
    case (True, True) => true
    case (Number(x), Number(y)) => x == y
    case (String(s), String(t)) => s == t
    case (Array(xs), Array(ys)) => ComparePairwise(cs, xs, ys)
    case (Object(ms), Object(ns)) => CompareWalk(cs, SortedMembers(cs, ms), SortedMembers(cs, ns), a)
    case _ => false
  }

  predicate ComparePairwise(cs: bool, xs: seq<Json>, ys: seq<Json>)
    decreases xs, 0
  {
    if xs == [] || ys == [] then xs == [] && ys == []
    else CompareJson(cs, xs[0], ys[0]) && ComparePairwise(cs, xs[1..], ys[1..])
  }

  predicate CompareWalk(cs: bool, ms: seq<Member>, ns: seq<Member>, ghost whole: Json)
    requires whole.Object? && forall m :: m in ms ==> m in whole.members
    decreases whole, 0, |ms|
  {
    if ms == [] || ns == [] then ms == [] && ns == []
    else
      assert ms[0] in whole.members;
      ghost var i :| 0 <= i < |whole.members| && whole.members[i] == ms[0];
      assert whole.members[i].value == ms[0].value;
      && CompareStrings(cs, ms[0].key, ns[0].key) == 0
      && CompareJson(cs, ms[0].value, ns[0].value)
      && CompareWalk(cs, ms[1..], ns[1..], whole)
  }

  ghost function Size(j: Json): (n: nat)
    ensures n > 0
    decreases j, 1
  {
    match j
    case Array(items) => 1 + SizeItems(items)
    case Object(ms) => 1 + SizeMembers(ms)
    case _ => 1
  }

  ghost function SizeItems(items: seq<Json>): (n: nat)
    ensures forall x :: x in items ==> Size(x) <= n
    decreases items, 0
  {
    if items == [] then 0 else Size(items[0]) + SizeItems(items[1..])
  }

  ghost function SizeMembers(ms: seq<Member>): (n: nat)
    ensures forall m :: m in ms ==> Size(m.value) <= n
    decreases ms, 0
  {
    if ms == [] then 0 else Size(ms[0].value) + SizeMembers(ms[1..])
  }

  /** cJSON_Compare: an Invalid item is equal to nothing. */
  predicate CompareItems(cs: bool, a: Json, b: Json)
    decreases Size(a) + Size(b)
  {
    match (a, b)
    case (Null, Null) => true
    case (False, False) => true
    case (True, True) => true
    case (Number(x), Number(y)) => x == y
    case (String(s), String(t)) => s == t
    case (Array(xs), Array(ys)) =>
      |xs| == |ys| && forall i :: 0 <= i < |xs| ==> CompareItems(cs, xs[i], ys[i])
    case (Object(ms), Object(ns)) =>
      LookupAll(cs, ms, ns) && LookupAll(cs, ns, ms)
    case _ => false
  }

  predicate LookupAll(cs: bool, ms: seq<Member>, ns: seq<Member>)
    decreases SizeMembers(ms) + SizeMembers(ns) + 1
  {
    forall i :: 0 <= i < |ms| ==>
      var j := Find(cs, ns, ms[i].key);
      j < |ns| && CompareItems(cs, ms[i].value, ns[j].value)
  }

  lemma SortedView(cs: bool, ms: seq<Member>)
    requires Distinct(cs, ms)
    ensures StrictlyOrdered(KeyOf, cs, SortedMembers(cs, ms))
    ensures Distinct(cs, SortedMembers(cs, ms))
    ensures View(cs, SortedMembers(cs, ms)) == View(cs, ms)
  {
    assert NoTies(KeyOf, cs, ms);
    SortedStrict(KeyOf, cs, ms);
    NoTiesPermuted(KeyOf, cs, ms, SortedMembers(cs, ms));
    ViewPermutation(cs, ms, SortedMembers(cs, ms));
  }

  lemma FrontMissing(cs: bool, k: string, ns: seq<Member>)
    requires StrictlyOrdered(KeyOf, cs, ns)
    requires ns != [] ==> Less(k, Fold(cs, ns[0].key))
    ensures k !in View(cs, ns)
  {
    if k in View(cs, ns) {
      ViewKeys(cs, ns, k);
      var i :| 0 <= i < |ns| && Fold(cs, ns[i].key) == k;
      StrcmpZero(k, k);
      if i > 0 {
        assert Compare(KeyOf, cs, ns[0], ns[i]) < 0;
        LessTotal(k, Fold(cs, ns[0].key));
      }
      assert false;
    }
  }

  lemma TailOrdered(cs: bool, ms: seq<Member>)
    requires StrictlyOrdered(KeyOf, cs, ms) && ms != []
    ensures StrictlyOrdered(KeyOf, cs, ms[1..])
    ensures Fold(cs, ms[0].key) !in View(cs, ms[1..])
  {
    if |ms| > 1 { assert Compare(KeyOf, cs, ms[0], ms[1]) < 0; }
    FrontMissing(cs, Fold(cs, ms[0].key), ms[1..]);
  }

  /** compare_json decides equality up to the order of members. */
  lemma {:induction false} CompareJsonCorrect(cs: bool, a: Json, b: Json)
    requires DistinctKeys(cs, a) && DistinctKeys(cs, b)
    ensures CompareJson(cs, a, b) <==> Abs(cs, a) == Abs(cs, b)
    decreases a, 1
  {
    match (a, b)
    case (Array(xs), Array(ys)) => ComparePairwiseCorrect(cs, xs, ys);
    case (Object(ms), Object(ns)) =>
      SortedView(cs, ms);
      SortedView(cs, ns);
      CompareWalkCorrect(cs, SortedMembers(cs, ms), SortedMembers(cs, ns), a);
    case _ =>
  }

  lemma {:induction false} ComparePairwiseCorrect(cs: bool, xs: seq<Json>, ys: seq<Json>)
    requires forall i :: 0 <= i < |xs| ==> DistinctKeys(cs, xs[i])
    requires forall i :: 0 <= i < |ys| ==> DistinctKeys(cs, ys[i])
    ensures ComparePairwise(cs, xs, ys) <==> AbsAll(cs, xs) == AbsAll(cs, ys)
    decreases xs, 0
  {
    if xs != [] && ys != [] {
      CompareJsonCorrect(cs, xs[0], ys[0]);
      ComparePairwiseCorrect(cs, xs[1..], ys[1..]);
      assert AbsAll(cs, xs)[1..] == AbsAll(cs, xs[1..]) && AbsAll(cs, ys)[1..] == AbsAll(cs, ys[1..]);
    }
  }

  lemma {:induction false} CompareWalkCorrect(cs: bool, ms: seq<Member>, ns: seq<Member>, whole: Json)
    requires whole.Object? && DistinctKeys(cs, whole) && forall m :: m in ms ==> m in whole.members
    requires forall m :: m in ns ==> DistinctKeys(cs, m.value)
    requires StrictlyOrdered(KeyOf, cs, ms) && StrictlyOrdered(KeyOf, cs, ns)
    ensures CompareWalk(cs, ms, ns, whole) <==> View(cs, ms) == View(cs, ns)
    decreases whole, 0, |ms|
  {
    if ms == [] || ns == [] {
      if ms != [] { ViewHas(cs, ms, 0); }
      if ns != [] { ViewHas(cs, ns, 0); }
    } else {
      var k, l := Fold(cs, ms[0].key), Fold(cs, ns[0].key);
      StrcmpZero(k, l);
      StrcmpSwap(k, l);
      if k == l {
        TailOrdered(cs, ms);
        TailOrdered(cs, ns);
        MemberIsSmaller(whole, ms[0]);
        CompareJsonCorrect(cs, ms[0].value, ns[0].value);
        CompareWalkCorrect(cs, ms[1..], ns[1..], whole);
        SameExtension(View(cs, ms[1..]), View(cs, ns[1..]), k, Abs(cs, ms[0].value), Abs(cs, ns[0].value));
      } else {
        ViewHas(cs, ms, 0);
        ViewHas(cs, ns, 0);
        if Less(k, l) { FrontMissing(cs, k, ns); } else { FrontMissing(cs, l, ms); }
      }
    }
  }

  lemma MemberIsSmaller(whole: Json, m: Member)
    requires whole.Object? && m in whole.members
    ensures whole decreases to m.value
    ensures forall cs :: DistinctKeys(cs, whole) ==> DistinctKeys(cs, m.value)
  {
    var i :| 0 <= i < |whole.members| && whole.members[i] == m;
    assert whole.members[i].value == m.value;
  }

  lemma SameExtension(a: map<string, Val>, b: map<string, Val>, k: string, v: Val, w: Val)
    requires k !in a && k !in b
    ensures a[k := v] == b[k := w] <==> a == b && v == w
  {
    assert a[k := v] - {k} == a && b[k := w] - {k} == b;
    assert a[k := v][k] == v && b[k := w][k] == w;
  }

  /** cJSON_Compare decides the same equality. */
  lemma {:induction false} CompareItemsCorrect(cs: bool, a: Json, b: Json)
    requires DistinctKeys(cs, a) && DistinctKeys(cs, b) && Valid(a) && Valid(b)
    ensures CompareItems(cs, a, b) <==> Abs(cs, a) == Abs(cs, b)
    decreases Size(a) + Size(b)
  {
    match (a, b)
    case (Array(xs), Array(ys)) =>
      forall i, j | 0 <= i < |xs| && 0 <= j < |ys| ensures Agree(cs, xs[i], ys[j]) {
        CompareItemsCorrect(cs, xs[i], ys[j]);
      }
      ArraysAgree(cs, xs, ys);
    case (Object(ms), Object(ns)) =>
      forall i, j | 0 <= i < |ms| && 0 <= j < |ns|
        ensures Agree(cs, ms[i].value, ns[j].value) && Agree(cs, ns[j].value, ms[i].value)
      {
        CompareItemsCorrect(cs, ms[i].value, ns[j].value);
        CompareItemsCorrect(cs, ns[j].value, ms[i].value);
      }
      ObjectsAgree(cs, ms, ns);
    case _ =>
  }

  ghost predicate Agree(cs: bool, a: Json, b: Json)
  {
    CompareItems(cs, a, b) <==> Abs(cs, a) == Abs(cs, b)
  }

  lemma ArraysAgree(cs: bool, xs: seq<Json>, ys: seq<Json>)
    requires forall i, j :: 0 <= i < |xs| && 0 <= j < |ys| ==> Agree(cs, xs[i], ys[j])
    ensures Agree(cs, Array(xs), Array(ys))
  {
    var u, v := AbsAll(cs, xs), AbsAll(cs, ys);
    assert u == v <==> |xs| == |ys| && forall i :: 0 <= i < |xs| ==> u[i] == v[i];
    assert forall i :: 0 <= i < |xs| && i < |ys| ==> Agree(cs, xs[i], ys[i]);
  }

  lemma LookupsAgree(cs: bool, ms: seq<Member>, ns: seq<Member>)
    requires forall i, j :: 0 <= i < |ms| && 0 <= j < |ns| ==> Agree(cs, ms[i].value, ns[j].value)
    ensures LookupAll(cs, ms, ns) <==> AllFound(cs, ms, ns)
  {
    forall i | 0 <= i < |ms| && Find(cs, ns, ms[i].key) < |ns|
      ensures Agree(cs, ms[i].value, ns[Find(cs, ns, ms[i].key)].value)
    {
    }
  }

  lemma ObjectsAgree(cs: bool, ms: seq<Member>, ns: seq<Member>)
    requires Distinct(cs, ms) && Distinct(cs, ns)
    requires forall i, j :: 0 <= i < |ms| && 0 <= j < |ns| ==>
               Agree(cs, ms[i].value, ns[j].value) && Agree(cs, ns[j].value, ms[i].value)
    ensures Agree(cs, Object(ms), Object(ns))
  {
    LookupsAgree(cs, ms, ns);
    LookupsAgree(cs, ns, ms);
    LookupsDecide(cs, ms, ns);
  }

  ghost predicate AllFound(cs: bool, ms: seq<Member>, ns: seq<Member>)
  {
    forall i :: 0 <= i < |ms| ==>
      var j := Find(cs, ns, ms[i].key);
      j < |ns| && Abs(cs, ms[i].value) == Abs(cs, ns[j].value)
  }

  ghost predicate Submap(m: map<string, Val>, n: map<string, Val>)
  {
    forall k :: k in m ==> k in n && m[k] == n[k]
  }

  lemma FoundIsSubmap(cs: bool, ms: seq<Member>, ns: seq<Member>)
    requires Distinct(cs, ms) && AllFound(cs, ms, ns)
    ensures Submap(View(cs, ms), View(cs, ns))
  {
    hide View, Abs, Fold;
    forall k | k in View(cs, ms) ensures k in View(cs, ns) && View(cs, ms)[k] == View(cs, ns)[k] {
      ViewKeys(cs, ms, k);
      var i :| 0 <= i < |ms| && Fold(cs, ms[i].key) == k;
      ViewAt(cs, ms, i);
      ViewFind(cs, ns, ms[i].key);
    }
  }

  lemma SubmapIsFound(cs: bool, ms: seq<Member>, ns: seq<Member>)
    requires Distinct(cs, ms) && Submap(View(cs, ms), View(cs, ns))
    ensures AllFound(cs, ms, ns)
  {
    hide View, Abs, Fold;
    forall i | 0 <= i < |ms|
      ensures var j := Find(cs, ns, ms[i].key); j < |ns| && Abs(cs, ms[i].value) == Abs(cs, ns[j].value)
    {
      ViewAt(cs, ms, i);
      ViewFind(cs, ns, ms[i].key);
    }
  }

  lemma AllFoundIsSubmap(cs: bool, ms: seq<Member>, ns: seq<Member>)
    requires Distinct(cs, ms) && Distinct(cs, ns)
    ensures AllFound(cs, ms, ns) <==> Submap(View(cs, ms), View(cs, ns))
  {
    hide View, Distinct, AllFound, Submap;
    if AllFound(cs, ms, ns) { FoundIsSubmap(cs, ms, ns); }
    if Submap(View(cs, ms), View(cs, ns)) { SubmapIsFound(cs, ms, ns); }
  }

  lemma LookupsDecide(cs: bool, ms: seq<Member>, ns: seq<Member>)
    requires Distinct(cs, ms) && Distinct(cs, ns)
    ensures AllFound(cs, ms, ns) && AllFound(cs, ns, ms) <==> View(cs, ms) == View(cs, ns)
  {
    AllFoundIsSubmap(cs, ms, ns);
    AllFoundIsSubmap(cs, ns, ms);
  }

  /** The two comparisons agree on every pair of documents with distinct sibling keys. */
  lemma ComparisonsAgree(cs: bool, a: Json, b: Json)
    requires DistinctKeys(cs, a) && DistinctKeys(cs, b) && Valid(a) && Valid(b)
    ensures CompareJson(cs, a, b) <==> CompareItems(cs, a, b)
  {
    CompareJsonCorrect(cs, a, b);
    CompareItemsCorrect(cs, a, b);
  }

  // ---------------------------------------------------------------- repeated keys

  /** compare_json finds every document equal to a copy of itself. */
  lemma {:induction false} CompareSelf(cs: bool, a: Json)
    ensures CompareJson(cs, a, a)
    decreases a, 1
  {
    hide SortedMembers;
    match a
    case Array(xs) => PairwiseSelf(cs, xs);
    case Object(ms) => WalkSelf(cs, SortedMembers(cs, ms), a);
    case _ =>
  }

  lemma {:induction false} PairwiseSelf(cs: bool, xs: seq<Json>)
    ensures ComparePairwise(cs, xs, xs)
    decreases xs, 0
  {
    if xs != [] {
      CompareSelf(cs, xs[0]);
      PairwiseSelf(cs, xs[1..]);
    }
  }

  lemma {:induction false} WalkSelf(cs: bool, ms: seq<Member>, whole: Json)
    requires whole.Object? && forall m :: m in ms ==> m in whole.members
    ensures CompareWalk(cs, ms, ms, whole)
    decreases whole, 0, |ms|
  {
    if ms != [] {
      MemberIsSmaller(whole, ms[0]);
      CompareSelf(cs, ms[0].value);
      StrcmpZero(Fold(cs, ms[0].key), Fold(cs, ms[0].key));
      WalkSelf(cs, ms[1..], whole);
    }
  }

  /** cJSON_Compare does so, for an object with repeated keys, exactly if all values under
      one key are equal. (It says yes without looking when it is given one item twice.) */
  lemma RepeatedKeys(cs: bool, ms: seq<Member>)
    requires forall i :: 0 <= i < |ms| ==> DistinctKeys(cs, ms[i].value) && Valid(ms[i].value)
    ensures CompareJson(cs, Object(ms), Object(ms))
    ensures CompareItems(cs, Object(ms), Object(ms)) <==> OneValueEach(cs, ms)
  {
    CompareSelf(cs, Object(ms));
    forall i, j | 0 <= i < |ms| && 0 <= j < |ms| ensures Agree(cs, ms[i].value, ms[j].value) {
      CompareItemsCorrect(cs, ms[i].value, ms[j].value);
    }
    hide CompareJson, Abs, Fold, Agree, DistinctKeys, Valid;
    LookupsAgree(cs, ms, ms);
    ItemsAreLookups(cs, ms);
    FoundAlike(cs, ms);
  }

  lemma ItemsAreLookups(cs: bool, ms: seq<Member>)
    ensures CompareItems(cs, Object(ms), Object(ms)) <==> LookupAll(cs, ms, ms)
  {
    hide LookupAll;
  }

  /** All values under one key are equal. */
  ghost predicate OneValueEach(cs: bool, ms: seq<Member>)
  {
    forall i, j :: 0 <= i < j < |ms| && Fold(cs, ms[i].key) == Fold(cs, ms[j].key) ==>
      Abs(cs, ms[i].value) == Abs(cs, ms[j].value)
  }

  lemma FoundAlike(cs: bool, ms: seq<Member>)
    ensures AllFound(cs, ms, ms) <==> OneValueEach(cs, ms)
  {
    hide AllFound, OneValueEach;
    if AllFound(cs, ms, ms) { FoundIsOne(cs, ms); }
    if OneValueEach(cs, ms) { OneIsFound(cs, ms); }
  }

  lemma FoundIsOne(cs: bool, ms: seq<Member>)
    requires AllFound(cs, ms, ms)
    ensures OneValueEach(cs, ms)
  {
    hide Abs, Fold, Find;
    forall i, j | 0 <= i < j < |ms| && Fold(cs, ms[i].key) == Fold(cs, ms[j].key)
      ensures Abs(cs, ms[i].value) == Abs(cs, ms[j].value)
    {
      SameFound(cs, ms, ms[i].key, ms[j].key);
    }
  }

  lemma OneIsFound(cs: bool, ms: seq<Member>)
    requires OneValueEach(cs, ms)
    ensures AllFound(cs, ms, ms)
  {
    hide Abs, Fold, Find;
    forall i | 0 <= i < |ms|
      ensures var j := Find(cs, ms, ms[i].key); j < |ms| && Abs(cs, ms[i].value) == Abs(cs, ms[j].value)
    {
      var j := Find(cs, ms, ms[i].key);
      assert j <= i;
    }
  }

  lemma {:induction false} SameFound(cs: bool, ms: seq<Member>, k: string, l: string)
    requires Fold(cs, k) == Fold(cs, l)
    ensures Find(cs, ms, k) == Find(cs, ms, l)
  {
    if ms != [] { SameFound(cs, ms[1..], k, l); }
  }
}
