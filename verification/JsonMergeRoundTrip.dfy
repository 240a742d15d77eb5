/** On keys for which case makes no difference, a generated merge patch, merged into the
    document it was generated from, gives the wanted document exactly when that document can
    be expressed as a merge at all. JsonMergeExact has the condition for all keys. */
module JsonMergeRoundTrip {
  import opened CString
  import opened JsonValue
  import opened ListSort
  import opened JsonCompare
  import opened JsonMerge

  // ---------------------------------------------------------------- keys for which case does not matter

  /** On these keys, ignoring case does not change the order: lower-case keys, for example. */
  ghost predicate CaseFree(keys: set<string>)
  {
    forall a, b :: a in keys && b in keys ==> (Less(Lower(a), Lower(b)) <==> Less(a, b))
  }

  predicate KeysWithin(j: Json, keys: set<string>)
  {
    match j
    case Array(items) => forall i :: 0 <= i < |items| ==> KeysWithin(items[i], keys)
    case Object(ms) => MembersWithin(ms, keys)
    case _ => true
  }

  predicate MembersWithin(ms: seq<Member>, keys: set<string>)
  {
    forall i :: 0 <= i < |ms| ==> ms[i].key in keys && KeysWithin(ms[i].value, keys)
  }

  lemma LowerCaseIsCaseFree(keys: set<string>)
    requires forall k :: k in keys ==> Lower(k) == k
    ensures CaseFree(keys)
  {
  }

  lemma SameKeys(keys: set<string>, a: string, b: string)
    requires CaseFree(keys) && a in keys && b in keys
    ensures CompareStrings(false, a, b) == CompareStrings(true, a, b)
    ensures Fold(false, a) == Fold(false, b) <==> a == b
  {
    LessTotal(a, b);
    LessTotal(Lower(a), Lower(b));
    StrcmpZero(a, b);
    StrcmpZero(Lower(a), Lower(b));
  }

  lemma {:induction false} SameMerge(keys: set<string>, a: seq<Member>, b: seq<Member>)
    requires CaseFree(keys) && MembersWithin(a, keys) && MembersWithin(b, keys)
    ensures Merge(KeyOf, false, a, b) == Merge(KeyOf, true, a, b)
    decreases |a| + |b|
  {
    if a != [] && b != [] {
      SameKeys(keys, a[0].key, b[0].key);
      SameMerge(keys, a[1..], b);
      SameMerge(keys, a, b[1..]);
    }
  }

  lemma {:induction false} SameSorted(keys: set<string>, s: seq<Member>)
    requires CaseFree(keys) && MembersWithin(s, keys)
    ensures Sorted(KeyOf, false, s) == Sorted(KeyOf, true, s)
    decreases |s|
  {
    forall i | 0 <= i < |s| - 1 ensures Compare(KeyOf, false, s[i], s[i+1]) == Compare(KeyOf, true, s[i], s[i+1]) {
      SameKeys(keys, s[i].key, s[i+1].key);
    }
    if |s| > 1 {
      var mid := (|s| + 1) / 2;
      var a, b := s[..mid], s[mid..];
      SameSorted(keys, a);
      SameSorted(keys, b);
      SortedWithin(keys, a);
      SortedWithin(keys, b);
      SameMerge(keys, SortedMembers(true, a), SortedMembers(true, b));
    }
  }

  lemma SortedWithin(keys: set<string>, s: seq<Member>)
    requires MembersWithin(s, keys)
    ensures forall cs :: MembersWithin(SortedMembers(cs, s), keys)
  {
    forall cs, i | 0 <= i < |s| ensures SortedMembers(cs, s)[i].key in keys && KeysWithin(SortedMembers(cs, s)[i].value, keys) {
      assert SortedMembers(cs, s)[i] in s;
    }
  }

  lemma {:induction false} SameCompare(keys: set<string>, a: Json, b: Json)
    requires CaseFree(keys) && KeysWithin(a, keys) && KeysWithin(b, keys)
    ensures CompareJson(false, a, b) == CompareJson(true, a, b)
    decreases a, 1
  {
    match (a, b)
    case (Array(xs), Array(ys)) => SamePairwise(keys, xs, ys);
    case (Object(ms), Object(ns)) =>
      SameSorted(keys, ms);
      SameSorted(keys, ns);
      SortedWithin(keys, ms);
      SortedWithin(keys, ns);
      SameCompareWalk(keys, SortedMembers(true, ms), SortedMembers(true, ns), a);
    case _ =>
  }

  lemma {:induction false} SamePairwise(keys: set<string>, xs: seq<Json>, ys: seq<Json>)
    requires CaseFree(keys)
    requires forall i :: 0 <= i < |xs| ==> KeysWithin(xs[i], keys)
    requires forall i :: 0 <= i < |ys| ==> KeysWithin(ys[i], keys)
    ensures ComparePairwise(false, xs, ys) == ComparePairwise(true, xs, ys)
    decreases xs, 0
  {
    if xs != [] && ys != [] {
      SameCompare(keys, xs[0], ys[0]);
      SamePairwise(keys, xs[1..], ys[1..]);
    }
  }

  lemma {:induction false} SameCompareWalk(keys: set<string>, ms: seq<Member>, ns: seq<Member>, whole: Json)
    requires CaseFree(keys) && MembersWithin(ms, keys) && MembersWithin(ns, keys)
    requires whole.Object? && forall m :: m in ms ==> m in whole.members
    ensures CompareWalk(false, ms, ns, whole) == CompareWalk(true, ms, ns, whole)
    decreases whole, 0, |ms|
  {
    if ms != [] && ns != [] {
      SameKeys(keys, ms[0].key, ns[0].key);
      MemberIsSmaller(whole, ms[0]);
      SameCompare(keys, ms[0].value, ns[0].value);
      SameCompareWalk(keys, ms[1..], ns[1..], whole);
    }
  }

  lemma {:induction false} SameGenerate(keys: set<string>, from: Json, to: Json)
    requires CaseFree(keys) && KeysWithin(from, keys) && KeysWithin(to, keys)
    ensures Generate(false, from, to) == Generate(true, from, to)
    decreases from, 1
  {
    if from.Object? && to.Object? {
      SameSorted(keys, from.members);
      SameSorted(keys, to.members);
      SortedWithin(keys, from.members);
      SortedWithin(keys, to.members);
      SameGenerateWalk(keys, SortedMembers(true, from.members), SortedMembers(true, to.members), from);
    }
  }

  lemma {:induction false} SameGenerateWalk(keys: set<string>, fs: seq<Member>, ts: seq<Member>, whole: Json)
    requires CaseFree(keys) && MembersWithin(fs, keys) && MembersWithin(ts, keys)
    requires whole.Object? && forall m :: m in fs ==> m in whole.members
    ensures GenerateWalk(false, fs, ts, whole) == GenerateWalk(true, fs, ts, whole)
    decreases whole, 0, |fs| + |ts|
  {
    if fs != [] || ts != [] {
      var diff := if fs == [] then 1 else if ts == [] then -1 else Strcmp(fs[0].key, ts[0].key);
      if diff < 0 {
        SameGenerateWalk(keys, fs[1..], ts, whole);
      } else if diff > 0 {
        SameGenerateWalk(keys, fs, ts[1..], whole);
      } else {
        SameCompare(keys, fs[0].value, ts[0].value);
        SameGenerateWalk(keys, fs[1..], ts[1..], whole);
      }
    }
  }

  lemma {:induction false} SameFind(keys: set<string>, ts: seq<Member>, k: string)
    requires CaseFree(keys) && MembersWithin(ts, keys) && k in keys
    ensures Find(false, ts, k) == Find(true, ts, k)
  {
    if ts != [] {
      SameKeys(keys, ts[0].key, k);
      SameFind(keys, ts[1..], k);
    }
  }

  lemma {:induction false} SameMergePatch(keys: set<string>, target: Option<Json>, patch: Json)
    requires CaseFree(keys) && (target.Some? ==> KeysWithin(target.value, keys)) && KeysWithin(patch, keys)
    ensures MergePatch(false, target, patch) == MergePatch(true, target, patch)
    ensures KeysWithin(MergePatch(true, target, patch), keys)
    decreases patch, 1
  {
    if patch.Object? {
      var start := if target.Some? && target.value.Object? then target.value.members else [];
      SameMergeMembers(keys, start, patch.members);
    }
  }

  lemma {:induction false} SameMergeMembers(keys: set<string>, ts: seq<Member>, ps: seq<Member>)
    requires CaseFree(keys) && MembersWithin(ts, keys) && MembersWithin(ps, keys)
    ensures MergeMembers(false, ts, ps) == MergeMembers(true, ts, ps)
    ensures MembersWithin(MergeMembers(true, ts, ps), keys)
    decreases ps, 0
  {
    if ps != [] {
      var k, v := ps[0].key, ps[0].value;
      SameFind(keys, ts, k);
      WithoutWithin(keys, ts, k);
      var rest, was := Without(true, ts, k), FoundValue(true, ts, k);
      if v.Null? {
        SameMergeMembers(keys, rest, ps[1..]);
      } else {
        SameMergePatch(keys, was, v);
        SameMergeMembers(keys, rest + [Member(k, MergePatch(true, was, v))], ps[1..]);
      }
    }
  }

  lemma WithoutWithin(keys: set<string>, ts: seq<Member>, k: string)
    requires MembersWithin(ts, keys)
    ensures MembersWithin(Without(true, ts, k), keys)
  {
    var i, us := Find(true, ts, k), Without(true, ts, k);
    forall a | 0 <= a < |us| ensures us[a].key in keys && KeysWithin(us[a].value, keys) {
      if i < |ts| { RemoveAtIndex(ts, i, a); }
    }
  }

  // ---------------------------------------------------------------- what is generated

  lemma GenStepRemove(f: map<string, Val>, t: map<string, Val>, k: string, v: Val)
    requires k !in f && k !in t
    ensures GenFields(f[k := v], t) == GenFields(f, t)[k := VNull]
  {
  }

  lemma GenStepAdd(f: map<string, Val>, t: map<string, Val>, k: string, w: Val)
    requires k !in f && k !in t
    ensures GenFields(f, t[k := w]) == GenFields(f, t)[k := w]
  {
  }

  lemma GenStepBoth(f: map<string, Val>, t: map<string, Val>, k: string, v: Val, w: Val)
    requires k !in f && k !in t
    ensures GenFields(f[k := v], t[k := w]) == if v == w then GenFields(f, t) else GenFields(f, t)[k := GenVal(v, w)]
  {
  }

  lemma GenNothing(f: map<string, Val>, t: map<string, Val>)
    ensures GenFields(f, t) == map[] <==> f == t
  {
    if GenFields(f, t) == map[] {
      assert forall k :: k in f.Keys + t.Keys ==> k !in GenFields(f, t);
    }
  }

  lemma TidyCons(m: Member, ms: seq<Member>)
    requires Tidy(true, ms) && DistinctKeys(true, m.value) && m.key !in View(true, ms)
    ensures Tidy(true, [m] + ms)
    ensures View(true, [m] + ms) == View(true, ms)[m.key := Abs(true, m.value)]
  {
    assert ([m] + ms)[1..] == ms;
    forall i | 0 <= i < |ms| ensures ms[i].key != m.key { ViewHas(true, ms, i); }
  }

  /** Generation computes GenVal; it returns nothing exactly for two equal objects. */
  lemma {:induction false} GenerateIsGen(keys: set<string>, from: Json, to: Json)
    requires CaseFree(keys) && KeysWithin(from, keys) && KeysWithin(to, keys)
    requires DistinctKeys(true, from) && DistinctKeys(true, to)
    ensures Generate(true, from, to).None? <==> from.Object? && to.Object? && Abs(true, from) == Abs(true, to)
    ensures var p := Generate(true, from, to);
            p.Some? ==> Abs(true, p.value) == GenVal(Abs(true, from), Abs(true, to))
                        && DistinctKeys(true, p.value) && KeysWithin(p.value, keys)
    decreases from, 1
  {
    if from.Object? && to.Object? {
      SortedReady(keys, from);
      SortedReady(keys, to);
      var fs, ts := SortedMembers(true, from.members), SortedMembers(true, to.members);
      GenerateWalkIsGen(keys, fs, ts, from);
      GenNothing(View(true, fs), View(true, ts));
      var ms := GenerateWalk(true, fs, ts, from);
      if ms != [] { ViewHas(true, ms, 0); }
    }
  }

  ghost predicate Ready(keys: set<string>, ms: seq<Member>)
  {
    StrictlyOrdered(KeyOf, true, ms) && MembersWithin(ms, keys) && forall m :: m in ms ==> DistinctKeys(true, m.value)
  }

  lemma SortedReady(keys: set<string>, j: Json)
    requires j.Object? && KeysWithin(j, keys) && DistinctKeys(true, j)
    ensures Ready(keys, SortedMembers(true, j.members))
    ensures View(true, SortedMembers(true, j.members)) == View(true, j.members)
  {
    SortedView(true, j.members);
    SortedWithin(keys, j.members);
  }

  lemma ReadyNext(keys: set<string>, ms: seq<Member>)
    requires Ready(keys, ms) && ms != []
    ensures Ready(keys, ms[1..]) && ms[0].key !in View(true, ms[1..])
    ensures View(true, ms) == View(true, ms[1..])[ms[0].key := Abs(true, ms[0].value)]
    ensures ms[0].key in keys && KeysWithin(ms[0].value, keys) && DistinctKeys(true, ms[0].value)
  {
    TailOrdered(true, ms);
  }

  ghost predicate Generated(keys: set<string>, fs: seq<Member>, ts: seq<Member>, ms: seq<Member>)
  {
    View(true, ms) == GenFields(View(true, fs), View(true, ts)) && Tidy(true, ms) && MembersWithin(ms, keys)
  }

  lemma {:induction false} GenerateWalkIsGen(keys: set<string>, fs: seq<Member>, ts: seq<Member>, whole: Json)
    requires CaseFree(keys) && Ready(keys, fs) && Ready(keys, ts)
    requires whole.Object? && forall m :: m in fs ==> m in whole.members
    ensures Generated(keys, fs, ts, GenerateWalk(true, fs, ts, whole))
    decreases whole, 0, |fs| + |ts|
  {
    if fs != [] || ts != [] {
      var diff := if fs == [] then 1 else if ts == [] then -1 else Strcmp(fs[0].key, ts[0].key);
      if diff < 0 {
        ReadyNext(keys, fs);
        FrontMissing(true, fs[0].key, ts);
        GenerateWalkIsGen(keys, fs[1..], ts, whole);
        GenStepRemove(View(true, fs[1..]), View(true, ts), fs[0].key, Abs(true, fs[0].value));
        TidyCons(Member(fs[0].key, Null), GenerateWalk(true, fs[1..], ts, whole));
      } else if diff > 0 {
        ReadyNext(keys, ts);
        if fs != [] { StrcmpSwap(fs[0].key, ts[0].key); }
        FrontMissing(true, ts[0].key, fs);
        GenerateWalkIsGen(keys, fs, ts[1..], whole);
        GenStepAdd(View(true, fs), View(true, ts[1..]), ts[0].key, Abs(true, ts[0].value));
        TidyCons(ts[0], GenerateWalk(true, fs, ts[1..], whole));
      } else {
        GenerateBothIsGen(keys, fs, ts, whole);
      }
    }
  }

  lemma {:induction false} GenerateBothIsGen(keys: set<string>, fs: seq<Member>, ts: seq<Member>, whole: Json)
    requires CaseFree(keys) && Ready(keys, fs) && Ready(keys, ts)
    requires whole.Object? && forall m :: m in fs ==> m in whole.members
    requires fs != [] && ts != [] && Strcmp(fs[0].key, ts[0].key) == 0
    ensures Generated(keys, fs, ts, GenerateWalk(true, fs, ts, whole))
    decreases whole, 0, |fs| + |ts|, 0
  {
    var f, t, rest := fs[0].value, ts[0].value, GenerateWalk(true, fs[1..], ts[1..], whole);
    StrcmpZero(fs[0].key, ts[0].key);
    ReadyNext(keys, fs);
    ReadyNext(keys, ts);
    MemberIsSmaller(whole, fs[0]);
    GenerateWalkIsGen(keys, fs[1..], ts[1..], whole);
    CompareJsonCorrect(true, f, t);
    GenStepBoth(View(true, fs[1..]), View(true, ts[1..]), fs[0].key, Abs(true, f), Abs(true, t));
    if Abs(true, f) != Abs(true, t) {
      SameGenerate(keys, f, t);
      GenerateIsGen(keys, f, t);
      TidyCons(Member(ts[0].key, Generate(true, f, t).value), rest);
    }
  }

  // ---------------------------------------------------------------- merging it back

  /** No null member below object members; nulls inside arrays are no harm. */
  predicate NoNulls(v: Val)
  {
    v.VObject? ==> forall k :: k in v.fields ==> !v.fields[k].VNull? && NoNulls(v.fields[k])
  }

  /** Null members of `to` are the same in `from`, or are never looked at because everything
      around them is the same. */
  predicate Expressible(from: Val, to: Val)
    decreases from
  {
    if !to.VObject? then true
    else if !from.VObject? then NoNulls(to)
    else forall k :: k in to.fields ==>
      if k !in from.fields then !to.fields[k].VNull? && NoNulls(to.fields[k])
      else to.fields[k] == from.fields[k] || (!to.fields[k].VNull? && Expressible(from.fields[k], to.fields[k]))
  }

  /** Merging into nothing drops null members, and only them. */
  lemma {:induction false} MergeIntoNothing(target: Option<Val>, v: Val)
    requires target.Some? ==> !target.value.VObject?
    ensures RfcMerge(target, v) == v <==> NoNulls(v)
    decreases v
  {
    if v.VObject? {
      var r := RfcMerge(target, v).fields;
      forall k | k in v.fields ensures RfcMerge(None, v.fields[k]) == v.fields[k] <==> NoNulls(v.fields[k]) {
        MergeIntoNothing(None, v.fields[k]);
      }
      assert forall k :: k in r <==> k in v.fields && !v.fields[k].VNull?;
      assert r == v.fields <==> forall k :: k in v.fields ==> k in r && r[k] == v.fields[k];
    }
  }

  /** Merging the generated value gives the wanted one exactly if that one is expressible. */
  lemma {:induction false} GenRoundTrip(from: Val, to: Val)
    ensures RfcMerge(Some(from), GenVal(from, to)) == to <==> Expressible(from, to)
    decreases from
  {
    if !to.VObject? {
    } else if !from.VObject? {
      MergeIntoNothing(Some(from), to);
    } else {
      var f, t := from.fields, to.fields;
      var r := RfcFields(f, GenFields(f, t));
      forall k | k in t
        ensures k in r && r[k] == t[k] <==>
                  if k !in f then !t[k].VNull? && NoNulls(t[k])
                  else t[k] == f[k] || (!t[k].VNull? && Expressible(f[k], t[k]))
      {
        if k !in f { MergeIntoNothing(None, t[k]); } else { GenRoundTrip(f[k], t[k]); }
      }
      assert forall k :: k in r ==> k in t;
      assert r == t <==> forall k :: k in t ==> k in r && r[k] == t[k];
    }
  }

  /** Whenever a merge patch is generated, merging it into a copy of `from` (in any member
      order) gives `to` exactly if `to` is expressible; none is generated exactly for equal
      objects. The keys must be ones on which ignoring case keeps the order. */
  lemma CaseFreeRoundTrip(generating: bool, merging: bool, from: Json, to: Json, copy: Json, keys: set<string>)
    requires CaseFree(keys) && KeysWithin(from, keys) && KeysWithin(to, keys) && KeysWithin(copy, keys)
    requires DistinctKeys(true, from) && DistinctKeys(true, to) && DistinctKeys(true, copy)
    requires Abs(true, copy) == Abs(true, from)
    ensures Generate(generating, from, to).None? <==> from.Object? && to.Object? && Abs(true, from) == Abs(true, to)
    ensures var p := Generate(generating, from, to);
            p.Some? ==>
              (Abs(true, MergePatch(merging, Some(copy), p.value)) == Abs(true, to)
               <==> Expressible(Abs(true, from), Abs(true, to)))
  {
    SameGenerate(keys, from, to);
    GenerateIsGen(keys, from, to);
    var p := Generate(true, from, to);
    if p.Some? {
      SameMergePatch(keys, Some(copy), p.value);
      MergePatchIsRfc(true, Some(copy), p.value);
      GenRoundTrip(Abs(true, from), Abs(true, to));
    }
  }

  lemma {:induction false} NoNullsIsExpressible(from: Val, to: Val)
    requires NoNulls(to)
    ensures Expressible(from, to)
    decreases from
  {
    if from.VObject? && to.VObject? {
      forall k | k in to.fields && k in from.fields ensures Expressible(from.fields[k], to.fields[k]) {
        NoNullsIsExpressible(from.fields[k], to.fields[k]);
      }
    }
  }

  /** The plain case: lower-case keys, and no null members in `to`. */
  lemma MergePatchRoundTripLower(generating: bool, merging: bool, from: Json, to: Json, keys: set<string>)
    requires forall k :: k in keys ==> Lower(k) == k
    requires KeysWithin(from, keys) && KeysWithin(to, keys)
    requires DistinctKeys(true, from) && DistinctKeys(true, to) && NoNulls(Abs(true, to))
    ensures var p := Generate(generating, from, to);
            p.Some? ==> Abs(true, MergePatch(merging, Some(from), p.value)) == Abs(true, to)
  {
    LowerCaseIsCaseFree(keys);
    NoNullsIsExpressible(Abs(true, from), Abs(true, to));
    CaseFreeRoundTrip(generating, merging, from, to, from, keys);
  }

  /** Upper-case letters spoil it: the members are sorted ignoring case and then walked by
      strcmp, so that the patch for {"a":1,"B":2} and {"B":2} sets B and removes it again. */
  lemma UpperCaseFails()
    ensures var from, to := Object([Member("a", Number(1)), Member("B", Number(2))]), Object([Member("B", Number(2))]);
            var patch := Object([Member("B", Number(2)), Member("a", Null), Member("B", Null)]);
            Generate(false, from, to) == Some(patch) && MergePatch(false, Some(from), patch) == Object([])
  {
    UpperCasePatch();
    UpperCaseMerge();
  }

  lemma UpperCasePatch()
    ensures var from, to := Object([Member("a", Number(1)), Member("B", Number(2))]), Object([Member("B", Number(2))]);
            var patch := Object([Member("B", Number(2)), Member("a", Null), Member("B", Null)]);
            Generate(false, from, to) == Some(patch)
  {
    var fs, ts := [Member("a", Number(1)), Member("B", Number(2))], [Member("B", Number(2))];
    var from := Object(fs);
    assert Lower("a") == "a" && Lower("B") == "b" && "a"[0] < "b"[0];
    assert Ascending(KeyOf, false, fs);
    assert SortedMembers(false, fs) == fs && SortedMembers(false, ts) == ts;
    UpperCaseWalk(fs, ts, from);
  }

  lemma UpperCaseWalk(fs: seq<Member>, ts: seq<Member>, from: Json)
    requires fs == [Member("a", Number(1)), Member("B", Number(2))] && ts == [Member("B", Number(2))] && from == Object(fs)
    ensures GenerateWalk(false, fs, ts, from) == [Member("B", Number(2)), Member("a", Null), Member("B", Null)]
  {
    hide CompareJson, Generate;
    assert "a"[0] > "B"[0] && Strcmp("a", "B") == 1;
    assert fs[1..] == [fs[1]] && fs[1..][1..] == [] && ts[1..] == [];
    assert GenerateWalk(false, [], [], from) == [];
    assert GenerateWalk(false, fs[1..], [], from) == [Member("B", Null)];
    assert GenerateWalk(false, fs, [], from) == [Member("a", Null)] + [Member("B", Null)];
  }

  lemma UpperCaseMerge()
    ensures var from := Object([Member("a", Number(1)), Member("B", Number(2))]);
            var patch := Object([Member("B", Number(2)), Member("a", Null), Member("B", Null)]);
            MergePatch(false, Some(from), patch) == Object([])
  {
    var fs := [Member("a", Number(1)), Member("B", Number(2))];
    var ps := [Member("B", Number(2)), Member("a", Null), Member("B", Null)];
    var left := [fs[1]];
    assert Lower("a")[0] == 'a' && Lower("B")[0] == 'b';
    assert Find(false, fs, "B") == 1 && Find(false, fs, "a") == 0 && Find(false, left, "B") == 0;
    assert RemoveAt(fs, 1) + [Member("B", Number(2))] == fs && RemoveAt(fs, 0) == left && RemoveAt(left, 0) == [];
    hide Find, RemoveAt;
    assert ps[1..] == [ps[1], ps[2]] && [ps[1], ps[2]][1..] == [ps[2]] && [ps[2]][1..] == [];
    assert MergeMembers(false, left, [ps[2]]) == MergeMembers(false, [], []);
    assert MergeMembers(false, fs, [ps[1], ps[2]]) == MergeMembers(false, left, [ps[2]]);
    assert MergeMembers(false, fs, ps) == MergeMembers(false, fs, [ps[1], ps[2]]);
  }
}
