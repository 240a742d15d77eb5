/** JSON Merge Patch (RFC 7396): merge_patch and generate_merge_patch of cJSON_Utils. */
module JsonMerge {
  import opened CString
  import opened JsonValue
  import opened ListSort
  import opened JsonCompare

  // ---------------------------------------------------------------- the standard

  /** The MergePatch function of section 2 of RFC 7396; None is an undefined target. */
  function RfcMerge(target: Option<Val>, patch: Val): Val
    decreases patch
  {
    if !patch.VObject? then patch
    else
      var was := if target.Some? && target.value.VObject? then target.value.fields else map[];
      VObject(map k | k in was.Keys + patch.fields.Keys && !(k in patch.fields && patch.fields[k].VNull?)
                :: if k in patch.fields then RfcMerge(if k in was then Some(was[k]) else None, patch.fields[k])
                   else was[k])
  }

  function AbsOption(cs: bool, j: Option<Json>): Option<Val>
  {
    if j.Some? then Some(Abs(cs, j.value)) else None
  }

  // ---------------------------------------------------------------- applying

  /** merge_patch; None is a NULL target. */
  function MergePatch(cs: bool, target: Option<Json>, patch: Json): Json
    decreases patch, 1
  {
    if !patch.Object? then patch
    else
      var start := if target.Some? && target.value.Object? then target.value.members else [];
      Object(MergeMembers(cs, start, patch.members))
  }

  /** The loop over the members of the patch. */
  function MergeMembers(cs: bool, ts: seq<Member>, ps: seq<Member>): seq<Member>
    decreases ps, 0
  {
    if ps == [] then ts
    else
      var value := ps[0].value;
      var was := FoundValue(cs, ts, ps[0].key);
      var rest := Without(cs, ts, ps[0].key);
      var next := if value.Null? then rest else rest + [Member(ps[0].key, MergePatch(cs, was, value))];
      MergeMembers(cs, next, ps[1..])
  }

  /** Detaching or deleting the member with a matching key, if there is one. */
  function Without(cs: bool, ts: seq<Member>, key: string): seq<Member>
  {
    var i := Find(cs, ts, key);
    if i < |ts| then RemoveAt(ts, i) else ts
  }

  function FoundValue(cs: bool, ts: seq<Member>, key: string): Option<Json>
  {
    var i := Find(cs, ts, key);
    if i < |ts| then Some(ts[i].value) else None
  }

  function RfcFields(was: map<string, Val>, patch: map<string, Val>): map<string, Val>
  {
    RfcMerge(Some(VObject(was)), VObject(patch)).fields
  }

  ghost predicate Tidy(cs: bool, ms: seq<Member>)
  {
    DistinctKeys(cs, Object(ms))
  }

  lemma TidyRemove(cs: bool, ts: seq<Member>, i: nat)
    requires Tidy(cs, ts) && i < |ts|
    ensures Tidy(cs, RemoveAt(ts, i))
    ensures View(cs, RemoveAt(ts, i)) == View(cs, ts) - {Fold(cs, ts[i].key)}
  {
    var us := RemoveAt(ts, i);
    forall a | 0 <= a < |us| ensures us[a] == ts[if a < i then a else a + 1] { RemoveAtIndex(ts, i, a); }
    ViewRemove(cs, ts, i);
  }

  lemma TidyAppend(cs: bool, ts: seq<Member>, m: Member)
    requires Tidy(cs, ts) && DistinctKeys(cs, m.value) && Fold(cs, m.key) !in View(cs, ts)
    ensures Tidy(cs, ts + [m])
    ensures View(cs, ts + [m]) == View(cs, ts)[Fold(cs, m.key) := Abs(cs, m.value)]
  {
    ViewAppend(cs, ts, m);
    forall i | 0 <= i < |ts| ensures Fold(cs, ts[i].key) != Fold(cs, m.key) { ViewHas(cs, ts, i); }
  }

  function MapGet(m: map<string, Val>, k: string): Option<Val>
  {
    if k in m then Some(m[k]) else None
  }

  /** One member of the patch, on maps. */
  function RfcNext(was: map<string, Val>, k: string, v: Val): map<string, Val>
  {
    if v.VNull? then was - {k} else was[k := RfcMerge(MapGet(was, k), v)]
  }

  lemma RfcStep(was: map<string, Val>, k: string, v: Val, patch: map<string, Val>)
    requires k !in patch
    ensures RfcFields(was, patch[k := v]) == RfcFields(RfcNext(was, k, v), patch)
  {
  }

  lemma WithoutKey(cs: bool, ts: seq<Member>, k: string)
    requires Tidy(cs, ts)
    ensures AbsOption(cs, FoundValue(cs, ts, k)) == MapGet(View(cs, ts), Fold(cs, k))
    ensures FoundValue(cs, ts, k).Some? ==> DistinctKeys(cs, FoundValue(cs, ts, k).value)
    ensures Tidy(cs, Without(cs, ts, k)) && View(cs, Without(cs, ts, k)) == View(cs, ts) - {Fold(cs, k)}
  {
    var i := Find(cs, ts, k);
    ViewFind(cs, ts, k);
    if i < |ts| { TidyRemove(cs, ts, i); }
  }

  /** merge_patch computes the standard's function on the members as a map, in either mode,
      and keeps sibling keys distinct. */
  lemma {:induction false} MergePatchIsRfc(cs: bool, target: Option<Json>, patch: Json)
    requires (target.Some? ==> DistinctKeys(cs, target.value)) && DistinctKeys(cs, patch)
    ensures Abs(cs, MergePatch(cs, target, patch)) == RfcMerge(AbsOption(cs, target), Abs(cs, patch))
    ensures DistinctKeys(cs, MergePatch(cs, target, patch))
    decreases patch, 1
  {
    if patch.Object? {
      var start := if target.Some? && target.value.Object? then target.value.members else [];
      assert Tidy(cs, start);
      MergeMembersIsRfc(cs, start, patch.members);
      assert RfcMerge(AbsOption(cs, target), Abs(cs, patch)) == VObject(RfcFields(View(cs, start), View(cs, patch.members)));
    }
  }

  lemma TidyTail(cs: bool, ps: seq<Member>)
    requires Tidy(cs, ps) && ps != []
    ensures Tidy(cs, ps[1..]) && DistinctKeys(cs, ps[0].value) && Fold(cs, ps[0].key) !in View(cs, ps[1..])
  {
    var us := ps[1..];
    assert forall i :: 0 <= i < |us| ==> us[i] == ps[i+1];
    if Fold(cs, ps[0].key) in View(cs, us) { ViewKeys(cs, us, Fold(cs, ps[0].key)); }
  }

  lemma {:induction false} MergeMembersIsRfc(cs: bool, ts: seq<Member>, ps: seq<Member>)
    requires Tidy(cs, ts) && Tidy(cs, ps)
    ensures View(cs, MergeMembers(cs, ts, ps)) == RfcFields(View(cs, ts), View(cs, ps))
    ensures Tidy(cs, MergeMembers(cs, ts, ps))
    decreases ps, 0
  {
    if ps == [] {
      assert RfcFields(View(cs, ts), map[]) == View(cs, ts);
    } else {
      var k, v := ps[0].key, ps[0].value;
      var rest := Without(cs, ts, k);
      TidyTail(cs, ps);
      WithoutKey(cs, ts, k);
      RfcStep(View(cs, ts), Fold(cs, k), Abs(cs, v), View(cs, ps[1..]));
      if v.Null? {
        MergeMembersIsRfc(cs, rest, ps[1..]);
      } else {
        MergePatchIsRfc(cs, FoundValue(cs, ts, k), v);
        NotNullAbs(cs, v);
        var m := Member(k, MergePatch(cs, FoundValue(cs, ts, k), v));
        TidyAppend(cs, rest, m);
        PutBack(View(cs, ts), Fold(cs, k), Abs(cs, m.value));
        MergeMembersIsRfc(cs, rest + [m], ps[1..]);
      }
    }
  }

  lemma NotNullAbs(cs: bool, j: Json)
    ensures Abs(cs, j).VNull? <==> j.Null?
  {
  }

  lemma PutBack(m: map<string, Val>, k: string, v: Val)
    ensures (m - {k})[k := v] == m[k := v]
  {
  }

  // ---------------------------------------------------------------- generating

  /** generate_merge_patch; None is the NULL returned when there is nothing to do. Members
      both sides have are compared in the given mode, but nested patches are generated by
      the public function, which ignores case. */
  function Generate(cs: bool, from: Json, to: Json): Option<Json>
    decreases from, 1
  {
    if !to.Object? || !from.Object? then Some(to)
    else
      var ms := GenerateWalk(cs, SortedMembers(cs, from.members), SortedMembers(cs, to.members), from);
      if ms == [] then None else Some(Object(ms))
  }

  /** The walk over both sorted lists; it goes by strcmp in either mode. */
  function GenerateWalk(cs: bool, fs: seq<Member>, ts: seq<Member>, ghost whole: Json): seq<Member>
    requires whole.Object? && forall m :: m in fs ==> m in whole.members
    decreases whole, 0, |fs| + |ts|
  {
    if fs == [] && ts == [] then []
    else
      var diff := if fs == [] then 1 else if ts == [] then -1 else Strcmp(fs[0].key, ts[0].key);
      if diff < 0 then [Member(fs[0].key, Null)] + GenerateWalk(cs, fs[1..], ts, whole)
      else if diff > 0 then [Member(ts[0].key, ts[0].value)] + GenerateWalk(cs, fs, ts[1..], whole)
      else
        MemberIsSmaller(whole, fs[0]);
        var nested := if CompareJson(cs, fs[0].value, ts[0].value) then None
                      else Generate(false, fs[0].value, ts[0].value);
        var rest := GenerateWalk(cs, fs[1..], ts[1..], whole);
        if nested.Some? then [Member(ts[0].key, nested.value)] + rest else rest
  }

  /** What generation computes, on values. */
  function GenVal(from: Val, to: Val): Val
    decreases from
  {
    if !to.VObject? || !from.VObject? then to
    else
      VObject(map k | k in from.fields.Keys + to.fields.Keys
                      && !(k in from.fields && k in to.fields && from.fields[k] == to.fields[k])
                :: if k !in to.fields then VNull
                   else if k !in from.fields then to.fields[k]
                   else GenVal(from.fields[k], to.fields[k]))
  }

  function GenFields(f: map<string, Val>, t: map<string, Val>): map<string, Val>
  {
    GenVal(VObject(f), VObject(t)).fields
  }
}
