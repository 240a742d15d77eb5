/** Exactly when a generated merge patch, merged into the document it was generated from, gives
    the wanted document, whatever the spelling of the keys and the mode of either side. */
module JsonMergeExact {
  import opened CString
  import opened JsonValue
  import opened ListSort
  import opened JsonCompare
  import opened JsonMerge
  import opened JsonMergeRoundTrip

  /** What the two documents have to be like: null members cannot be asked for, and where
      two objects are walked, see WalkMerges. */
  predicate MergesBack(gen: bool, mer: bool, from: Json, to: Json)
    decreases from, 1
  {
    if !to.Object? then true
    else if !from.Object? then NoNulls(Abs(mer, to))
    else WalkMerges(gen, mer, SortedMembers(gen, from.members), SortedMembers(gen, to.members), from)
  }

  /** Along the strcmp walk over the two sorted lists: where a key of `to` is passed alone, its
      value holds no null members and no matching key of `from` is still to come, which would
      remove it again; where the same key is met on both sides, two values that generation
      takes for equal are so for the comparison at the end, and others merge back. */
  predicate WalkMerges(gen: bool, mer: bool, fs: seq<Member>, ts: seq<Member>, ghost whole: Json)
    requires whole.Object? && forall m :: m in fs ==> m in whole.members
    decreases whole, 0, |fs| + |ts|
  {
    if fs == [] && ts == [] then true
    else
      var diff := if fs == [] then 1 else if ts == [] then -1 else Strcmp(fs[0].key, ts[0].key);
      if diff < 0 then WalkMerges(gen, mer, fs[1..], ts, whole)
      else if diff > 0 then
        && !ts[0].value.Null? && NoNulls(Abs(mer, ts[0].value)) && Find(mer, fs, ts[0].key) == |fs|
        && WalkMerges(gen, mer, fs, ts[1..], whole)
      else
        MemberIsSmaller(whole, fs[0]);
        && (if CompareJson(gen, fs[0].value, ts[0].value) then CompareJson(mer, fs[0].value, ts[0].value)
            else !ts[0].value.Null? && MergesBack(false, mer, fs[0].value, ts[0].value))
        && WalkMerges(gen, mer, fs[1..], ts[1..], whole)
  }

  /** Merging a generated patch, if there is one. */
  function Merged(mer: bool, target: Json, patch: Option<Json>): Json
  {
    if patch.None? then target else MergePatch(mer, Some(target), patch.value)
  }

  // ---------------------------------------------------------------- patches with repeated keys

  /** Generated patches can name a member twice; only what is inside arrays must be tidy. */
  predicate Mergeable(cs: bool, p: Json)
  {
    if p.Object? then forall i :: 0 <= i < |p.members| ==> Mergeable(cs, p.members[i].value) else DistinctKeys(cs, p)
  }

  lemma {:induction false} DistinctIsMergeable(cs: bool, j: Json)
    requires DistinctKeys(cs, j)
    ensures Mergeable(cs, j)
  {
    if j.Object? {
      forall i | 0 <= i < |j.members| ensures Mergeable(cs, j.members[i].value) { DistinctIsMergeable(cs, j.members[i].value); }
    }
  }

  ghost predicate AllMergeable(cs: bool, ps: seq<Member>)
  {
    forall i :: 0 <= i < |ps| ==> Mergeable(cs, ps[i].value)
  }

  lemma {:induction false} MergeKeepsDistinct(cs: bool, target: Option<Json>, p: Json)
    requires (target.Some? ==> DistinctKeys(cs, target.value)) && Mergeable(cs, p)
    ensures DistinctKeys(cs, MergePatch(cs, target, p))
    decreases p, 1
  {
    if p.Object? {
      var start := if target.Some? && target.value.Object? then target.value.members else [];
      assert Tidy(cs, start);
      MembersKeepTidy(cs, start, p.members);
    }
  }

  lemma {:induction false} MembersKeepTidy(cs: bool, us: seq<Member>, ps: seq<Member>)
    requires Tidy(cs, us) && AllMergeable(cs, ps)
    ensures Tidy(cs, MergeMembers(cs, us, ps))
    decreases ps, 0
  {
    hide Tidy, Mergeable;
    if ps != [] {
      var next := MergeOne(cs, us, ps[0]);
      MembersKeepTidy(cs, next, ps[1..]);
    }
  }

  /** What one patch member does. */
  lemma {:induction false} MergeOne(cs: bool, us: seq<Member>, p: Member) returns (next: seq<Member>)
    requires Tidy(cs, us) && Mergeable(cs, p.value)
    ensures Tidy(cs, next)
    ensures p.value.Null? ==> next == Without(cs, us, p.key) && View(cs, next) == View(cs, us) - {Fold(cs, p.key)}
    ensures !p.value.Null? ==>
              var v := MergePatch(cs, FoundValue(cs, us, p.key), p.value);
              && next == Without(cs, us, p.key) + [Member(p.key, v)]
              && View(cs, next) == View(cs, us)[Fold(cs, p.key) := Abs(cs, v)]
    ensures AbsOption(cs, FoundValue(cs, us, p.key)) == MapGet(View(cs, us), Fold(cs, p.key))
    ensures FoundValue(cs, us, p.key).Some? ==> DistinctKeys(cs, FoundValue(cs, us, p.key).value)
    decreases p.value, 2
  {
    hide Tidy, Mergeable, Without, FoundValue, View, Abs, MergePatch, Fold;
    WithoutKey(cs, us, p.key);
    next := Without(cs, us, p.key);
    if !p.value.Null? {
      var v := MergePatch(cs, FoundValue(cs, us, p.key), p.value);
      MergeKeepsDistinct(cs, FoundValue(cs, us, p.key), p.value);
      TidyAppend(cs, next, Member(p.key, v));
      PutBack(View(cs, us), Fold(cs, p.key), Abs(cs, v));
      next := next + [Member(p.key, v)];
    }
  }

  /** The patch generated from a tidy document is mergeable. */
  lemma {:induction false} GenerateMergeable(gen: bool, mer: bool, from: Json, to: Json)
    requires DistinctKeys(mer, to)
    ensures var p := Generate(gen, from, to); p.Some? ==> Mergeable(mer, p.value)
    decreases from, 1
  {
    hide SortedMembers, GenerateWalk;
    if to.Object? && from.Object? {
      var fs, ts := SortedMembers(gen, from.members), SortedMembers(gen, to.members);
      forall t | t in ts ensures DistinctKeys(mer, t.value) { MemberIsSmaller(to, t); }
      WalkMergeable(gen, mer, fs, ts, from);
    } else {
      DistinctIsMergeable(mer, to);
    }
  }

  lemma MergeableCons(cs: bool, p: Member, ps: seq<Member>)
    requires Mergeable(cs, p.value) && AllMergeable(cs, ps)
    ensures AllMergeable(cs, [p] + ps)
  {
    hide Mergeable;
    forall i | 0 <= i < |ps| + 1 ensures Mergeable(cs, ([p] + ps)[i].value) {
      if i > 0 { assert ([p] + ps)[i] == ps[i-1]; }
    }
  }

  lemma {:induction false} WalkMergeable(gen: bool, mer: bool, fs: seq<Member>, ts: seq<Member>, whole: Json)
    requires whole.Object? && forall m :: m in fs ==> m in whole.members
    requires forall t :: t in ts ==> DistinctKeys(mer, t.value)
    ensures AllMergeable(mer, GenerateWalk(gen, fs, ts, whole))
    decreases whole, 0, |fs| + |ts|
  {
    hide DistinctKeys, Mergeable, CompareJson, Generate, AllMergeable;
    if fs == [] && ts == [] {
      NoneMergeable(mer);
    } else {
      var diff := if fs == [] then 1 else if ts == [] then -1 else Strcmp(fs[0].key, ts[0].key);
      if diff < 0 {
        WalkMergeable(gen, mer, fs[1..], ts, whole);
        NullMergeable(mer);
        MergeableCons(mer, Member(fs[0].key, Null), GenerateWalk(gen, fs[1..], ts, whole));
      } else if diff > 0 {
        WalkMergeable(gen, mer, fs, ts[1..], whole);
        DistinctIsMergeable(mer, ts[0].value);
        MergeableCons(mer, ts[0], GenerateWalk(gen, fs, ts[1..], whole));
      } else {
        MemberIsSmaller(whole, fs[0]);
        GenerateMergeable(false, mer, fs[0].value, ts[0].value);
        WalkMergeable(gen, mer, fs[1..], ts[1..], whole);
        var p := Generate(false, fs[0].value, ts[0].value);
        if p.Some? { MergeableCons(mer, Member(ts[0].key, p.value), GenerateWalk(gen, fs[1..], ts[1..], whole)); }
      }
    }
  }

  lemma NoneMergeable(cs: bool)
    ensures AllMergeable(cs, [])
  {
  }

  lemma NullMergeable(cs: bool)
    ensures Mergeable(cs, Null)
  {
  }

  // ---------------------------------------------------------------- keys a patch does not name

  /** Members that no patch member matches stay as they are. */
  lemma {:induction false} OthersKept(cs: bool, us: seq<Member>, ps: seq<Member>, k: string)
    requires Tidy(cs, us) && AllMergeable(cs, ps) && k !in View(cs, ps)
    ensures MapGet(View(cs, MergeMembers(cs, us, ps)), k) == MapGet(View(cs, us), k)
    decreases |ps|
  {
    hide Tidy, Mergeable, Without, FoundValue, Abs, MergePatch, Fold;
    if ps != [] {
      var next := MergeOne(cs, us, ps[0]);
      OthersKept(cs, next, ps[1..], k);
    }
  }

  /** A patch names only keys of the two objects. */
  lemma {:induction false} WalkNames(gen: bool, cs: bool, fs: seq<Member>, ts: seq<Member>, whole: Json)
    requires whole.Object? && forall m :: m in fs ==> m in whole.members
    ensures View(cs, GenerateWalk(gen, fs, ts, whole)).Keys <= View(cs, fs).Keys + View(cs, ts).Keys
    decreases |fs| + |ts|
  {
    hide CompareJson, Generate, Abs, Fold;
    if fs != [] || ts != [] {
      var diff := if fs == [] then 1 else if ts == [] then -1 else Strcmp(fs[0].key, ts[0].key);
      if diff < 0 {
        WalkNames(gen, cs, fs[1..], ts, whole);
        NamesCons(cs, Member(fs[0].key, Null), GenerateWalk(gen, fs[1..], ts, whole));
      } else if diff > 0 {
        WalkNames(gen, cs, fs, ts[1..], whole);
        NamesCons(cs, ts[0], GenerateWalk(gen, fs, ts[1..], whole));
      } else {
        WalkNames(gen, cs, fs[1..], ts[1..], whole);
        var p := Generate(false, fs[0].value, ts[0].value);
        if p.Some? { NamesCons(cs, Member(ts[0].key, p.value), GenerateWalk(gen, fs[1..], ts[1..], whole)); }
      }
    }
  }

  lemma NamesCons(cs: bool, p: Member, ps: seq<Member>)
    ensures View(cs, [p] + ps) == View(cs, ps)[Fold(cs, p.key) := Abs(cs, p.value)]
  {
    assert ([p] + ps)[1..] == ps;
  }

  // ---------------------------------------------------------------- one level

  /** Members with distinct keys, whatever the case, and tidy values. */
  ghost predicate Neat(ms: seq<Member>)
  {
    Distinct(false, ms) && forall m :: m in ms ==> DistinctKeys(false, m.value)
  }

  lemma NeatTail(cs: bool, ms: seq<Member>)
    requires Neat(ms) && ms != []
    ensures Neat(ms[1..]) && DistinctKeys(false, ms[0].value) && DistinctKeys(cs, ms[0].value)
    ensures View(cs, ms) == View(cs, ms[1..])[Fold(cs, ms[0].key) := Abs(cs, ms[0].value)]
    ensures Fold(cs, ms[0].key) !in View(cs, ms[1..])
  {
    hide Abs;
    var k, tail := Fold(cs, ms[0].key), ms[1..];
    assert ms[0] in ms;
    if cs { DistinctModes(ms[0].value); }
    forall i | 0 <= i < |tail| ensures Fold(cs, tail[i].key) != k {
      assert tail[i] == ms[i+1];
      FoldIdempotent(cs, tail[i].key, ms[0].key);
    }
    if k in View(cs, tail) { ViewKeys(cs, tail, k); }
  }

  lemma NeatMergeable(cs: bool, ms: seq<Member>)
    requires Neat(ms)
    ensures forall m :: m in ms ==> DistinctKeys(cs, m.value)
  {
    forall m | m in ms ensures DistinctKeys(cs, m.value) { if cs { DistinctModes(m.value); } }
  }

  /** A key that is neither in the rest of `from` nor in the rest of `to` is settled. */
  lemma SettledKept(gen: bool, mer: bool, us: seq<Member>, fs: seq<Member>, ts: seq<Member>, whole: Json, k: string)
    requires whole.Object? && forall m :: m in fs ==> m in whole.members
    requires Tidy(mer, us) && Neat(ts) && k !in View(mer, fs) && k !in View(mer, ts)
    ensures MapGet(View(mer, MergeMembers(mer, us, GenerateWalk(gen, fs, ts, whole))), k) == MapGet(View(mer, us), k)
  {
    hide Tidy, Neat, View, AllMergeable, GenerateWalk, MergeMembers;
    NeatMergeable(mer, ts);
    WalkMergeable(gen, mer, fs, ts, whole);
    WalkNames(gen, mer, fs, ts, whole);
    OthersKept(mer, us, GenerateWalk(gen, fs, ts, whole), k);
  }

  /** The walk from its first patch member on. */
  lemma MergeFirst(cs: bool, us: seq<Member>, p: Member, ps: seq<Member>, next: seq<Member>)
    requires next == if p.value.Null? then Without(cs, us, p.key)
                     else Without(cs, us, p.key) + [Member(p.key, MergePatch(cs, FoundValue(cs, us, p.key), p.value))]
    ensures MergeMembers(cs, us, [p] + ps) == MergeMembers(cs, next, ps)
  {
    hide Without, FoundValue, MergePatch;
    assert ([p] + ps)[1..] == ps;
  }

  /** A key of `from` that `to` has not, or has no more, is gone in the end. */
  lemma {:induction false} Nulled(gen: bool, mer: bool, us: seq<Member>, fs: seq<Member>, ts: seq<Member>, whole: Json, k: string)
    requires whole.Object? && forall m :: m in fs ==> m in whole.members
    requires Tidy(mer, us) && Neat(fs) && Neat(ts) && k in View(mer, fs) && k !in View(mer, ts)
    ensures k !in View(mer, MergeMembers(mer, us, GenerateWalk(gen, fs, ts, whole)))
    decreases |fs| + |ts|
  {
    hide Tidy, Neat, View, Abs, Fold, CompareJson, Generate, Mergeable, MergeMembers, Without, FoundValue;
    NotEmpty(mer, fs, k);
    NeatTail(mer, fs);
    var diff := if ts == [] then -1 else Strcmp(fs[0].key, ts[0].key);
    if ts != [] { NeatTail(mer, ts); StrcmpZero(fs[0].key, ts[0].key); NeatMergeable(mer, ts); }
    if diff < 0 {
      var p, rest := Member(fs[0].key, Null), GenerateWalk(gen, fs[1..], ts, whole);
      NullMergeable(mer);
      var next := MergeOne(mer, us, p);
      MergeFirst(mer, us, p, rest, next);
      if Fold(mer, fs[0].key) == k { SettledKept(gen, mer, next, fs[1..], ts, whole, k); }
      else { Nulled(gen, mer, next, fs[1..], ts, whole, k); }
    } else if diff > 0 {
      var rest := GenerateWalk(gen, fs, ts[1..], whole);
      DistinctIsMergeable(mer, ts[0].value);
      var next := MergeOne(mer, us, ts[0]);
      MergeFirst(mer, us, ts[0], rest, next);
      Nulled(gen, mer, next, fs, ts[1..], whole, k);
    } else {
      var rest := GenerateWalk(gen, fs[1..], ts[1..], whole);
      var p := Generate(false, fs[0].value, ts[0].value);
      if !CompareJson(gen, fs[0].value, ts[0].value) && p.Some? {
        GenerateMergeable(false, mer, fs[0].value, ts[0].value);
        var next := MergeOne(mer, us, Member(ts[0].key, p.value));
        MergeFirst(mer, us, Member(ts[0].key, p.value), rest, next);
        Nulled(gen, mer, next, fs[1..], ts[1..], whole, k);
      } else {
        Nulled(gen, mer, us, fs[1..], ts[1..], whole, k);
      }
    }
  }

  lemma NotEmpty(cs: bool, ms: seq<Member>, k: string)
    requires k in View(cs, ms)
    ensures ms != []
  {
  }

  /** While the lists are walked: the document still has what is left of `from`, and what is
      done already of `to`. */
  ghost predicate Between(mer: bool, us: seq<Member>, fs: seq<Member>, ts: seq<Member>, done: map<string, Val>)
  {
    && Tidy(mer, us) && Neat(fs) && Neat(ts)
    && View(mer, us) == View(mer, fs) + done
    && View(mer, fs).Keys !! done.Keys && View(mer, ts).Keys !! done.Keys
  }

  ghost predicate ComesTo(gen: bool, mer: bool, us: seq<Member>, fs: seq<Member>, ts: seq<Member>, whole: Json, goal: map<string, Val>)
    requires whole.Object? && forall m :: m in fs ==> m in whole.members
  {
    View(mer, MergeMembers(mer, us, GenerateWalk(gen, fs, ts, whole))) == goal
  }

  lemma {:induction false} WalkExact(gen: bool, mer: bool, us: seq<Member>, fs: seq<Member>, ts: seq<Member>, whole: Json,
                                     done: map<string, Val>)
    requires whole.Object? && forall m :: m in fs ==> m in whole.members
    requires Between(mer, us, fs, ts, done)
    ensures ComesTo(gen, mer, us, fs, ts, whole, View(mer, ts) + done) <==> WalkMerges(gen, mer, fs, ts, whole)
    decreases whole, 0, |fs| + |ts|, 1
  {
    hide CompareJson, Generate, Between, View, MergesBack, NoNulls, Fold, Abs;
    if fs == [] && ts == [] {
      WalkEnds(gen, mer, us, whole, done);
    } else {
      var diff := if fs == [] then 1 else if ts == [] then -1 else Strcmp(fs[0].key, ts[0].key);
      if diff < 0 {
        WalkNull(gen, mer, us, fs, ts, whole, done);
      } else if diff > 0 {
        WalkSet(gen, mer, us, fs, ts, whole, done);
      } else {
        WalkMeet(gen, mer, us, fs, ts, whole, done);
      }
    }
  }

  lemma WalkEnds(gen: bool, mer: bool, us: seq<Member>, whole: Json, done: map<string, Val>)
    requires whole.Object? && Between(mer, us, [], [], done)
    ensures ComesTo(gen, mer, us, [], [], whole, View(mer, []) + done)
  {
    assert GenerateWalk(gen, [], [], whole) == [];
    assert MergeMembers(mer, us, []) == us;
    assert View(mer, []) == map[];
  }

  lemma {:induction false} WalkNull(gen: bool, mer: bool, us: seq<Member>, fs: seq<Member>, ts: seq<Member>, whole: Json,
                                    done: map<string, Val>)
    requires whole.Object? && forall m :: m in fs ==> m in whole.members
    requires Between(mer, us, fs, ts, done) && fs != [] && (ts != [] ==> Strcmp(fs[0].key, ts[0].key) < 0)
    ensures ComesTo(gen, mer, us, fs, ts, whole, View(mer, ts) + done) <==> WalkMerges(gen, mer, fs[1..], ts, whole)
    decreases whole, 0, |fs| + |ts|, 0
  {
    hide Tidy, Neat, CompareJson, Generate, View, MergesBack, NoNulls, Fold, Abs, WalkMerges, MergeMembers, Without, FoundValue;
    var p, rest := Member(fs[0].key, Null), GenerateWalk(gen, fs[1..], ts, whole);
    assert GenerateWalk(gen, fs, ts, whole) == [p] + rest;
    NeatTail(mer, fs);
    NullMergeable(mer);
    var next := MergeOne(mer, us, p);
    MergeFirst(mer, us, p, rest, next);
    assert View(mer, next) == View(mer, fs[1..]) + done;
    WalkExact(gen, mer, next, fs[1..], ts, whole, done);
  }

  /** The member under `k` has become `v`, and will not change any more. */
  lemma {:induction false} Settle(gen: bool, mer: bool, us: seq<Member>, fs: seq<Member>, ts: seq<Member>, whole: Json,
                                  done: map<string, Val>, k: string, v: Val, w: Val)
    requires whole.Object? && forall m :: m in fs ==> m in whole.members
    requires Tidy(mer, us) && Neat(fs) && Neat(ts)
    requires View(mer, us) == (View(mer, fs) + done)[k := v]
    requires k !in View(mer, fs) && k !in View(mer, ts) && k !in done
    requires View(mer, fs).Keys !! done.Keys && View(mer, ts).Keys !! done.Keys
    ensures ComesTo(gen, mer, us, fs, ts, whole, View(mer, ts)[k := w] + done) <==> v == w && WalkMerges(gen, mer, fs, ts, whole)
    decreases whole, 0, |fs| + |ts|, 2
  {
    hide Tidy, Neat, View, WalkMerges, MergeMembers, GenerateWalk;
    if v == w {
      assert View(mer, ts)[k := w] + done == View(mer, ts) + done[k := w];
      assert View(mer, us) == View(mer, fs) + done[k := w];
      WalkExact(gen, mer, us, fs, ts, whole, done[k := w]);
    } else {
      SettledKept(gen, mer, us, fs, ts, whole, k);
    }
  }

  /** The member under `k` is gone, and will not come back. */
  lemma Lost(gen: bool, mer: bool, us: seq<Member>, fs: seq<Member>, ts: seq<Member>, whole: Json, k: string,
             goal: map<string, Val>)
    requires whole.Object? && forall m :: m in fs ==> m in whole.members
    requires Tidy(mer, us) && Neat(fs) && Neat(ts) && k !in View(mer, ts) && k in goal
    requires k in View(mer, us) ==> k in View(mer, fs)
    ensures !ComesTo(gen, mer, us, fs, ts, whole, goal)
  {
    hide Tidy, Neat, View, MergeMembers, GenerateWalk;
    if k in View(mer, fs) { Nulled(gen, mer, us, fs, ts, whole, k); } else { SettledKept(gen, mer, us, fs, ts, whole, k); }
  }

  lemma FindView(cs: bool, ms: seq<Member>, key: string)
    ensures Find(cs, ms, key) == |ms| <==> Fold(cs, key) !in View(cs, ms)
  {
    ViewFind(cs, ms, key);
  }

  lemma {:induction false} WalkSet(gen: bool, mer: bool, us: seq<Member>, fs: seq<Member>, ts: seq<Member>, whole: Json,
                                   done: map<string, Val>)
    requires whole.Object? && forall m :: m in fs ==> m in whole.members
    requires Between(mer, us, fs, ts, done) && ts != [] && (fs != [] ==> Strcmp(fs[0].key, ts[0].key) > 0)
    ensures ComesTo(gen, mer, us, fs, ts, whole, View(mer, ts) + done) <==>
              (&& !ts[0].value.Null? && NoNulls(Abs(mer, ts[0].value)) && Find(mer, fs, ts[0].key) == |fs|
               && WalkMerges(gen, mer, fs, ts[1..], whole))
    decreases whole, 0, |fs| + |ts|, 0
  {
    hide Tidy, Neat, CompareJson, Generate, View, NoNulls, Fold, Abs, WalkMerges, MergeMembers, Without, FoundValue, Find, MergePatch;
    var n, k, rest := ts[0], Fold(mer, ts[0].key), GenerateWalk(gen, fs, ts[1..], whole);
    assert GenerateWalk(gen, fs, ts, whole) == [n] + rest;
    var goal := View(mer, ts) + done;
    NeatTail(mer, ts);
    FindView(mer, fs, n.key);
    DistinctIsMergeable(mer, n.value);
    var next := MergeOne(mer, us, n);
    MergeFirst(mer, us, n, rest, next);
    if k in View(mer, fs) || n.value.Null? {
      Lost(gen, mer, next, fs, ts[1..], whole, k, goal);
    } else {
      var v := MergePatch(mer, None, n.value);
      NewMember(mer, n.value);
      assert View(mer, next) == (View(mer, fs) + done)[k := Abs(mer, v)];
      assert goal == View(mer, ts[1..])[k := Abs(mer, n.value)] + done;
      Settle(gen, mer, next, fs, ts[1..], whole, done, k, Abs(mer, v), Abs(mer, n.value));
    }
  }

  lemma NewMember(cs: bool, v: Json)
    requires DistinctKeys(cs, v)
    ensures Abs(cs, MergePatch(cs, None, v)) == Abs(cs, v) <==> NoNulls(Abs(cs, v))
  {
    MergePatchIsRfc(cs, None, v);
    MergeIntoNothing(None, Abs(cs, v));
  }

  lemma {:induction false} WalkMeet(gen: bool, mer: bool, us: seq<Member>, fs: seq<Member>, ts: seq<Member>, whole: Json,
                                    done: map<string, Val>)
    requires whole.Object? && forall m :: m in fs ==> m in whole.members
    requires Between(mer, us, fs, ts, done) && fs != [] && ts != [] && Strcmp(fs[0].key, ts[0].key) == 0
    ensures ComesTo(gen, mer, us, fs, ts, whole, View(mer, ts) + done) <==>
              (&& (if CompareJson(gen, fs[0].value, ts[0].value) then CompareJson(mer, fs[0].value, ts[0].value)
                   else !ts[0].value.Null? && MergesBack(false, mer, fs[0].value, ts[0].value))
               && WalkMerges(gen, mer, fs[1..], ts[1..], whole))
    decreases whole, 0, |fs| + |ts|, 0
  {
    hide Tidy, Neat, CompareJson, Generate, View, NoNulls, Fold, Abs, WalkMerges, MergeMembers, Without, FoundValue, MergePatch, MergesBack;
    var f, t, rest := fs[0].value, ts[0].value, GenerateWalk(gen, fs[1..], ts[1..], whole);
    var k, goal := Fold(mer, ts[0].key), View(mer, ts) + done;
    StrcmpZero(fs[0].key, ts[0].key);
    NeatTail(mer, fs);
    NeatTail(mer, ts);
    MemberIsSmaller(whole, fs[0]);
    assert goal == View(mer, ts[1..])[k := Abs(mer, t)] + done;
    var p := Generate(false, f, t);
    if CompareJson(gen, f, t) || p.None? {
      assert GenerateWalk(gen, fs, ts, whole) == rest;
      if CompareJson(gen, f, t) { CompareJsonCorrect(mer, f, t); } else { MergedExact(false, mer, f, t, f); NoneIsObject(f, t); }
      assert View(mer, us) == (View(mer, fs[1..]) + done)[k := Abs(mer, f)];
      Settle(gen, mer, us, fs[1..], ts[1..], whole, done, k, Abs(mer, f), Abs(mer, t));
    } else {
      var patch := Member(ts[0].key, p.value);
      assert GenerateWalk(gen, fs, ts, whole) == [patch] + rest;
      GenerateMergeable(false, mer, f, t);
      var next := MergeOne(mer, us, patch);
      MergeFirst(mer, us, patch, rest, next);
      NullPatch(f, t);
      if t.Null? {
        Lost(gen, mer, next, fs[1..], ts[1..], whole, k, goal);
      } else {
        var u := FoundValue(mer, us, patch.key).value;
        assert Abs(mer, u) == Abs(mer, f);
        MergedExact(false, mer, f, t, u);
        var v := Abs(mer, MergePatch(mer, Some(u), p.value));
        assert View(mer, next) == (View(mer, fs[1..]) + done)[k := v];
        Settle(gen, mer, next, fs[1..], ts[1..], whole, done, k, v, Abs(mer, t));
      }
    }
  }

  lemma NoneIsObject(from: Json, to: Json)
    requires Generate(false, from, to).None?
    ensures from.Object? && to.Object?
  {
  }

  lemma NullPatch(from: Json, to: Json)
    ensures Generate(false, from, to).Some? ==> (Generate(false, from, to).value.Null? <==> to.Null?)
  {
  }

  /** Merging what is generated, if anything is, into a document equal to `from` gives one
      equal to `to` if and only if the two documents merge back. */
  lemma {:induction false} MergedExact(gen: bool, mer: bool, from: Json, to: Json, t: Json)
    requires DistinctKeys(false, from) && DistinctKeys(false, to) && DistinctKeys(mer, t) && Abs(mer, t) == Abs(mer, from)
    ensures var r := Merged(mer, t, Generate(gen, from, to));
            DistinctKeys(mer, r) && (Abs(mer, r) == Abs(mer, to) <==> MergesBack(gen, mer, from, to))
    decreases from, 1
  {
    hide *;
    if mer { DistinctModes(to); }
    GenerateMergeable(gen, mer, from, to);
    var p := Generate(gen, from, to);
    MergedDistinct(mer, t, p);
    if from.Object? && to.Object? {
      ObjectsExact(gen, mer, from, to, t);
    } else {
      WholeExact(gen, mer, from, to, t);
    }
  }

  lemma MergedDistinct(mer: bool, t: Json, p: Option<Json>)
    requires DistinctKeys(mer, t) && (p.Some? ==> Mergeable(mer, p.value))
    ensures DistinctKeys(mer, Merged(mer, t, p))
  {
    if p.Some? { MergeKeepsDistinct(mer, Some(t), p.value); }
  }

  lemma WholeExact(gen: bool, mer: bool, from: Json, to: Json, t: Json)
    requires !(from.Object? && to.Object?) && DistinctKeys(mer, to) && DistinctKeys(mer, t) && Abs(mer, t) == Abs(mer, from)
    ensures Abs(mer, Merged(mer, t, Generate(gen, from, to))) == Abs(mer, to) <==> MergesBack(gen, mer, from, to)
  {
    MergePatchIsRfc(mer, Some(t), to);
    if !from.Object? { MergeIntoNothing(Some(Abs(mer, t)), Abs(mer, to)); }
  }

  lemma {:induction false} ObjectsExact(gen: bool, mer: bool, from: Json, to: Json, t: Json)
    requires from.Object? && to.Object?
    requires DistinctKeys(false, from) && DistinctKeys(false, to) && DistinctKeys(mer, t) && Abs(mer, t) == Abs(mer, from)
    ensures Abs(mer, Merged(mer, t, Generate(gen, from, to))) == Abs(mer, to) <==> MergesBack(gen, mer, from, to)
    decreases from, 0, |from.members| + |to.members|, 3
  {
    hide WalkMerges, GenerateWalk, SortedMembers, Neat, View;
    var fs, ts := SortedMembers(gen, from.members), SortedMembers(gen, to.members);
    SortedNeat(gen, mer, from);
    SortedNeat(gen, mer, to);
    assert View(mer, fs) + map[] == View(mer, fs) && View(mer, ts) + map[] == View(mer, ts);
    WalkExact(gen, mer, t.members, fs, ts, from, map[]);
  }

  lemma SortedNeat(gen: bool, mer: bool, j: Json)
    requires j.Object? && DistinctKeys(false, j)
    ensures Neat(SortedMembers(gen, j.members))
    ensures View(mer, SortedMembers(gen, j.members)) == View(mer, j.members)
  {
    hide View;
    var ms, r := j.members, SortedMembers(gen, j.members);
    assert NoTies(KeyOf, false, ms);
    SortedPermutes(KeyOf, gen, ms);
    NoTiesPermuted(KeyOf, false, ms, r);
    DistinctEither(mer, ms);
    DistinctEither(mer, r);
    ViewPermutation(mer, ms, r);
    forall m | m in r ensures DistinctKeys(false, m.value) { MemberIsSmaller(j, m); }
  }

  lemma DistinctEither(cs: bool, ms: seq<Member>)
    requires Distinct(false, ms)
    ensures Distinct(cs, ms)
  {
    forall i, j | 0 <= i < j < |ms| ensures Fold(cs, ms[i].key) != Fold(cs, ms[j].key) {
      FoldIdempotent(cs, ms[i].key, ms[j].key);
    }
  }

  // ---------------------------------------------------------------- the theorem

  /** For all documents, and either mode on either side: the generated patch, merged into a
      document equal to `from` up to member order, gives one equal to `to` if and only if the
      two documents merge back. Where nothing is generated, the document is left as it is. */
  lemma MergePatchRoundTrip(gen: bool, mer: bool, from: Json, to: Json, t: Json)
    requires DistinctKeys(false, from) && DistinctKeys(false, to) && DistinctKeys(mer, t) && CompareJson(mer, t, from)
    ensures CompareJson(mer, Merged(mer, t, Generate(gen, from, to)), to) <==> MergesBack(gen, mer, from, to)
  {
    hide Merged, Generate, MergesBack, Abs, CompareJson, DistinctKeys;
    if mer { DistinctModes(from); DistinctModes(to); }
    CompareJsonCorrect(mer, t, from);
    MergedExact(gen, mer, from, to, t);
    CompareJsonCorrect(mer, Merged(mer, t, Generate(gen, from, to)), to);
  }

  /** On keys for which case makes no difference this says that `to` asks for no null member
      that is not there already. */
  lemma CaseFreeMergesBack(gen: bool, from: Json, to: Json, keys: set<string>)
    requires CaseFree(keys) && KeysWithin(from, keys) && KeysWithin(to, keys)
    requires DistinctKeys(false, from) && DistinctKeys(false, to)
    ensures MergesBack(gen, true, from, to) <==> Expressible(Abs(true, from), Abs(true, to))
  {
    hide Generate, MergesBack, MergePatch, CaseFree, KeysWithin, DistinctKeys;
    DistinctModes(from);
    DistinctModes(to);
    MergedExact(gen, true, from, to, from);
    CaseFreeRoundTrip(gen, true, from, to, from, keys);
  }
}
