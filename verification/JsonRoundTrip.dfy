/** Generated JSON patches turn any document equal to `from` into one equal to `to`. */
module JsonRoundTrip {
  import opened CString
  import opened JsonValue
  import opened ListSort
  import opened JsonCompare
  import opened JsonPointer
  import opened JsonPatch
  import opened JsonDiff

  /** The in-place decoding of the path's last token gives what RFC 6901 says it means. */
  predicate LastTokenOk(path: string)
  {
    var split := SplitLast(path);
    split.None? || DecodeToken(split.value.1) == Unescape(split.value.1)
  }

  predicate TokensOk(es: seq<Edit>)
  {
    forall i :: 0 <= i < |es| ==> LastTokenOk(es[i].path)
  }

  lemma TokensOkConcat(a: seq<Edit>, b: seq<Edit>)
    requires TokensOk(a + b)
    ensures TokensOk(a) && TokensOk(b)
  {
    forall i | 0 <= i < |a| ensures LastTokenOk(a[i].path) { assert (a + b)[i] == a[i]; }
    forall i | 0 <= i < |b| ensures LastTokenOk(b[i].path) { assert (a + b)[|a| + i] == b[i]; }
  }

  lemma TokensOkTail(es: seq<Edit>)
    requires es != [] && TokensOk(es)
    ensures TokensOk(es[1..])
  {
    assert es == [es[0]] + es[1..];
    TokensOkConcat([es[0]], es[1..]);
  }

  lemma TokensOkRebased(pre: string, es: seq<Edit>)
    requires AllBelow(es) && TokensOk(RebaseAll(pre, es))
    ensures TokensOk(es)
  {
    forall i | 0 <= i < |es| ensures LastTokenOk(es[i].path) {
      SplitBelow(pre, es[i].path);
      assert LastTokenOk(RebaseAll(pre, es)[i].path);
    }
  }

  lemma DecodedKey(key: string)
    requires LastTokenOk("/" + Encode(key))
    ensures DecodeToken(Encode(key)) == key
  {
    SplitUnique("", Encode(key));
    assert "/" + Encode(key) == "" + "/" + Encode(key);
    UnescapeEncode(key);
  }

  lemma DecodedIndex(n: nat)
    ensures Encode(Decimal(n)) == Decimal(n) && DecodeToken(Decimal(n)) == Decimal(n)
    ensures Encode("-") == "-" && DecodeToken("-") == "-" && Decimal(n) != "-"
    ensures '/' !in Decimal(n)
  {
    PlainSurvives(Decimal(n));
    EncodePlain(Decimal(n));
    PlainSurvives("-");
    EncodePlain("-");
    assert Decimal(n)[0] != '-';
  }

  // ---------------------------------------------------------------- edits of a direct child

  lemma TopDetach(cs: bool, t: Json, token: string)
    requires '/' !in token
    ensures DetachPath(cs, t, "/" + token) == DetachChild(t, DecodeToken(token))
  {
    SplitUnique("", token);
    assert "/" + token == "" + "/" + token;
  }

  lemma TopAdd(cs: bool, t: Json, token: string, v: Json)
    requires '/' !in token
    ensures AddPath(cs, t, "/" + token, v) == AddChild(cs, t, DecodeToken(token), v)
  {
    SplitUnique("", token);
    assert "/" + token == "" + "/" + token;
  }

  /** Replacing an array element removes it and inserts the new one at its place. */
  lemma ReplaceElement(cs: bool, ts: seq<Json>, i: nat, v: Json)
    requires i < |ts| && i < SIZE_LIMIT
    ensures ApplyEdit(cs, Array(ts), Replace("/" + Decimal(i), v)) == Outcome(0, Array(ts[i := v]))
  {
    hide DetachPath, AddPath, Encode, DecodeToken, Decimal, DecodeIndex;
    DecodedIndex(i);
    TopDetach(cs, Array(ts), Decimal(i));
    TopAdd(cs, Array(RemoveAt(ts, i)), Decimal(i), v);
    DecodeDecimal(i, "");
    assert Decimal(i) + "" == Decimal(i);
    var rest := RemoveAt(ts, i);
    assert rest[..i] + [v] + rest[i..] == ts[i := v];
  }

  lemma RemoveElement(cs: bool, ts: seq<Json>, i: nat)
    requires i < |ts| && i < SIZE_LIMIT
    ensures ApplyEdit(cs, Array(ts), Remove("/" + Encode(Decimal(i)))) == Outcome(0, Array(RemoveAt(ts, i)))
  {
    DecodedIndex(i);
    TopDetach(cs, Array(ts), Decimal(i));
    DecodeDecimal(i, "");
    assert Decimal(i) + "" == Decimal(i);
  }

  lemma AppendElement(cs: bool, ts: seq<Json>, v: Json)
    ensures ApplyEdit(cs, Array(ts), Add("/" + Encode("-"), v)) == Outcome(0, Array(ts + [v]))
  {
    DecodedIndex(0);
    TopAdd(cs, Array(ts), "-", v);
  }

  // ---------------------------------------------------------------- the theorem, by cases

  /** Running the generated edits on a document equal to `from`. */
  ghost predicate Reaches(cs: bool, t: Json, es: seq<Edit>, to: Val)
  {
    var r := RunEdits(cs, t, es);
    r.status == 0 && Abs(cs, r.doc) == to && DistinctKeys(false, r.doc)
  }

  lemma ReachesThen(cs: bool, t: Json, first: seq<Edit>, later: seq<Edit>, mid: Json, to: Val)
    requires RunEdits(cs, t, first) == Outcome(0, mid) && Reaches(cs, mid, later, to)
    ensures Reaches(cs, t, first + later, to)
  {
    RunConcat(cs, t, first, later);
  }

  lemma ReachesNext(cs: bool, t: Json, es: seq<Edit>, mid: Json, to: Val)
    requires es != [] && ApplyEdit(cs, t, es[0]) == Outcome(0, mid) && Reaches(cs, mid, es[1..], to)
    ensures Reaches(cs, t, es, to)
  {
  }

  lemma RebaseSelf(pre: string, v: Json)
    ensures RebaseAll(pre, [Replace("", v)]) == [Replace(pre, v)]
  {
    assert pre + "" == pre;
  }

  lemma {:induction false} EditsReach(cs: bool, from: Json, to: Json, t: Json)
    requires DistinctKeys(false, from) && DistinctKeys(false, to) && DistinctKeys(false, t)
    requires Indexable(from) && Abs(cs, t) == Abs(cs, from)
    requires TokensOk(CreateEdits(cs, "", from, to))
    ensures Reaches(cs, t, CreateEdits(cs, "", from, to), Abs(cs, to))
    decreases from, 1
  {
    hide CreateEdits, ArrayEdits, ObjectEdits, Reaches, TokensOk, SortedMembers;
    match (from, to)
    case (Array(xs), Array(ys)) => ArrayStart(cs, t, from, to);
    case (Object(ms), Object(ns)) => ObjectStart(cs, t, from, to);
    case _ => WholeReach(cs, from, to, t);
  }

  lemma {:induction false} ArrayStart(cs: bool, t: Json, from: Json, to: Json)
    requires from.Array? && to.Array?
    requires DistinctKeys(false, from) && DistinctKeys(false, to) && DistinctKeys(false, t)
    requires Indexable(from) && Abs(cs, t) == Abs(cs, from)
    requires TokensOk(CreateEdits(cs, "", from, to))
    ensures Reaches(cs, t, CreateEdits(cs, "", from, to), Abs(cs, to))
    decreases from, 0
  {
    hide ArrayEdits, Reaches;
    assert [] + t.items == t.items;
    ArrayReach(cs, [], t.items, from.items, to.items);
    assert AbsAll(cs, []) + AbsAll(cs, to.items) == AbsAll(cs, to.items);
  }

  /** Values that are not walked are replaced as a whole, or left alone. */
  lemma WholeReach(cs: bool, from: Json, to: Json, t: Json)
    requires !(from.Array? && to.Array?) && !(from.Object? && to.Object?)
    requires DistinctKeys(false, to) && DistinctKeys(false, t) && Abs(cs, t) == Abs(cs, from)
    ensures Reaches(cs, t, CreateEdits(cs, "", from, to), Abs(cs, to))
  {
    hide *;
    WholeEdits(cs, from, to);
    if CreateEdits(cs, "", from, to) == [] {
      ReachesNow(cs, t);
    } else {
      ReachesNow(cs, to);
      ReplacesAll(cs, t, to);
      ReachesNext(cs, t, [Replace("", to)], to, Abs(cs, to));
    }
  }

  lemma ReachesNow(cs: bool, t: Json)
    requires DistinctKeys(false, t)
    ensures Reaches(cs, t, [], Abs(cs, t))
  {
    hide DistinctKeys, Abs;
  }

  lemma ReplacesAll(cs: bool, t: Json, v: Json)
    ensures ApplyEdit(cs, t, Replace("", v)) == Outcome(0, v) && [Replace("", v)][1..] == []
  {
    hide DetachPath, AddPath;
  }

  lemma WholeEdits(cs: bool, from: Json, to: Json)
    requires !(from.Array? && to.Array?) && !(from.Object? && to.Object?)
    ensures var es := CreateEdits(cs, "", from, to);
            es == [Replace("", to)] || (es == [] && Abs(cs, from) == Abs(cs, to))
  {
  }

  lemma AbsConcat(cs: bool, a: seq<Json>, b: seq<Json>)
    ensures AbsAll(cs, a + b) == AbsAll(cs, a) + AbsAll(cs, b)
  {
  }

  /** Elements before |done| are settled; `rest` still equals what is left of `from`. */
  ghost predicate ArrayReady(cs: bool, done: seq<Json>, rest: seq<Json>, xs: seq<Json>, ys: seq<Json>)
  {
    && AbsAll(cs, rest) == AbsAll(cs, xs)
    && (forall i :: 0 <= i < |done| ==> DistinctKeys(false, done[i]))
    && (forall i :: 0 <= i < |rest| ==> DistinctKeys(false, rest[i]))
    && (forall i :: 0 <= i < |xs| ==> DistinctKeys(false, xs[i]) && Indexable(xs[i]))
    && (forall i :: 0 <= i < |ys| ==> DistinctKeys(false, ys[i]))
    && (xs != [] ==> |done| + |xs| <= SIZE_LIMIT)
    && TokensOk(ArrayEdits(cs, "", xs, ys, |done|))
  }

  lemma ReadyTail(cs: bool, rest: seq<Json>, xs: seq<Json>)
    requires AbsAll(cs, rest) == AbsAll(cs, xs) && xs != []
    ensures rest != [] && Abs(cs, rest[0]) == Abs(cs, xs[0]) && AbsAll(cs, rest[1..]) == AbsAll(cs, xs[1..])
  {
    assert AbsAll(cs, rest)[0] == AbsAll(cs, xs)[0];
    assert AbsAll(cs, rest[1..]) == AbsAll(cs, rest)[1..];
    assert AbsAll(cs, xs[1..]) == AbsAll(cs, xs)[1..];
  }

  lemma SettleOne(cs: bool, done: seq<Json>, v: Json, ys: seq<Json>)
    requires ys != [] && Abs(cs, v) == Abs(cs, ys[0])
    ensures AbsAll(cs, done + [v]) + AbsAll(cs, ys[1..]) == AbsAll(cs, done) + AbsAll(cs, ys)
  {
    AbsConcat(cs, done, [v]);
    assert AbsAll(cs, [v]) == [Abs(cs, v)];
    Shift(AbsAll(cs, done), Abs(cs, v), AbsAll(cs, ys[1..]));
  }

  lemma SplitUpdate<T>(a: seq<T>, b: seq<T>, x: T)
    requires b != []
    ensures (a + b)[|a| := x] == (a + [x]) + b[1..]
  {
  }

  lemma Shift<T>(a: seq<T>, x: T, b: seq<T>)
    ensures (a + [x]) + b == a + ([x] + b)
  {
  }

  lemma {:induction false} ArrayReach(cs: bool, done: seq<Json>, rest: seq<Json>, xs: seq<Json>, ys: seq<Json>)
    requires ArrayReady(cs, done, rest, xs, ys)
    ensures Reaches(cs, Array(done + rest), ArrayEdits(cs, "", xs, ys, |done|), VArray(AbsAll(cs, done) + AbsAll(cs, ys)))
    decreases xs, 0, |ys|
  {
    if xs != [] && ys != [] {
      ArrayReachBoth(cs, done, rest, xs, ys);
    } else if xs != [] {
      ArrayReachRemove(cs, done, rest, xs, ys);
    } else if ys != [] {
      ArrayReachAdd(cs, done, rest, xs, ys);
    } else {
      assert done + rest == done;
      assert AbsAll(cs, done) + AbsAll(cs, ys) == AbsAll(cs, done);
    }
  }

  lemma ReadyNext(cs: bool, done: seq<Json>, rest: seq<Json>, xs: seq<Json>, ys: seq<Json>, v: Json)
    requires ArrayReady(cs, done, rest, xs, ys) && xs != [] && ys != [] && DistinctKeys(false, v)
    ensures ArrayReady(cs, done + [v], rest[1..], xs[1..], ys[1..])
  {
    hide CreateEdits, Indexable, DistinctKeys, TokensOk, AbsAll, Decimal;
    ReadyTail(cs, rest, xs);
    TokensOkConcat(CreateEdits(cs, "" + "/" + Decimal(|done|), xs[0], ys[0]),
                   ArrayEdits(cs, "", xs[1..], ys[1..], |done| + 1));
  }

  lemma ReadyFirst(cs: bool, done: seq<Json>, rest: seq<Json>, xs: seq<Json>, ys: seq<Json>)
    requires ArrayReady(cs, done, rest, xs, ys) && xs != [] && ys != []
    ensures |done| < SIZE_LIMIT && rest != [] && (done + rest)[|done|] == rest[0]
    ensures DistinctKeys(false, xs[0]) && DistinctKeys(false, ys[0]) && DistinctKeys(false, rest[0])
    ensures Indexable(xs[0]) && Abs(cs, rest[0]) == Abs(cs, xs[0])
    ensures TokensOk(CreateEdits(cs, "/" + Decimal(|done|), xs[0], ys[0]))
    ensures ArrayEdits(cs, "", xs, ys, |done|) ==
              CreateEdits(cs, "/" + Decimal(|done|), xs[0], ys[0]) + ArrayEdits(cs, "", xs[1..], ys[1..], |done| + 1)
  {
    assert "" + "/" + Decimal(|done|) == "/" + Decimal(|done|);
    ReadyTail(cs, rest, xs);
    TokensOkConcat(CreateEdits(cs, "/" + Decimal(|done|), xs[0], ys[0]),
                   ArrayEdits(cs, "", xs[1..], ys[1..], |done| + 1));
  }

  lemma {:induction false} ArrayReachBoth(cs: bool, done: seq<Json>, rest: seq<Json>, xs: seq<Json>, ys: seq<Json>)
    requires ArrayReady(cs, done, rest, xs, ys) && xs != [] && ys != []
    ensures Reaches(cs, Array(done + rest), ArrayEdits(cs, "", xs, ys, |done|), VArray(AbsAll(cs, done) + AbsAll(cs, ys)))
    decreases xs, 0, |ys|, 0
  {
    hide ArrayReady, CreateEdits, ArrayEdits, Reaches, AbsAll, Decimal, Indexable, DistinctKeys, TokensOk, RunEdits;
    var i, ts, goal := |done|, done + rest, VArray(AbsAll(cs, done) + AbsAll(cs, ys));
    ReadyFirst(cs, done, rest, xs, ys);
    var v := ElementReach(cs, ts, i, xs[0], ys[0]);
    var more, tail := done + [v], rest[1..];
    SplitUpdate(done, rest, v);
    ReadyNext(cs, done, rest, xs, ys, v);
    ArrayReach(cs, more, tail, xs[1..], ys[1..]);
    SettleOne(cs, done, v, ys);
    var first, later := CreateEdits(cs, "/" + Decimal(i), xs[0], ys[0]), ArrayEdits(cs, "", xs[1..], ys[1..], i + 1);
    ReachesThen(cs, Array(ts), first, later, Array(more + tail), goal);
  }

  lemma {:induction false} ArrayReachRemove(cs: bool, done: seq<Json>, rest: seq<Json>, xs: seq<Json>, ys: seq<Json>)
    requires ArrayReady(cs, done, rest, xs, ys) && xs != [] && ys == []
    ensures Reaches(cs, Array(done + rest), ArrayEdits(cs, "", xs, ys, |done|), VArray(AbsAll(cs, done) + AbsAll(cs, ys)))
    decreases xs, 0, |ys|, 0
  {
    hide ArrayReady, CreateEdits, ArrayEdits, Reaches, AbsAll, Decimal, Indexable, DistinctKeys, TokensOk, ApplyEdit, Encode;
    var i, ts, goal := |done|, done + rest, VArray(AbsAll(cs, done) + AbsAll(cs, ys));
    ReadyRemove(cs, done, rest, xs);
    RemoveElement(cs, ts, i);
    assert RemoveAt(ts, i) == done + rest[1..];
    var es := ArrayEdits(cs, "", xs, ys, i);
    assert es[1..] == ArrayEdits(cs, "", xs[1..], ys, i);
    ArrayReach(cs, done, rest[1..], xs[1..], ys);
    ReachesNext(cs, Array(ts), es, Array(done + rest[1..]), goal);
  }

  lemma ReadyRemove(cs: bool, done: seq<Json>, rest: seq<Json>, xs: seq<Json>)
    requires ArrayReady(cs, done, rest, xs, []) && xs != []
    ensures |done| < SIZE_LIMIT && rest != [] && ArrayReady(cs, done, rest[1..], xs[1..], [])
    ensures ArrayEdits(cs, "", xs, [], |done|) ==
              [Remove("/" + Encode(Decimal(|done|)))] + ArrayEdits(cs, "", xs[1..], [], |done|)
  {
    hide CreateEdits, Indexable, DistinctKeys, TokensOk, AbsAll, Decimal, Encode;
    ReadyTail(cs, rest, xs);
    assert "" + "/" + Encode(Decimal(|done|)) == "/" + Encode(Decimal(|done|));
    TokensOkConcat([Remove("/" + Encode(Decimal(|done|)))], ArrayEdits(cs, "", xs[1..], [], |done|));
  }

  lemma {:induction false} ArrayReachAdd(cs: bool, done: seq<Json>, rest: seq<Json>, xs: seq<Json>, ys: seq<Json>)
    requires ArrayReady(cs, done, rest, xs, ys) && xs == [] && ys != []
    ensures Reaches(cs, Array(done + rest), ArrayEdits(cs, "", xs, ys, |done|), VArray(AbsAll(cs, done) + AbsAll(cs, ys)))
    decreases xs, 0, |ys|, 0
  {
    var es := ArrayEdits(cs, "", xs, ys, |done|);
    var more := done + [ys[0]];
    AppendElement(cs, done + rest, ys[0]);
    assert rest == [] && done + rest + [ys[0]] == more + [];
    assert "" + "/" + Encode("-") == "/" + Encode("-");
    assert es[1..] == ArrayEdits(cs, "", xs, ys[1..], |more|);
    TokensOkTail(es);
    ArrayReach(cs, more, [], xs, ys[1..]);
    SettleOne(cs, done, ys[0], ys);
    ReachesNext(cs, Array(done + rest), es, Array(more + []), VArray(AbsAll(cs, done) + AbsAll(cs, ys)));
  }

  lemma {:induction false} ElementReach(cs: bool, ts: seq<Json>, i: nat, from: Json, to: Json) returns (v: Json)
    requires i < |ts| && i < SIZE_LIMIT
    requires DistinctKeys(false, from) && DistinctKeys(false, to) && DistinctKeys(false, ts[i])
    requires Indexable(from) && Abs(cs, ts[i]) == Abs(cs, from)
    requires TokensOk(CreateEdits(cs, "/" + Decimal(i), from, to))
    ensures RunEdits(cs, Array(ts), CreateEdits(cs, "/" + Decimal(i), from, to)) == Outcome(0, Array(ts[i := v]))
    ensures Abs(cs, v) == Abs(cs, to) && DistinctKeys(false, v)
    decreases from, 2
  {
    var es := CreateEdits(cs, "", from, to);
    assert "" + "/" + Decimal(i) == "/" + Decimal(i);
    ChildEdits(cs, Decimal(i), from, to);
    EditsShape(cs, from, to);
    if es == [Replace("", to)] {
      RebaseSelf("/" + Decimal(i), to);
      ReplaceElement(cs, ts, i, to);
      v := to;
    } else {
      TokensOkRebased("/" + Decimal(i), es);
      EditsReach(cs, from, to, ts[i]);
      RunLocal(cs, Array(ts), i, "", es);
      v := RunEdits(cs, ts[i], es).doc;
    }
  }

  // ---------------------------------------------------------------- objects

  /** While the members are walked: `ms` are the members of `from` still to come, `ps` the
      members of `to` already done. If two keys of the document differ in case only, the
      first is still to be removed and the second was added. */
  ghost predicate Walking(cs: bool, ts: seq<Member>, ms: seq<Member>, ps: seq<Member>)
  {
    && View(cs, ts) == View(cs, ms) + View(cs, ps)
    && View(cs, ms).Keys !! View(cs, ps).Keys
    && forall p, q :: 0 <= p < q < |ts| && Lower(ts[p].key) == Lower(ts[q].key) ==>
         Fold(cs, ts[p].key) in View(cs, ms) && Fold(cs, ts[q].key) in View(cs, ps)
  }

  predicate TidyValues(ts: seq<Member>)
  {
    forall p :: 0 <= p < |ts| ==> DistinctKeys(false, ts[p].value)
  }

  lemma TidyRemoved(ts: seq<Member>, p: nat)
    requires TidyValues(ts) && p < |ts|
    ensures TidyValues(RemoveAt(ts, p))
  {
    var us := RemoveAt(ts, p);
    forall i | 0 <= i < |us| ensures DistinctKeys(false, us[i].value) {
      RemoveAtIndex(ts, p, i);
    }
  }

  lemma WalkedIsDistinct(cs: bool, ts: seq<Member>, ps: seq<Member>)
    requires Walking(cs, ts, [], ps) && TidyValues(ts)
    ensures DistinctKeys(false, Object(ts))
  {
    assert View(cs, []) == map[];
    forall i, j | 0 <= i < j < |ts| ensures Fold(false, ts[i].key) != Fold(false, ts[j].key) {
    }
  }

  /** A member of `from` still to come is found at one and the same place in both modes. */
  lemma FoundOnce(cs: bool, ts: seq<Member>, ms: seq<Member>, ps: seq<Member>, k: string)
    requires Walking(cs, ts, ms, ps) && Fold(cs, k) in View(cs, ms)
    ensures var p := Find(cs, ts, k);
            && p < |ts| && Find(false, ts, k) == p
            && View(cs, ms)[Fold(cs, k)] == Abs(cs, ts[p].value)
            && forall q :: 0 <= q < |ts| && q != p ==> Fold(cs, ts[q].key) != Fold(cs, ts[p].key)
  {
    ViewFind(cs, ts, k);
    var p := Find(cs, ts, k);
    var q := Find(false, ts, k);
    FoldIdempotent(cs, ts[p].key, k);
    assert q <= p;
    assert q == p;
    forall q | 0 <= q < |ts| && q != p ensures Fold(cs, ts[q].key) != Fold(cs, ts[p].key) {
      FoldIdempotent(cs, ts[q].key, ts[p].key);
    }
  }

  lemma WalkRemoved(cs: bool, ts: seq<Member>, ms: seq<Member>, ps: seq<Member>, p: nat)
    requires Walking(cs, ts, ms, ps) && ms != [] && Fold(cs, ms[0].key) !in View(cs, ms[1..])
    requires p == Find(cs, ts, ms[0].key) < |ts|
    requires forall q :: 0 <= q < |ts| && q != p ==> Fold(cs, ts[q].key) != Fold(cs, ts[p].key)
    ensures Walking(cs, RemoveAt(ts, p), ms[1..], ps)
  {
    var us := RemoveAt(ts, p);
    ViewRemove(cs, ts, p);
    assert View(cs, us) == View(cs, ms[1..]) + View(cs, ps);
    forall i, j | 0 <= i < j < |us| && Lower(us[i].key) == Lower(us[j].key)
      ensures Fold(cs, us[i].key) in View(cs, ms[1..]) && Fold(cs, us[j].key) in View(cs, ps)
    {
      RemoveAtIndex(ts, p, i);
      RemoveAtIndex(ts, p, j);
      assert Fold(cs, us[i].key) in View(cs, ms);
    }
  }

  lemma KeyMissing(cs: bool, ps: seq<Member>, k: string)
    requires forall a :: 0 <= a < |ps| ==> Lower(ps[a].key) != Lower(k)
    ensures Fold(cs, k) !in View(cs, ps)
  {
    ViewFind(cs, ps, k);
    var a := Find(cs, ps, k);
    if a < |ps| { FoldIdempotent(cs, ps[a].key, k); }
  }

  lemma OtherKeys(ps: seq<Member>, g: Member)
    requires Distinct(false, ps + [g])
    ensures forall a :: 0 <= a < |ps| ==> Lower(ps[a].key) != Lower(g.key)
  {
    forall a | 0 <= a < |ps| ensures Lower(ps[a].key) != Lower(g.key) {
      assert (ps + [g])[a] == ps[a] && (ps + [g])[|ps|] == g;
    }
  }

  /** The key of a member done or under way is not matched, ignoring case, by anything else. */
  lemma KeyIsNew(cs: bool, ts: seq<Member>, ms: seq<Member>, ps: seq<Member>, g: Member, q: nat)
    requires Walking(cs, ts, ms, ps) && Distinct(false, ps + [g])
    requires q < |ts| && Lower(ts[q].key) == Lower(g.key)
    ensures Fold(cs, ts[q].key) in View(cs, ms)
  {
    ViewHas(cs, ts, q);
    OtherKeys(ps, g);
    KeyMissing(cs, ps, ts[q].key);
  }

  lemma WalkAdded(cs: bool, ts: seq<Member>, ms: seq<Member>, ps: seq<Member>, g: Member)
    requires Walking(cs, ts, ms, ps) && Distinct(false, ps + [g])
    requires Fold(cs, g.key) !in View(cs, ms) && Fold(cs, g.key) !in View(cs, ps)
    ensures Walking(cs, ts + [g], ms, ps + [g])
  {
    hide View, Abs;
    var us := ts + [g];
    ViewAppend(cs, ts, g);
    ViewAppend(cs, ps, g);
    forall i, j | 0 <= i < j < |us| && Lower(us[i].key) == Lower(us[j].key)
      ensures Fold(cs, us[i].key) in View(cs, ms) && Fold(cs, us[j].key) in View(cs, ps + [g])
    {
      if j == |ts| {
        KeyIsNew(cs, ts, ms, ps, g, i);
      }
    }
  }

  /** A member both objects have moves from the one list to the other. */
  lemma WalkChanged(cs: bool, ts: seq<Member>, ms: seq<Member>, ps: seq<Member>, g: Member, p: nat, v: Json)
    requires Walking(cs, ts, ms, ps) && Distinct(false, ps + [g])
    requires ms != [] && Distinct(false, ms) && Fold(cs, ms[0].key) == Fold(cs, g.key)
    requires Fold(cs, g.key) !in View(cs, ms[1..]) && Abs(cs, v) == Abs(cs, g.value)
    requires p == Find(cs, ts, ms[0].key) < |ts|
    requires forall q :: 0 <= q < |ts| && q != p ==> Fold(cs, ts[q].key) != Fold(cs, ts[p].key)
    ensures Walking(cs, ts[p := Member(ts[p].key, v)], ms[1..], ps + [g])
  {
    var us := ts[p := Member(ts[p].key, v)];
    ViewMoves(cs, ts, ms, ps, g, p, v);
    forall i, j | 0 <= i < j < |us| && Lower(us[i].key) == Lower(us[j].key)
      ensures Fold(cs, us[i].key) in View(cs, ms[1..]) && Fold(cs, us[j].key) in View(cs, ps + [g])
    {
      assert us[i].key == ts[i].key && us[j].key == ts[j].key;
      NoOtherCase(cs, ts, ms, ps, g, p, i);
      NoOtherCase(cs, ts, ms, ps, g, p, j);
      assert Fold(cs, ts[i].key) in View(cs, ms) && Fold(cs, ts[j].key) in View(cs, ps);
    }
  }

  lemma ViewMoves(cs: bool, ts: seq<Member>, ms: seq<Member>, ps: seq<Member>, g: Member, p: nat, v: Json)
    requires Walking(cs, ts, ms, ps)
    requires ms != [] && Fold(cs, ms[0].key) == Fold(cs, g.key)
    requires Fold(cs, g.key) !in View(cs, ms[1..]) && Abs(cs, v) == Abs(cs, g.value)
    requires p < |ts| && Fold(cs, ts[p].key) == Fold(cs, g.key)
    requires forall q :: 0 <= q < |ts| && q != p ==> Fold(cs, ts[q].key) != Fold(cs, ts[p].key)
    ensures View(cs, ts[p := Member(ts[p].key, v)]) == View(cs, ms[1..]) + View(cs, ps + [g])
    ensures View(cs, ms[1..]).Keys !! View(cs, ps + [g]).Keys
    ensures forall k :: k in View(cs, ms[1..]) <==> k in View(cs, ms) && k != Fold(cs, g.key)
    ensures forall k :: k in View(cs, ps) ==> k in View(cs, ps + [g])
  {
    hide Walking, Fold, Abs;
    ViewUpdate(cs, ts, p, v);
    WalkingViews(cs, ts, ms, ps);
    ViewFirst(cs, ms);
    NotInBoth(View(cs, ms), View(cs, ps), Fold(cs, g.key));
    ViewAppend(cs, ps, g);
    hide View;
    MovedEntry(View(cs, ms[1..]), View(cs, ps), Fold(cs, g.key), Abs(cs, ms[0].value), Abs(cs, v));
  }

  lemma WalkingViews(cs: bool, ts: seq<Member>, ms: seq<Member>, ps: seq<Member>)
    requires Walking(cs, ts, ms, ps)
    ensures View(cs, ts) == View(cs, ms) + View(cs, ps) && View(cs, ms).Keys !! View(cs, ps).Keys
  {
  }

  lemma ViewFirst(cs: bool, ms: seq<Member>)
    requires ms != []
    ensures View(cs, ms) == View(cs, ms[1..])[Fold(cs, ms[0].key) := Abs(cs, ms[0].value)]
  {
    hide Abs, Fold;
  }

  lemma NotInBoth(m: map<string, Val>, n: map<string, Val>, k: string)
    requires m.Keys !! n.Keys && k in m
    ensures k !in n
  {
  }

  /** An entry of the one map becomes one of the other. */
  lemma MovedEntry(m: map<string, Val>, n: map<string, Val>, k: string, was: Val, now: Val)
    requires k !in m && m[k := was].Keys !! n.Keys
    ensures (m[k := was] + n)[k := now] == m + n[k := now]
    ensures m.Keys !! n[k := now].Keys
    ensures forall l :: l in m <==> l in m[k := was] && l != k
    ensures forall l :: l in n ==> l in n[k := now]
  {
  }

  lemma NoOtherCase(cs: bool, ts: seq<Member>, ms: seq<Member>, ps: seq<Member>, g: Member, p: nat, q: nat)
    requires Walking(cs, ts, ms, ps) && Distinct(false, ps + [g])
    requires ms != [] && Distinct(false, ms) && Fold(cs, ms[0].key) == Fold(cs, g.key)
    requires p < |ts| && Fold(cs, ts[p].key) == Fold(cs, g.key) && q < |ts|
    ensures Fold(cs, ts[q].key) != Fold(cs, ts[p].key) ==> Lower(ts[q].key) != Lower(ts[p].key)
  {
    FoldIdempotent(cs, ts[p].key, g.key);
    FoldIdempotent(cs, ms[0].key, g.key);
    if Lower(ts[q].key) == Lower(ts[p].key) {
      KeyIsNew(cs, ts, ms, ps, g, q);
      assert forall a :: 0 <= a < |ms[1..]| ==> ms[1..][a] == ms[a+1];
      KeyMissing(cs, ms[1..], ts[q].key);
    }
  }

  lemma RemoveMember(cs: bool, ts: seq<Member>, k: string, p: nat)
    requires LastTokenOk("/" + Encode(k)) && p == Find(false, ts, k) < |ts|
    ensures ApplyEdit(cs, Object(ts), Remove("/" + Encode(k))) == Outcome(0, Object(RemoveAt(ts, p)))
  {
    DecodedKey(k);
    TopDetach(cs, Object(ts), Encode(k));
  }

  lemma AddMember(cs: bool, ts: seq<Member>, k: string, v: Json)
    requires LastTokenOk("/" + Encode(k)) && Find(cs, ts, k) == |ts|
    ensures AddPath(cs, Object(ts), "/" + Encode(k), v) == Outcome(0, Object(ts + [Member(k, v)]))
  {
    DecodedKey(k);
    TopAdd(cs, Object(ts), Encode(k), v);
  }

  lemma RemovedIsGone(cs: bool, ts: seq<Member>, p: nat)
    requires p < |ts|
    requires forall q :: 0 <= q < |ts| && q != p ==> Fold(cs, ts[q].key) != Fold(cs, ts[p].key)
    ensures forall k :: Fold(cs, k) == Fold(cs, ts[p].key) ==> Find(cs, RemoveAt(ts, p), k) == |ts| - 1
  {
    var us := RemoveAt(ts, p);
    forall i | 0 <= i < |us| ensures Fold(cs, us[i].key) != Fold(cs, ts[p].key) {
      RemoveAtIndex(ts, p, i);
    }
  }

  lemma ReplaceMember(cs: bool, ts: seq<Member>, k: string, v: Json, p: nat)
    requires LastTokenOk("/" + Encode(k)) && p == Find(false, ts, k) == Find(cs, ts, k) < |ts|
    requires forall q :: 0 <= q < |ts| && q != p ==> Fold(cs, ts[q].key) != Fold(cs, ts[p].key)
    ensures ApplyEdit(cs, Object(ts), Replace("/" + Encode(k), v)) ==
              Outcome(0, Object(RemoveAt(ts, p) + [Member(k, v)]))
  {
    hide DetachPath, AddPath, Encode, DecodeToken, Find, Fold, LastTokenOk;
    DecodedKey(k);
    TopDetach(cs, Object(ts), Encode(k));
    RemovedIsGone(cs, ts, p);
    AddMember(cs, RemoveAt(ts, p), k, v);
  }

  lemma FirstInView(cs: bool, ms: seq<Member>)
    requires ms != []
    ensures var k := Fold(cs, ms[0].key); k in View(cs, ms) && View(cs, ms)[k] == Abs(cs, ms[0].value)
  {
    hide Abs, Fold;
  }

  /** The edits for a member both objects have. */
  lemma {:induction false} MemberReach(cs: bool, ts: seq<Member>, ms: seq<Member>, ps: seq<Member>, g: Member)
    requires Walking(cs, ts, ms, ps) && Distinct(false, ps + [g])
    requires ms != [] && Distinct(false, ms) && Fold(cs, ms[0].key) == Fold(cs, g.key)
    requires Fold(cs, g.key) !in View(cs, ms[1..]) && Fold(cs, g.key) !in View(cs, ps)
    requires DistinctKeys(false, ms[0].value) && DistinctKeys(false, g.value) && Indexable(ms[0].value)
    requires TidyValues(ts)
    requires TokensOk(CreateEdits(cs, "/" + Encode(ms[0].key), ms[0].value, g.value))
    ensures var r := RunEdits(cs, Object(ts), CreateEdits(cs, "/" + Encode(ms[0].key), ms[0].value, g.value));
            && r.status == 0
            && r.doc.Object? && Walking(cs, r.doc.members, ms[1..], ps + [g]) && TidyValues(r.doc.members)
    decreases ms[0].value, 2
  {
    hide CreateEdits, Walking, Distinct, RunEdits, Encode, View, Fold, Find, Indexable, DistinctKeys, Abs, DecodeToken;
    var k, from, to := ms[0].key, ms[0].value, g.value;
    FirstInView(cs, ms);
    var es := CreateEdits(cs, "", from, to);
    assert "" + "/" + Encode(k) == "/" + Encode(k);
    ChildEdits(cs, Encode(k), from, to);
    EditsShape(cs, from, to);
    FoundOnce(cs, ts, ms, ps, k);
    if es == [Replace("", to)] {
      RebaseSelf("/" + Encode(k), to);
      assert LastTokenOk(RebaseAll("/" + Encode(k), es)[0].path);
      MemberReplaced(cs, ts, ms, ps, g);
    } else {
      var p := Find(cs, ts, k);
      TokensOkRebased("/" + Encode(k), es);
      EditsReach(cs, from, to, ts[p].value);
      RunLocal(cs, Object(ts), p, k, es);
      WalkChanged(cs, ts, ms, ps, g, p, RunEdits(cs, ts[p].value, es).doc);
    }
  }

  lemma MemberReplaced(cs: bool, ts: seq<Member>, ms: seq<Member>, ps: seq<Member>, g: Member)
    requires Walking(cs, ts, ms, ps) && Distinct(false, ps + [g])
    requires ms != [] && Fold(cs, ms[0].key) == Fold(cs, g.key)
    requires Fold(cs, g.key) !in View(cs, ms[1..]) && Fold(cs, g.key) !in View(cs, ps)
    requires DistinctKeys(false, g.value) && TidyValues(ts) && LastTokenOk("/" + Encode(ms[0].key))
    ensures var r := RunEdits(cs, Object(ts), [Replace("/" + Encode(ms[0].key), g.value)]);
            && r.status == 0
            && r.doc.Object? && Walking(cs, r.doc.members, ms[1..], ps + [g]) && TidyValues(r.doc.members)
  {
    hide View, Fold, Walking, Distinct, Encode, DetachPath, AddPath, LastTokenOk, ApplyEdit, DistinctKeys, Abs;
    var k := ms[0].key;
    FirstInView(cs, ms);
    FoundOnce(cs, ts, ms, ps, k);
    var p := Find(cs, ts, k);
    var us := RemoveAt(ts, p);
    ReplaceMember(cs, ts, k, g.value, p);
    WalkRemoved(cs, ts, ms, ps, p);
    WalkAdded(cs, us, ms[1..], ps, g);
    AppendSpelling(cs, us, ms[1..], ps + [g], g, Member(k, g.value));
    TidyRemoved(ts, p);
  }

  /** The added member may keep the spelling that `from` gives its key. */
  lemma AppendSpelling(cs: bool, us: seq<Member>, ms: seq<Member>, ps: seq<Member>, g: Member, h: Member)
    requires Walking(cs, us + [g], ms, ps) && Fold(cs, g.key) !in View(cs, us) && Fold(cs, g.key) !in View(cs, ms)
    requires Fold(cs, h.key) == Fold(cs, g.key) && h.value == g.value
    ensures Walking(cs, us + [h], ms, ps)
  {
    ViewAppend(cs, us, g);
    ViewAppend(cs, us, h);
    FoldIdempotent(cs, h.key, g.key);
    var a, b := us + [g], us + [h];
    forall i | 0 <= i < |b| ensures Fold(cs, b[i].key) == Fold(cs, a[i].key) && Lower(b[i].key) == Lower(a[i].key) && b[i].value == a[i].value {
    }
  }

  ghost predicate WalkReady(cs: bool, ms: seq<Member>, ns: seq<Member>, ps: seq<Member>, whole: Json)
  {
    && whole.Object? && DistinctKeys(false, whole) && Indexable(whole)
    && (forall m :: m in ms ==> m in whole.members)
    && StrictlyOrdered(KeyOf, cs, ms) && StrictlyOrdered(KeyOf, cs, ps + ns)
    && Distinct(false, ms) && Distinct(false, ps + ns)
    && forall i :: 0 <= i < |ns| ==> DistinctKeys(false, ns[i].value)
  }

  lemma ReadyAdvanceFrom(cs: bool, ms: seq<Member>, ns: seq<Member>, ps: seq<Member>, whole: Json)
    requires WalkReady(cs, ms, ns, ps, whole) && ms != []
    ensures WalkReady(cs, ms[1..], ns, ps, whole)
    ensures Fold(cs, ms[0].key) !in View(cs, ms[1..])
    ensures DistinctKeys(false, ms[0].value) && Indexable(ms[0].value)
  {
    TailOrdered(cs, ms);
    assert ms[0] in whole.members;
    var i :| 0 <= i < |whole.members| && whole.members[i] == ms[0];
  }

  lemma ReadyAdvanceTo(cs: bool, ms: seq<Member>, ns: seq<Member>, ps: seq<Member>, whole: Json)
    requires WalkReady(cs, ms, ns, ps, whole) && ns != []
    ensures ps + [ns[0]] + ns[1..] == ps + ns
    ensures WalkReady(cs, ms, ns[1..], ps + [ns[0]], whole)
    ensures Fold(cs, ns[0].key) !in View(cs, ps)
    ensures Distinct(false, ps + [ns[0]])
  {
    assert ps + [ns[0]] + ns[1..] == ps + ns;
    var all := ps + ns;
    assert ps + [ns[0]] == all[..|ps|+1];
    assert all[|ps|] == ns[0];
    OtherKeys(ps, ns[0]);
    KeyMissing(cs, ps, ns[0].key);
  }

  lemma {:induction false} ObjectReach(cs: bool, ts: seq<Member>, ms: seq<Member>, ns: seq<Member>, ps: seq<Member>, whole: Json)
    requires WalkReady(cs, ms, ns, ps, whole) && Walking(cs, ts, ms, ps) && TidyValues(ts)
    requires TokensOk(ObjectEdits(cs, "", ms, ns, whole))
    ensures Reaches(cs, Object(ts), ObjectEdits(cs, "", ms, ns, whole), VObject(View(cs, ps + ns)))
    decreases whole, 0, |ms| + |ns|
  {
    if ms == [] && ns == [] {
      assert ps + ns == ps;
      WalkedIsDistinct(cs, ts, ps);
    } else {
      var diff := if ms == [] then 1 else if ns == [] then -1 else CompareStrings(cs, ms[0].key, ns[0].key);
      if diff == 0 {
        ObjectReachBoth(cs, ts, ms, ns, ps, whole);
      } else if diff < 0 {
        ObjectReachRemove(cs, ts, ms, ns, ps, whole);
      } else {
        ObjectReachAdd(cs, ts, ms, ns, ps, whole);
      }
    }
  }

  lemma {:induction false} ObjectReachBoth(cs: bool, ts: seq<Member>, ms: seq<Member>, ns: seq<Member>, ps: seq<Member>, whole: Json)
    requires WalkReady(cs, ms, ns, ps, whole) && Walking(cs, ts, ms, ps) && TidyValues(ts)
    requires TokensOk(ObjectEdits(cs, "", ms, ns, whole))
    requires ms != [] && ns != [] && CompareStrings(cs, ms[0].key, ns[0].key) == 0
    ensures Reaches(cs, Object(ts), ObjectEdits(cs, "", ms, ns, whole), VObject(View(cs, ps + ns)))
    decreases whole, 0, |ms| + |ns|, 0
  {
    StrcmpZero(Fold(cs, ms[0].key), Fold(cs, ns[0].key));
    ReadyAdvanceFrom(cs, ms, ns, ps, whole);
    ReadyAdvanceTo(cs, ms[1..], ns, ps, whole);
    MemberIsSmaller(whole, ms[0]);
    var first := CreateEdits(cs, "/" + Encode(ms[0].key), ms[0].value, ns[0].value);
    var later := ObjectEdits(cs, "", ms[1..], ns[1..], whole);
    assert "" + "/" + Encode(ms[0].key) == "/" + Encode(ms[0].key);
    assert ObjectEdits(cs, "", ms, ns, whole) == first + later;
    TokensOkConcat(first, later);
    MemberReach(cs, ts, ms, ps, ns[0]);
    var mid := RunEdits(cs, Object(ts), first).doc;
    ObjectReach(cs, mid.members, ms[1..], ns[1..], ps + [ns[0]], whole);
    ReachesThen(cs, Object(ts), first, later, mid, VObject(View(cs, ps + ns)));
  }

  lemma {:induction false} ObjectReachRemove(cs: bool, ts: seq<Member>, ms: seq<Member>, ns: seq<Member>, ps: seq<Member>, whole: Json)
    requires WalkReady(cs, ms, ns, ps, whole) && Walking(cs, ts, ms, ps) && TidyValues(ts)
    requires TokensOk(ObjectEdits(cs, "", ms, ns, whole))
    requires ms != [] && (ns != [] ==> CompareStrings(cs, ms[0].key, ns[0].key) < 0)
    ensures Reaches(cs, Object(ts), ObjectEdits(cs, "", ms, ns, whole), VObject(View(cs, ps + ns)))
    decreases whole, 0, |ms| + |ns|, 0
  {
    var k := ms[0].key;
    var es := ObjectEdits(cs, "", ms, ns, whole);
    assert "" + "/" + Encode(k) == "/" + Encode(k);
    assert es[0] == Remove("/" + Encode(k)) && es[1..] == ObjectEdits(cs, "", ms[1..], ns, whole);
    assert LastTokenOk(es[0].path);
    TokensOkTail(es);
    ReadyAdvanceFrom(cs, ms, ns, ps, whole);
    FoundOnce(cs, ts, ms, ps, k);
    var p := Find(cs, ts, k);
    RemoveMember(cs, ts, k, p);
    WalkRemoved(cs, ts, ms, ps, p);
    TidyRemoved(ts, p);
    ObjectReach(cs, RemoveAt(ts, p), ms[1..], ns, ps, whole);
  }

  lemma {:induction false} ObjectReachAdd(cs: bool, ts: seq<Member>, ms: seq<Member>, ns: seq<Member>, ps: seq<Member>, whole: Json)
    requires WalkReady(cs, ms, ns, ps, whole) && Walking(cs, ts, ms, ps) && TidyValues(ts)
    requires TokensOk(ObjectEdits(cs, "", ms, ns, whole))
    requires ns != [] && (ms != [] ==> CompareStrings(cs, ms[0].key, ns[0].key) > 0)
    ensures Reaches(cs, Object(ts), ObjectEdits(cs, "", ms, ns, whole), VObject(View(cs, ps + ns)))
    decreases whole, 0, |ms| + |ns|, 0
  {
    var g := ns[0];
    var es := ObjectEdits(cs, "", ms, ns, whole);
    assert "" + "/" + Encode(g.key) == "/" + Encode(g.key);
    assert es[0] == Add("/" + Encode(g.key), g.value) && es[1..] == ObjectEdits(cs, "", ms, ns[1..], whole);
    assert LastTokenOk(es[0].path);
    TokensOkTail(es);
    ReadyAdvanceTo(cs, ms, ns, ps, whole);
    if ms != [] { StrcmpSwap(Fold(cs, ms[0].key), Fold(cs, g.key)); }
    FrontMissing(cs, Fold(cs, g.key), ms);
    ViewFind(cs, ts, g.key);
    AddMember(cs, ts, g.key, g.value);
    WalkAdded(cs, ts, ms, ps, g);
    ObjectReach(cs, ts + [g], ms, ns[1..], ps + [g], whole);
  }

  lemma {:induction false} ObjectStart(cs: bool, t: Json, from: Json, to: Json)
    requires from.Object? && to.Object? && t.Object?
    requires DistinctKeys(false, from) && DistinctKeys(false, to) && DistinctKeys(false, t)
    requires Indexable(from) && Abs(cs, t) == Abs(cs, from)
    requires TokensOk(CreateEdits(cs, "", from, to))
    ensures Reaches(cs, t, CreateEdits(cs, "", from, to), Abs(cs, to))
    decreases from, 0
  {
    hide SortedMembers, CreateEdits, ObjectEdits, Indexable, TokensOk, Reaches, View, Abs, StrictlyOrdered;
    NothingInView(cs, View(cs, t.members));
    var ms, ns := SortedMembers(cs, from.members), SortedMembers(cs, to.members);
    ObjectFacts(cs, t, from, to);
    SortedBoth(cs, from.members);
    SortedBoth(cs, to.members);
    assert [] + ns == ns;
    forall i | 0 <= i < |ns| ensures DistinctKeys(false, ns[i].value) {
      assert ns[i] in to.members;
    }
    ObjectReach(cs, t.members, ms, ns, [], from);
  }

  lemma NothingInView(cs: bool, m: map<string, Val>)
    ensures View(cs, []) == map[] && m + map[] == m
  {
  }

  lemma ObjectFacts(cs: bool, t: Json, from: Json, to: Json)
    requires from.Object? && to.Object? && t.Object?
    ensures CreateEdits(cs, "", from, to) ==
              ObjectEdits(cs, "", SortedMembers(cs, from.members), SortedMembers(cs, to.members), from)
    ensures Abs(cs, t) == VObject(View(cs, t.members)) && Abs(cs, from) == VObject(View(cs, from.members))
    ensures Abs(cs, to) == VObject(View(cs, to.members))
  {
    hide SortedMembers, ObjectEdits, View;
  }

  lemma SortedBoth(cs: bool, ms: seq<Member>)
    requires Distinct(false, ms)
    ensures StrictlyOrdered(KeyOf, cs, SortedMembers(cs, ms))
    ensures Distinct(false, SortedMembers(cs, ms))
    ensures View(cs, SortedMembers(cs, ms)) == View(cs, ms)
  {
    assert Distinct(cs, ms);
    SortedView(cs, ms);
    assert NoTies(KeyOf, false, ms);
    SortedPermutes(KeyOf, cs, ms);
    NoTiesPermuted(KeyOf, false, ms, SortedMembers(cs, ms));
  }

  // ---------------------------------------------------------------- right paths lead to the wanted document

  /** Generated patches, applied in order to a document equal to `from` up to member order,
      all succeed and give a document that compare_json finds equal to `to`, if the last
      tokens of their paths decode to what they were written for. */
  lemma PatchesReach(cs: bool, from: Json, to: Json, t: Json)
    requires DistinctKeys(false, from) && DistinctKeys(false, to) && DistinctKeys(false, t)
    requires Indexable(from) && CompareJson(cs, t, from)
    requires TokensOk(CreateEdits(cs, "", from, to))
    ensures var r := ApplyPatches(cs, t, GeneratePatches(cs, from, to));
            r.status == 0 && CompareJson(cs, r.doc, to) && DistinctKeys(false, r.doc)
  {
    if cs { DistinctModes(t); DistinctModes(from); DistinctModes(to); }
    CompareJsonCorrect(cs, t, from);
    EditsReach(cs, from, to, t);
    PatchesAreEdits(cs, t, CreateEdits(cs, "", from, to));
    var r := RunEdits(cs, t, CreateEdits(cs, "", from, to)).doc;
    if cs { DistinctModes(r); }
    CompareJsonCorrect(cs, r, to);
  }

  lemma SurvivingToken(path: string, key: string)
    requires Survives(key)
    ensures LastTokenOk(path + "/" + Encode(key))
  {
    SplitUnique(path, Encode(key));
    DecodeTokenExact(key);
    UnescapeEncode(key);
  }

  lemma IndexToken(path: string, n: nat)
    ensures LastTokenOk(path + "/" + Decimal(n)) && LastTokenOk(path + "/" + Encode(Decimal(n)))
    ensures LastTokenOk(path + "/" + Encode("-"))
  {
    PlainSurvives(Decimal(n));
    EncodePlain(Decimal(n));
    SurvivingToken(path, Decimal(n));
    PlainSurvives("-");
    SurvivingToken(path, "-");
  }

  // ---------------------------------------------------------------- where it fails

  /** A key that does not survive cannot be changed: the patch generated for a changed
      number under it is refused with status 13 by the very document it was made from. */
  lemma PatchFailsOnKey(cs: bool, k: string, x: int, y: int)
    requires x != y
    ensures var from := Object([Member(k, Number(x))]);
            var r := ApplyPatches(cs, from, GeneratePatches(cs, from, Object([Member(k, Number(y))])));
            && (r.status == 0 <==> Survives(k))
            && (r.status == 0 || r == Outcome(13, from))
  {
    hide ApplyAll, CreateEdits, ApplyEdit, DetachPath, AddPath, Survives, Encode;
    var ms := [Member(k, Number(x))];
    var from := Object(ms);
    OneEdit(cs, k, x, y);
    PatchesAreEdits(cs, from, [Replace("/" + Encode(k), Number(y))]);
    OneEditFails(cs, ms, k, y);
  }

  /** The patch between two objects that differ in the one member they have. */
  lemma OneEdit(cs: bool, k: string, x: int, y: int)
    requires x != y
    ensures CreateEdits(cs, "", Object([Member(k, Number(x))]), Object([Member(k, Number(y))])) ==
              [Replace("/" + Encode(k), Number(y))]
  {
    hide Encode;
    var ms, ns := [Member(k, Number(x))], [Member(k, Number(y))];
    var from := Object(ms);
    StrcmpZero(Fold(cs, k), Fold(cs, k));
    var path := "" + "/" + Encode(k);
    assert path == "/" + Encode(k);
    assert SortedMembers(cs, ms) == ms && SortedMembers(cs, ns) == ns;
    assert ms[1..] == [] && ns[1..] == [];
    assert ObjectEdits(cs, "", ms[1..], ns[1..], from) == [];
    assert CreateEdits(cs, path, Number(x), Number(y)) == [Replace(path, Number(y))];
    assert CompareStrings(cs, ms[0].key, ns[0].key) == 0;
    assert ObjectEdits(cs, "", ms, ns, from) ==
           CreateEdits(cs, path, Number(x), Number(y)) + ObjectEdits(cs, "", ms[1..], ns[1..], from);
  }

  lemma OneEditFails(cs: bool, ms: seq<Member>, k: string, y: int)
    requires |ms| == 1 && ms[0].key == k
    ensures var r := RunEdits(cs, Object(ms), [Replace("/" + Encode(k), Number(y))]);
            && (r.status == 0 <==> Survives(k))
            && (r.status == 0 || r == Outcome(13, Object(ms)))
  {
    hide DetachPath, AddPath, Survives, Encode, DecodeToken;
    assert Find(false, ms, k) == 0;
    TopDetach(cs, Object(ms), Encode(k));
    DetachExact(ms, k);
    if Survives(k) {
      DecodeTokenExact(k);
      TopAdd(cs, Object(RemoveAt(ms, 0)), Encode(k), Number(y));
    }
  }
}
