/** JSON documents as cJSON trees: members and elements keep the order of the child list.
    Numbers are integers. `Abs` forgets the order of members (and, when case is ignored,
    the spelling of keys); two documents are the same value when their `Abs` agree. */
module JsonValue {
  import opened CString

  datatype Option<+T> = None | Some(value: T)

  datatype Member = Member(key: string, value: Json)

  datatype Json =
    | Invalid
    | Null
    | False
    | True
    | Number(n: int)
    | String(s: string)
    | Array(items: seq<Json>)
    | Object(members: seq<Member>)

  datatype Val =
    | VInvalid
    | VNull
    | VFalse
    | VTrue
    | VNumber(n: int)
    | VString(s: string)
    | VArray(items: seq<Val>)
    | VObject(fields: map<string, Val>)

  function Abs(cs: bool, j: Json): (v: Val)
    decreases j, 1
  {
    match j
    case Invalid => VInvalid
    case Null => VNull
    case False => VFalse
    case True => VTrue
    case Number(n) => VNumber(n)
    case String(s) => VString(s)
    case Array(items) => VArray(AbsAll(cs, items))
    case Object(members) => VObject(View(cs, members))
  }

  function AbsAll(cs: bool, items: seq<Json>): (vs: seq<Val>)
    ensures |vs| == |items|
    ensures forall i :: 0 <= i < |items| ==> vs[i] == Abs(cs, items[i])
    decreases items, 0
  {
    if items == [] then [] else [Abs(cs, items[0])] + AbsAll(cs, items[1..])
  }

  /** Members as a map; an earlier member hides a later one with the same key, as
      lookup along the child list does. */
  function View(cs: bool, ms: seq<Member>): (m: map<string, Val>)
    decreases ms, 0
  {
    if ms == [] then map[]
    else View(cs, ms[1..])[Fold(cs, ms[0].key) := Abs(cs, ms[0].value)]
  }

  /** Index of the first member whose key matches, or the length of the list. */
  function Find(cs: bool, ms: seq<Member>, key: string): (i: nat)
    ensures i <= |ms|
    ensures i < |ms| ==> Fold(cs, ms[i].key) == Fold(cs, key)
    ensures forall k :: 0 <= k < i ==> Fold(cs, ms[k].key) != Fold(cs, key)
  {
    if ms == [] || Fold(cs, ms[0].key) == Fold(cs, key) then 0
    else 1 + Find(cs, ms[1..], key)
  }

  function RemoveAt<T>(s: seq<T>, i: nat): seq<T>
    requires i < |s|
  {
    s[..i] + s[i+1..]
  }

  lemma RemoveAtIndex<T>(s: seq<T>, i: nat, k: nat)
    requires i < |s| && k < |s| - 1
    ensures RemoveAt(s, i)[k] == s[if k < i then k else k + 1]
  {
  }

  predicate Distinct(cs: bool, ms: seq<Member>)
  {
    forall i, j :: 0 <= i < j < |ms| ==> Fold(cs, ms[i].key) != Fold(cs, ms[j].key)
  }

  /** No two sibling keys match, at any depth. */
  predicate DistinctKeys(cs: bool, j: Json)
  {
    match j
    case Array(items) => forall i :: 0 <= i < |items| ==> DistinctKeys(cs, items[i])
    case Object(ms) => Distinct(cs, ms) && forall i :: 0 <= i < |ms| ==> DistinctKeys(cs, ms[i].value)
    case _ => true
  }

  /** No cJSON_Invalid item anywhere. */
  predicate Valid(j: Json)
  {
    match j
    case Invalid => false
    case Array(items) => forall i :: 0 <= i < |items| ==> Valid(items[i])
    case Object(ms) => forall i :: 0 <= i < |ms| ==> Valid(ms[i].value)
    case _ => true
  }

  lemma {:induction false} DistinctModes(j: Json)
    requires DistinctKeys(false, j)
    ensures DistinctKeys(true, j)
  {
    match j
    case Array(items) => forall i | 0 <= i < |items| ensures DistinctKeys(true, items[i]) { DistinctModes(items[i]); }
    case Object(ms) => forall i | 0 <= i < |ms| ensures DistinctKeys(true, ms[i].value) { DistinctModes(ms[i].value); }
    case _ =>
  }

  lemma {:induction false} ViewFind(cs: bool, ms: seq<Member>, key: string)
    ensures Fold(cs, key) in View(cs, ms) <==> Find(cs, ms, key) < |ms|
    ensures Find(cs, ms, key) < |ms| ==> View(cs, ms)[Fold(cs, key)] == Abs(cs, ms[Find(cs, ms, key)].value)
  {
    if ms != [] && Fold(cs, ms[0].key) != Fold(cs, key) {
      ViewFind(cs, ms[1..], key);
    }
  }

  lemma {:induction false} ViewHas(cs: bool, ms: seq<Member>, i: nat)
    requires i < |ms|
    ensures Fold(cs, ms[i].key) in View(cs, ms)
  {
    if i > 0 { ViewHas(cs, ms[1..], i - 1); }
  }

  lemma ViewAt(cs: bool, ms: seq<Member>, i: nat)
    requires i < |ms| && Distinct(cs, ms)
    ensures Fold(cs, ms[i].key) in View(cs, ms)
    ensures View(cs, ms)[Fold(cs, ms[i].key)] == Abs(cs, ms[i].value)
    ensures Find(cs, ms, ms[i].key) == i
  {
    ViewFind(cs, ms, ms[i].key);
  }

  lemma {:induction false} ViewKeys(cs: bool, ms: seq<Member>, k: string)
    requires k in View(cs, ms)
    ensures exists i :: 0 <= i < |ms| && Fold(cs, ms[i].key) == k
  {
    if k == Fold(cs, ms[0].key) {
      assert Fold(cs, ms[0].key) == k;
    } else {
      ViewKeys(cs, ms[1..], k);
      var i :| 0 <= i < |ms[1..]| && Fold(cs, ms[1..][i].key) == k;
      assert Fold(cs, ms[i+1].key) == k;
    }
  }

  lemma {:induction false} ViewConcat(cs: bool, a: seq<Member>, b: seq<Member>)
    ensures View(cs, a + b) == View(cs, b) + View(cs, a)
  {
    hide Abs, Fold;
    if a == [] {
      assert a + b == b;
    } else {
      ViewConcat(cs, a[1..], b);
      assert (a + b)[1..] == a[1..] + b;
      AddThenUpdate(View(cs, b), View(cs, a[1..]), Fold(cs, a[0].key), Abs(cs, a[0].value));
    }
  }

  lemma AddThenUpdate<T, U>(m: map<T, U>, n: map<T, U>, k: T, v: U)
    ensures (m + n)[k := v] == m + n[k := v]
  {
  }

  /** A member no other member matches, between what precedes and what follows it. */
  lemma ViewAround(cs: bool, ms: seq<Member>, i: nat)
    requires i < |ms|
    requires forall j :: 0 <= j < |ms| && j != i ==> Fold(cs, ms[j].key) != Fold(cs, ms[i].key)
    ensures Fold(cs, ms[i].key) !in View(cs, ms[..i]) && Fold(cs, ms[i].key) !in View(cs, ms[i+1..])
    ensures View(cs, ms) == (View(cs, ms[i+1..]) + View(cs, ms[..i]))[Fold(cs, ms[i].key) := Abs(cs, ms[i].value)]
  {
    var k := Fold(cs, ms[i].key);
    if k in View(cs, ms[..i]) { ViewKeys(cs, ms[..i], k); }
    if k in View(cs, ms[i+1..]) { ViewKeys(cs, ms[i+1..], k); }
    assert ms == ms[..i] + ms[i..];
    ViewConcat(cs, ms[..i], ms[i..]);
    assert ms[i..][1..] == ms[i+1..];
  }

  lemma ViewRemove(cs: bool, ms: seq<Member>, i: nat)
    requires i < |ms|
    requires forall j :: 0 <= j < |ms| && j != i ==> Fold(cs, ms[j].key) != Fold(cs, ms[i].key)
    ensures View(cs, RemoveAt(ms, i)) == View(cs, ms) - {Fold(cs, ms[i].key)}
  {
    ViewAround(cs, ms, i);
    ViewConcat(cs, ms[..i], ms[i+1..]);
  }

  lemma ViewAppend(cs: bool, ms: seq<Member>, m: Member)
    requires Fold(cs, m.key) !in View(cs, ms)
    ensures View(cs, ms + [m]) == View(cs, ms)[Fold(cs, m.key) := Abs(cs, m.value)]
  {
    ViewConcat(cs, ms, [m]);
    assert View(cs, [m]) == map[Fold(cs, m.key) := Abs(cs, m.value)];
  }

  lemma ViewUpdate(cs: bool, ms: seq<Member>, i: nat, v: Json)
    requires i < |ms|
    requires forall j :: 0 <= j < |ms| && j != i ==> Fold(cs, ms[j].key) != Fold(cs, ms[i].key)
    ensures View(cs, ms[i := Member(ms[i].key, v)]) == View(cs, ms)[Fold(cs, ms[i].key) := Abs(cs, v)]
  {
    var ns := ms[i := Member(ms[i].key, v)];
    assert ns[..i] == ms[..i] && ns[i+1..] == ms[i+1..];
    ViewAround(cs, ms, i);
    ViewAround(cs, ns, i);
  }

  /** With distinct keys the view depends only on which members there are. */
  lemma ViewPermutation(cs: bool, a: seq<Member>, b: seq<Member>)
    requires Distinct(cs, a) && Distinct(cs, b)
    requires multiset(a) == multiset(b)
    ensures View(cs, a) == View(cs, b)
  {
    ViewSubset(cs, a, b);
    ViewSubset(cs, b, a);
  }

  lemma ViewSubset(cs: bool, a: seq<Member>, b: seq<Member>)
    requires Distinct(cs, a) && Distinct(cs, b)
    requires multiset(a) <= multiset(b)
    ensures forall k :: k in View(cs, a) ==> k in View(cs, b) && View(cs, a)[k] == View(cs, b)[k]
  {
    forall k | k in View(cs, a)
      ensures k in View(cs, b) && View(cs, a)[k] == View(cs, b)[k]
    {
      ViewKeys(cs, a, k);
      var i :| 0 <= i < |a| && Fold(cs, a[i].key) == k;
      assert a[i] in multiset(a);
      assert a[i] in b;
      var j :| 0 <= j < |b| && b[j] == a[i];
      ViewAt(cs, a, i);
      ViewAt(cs, b, j);
    }
  }
}
