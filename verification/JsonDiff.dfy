/** JSON Patch generation: create_patches of cJSON_Utils. The patches are first the edits they
    stand for; `EditJson` is the patch object that compose_patch builds for an edit. */
module JsonDiff {
  import opened CString
  import opened JsonValue
  import opened ListSort
  import opened JsonCompare
  import opened JsonPointer
  import opened JsonPatch

  datatype Edit =
    | Remove(path: string)
    | Add(path: string, v: Json)
    | Replace(path: string, v: Json)

  function EditJson(e: Edit): Json
  {
    match e
    case Remove(path) => Object([Member("op", String("remove")), Member("path", String(path))])
    case Add(path, v) => Object([Member("op", String("add")), Member("path", String(path)), Member("value", v)])
    case Replace(path, v) => Object([Member("op", String("replace")), Member("path", String(path)), Member("value", v)])
  }

  function EditsJson(es: seq<Edit>): (ps: seq<Json>)
    ensures |ps| == |es|
  {
    seq(|es|, i requires 0 <= i < |es| => EditJson(es[i]))
  }

  /** create_patches below a path. Both objects are walked in sorted order. */
  function CreateEdits(cs: bool, path: string, from: Json, to: Json): seq<Edit>
    decreases from, 1
  {
    match (from, to)
    case (Invalid, Invalid) => []
    case (Null, Null) => []
    case (False, False) => []
    case (True, True) => []
    case (Number(x), Number(y)) => if x == y then [] else [Replace(path, to)]
    case (String(s), String(t)) => if s == t then [] else [Replace(path, to)]
    case (Array(xs), Array(ys)) => ArrayEdits(cs, path, xs, ys, 0)
    case (Object(ms), Object(ns)) => ObjectEdits(cs, path, SortedMembers(cs, ms), SortedMembers(cs, ns), from)
    case _ => [Replace(path, to)]
  }

  /** Elements both arrays have are compared; what is left of `from` is removed at one and the
      same index; what is left of `to` is appended. */
  function ArrayEdits(cs: bool, path: string, xs: seq<Json>, ys: seq<Json>, index: nat): seq<Edit>
    decreases xs, 0, |ys|
  {
    if xs != [] && ys != [] then
      CreateEdits(cs, path + "/" + Decimal(index), xs[0], ys[0]) + ArrayEdits(cs, path, xs[1..], ys[1..], index + 1)
    else if xs != [] then
      [Remove(path + "/" + Encode(Decimal(index)))] + ArrayEdits(cs, path, xs[1..], ys, index)
    else if ys != [] then
      [Add(path + "/" + Encode("-"), ys[0])] + ArrayEdits(cs, path, xs, ys[1..], index + 1)
    else []
  }

  function ObjectEdits(cs: bool, path: string, ms: seq<Member>, ns: seq<Member>, ghost whole: Json): seq<Edit>
    requires whole.Object? && forall m :: m in ms ==> m in whole.members
    decreases whole, 0, |ms| + |ns|
  {
    if ms == [] && ns == [] then []
    else
      var diff := if ms == [] then 1 else if ns == [] then -1 else CompareStrings(cs, ms[0].key, ns[0].key);
      if diff == 0 then
        MemberIsSmaller(whole, ms[0]);
        CreateEdits(cs, path + "/" + Encode(ms[0].key), ms[0].value, ns[0].value)
        + ObjectEdits(cs, path, ms[1..], ns[1..], whole)
      else if diff < 0 then
        [Remove(path + "/" + Encode(ms[0].key))] + ObjectEdits(cs, path, ms[1..], ns, whole)
      else
        [Add(path + "/" + Encode(ns[0].key), ns[0].value)] + ObjectEdits(cs, path, ms, ns[1..], whole)
  }

  /** cJSONUtils_GeneratePatches and its case sensitive form. */
  function GeneratePatches(cs: bool, from: Json, to: Json): Json
  {
    Array(EditsJson(CreateEdits(cs, "", from, to)))
  }

  // ---------------------------------------------------------------- what an edit does

  function ApplyEdit(cs: bool, doc: Json, e: Edit): Outcome
  {
    match e
    case Remove(path) =>
      if path == "" then Outcome(0, Invalid)
      else
        var d := DetachPath(cs, doc, path);
        if d.None? then Outcome(13, doc) else Outcome(0, d.value.1)
    case Add(path, v) => if path == "" then Outcome(0, v) else AddPath(cs, doc, path, v)
    case Replace(path, v) =>
      if path == "" then Outcome(0, v)
      else
        var d := DetachPath(cs, doc, path);
        if d.None? then Outcome(13, doc) else AddPath(cs, d.value.1, path, v)
  }

  function RunEdits(cs: bool, doc: Json, es: seq<Edit>): Outcome
    decreases |es|
  {
    if es == [] then Outcome(0, doc)
    else
      var r := ApplyEdit(cs, doc, es[0]);
      if r.status != 0 then r else RunEdits(cs, r.doc, es[1..])
  }

  lemma LowerFields()
    ensures Lower("op") == "op" && Lower("path") == "path" && Lower("value") == "value"
  {
  }

  lemma EditFields(cs: bool, e: Edit)
    ensures Lookup(cs, EditJson(e), "op") == Some(String(if e.Remove? then "remove" else if e.Add? then "add" else "replace"))
    ensures Lookup(cs, EditJson(e), "path") == Some(String(e.path))
    ensures Lookup(cs, EditJson(e), "value") == if e.Remove? then None else Some(e.v)
  {
    LowerFields();
    var ms := EditJson(e).members;
    assert |Fold(cs, "op")| == 2 && |Fold(cs, "path")| == 4 && |Fold(cs, "value")| == 5;
    assert ms[0].key == "op" && ms[1].key == "path";
    assert Find(cs, ms, "op") == 0;
    assert Find(cs, ms, "path") == 1;
    assert !e.Remove? ==> ms[2].key == "value";
  }

  /** Applying the patch object of an edit performs the edit. */
  lemma PatchIsEdit(cs: bool, doc: Json, e: Edit)
    ensures ApplyPatch(cs, doc, EditJson(e)) == ApplyEdit(cs, doc, e)
  {
    EditFields(cs, e);
  }

  lemma {:induction false} PatchesAreEdits(cs: bool, doc: Json, es: seq<Edit>)
    ensures ApplyAll(cs, doc, EditsJson(es)) == RunEdits(cs, doc, es)
    decreases |es|
  {
    if es != [] {
      PatchIsEdit(cs, doc, es[0]);
      assert EditsJson(es)[1..] == EditsJson(es[1..]);
      PatchesAreEdits(cs, ApplyEdit(cs, doc, es[0]).doc, es[1..]);
    }
  }

  lemma {:induction false} RunConcat(cs: bool, doc: Json, a: seq<Edit>, b: seq<Edit>)
    ensures RunEdits(cs, doc, a + b) ==
              var r := RunEdits(cs, doc, a);
              if r.status != 0 then r else RunEdits(cs, r.doc, b)
    decreases |a|
  {
    if a == [] {
      assert a + b == b;
    } else {
      assert (a + b)[1..] == a[1..] + b;
      RunConcat(cs, ApplyEdit(cs, doc, a[0]).doc, a[1..], b);
    }
  }

  // ---------------------------------------------------------------- edits below a child

  function Rebase(pre: string, e: Edit): Edit
  {
    e.(path := pre + e.path)
  }

  function RebaseAll(pre: string, es: seq<Edit>): (r: seq<Edit>)
    ensures |r| == |es|
    ensures forall i :: 0 <= i < |es| ==> r[i] == Rebase(pre, es[i])
  {
    seq(|es|, i requires 0 <= i < |es| => Rebase(pre, es[i]))
  }

  lemma RebaseConcat(pre: string, a: seq<Edit>, b: seq<Edit>)
    ensures RebaseAll(pre, a + b) == RebaseAll(pre, a) + RebaseAll(pre, b)
  {
  }

  lemma RebaseCons(pre: string, e: Edit, es: seq<Edit>)
    ensures RebaseAll(pre, [e] + es) == [e.(path := pre + e.path)] + RebaseAll(pre, es)
  {
  }

  lemma RebaseOne(pre: string, path: string, token: string)
    ensures pre + (path + "/" + token) == (pre + path) + "/" + token
  {
  }

  /** Edits made below a longer path are the same edits with longer paths. */
  lemma {:induction false} EditsRebase(cs: bool, pre: string, path: string, from: Json, to: Json)
    ensures CreateEdits(cs, pre + path, from, to) == RebaseAll(pre, CreateEdits(cs, path, from, to))
    decreases from, 1
  {
    match (from, to)
    case (Array(xs), Array(ys)) => ArrayEditsRebase(cs, pre, path, xs, ys, 0);
    case (Object(ms), Object(ns)) =>
      ObjectEditsRebase(cs, pre, path, SortedMembers(cs, ms), SortedMembers(cs, ns), from);
    case _ =>
  }

  lemma {:induction false} ArrayEditsRebase(cs: bool, pre: string, path: string, xs: seq<Json>, ys: seq<Json>, index: nat)
    ensures ArrayEdits(cs, pre + path, xs, ys, index) == RebaseAll(pre, ArrayEdits(cs, path, xs, ys, index))
    decreases xs, 0, |ys|
  {
    if xs != [] && ys != [] {
      EditsRebase(cs, pre, path + "/" + Decimal(index), xs[0], ys[0]);
      ArrayEditsRebase(cs, pre, path, xs[1..], ys[1..], index + 1);
      RebaseOne(pre, path, Decimal(index));
      RebaseConcat(pre, CreateEdits(cs, path + "/" + Decimal(index), xs[0], ys[0]),
                   ArrayEdits(cs, path, xs[1..], ys[1..], index + 1));
    } else if xs != [] {
      ArrayEditsRebase(cs, pre, path, xs[1..], ys, index);
      RebaseOne(pre, path, Encode(Decimal(index)));
    } else if ys != [] {
      ArrayEditsRebase(cs, pre, path, xs, ys[1..], index + 1);
      RebaseOne(pre, path, Encode("-"));
    }
  }

  lemma {:induction false} ObjectEditsRebase(cs: bool, pre: string, path: string, ms: seq<Member>, ns: seq<Member>, whole: Json)
    requires whole.Object? && forall m :: m in ms ==> m in whole.members
    ensures ObjectEdits(cs, pre + path, ms, ns, whole) == RebaseAll(pre, ObjectEdits(cs, path, ms, ns, whole))
    decreases whole, 0, |ms| + |ns|
  {
    hide CreateEdits, Encode, CompareStrings, Rebase;
    if ms != [] || ns != [] {
      var diff := if ms == [] then 1 else if ns == [] then -1 else CompareStrings(cs, ms[0].key, ns[0].key);
      if diff == 0 {
        MemberIsSmaller(whole, ms[0]);
        EditsRebase(cs, pre, path + "/" + Encode(ms[0].key), ms[0].value, ns[0].value);
        ObjectEditsRebase(cs, pre, path, ms[1..], ns[1..], whole);
        RebaseOne(pre, path, Encode(ms[0].key));
        RebaseConcat(pre, CreateEdits(cs, path + "/" + Encode(ms[0].key), ms[0].value, ns[0].value),
                     ObjectEdits(cs, path, ms[1..], ns[1..], whole));
      } else if diff < 0 {
        ObjectEditsRebase(cs, pre, path, ms[1..], ns, whole);
        RebaseOne(pre, path, Encode(ms[0].key));
        RebaseCons(pre, Remove(path + "/" + Encode(ms[0].key)), ObjectEdits(cs, path, ms[1..], ns, whole));
      } else {
        ObjectEditsRebase(cs, pre, path, ms, ns[1..], whole);
        RebaseOne(pre, path, Encode(ns[0].key));
        RebaseCons(pre, Add(path + "/" + Encode(ns[0].key), ns[0].value), ObjectEdits(cs, path, ms, ns[1..], whole));
      }
    }
  }

  predicate AllBelow(es: seq<Edit>)
  {
    forall i :: 0 <= i < |es| ==> es[i].path != "" && es[i].path[0] == '/'
  }

  /** Generation either replaces the node itself or only edits below it. */
  lemma {:induction false} EditsShape(cs: bool, from: Json, to: Json)
    ensures CreateEdits(cs, "", from, to) == [Replace("", to)] || AllBelow(CreateEdits(cs, "", from, to))
  {
    match (from, to)
    case (Array(xs), Array(ys)) => ArrayEditsBelow(cs, xs, ys, 0);
    case (Object(ms), Object(ns)) => ObjectEditsBelow(cs, SortedMembers(cs, ms), SortedMembers(cs, ns), from);
    case _ =>
  }

  lemma BelowRebased(token: string, es: seq<Edit>)
    ensures AllBelow(RebaseAll("/" + token, es))
  {
  }

  lemma {:induction false} ArrayEditsBelow(cs: bool, xs: seq<Json>, ys: seq<Json>, index: nat)
    ensures AllBelow(ArrayEdits(cs, "", xs, ys, index))
    decreases |xs| + |ys|
  {
    if xs != [] && ys != [] {
      ArrayEditsBelow(cs, xs[1..], ys[1..], index + 1);
      ChildEdits(cs, Decimal(index), xs[0], ys[0]);
      BelowRebased(Decimal(index), CreateEdits(cs, "", xs[0], ys[0]));
    } else if xs != [] {
      ArrayEditsBelow(cs, xs[1..], ys, index);
    } else if ys != [] {
      ArrayEditsBelow(cs, xs, ys[1..], index + 1);
    }
  }

  /** The edits for a child, as edits of the child alone. */
  lemma ChildEdits(cs: bool, token: string, from: Json, to: Json)
    ensures CreateEdits(cs, "" + "/" + token, from, to) == RebaseAll("/" + token, CreateEdits(cs, "", from, to))
  {
    EditsRebase(cs, "/" + token, "", from, to);
    assert "/" + token + "" == "" + "/" + token;
  }

  lemma {:induction false} ObjectEditsBelow(cs: bool, ms: seq<Member>, ns: seq<Member>, whole: Json)
    requires whole.Object? && forall m :: m in ms ==> m in whole.members
    ensures AllBelow(ObjectEdits(cs, "", ms, ns, whole))
    decreases |ms| + |ns|
  {
    if ms != [] || ns != [] {
      var diff := if ms == [] then 1 else if ns == [] then -1 else CompareStrings(cs, ms[0].key, ns[0].key);
      if diff == 0 {
        ObjectEditsBelow(cs, ms[1..], ns[1..], whole);
        ChildEdits(cs, Encode(ms[0].key), ms[0].value, ns[0].value);
        BelowRebased(Encode(ms[0].key), CreateEdits(cs, "", ms[0].value, ns[0].value));
      } else if diff < 0 {
        ObjectEditsBelow(cs, ms[1..], ns, whole);
      } else {
        ObjectEditsBelow(cs, ms, ns[1..], whole);
      }
    }
  }

  // ---------------------------------------------------------------- locality

  /** Child i of t is the one that "/key" selects (for an array, the key is not used). */
  predicate Selects(cs: bool, t: Json, i: nat, key: string)
  {
    match t
    case Array(items) => i < |items| && i < SIZE_LIMIT
    case Object(ms) => i < |ms| && Find(cs, ms, key) == i
    case _ => false
  }

  function SelectToken(t: Json, i: nat, key: string): (token: string)
    ensures '/' !in token
  {
    if t.Array? then Decimal(i) else Encode(key)
  }

  lemma ResolveSelected(cs: bool, t: Json, i: nat, key: string, rest: string)
    requires Selects(cs, t, i, key) && AtTokenEnd(rest)
    ensures Resolve(cs, t, "/" + SelectToken(t, i, key) + rest) == Prepend(i, Resolve(cs, Child(t, i), rest))
  {
    if t.Array? { DecodeDecimal(i, rest); } else { FindTokenIsFind(cs, t.members, key, rest); }
    ResolveToken(cs, t, SelectToken(t, i, key), rest);
  }

  lemma SelectsKept(cs: bool, t: Json, i: nat, key: string, c: Json)
    requires Selects(cs, t, i, key)
    ensures Selects(cs, WithChild(t, i, c), i, key)
    ensures SelectToken(WithChild(t, i, c), i, key) == SelectToken(t, i, key)
    ensures Child(WithChild(t, i, c), i) == c
    ensures forall d :: WithChild(WithChild(t, i, c), i, d) == WithChild(t, i, d)
    ensures WithChild(t, i, Child(t, i)) == t
  {
    if t.Object? {
      var ms := WithChild(t, i, c).members;
      assert forall k :: 0 <= k < |ms| ==> ms[k].key == t.members[k].key;
    }
  }

  /** A path below the child splits like the same path read from the child. */
  lemma SplitBelow(pre: string, p: string)
    requires p != "" && p[0] == '/'
    ensures SplitLast(p).Some? && AtTokenEnd(SplitLast(p).value.0)
    ensures SplitLast(pre + p) == Some((pre + SplitLast(p).value.0, SplitLast(p).value.1))
  {
    var s := SplitLast(p);
    assert p[0] in p;
    var (a, b) := s.value;
    assert pre + p == (pre + a) + "/" + b;
    SplitUnique(pre + a, b);
    if a != "" { assert p[0] == a[0]; }
  }

  lemma DetachLocal(cs: bool, t: Json, i: nat, key: string, path: string)
    requires Selects(cs, t, i, key) && path != "" && path[0] == '/'
    ensures DetachPath(cs, t, "/" + SelectToken(t, i, key) + path) ==
              var d := DetachPath(cs, Child(t, i), path);
              if d.None? then None else Some((d.value.0, WithChild(t, i, d.value.1)))
  {
    var pre := "/" + SelectToken(t, i, key);
    SplitBelow(pre, path);
    var a := SplitLast(path).value.0;
    ResolveSelected(cs, t, i, key, a);
    var loc := Resolve(cs, Child(t, i), a);
    if loc.Some? { assert ([i] + loc.value)[1..] == loc.value; }
  }

  lemma AddLocal(cs: bool, t: Json, i: nat, key: string, path: string, v: Json)
    requires Selects(cs, t, i, key) && path != "" && path[0] == '/'
    ensures AddPath(cs, t, "/" + SelectToken(t, i, key) + path, v) ==
              var r := AddPath(cs, Child(t, i), path, v);
              Outcome(r.status, WithChild(t, i, r.doc))
  {
    var pre := "/" + SelectToken(t, i, key);
    SplitBelow(pre, path);
    var a := SplitLast(path).value.0;
    ResolveSelected(cs, t, i, key, a);
    SelectsKept(cs, t, i, key, Child(t, i));
    var loc := Resolve(cs, Child(t, i), a);
    if loc.Some? { assert ([i] + loc.value)[1..] == loc.value; }
  }

  lemma EditLocal(cs: bool, t: Json, i: nat, key: string, e: Edit)
    requires Selects(cs, t, i, key) && e.path != "" && e.path[0] == '/'
    ensures ApplyEdit(cs, t, Rebase("/" + SelectToken(t, i, key), e)) ==
              var r := ApplyEdit(cs, Child(t, i), e);
              Outcome(r.status, WithChild(t, i, r.doc))
  {
    SelectsKept(cs, t, i, key, Child(t, i));
    match e
    case Remove(path) => DetachLocal(cs, t, i, key, path);
    case Add(path, v) => AddLocal(cs, t, i, key, path, v);
    case Replace(path, v) =>
      DetachLocal(cs, t, i, key, path);
      var d := DetachPath(cs, Child(t, i), path);
      if d.Some? {
        SelectsKept(cs, t, i, key, d.value.1);
        AddLocal(cs, WithChild(t, i, d.value.1), i, key, path, v);
      }
  }

  /** Edits below a child change that child alone, as they change it standing alone. */
  lemma {:induction false} RunLocal(cs: bool, t: Json, i: nat, key: string, es: seq<Edit>)
    requires Selects(cs, t, i, key) && AllBelow(es)
    ensures RunEdits(cs, t, RebaseAll("/" + SelectToken(t, i, key), es)) ==
              var r := RunEdits(cs, Child(t, i), es);
              Outcome(r.status, WithChild(t, i, r.doc))
    decreases |es|
  {
    SelectsKept(cs, t, i, key, Child(t, i));
    if es != [] {
      var pre := "/" + SelectToken(t, i, key);
      EditLocal(cs, t, i, key, es[0]);
      var c := ApplyEdit(cs, Child(t, i), es[0]).doc;
      SelectsKept(cs, t, i, key, c);
      assert RebaseAll(pre, es)[1..] == RebaseAll(pre, es[1..]);
      RunLocal(cs, WithChild(t, i, c), i, key, es[1..]);
    }
  }
}
