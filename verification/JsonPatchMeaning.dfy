/** What the six operations of JSON Patch do to a document (section 4 of RFC 6902), said of
    the members as a map and of the elements as a sequence. The parent of the place that is
    changed is wherever its pointer leads. */
module JsonPatchMeaning {
  import opened CString
  import opened JsonValue
  import opened ListSort
  import opened JsonCompare
  import opened JsonPointer
  import opened JsonPatch
  import opened JsonDiff
  import opened JsonRoundTrip

  /** The patch object asks for this operation at this path. */
  ghost predicate Asks(cs: bool, patch: Json, op: string, path: string)
  {
    Lookup(cs, patch, "op") == Some(String(op)) && Lookup(cs, patch, "path") == Some(String(path))
  }

  /** The path names a place in the parent at `loc`: the pointer to the parent, and one token. */
  ghost predicate Leads(cs: bool, doc: Json, path: string, loc: Location, parent: string, key: string)
  {
    && path == parent + "/" + Encode(key) && Survives(key)
    && Resolve(cs, doc, parent) == Some(loc)
  }

  lemma PathSplits(cs: bool, doc: Json, path: string, loc: Location, parent: string, key: string)
    requires Leads(cs, doc, path, loc, parent, key)
    ensures path != "" && ValidLocation(doc, loc)
    ensures SplitLast(path) == Some((parent, Encode(key))) && DecodeToken(Encode(key)) == key
  {
    hide Resolve, Encode, SplitLast, DecodeToken;
    SplitUnique(parent, Encode(key));
    DecodeTokenExact(key);
    assert |path| > 0;
  }

  // ---------------------------------------------------------------- test

  /** A test succeeds exactly if the node is there, a value is given, and the two are equal up
      to member order; it never changes the document. */
  lemma TestDecides(cs: bool, doc: Json, patch: Json, path: string)
    requires Asks(cs, patch, "test", path) && DistinctKeys(cs, doc) && DistinctKeys(cs, patch)
    ensures var r := ApplyPatch(cs, doc, patch);
            && r.doc == doc
            && (r.status == 0 <==>
                  exists loc :: Resolve(cs, doc, path) == Some(loc) && Lookup(cs, patch, "value").Some?
                                && Abs(cs, At(doc, loc)) == Abs(cs, Lookup(cs, patch, "value").value))
  {
    hide Resolve, CompareJson, Abs, Find;
    var loc, v := Resolve(cs, doc, path), Lookup(cs, patch, "value");
    if loc.Some? && v.Some? {
      NodeDistinct(cs, doc, loc.value);
      ValueDistinct(cs, patch, "value");
      CompareJsonCorrect(cs, At(doc, loc.value), v.value);
    }
  }

  lemma {:induction false} NodeDistinct(cs: bool, doc: Json, loc: Location)
    requires ValidLocation(doc, loc) && DistinctKeys(cs, doc)
    ensures DistinctKeys(cs, At(doc, loc))
    decreases |loc|
  {
    if loc != [] { NodeDistinct(cs, Child(doc, loc[0]), loc[1..]); }
  }

  lemma ValueDistinct(cs: bool, j: Json, name: string)
    requires DistinctKeys(cs, j) && Lookup(cs, j, name).Some?
    ensures DistinctKeys(cs, Lookup(cs, j, name).value)
  {
  }

  // ---------------------------------------------------------------- taking out and putting in

  /** `left` is the node without what stood under the key, which was v. */
  ghost predicate TakenOut(cs: bool, node: Json, key: string, v: Json, left: Json)
  {
    match node
    case Object(ms) =>
      && Fold(cs, key) in View(cs, ms) && Abs(cs, v) == View(cs, ms)[Fold(cs, key)]
      && left.Object? && View(cs, left.members) == View(cs, ms) - {Fold(cs, key)}
    case Array(items) =>
      exists i :: 0 <= i < |items| && key == Decimal(i) && v == items[i] && left == Array(items[..i] + items[i+1..])
    case _ => false
  }

  /** `full` is the node with v under the key: bound to it in an object; inserted in front of
      that element, or appended, in an array. */
  ghost predicate PutIn(cs: bool, node: Json, key: string, v: Json, full: Json)
  {
    match node
    case Object(ms) => full.Object? && View(cs, full.members) == View(cs, ms)[Fold(cs, key) := Abs(cs, v)]
    case Array(items) =>
      || (key == "-" && full == Array(items + [v]))
      || exists i :: 0 <= i <= |items| && key == Decimal(i) && full == Array(items[..i] + [v] + items[i..])
    case _ => false
  }

  /** There is something to take out under the key. */
  ghost predicate Holds(cs: bool, node: Json, key: string)
  {
    match node
    case Object(ms) => Fold(cs, key) in View(cs, ms)
    case Array(items) => exists i :: 0 <= i < |items| && key == Decimal(i)
    case _ => false
  }

  /** Something can be put in under the key. */
  ghost predicate Takes(node: Json, key: string)
  {
    match node
    case Object(ms) => true
    case Array(items) => key == "-" || exists i :: 0 <= i <= |items| && key == Decimal(i)
    case _ => false
  }

  /** Keys are distinct, ignoring case, and an array can be indexed. */
  ghost predicate Regular(node: Json)
  {
    (node.Object? ==> Distinct(false, node.members) && Distinct(true, node.members))
    && (node.Array? ==> |node.items| < SIZE_LIMIT)
  }

  lemma MemberTaken(cs: bool, ms: seq<Member>, key: string)
    requires Distinct(false, ms) && Distinct(cs, ms)
    ensures var d := DetachChild(Object(ms), key);
            && (Fold(cs, key) in View(cs, ms) ==> d.Some? && TakenOut(cs, Object(ms), key, d.value.0, d.value.1))
            && (Lower(key) !in View(false, ms) ==> d.None?)
  {
    ViewFind(false, ms, key);
    if Fold(cs, key) in View(cs, ms) {
      ViewFind(cs, ms, key);
      var i, j := Find(cs, ms, key), Find(false, ms, key);
      FoldIdempotent(cs, ms[i].key, key);
      assert i == j;
      forall q | 0 <= q < |ms| && q != i ensures Fold(cs, ms[q].key) != Fold(cs, ms[i].key) {
        FoldIdempotent(cs, ms[q].key, ms[i].key);
      }
      ViewRemove(cs, ms, i);
    }
  }

  lemma MemberPut(cs: bool, ms: seq<Member>, key: string, v: Json)
    requires Distinct(cs, ms)
    ensures var r := AddChild(cs, Object(ms), key, v); r.status == 0 && PutIn(cs, Object(ms), key, v, r.doc)
  {
    hide Abs, Fold;
    ViewFind(cs, ms, key);
    var i := Find(cs, ms, key);
    if i < |ms| {
      ViewRemove(cs, ms, i);
      ViewAppend(cs, RemoveAt(ms, i), Member(key, v));
      assert (View(cs, ms) - {Fold(cs, key)})[Fold(cs, key) := Abs(cs, v)] == View(cs, ms)[Fold(cs, key) := Abs(cs, v)];
    } else {
      ViewAppend(cs, ms, Member(key, v));
    }
  }

  lemma IndexRead(n: nat)
    requires n < SIZE_LIMIT
    ensures DecodeIndex(Decimal(n)) == Some(n) && Decimal(n) != "-"
  {
    DecodeDecimal(n, "");
    assert Decimal(n) + "" == Decimal(n);
    assert Decimal(n)[0] != '-';
  }

  lemma ChildTaken(cs: bool, node: Json, key: string)
    requires Regular(node) && Holds(cs, node, key)
    ensures var d := DetachChild(node, key); d.Some? && TakenOut(cs, node, key, d.value.0, d.value.1)
  {
    hide Decimal, DecodeIndex, Find, View;
    match node
    case Object(ms) => MemberTaken(cs, ms, key);
    case Array(items) =>
      var i :| 0 <= i < |items| && key == Decimal(i);
      IndexRead(i);
  }

  lemma ChildPut(cs: bool, node: Json, key: string, v: Json)
    requires Regular(node) && Takes(node, key)
    ensures var r := AddChild(cs, node, key, v); r.status == 0 && PutIn(cs, node, key, v, r.doc)
  {
    hide Decimal, DecodeIndex, Find, View;
    match node
    case Object(ms) => MemberPut(cs, ms, key, v);
    case Array(items) =>
      if key != "-" {
        var i :| 0 <= i <= |items| && key == Decimal(i);
        IndexRead(i);
      }
  }

  lemma DetachAt(cs: bool, doc: Json, path: string, loc: Location, parent: string, key: string)
    requires Leads(cs, doc, path, loc, parent, key)
    ensures ValidLocation(doc, loc) && path != ""
    ensures DetachPath(cs, doc, path) ==
              var d := DetachChild(At(doc, loc), key);
              if d.None? then None else Some((d.value.0, Put(doc, loc, d.value.1)))
  {
    hide Resolve, Encode, SplitLast, DecodeToken, Survives, DetachChild;
    PathSplits(cs, doc, path, loc, parent, key);
  }

  lemma AddAt(cs: bool, doc: Json, path: string, loc: Location, parent: string, key: string, v: Json)
    requires Leads(cs, doc, path, loc, parent, key)
    ensures ValidLocation(doc, loc) && path != ""
    ensures AddPath(cs, doc, path, v) ==
              var r := AddChild(cs, At(doc, loc), key, v); Outcome(r.status, Put(doc, loc, r.doc))
  {
    hide Resolve, Encode, SplitLast, DecodeToken, Survives, AddChild;
    PathSplits(cs, doc, path, loc, parent, key);
  }

  /** There is nothing under the key, in either case: no such member, an index beyond the end,
      or a node without children. */
  ghost predicate Absent(node: Json, key: string)
  {
    match node
    case Object(ms) => Lower(key) !in View(false, ms)
    case Array(items) => exists i :: |items| <= i < SIZE_LIMIT && key == Decimal(i)
    case _ => true
  }

  lemma NothingTaken(node: Json, key: string)
    requires Absent(node, key)
    ensures DetachChild(node, key).None?
  {
    hide Decimal, DecodeIndex, View;
    match node
    case Object(ms) => ViewFind(false, ms, key);
    case Array(items) =>
      var i :| |items| <= i < SIZE_LIMIT && key == Decimal(i);
      IndexRead(i);
    case _ =>
  }

  /** There is no place to put anything under the key. */
  ghost predicate Closed(node: Json, key: string)
  {
    match node
    case Object(ms) => false
    case Array(items) => exists i :: |items| < i < SIZE_LIMIT && key == Decimal(i)
    case _ => true
  }

  lemma NothingPut(cs: bool, node: Json, key: string, v: Json)
    requires Closed(node, key)
    ensures AddChild(cs, node, key, v).status != 0 && AddChild(cs, node, key, v).doc == node
  {
    hide Decimal, DecodeIndex, View;
    match node
    case Array(items) =>
      var i :| |items| < i < SIZE_LIMIT && key == Decimal(i);
      IndexRead(i);
    case _ =>
  }

  lemma {:induction false} PutSame(doc: Json, loc: Location)
    requires ValidLocation(doc, loc)
    ensures Put(doc, loc, At(doc, loc)) == doc
    decreases |loc|
  {
    if loc != [] { PutSame(Child(doc, loc[0]), loc[1..]); }
  }

  /** Changing the node at one location leaves every node that is neither above nor below it. */
  lemma {:induction false} PutOnly(doc: Json, loc: Location, d: Json, other: Location)
    requires ValidLocation(doc, loc) && ValidLocation(doc, other) && !(loc <= other) && !(other <= loc)
    ensures ValidLocation(Put(doc, loc, d), other) && At(Put(doc, loc, d), other) == At(doc, other)
    decreases |loc|
  {
    assert loc == [loc[0]] + loc[1..] && other == [other[0]] + other[1..];
    if loc[0] == other[0] {
      PutOnly(Child(doc, loc[0]), loc[1..], d, other[1..]);
    }
  }

  // ---------------------------------------------------------------- the operations

  /** Something was taken out, or put in, under the key of the node at `loc`; the rest of the
      document is as before. */
  ghost predicate Removed(cs: bool, doc: Json, loc: Location, key: string, v: Json, after: Json)
    requires ValidLocation(doc, loc)
  {
    exists left :: TakenOut(cs, At(doc, loc), key, v, left) && after == Put(doc, loc, left)
  }

  ghost predicate Added(cs: bool, doc: Json, loc: Location, key: string, v: Json, after: Json)
    requires ValidLocation(doc, loc)
  {
    exists full :: PutIn(cs, At(doc, loc), key, v, full) && after == Put(doc, loc, full)
  }

  ghost predicate Place(cs: bool, doc: Json, path: string, loc: Location, parent: string, key: string)
  {
    Leads(cs, doc, path, loc, parent, key) && ValidLocation(doc, loc) && Regular(At(doc, loc))
  }

  lemma Detaches(cs: bool, doc: Json, path: string, loc: Location, parent: string, key: string)
    requires Place(cs, doc, path, loc, parent, key)
    ensures path != ""
    ensures Holds(cs, At(doc, loc), key) ==>
              var d := DetachPath(cs, doc, path); d.Some? && Removed(cs, doc, loc, key, d.value.0, d.value.1)
    ensures Absent(At(doc, loc), key) ==> DetachPath(cs, doc, path).None?
  {
    hide DetachPath, DetachChild, Resolve, TakenOut, Holds, Absent, Regular, Leads;
    DetachAt(cs, doc, path, loc, parent, key);
    if Holds(cs, At(doc, loc), key) { ChildTaken(cs, At(doc, loc), key); }
    if Absent(At(doc, loc), key) { NothingTaken(At(doc, loc), key); }
  }

  lemma Adds(cs: bool, doc: Json, path: string, loc: Location, parent: string, key: string, v: Json)
    requires Place(cs, doc, path, loc, parent, key)
    ensures path != ""
    ensures Takes(At(doc, loc), key) ==>
              var r := AddPath(cs, doc, path, v); r.status == 0 && Added(cs, doc, loc, key, v, r.doc)
    ensures Closed(At(doc, loc), key) ==> AddPath(cs, doc, path, v).status != 0 && AddPath(cs, doc, path, v).doc == doc
  {
    hide AddPath, AddChild, Resolve, PutIn, Takes, Closed, Regular, Leads;
    AddAt(cs, doc, path, loc, parent, key, v);
    PutSame(doc, loc);
    if Takes(At(doc, loc), key) { ChildPut(cs, At(doc, loc), key, v); }
    if Closed(At(doc, loc), key) { NothingPut(cs, At(doc, loc), key, v); }
  }

  /** remove takes out what stands there; where nothing does, it fails with 13. */
  lemma RemoveMeans(cs: bool, doc: Json, patch: Json, path: string, loc: Location, parent: string, key: string)
    requires Asks(cs, patch, "remove", path) && Place(cs, doc, path, loc, parent, key)
    ensures var r := ApplyPatch(cs, doc, patch);
            && (Holds(cs, At(doc, loc), key) ==> r.status == 0 && exists v :: Removed(cs, doc, loc, key, v, r.doc))
            && (Absent(At(doc, loc), key) ==> r == Outcome(13, doc))
  {
    hide DetachPath, AddPath, Lookup, Removed, Holds, Absent, Leads, Regular, Resolve;
    Detaches(cs, doc, path, loc, parent, key);
  }

  /** add puts the value in. */
  lemma AddMeans(cs: bool, doc: Json, patch: Json, path: string, loc: Location, parent: string, key: string, v: Json)
    requires Asks(cs, patch, "add", path) && Lookup(cs, patch, "value") == Some(v)
    requires Place(cs, doc, path, loc, parent, key)
    ensures var r := ApplyPatch(cs, doc, patch);
            && (Takes(At(doc, loc), key) ==> r.status == 0 && Added(cs, doc, loc, key, v, r.doc))
            && (Closed(At(doc, loc), key) ==> r.status != 0 && r.doc == doc)
  {
    hide DetachPath, AddPath, Lookup, Added, Takes, Closed, Place, Resolve;
    Adds(cs, doc, path, loc, parent, key, v);
  }

  /** copy puts in what stands at `from`, which it leaves where it is. */
  lemma CopyMeans(cs: bool, doc: Json, patch: Json, from: string, source: Location,
                  path: string, loc: Location, parent: string, key: string)
    requires Asks(cs, patch, "copy", path) && Lookup(cs, patch, "from") == Some(String(from))
    requires Resolve(cs, doc, from) == Some(source) && ValidLocation(doc, source)
    requires Place(cs, doc, path, loc, parent, key)
    ensures var r := ApplyPatch(cs, doc, patch);
            && (Takes(At(doc, loc), key) ==> r.status == 0 && Added(cs, doc, loc, key, At(doc, source), r.doc))
            && (Closed(At(doc, loc), key) ==> r.status != 0 && r.doc == doc)
  {
    hide DetachPath, AddPath, Lookup, Added, Takes, Closed, Place, Resolve;
    Adds(cs, doc, path, loc, parent, key, At(doc, source));
  }

  /** move takes out what stands at `from`, and puts it in where `path` leads then. */
  lemma MoveMeans(cs: bool, doc: Json, patch: Json, from: string, place: Location, holder: string, was: string, path: string)
      returns (mid: Json, v: Json)
    requires Asks(cs, patch, "move", path) && Lookup(cs, patch, "from") == Some(String(from))
    requires Place(cs, doc, from, place, holder, was) && Holds(cs, At(doc, place), was)
    ensures Removed(cs, doc, place, was, v, mid)
    ensures forall loc, parent, key :: Place(cs, mid, path, loc, parent, key) ==>
              var r := ApplyPatch(cs, doc, patch);
              && (Takes(At(mid, loc), key) ==> r.status == 0 && Added(cs, mid, loc, key, v, r.doc))
              && (Closed(At(mid, loc), key) ==> r.status != 0)
  {
    hide DetachPath, AddPath, Lookup, Added, Removed, Takes, Closed, Leads, Regular, Resolve, Holds;
    Detaches(cs, doc, from, place, holder, was);
    v, mid := DetachPath(cs, doc, from).value.0, DetachPath(cs, doc, from).value.1;
    forall loc, parent, key | Place(cs, mid, path, loc, parent, key)
      ensures path != ""
      ensures Takes(At(mid, loc), key) ==> AddPath(cs, mid, path, v).status == 0 && Added(cs, mid, loc, key, v, AddPath(cs, mid, path, v).doc)
      ensures Closed(At(mid, loc), key) ==> AddPath(cs, mid, path, v).status != 0
    {
      Adds(cs, mid, path, loc, parent, key, v);
    }
  }

  // ---------------------------------------------------------------- two changes of one node

  lemma {:induction false} TokenKept(cs: bool, ms: seq<Member>, i: nat, v: Json, p: string)
    requires i < |ms|
    ensures FindToken(cs, ms[i := Member(ms[i].key, v)], p) == FindToken(cs, ms, p)
  {
    hide TokenMatches;
    var ns := ms[i := Member(ms[i].key, v)];
    if i == 0 {
      assert ns[1..] == ms[1..];
    } else {
      assert ns[1..] == ms[1..][i-1 := Member(ms[i].key, v)];
      TokenKept(cs, ms[1..], i - 1, v, p);
    }
  }

  lemma StepKept(cs: bool, j: Json, i: nat, c: Json, p: string)
    requires i < ChildCount(j)
    ensures Step(cs, WithChild(j, i, c), p) == Step(cs, j, p)
  {
    hide DecodeIndex, FindToken;
    if j.Object? { TokenKept(cs, j.members, i, c, p); }
  }

  /** A pointer leads to the same place after the node there has changed. */
  lemma {:induction false} ResolveKept(cs: bool, doc: Json, p: string, loc: Location, d: Json)
    requires Resolve(cs, doc, p) == Some(loc) && ValidLocation(doc, loc)
    ensures var after := Put(doc, loc, d);
            && ValidLocation(after, loc) && At(after, loc) == d && Resolve(cs, after, p) == Some(loc)
            && forall e :: Put(after, loc, e) == Put(doc, loc, e)
    decreases |p|
  {
    hide Step, SkipToken;
    if loc != [] {
      var i, rest := loc[0], SkipToken(p[1..]);
      ResolveStep(cs, doc, p, loc);
      ResolveKept(cs, Child(doc, i), rest, loc[1..], d);
      var c := Put(Child(doc, i), loc[1..], d);
      StepKept(cs, doc, i, c, p[1..]);
      ChildBack(doc, i, c);
      assert [i] + loc[1..] == loc;
    }
  }

  lemma ResolveStep(cs: bool, doc: Json, p: string, loc: Location)
    requires Resolve(cs, doc, p) == Some(loc) && loc != []
    ensures p != "" && p[0] == '/' && Step(cs, doc, p[1..]) == Some(loc[0]) && loc[0] < ChildCount(doc)
    ensures Resolve(cs, Child(doc, loc[0]), SkipToken(p[1..])) == Some(loc[1..])
  {
    hide Step, SkipToken;
  }

  lemma ChildBack(j: Json, i: nat, c: Json)
    requires i < ChildCount(j)
    ensures Child(WithChild(j, i, c), i) == c
    ensures forall e :: WithChild(WithChild(j, i, c), i, e) == WithChild(j, i, e)
  {
    if j.Object? {
      forall e ensures WithChild(WithChild(j, i, c), i, e) == WithChild(j, i, e) { }
    }
  }

  /** Two changes in one parent: take out under the one key, put in under the other. */
  ghost predicate Moved(cs: bool, node: Json, was: string, key: string, v: Json, after: Json)
  {
    exists left :: TakenOut(cs, node, was, v, left) && PutIn(cs, left, key, v, after)
  }

  lemma TakenRegular(cs: bool, node: Json, key: string)
    requires Regular(node) && Holds(cs, node, key)
    ensures var d := DetachChild(node, key);
            && d.Some? && TakenOut(cs, node, key, d.value.0, d.value.1) && Regular(d.value.1)
            && (node.Object? ==> d.value.1.Object?) && (node.Array? ==> d.value.1.Array?)
  {
    hide Decimal, DecodeIndex, View, Holds, TakenOut;
    ChildTaken(cs, node, key);
    if node.Object? {
      var i := Find(false, node.members, key);
      var us := RemoveAt(node.members, i);
      forall b: bool, p, q | 0 <= p < q < |us| && Distinct(b, node.members) ensures Fold(b, us[p].key) != Fold(b, us[q].key) {
        RemoveAtIndex(node.members, i, p);
        RemoveAtIndex(node.members, i, q);
      }
    }
  }

  ghost predicate Fills(cs: bool, doc: Json, loc: Location, left: Json, key: string, x: Json, r: Outcome)
    requires ValidLocation(doc, loc)
  {
    r.status == 0 && exists full :: PutIn(cs, left, key, x, full) && r.doc == Put(doc, loc, full)
  }

  /** Taking out and then putting in at the same parent changes that parent alone. */
  lemma OneParent(cs: bool, doc: Json, from: string, path: string, loc: Location, parent: string, was: string, key: string)
      returns (v: Json, mid: Json, left: Json)
    requires Place(cs, doc, from, loc, parent, was) && Leads(cs, doc, path, loc, parent, key) && Holds(cs, At(doc, loc), was)
    ensures from != "" && path != "" && TakenOut(cs, At(doc, loc), was, v, left) && mid == Put(doc, loc, left)
    ensures DetachPath(cs, doc, from) == Some((v, mid))
    ensures forall x :: Takes(left, key) ==> Fills(cs, doc, loc, left, key, x, AddPath(cs, mid, path, x))
  {
    hide DetachPath, AddPath, DetachChild, AddChild, TakenOut, PutIn, Takes, Holds, Regular, Resolve;
    DetachAt(cs, doc, from, loc, parent, was);
    DetachAt(cs, doc, path, loc, parent, key);
    var node := At(doc, loc);
    TakenRegular(cs, node, was);
    v, left := DetachChild(node, was).value.0, DetachChild(node, was).value.1;
    mid := Put(doc, loc, left);
    ResolveKept(cs, doc, parent, loc, left);
    forall x | Takes(left, key) ensures Fills(cs, doc, loc, left, key, x, AddPath(cs, mid, path, x))
    {
      AddAt(cs, mid, path, loc, parent, key, x);
      ChildPut(cs, left, key, x);
      var full := AddChild(cs, left, key, x).doc;
      assert PutIn(cs, left, key, x, full) && Put(mid, loc, full) == Put(doc, loc, full);
    }
  }

  /** move within one parent. */
  lemma MoveWithin(cs: bool, doc: Json, patch: Json, from: string, path: string, loc: Location, parent: string,
                   was: string, key: string)
    requires Asks(cs, patch, "move", path) && Lookup(cs, patch, "from") == Some(String(from))
    requires Place(cs, doc, from, loc, parent, was) && Leads(cs, doc, path, loc, parent, key) && Holds(cs, At(doc, loc), was)
    requires forall v, left :: TakenOut(cs, At(doc, loc), was, v, left) ==> Takes(left, key)
    ensures var r := ApplyPatch(cs, doc, patch);
            r.status == 0 && exists v, full :: Moved(cs, At(doc, loc), was, key, v, full) && r.doc == Put(doc, loc, full)
  {
    hide DetachPath, AddPath, Lookup, TakenOut, PutIn, Takes, Holds, Regular, Leads, Resolve;
    var v, mid, left := OneParent(cs, doc, from, path, loc, parent, was, key);
    var r := AddPath(cs, mid, path, v);
    var full :| PutIn(cs, left, key, v, full) && r.doc == Put(doc, loc, full);
    assert Moved(cs, At(doc, loc), was, key, v, full);
  }

  /** Moving a member: its value leaves the old key for the new one, and all else stays. */
  lemma MovedMember(cs: bool, ms: seq<Member>, was: string, key: string, v: Json, after: Json)
    requires Moved(cs, Object(ms), was, key, v, after)
    ensures after.Object? && Fold(cs, was) in View(cs, ms)
    ensures View(cs, after.members) ==
              (View(cs, ms) - {Fold(cs, was)})[Fold(cs, key) := View(cs, ms)[Fold(cs, was)]]
  {
    hide View, Abs, Fold;
  }

  lemma TakenElement(cs: bool, items: seq<Json>, i: nat, v: Json, left: Json)
    requires TakenOut(cs, Array(items), Decimal(i), v, left) && i < |items| < SIZE_LIMIT
    ensures v == items[i] && left == Array(items[..i] + items[i+1..])
  {
    hide Decimal;
    var k :| 0 <= k < |items| && Decimal(i) == Decimal(k) && v == items[k] && left == Array(items[..k] + items[k+1..]);
    IndexRead(i);
    IndexRead(k);
  }

  /** Moving an element: it leaves its index, and is put in among the others or behind them. */
  lemma MovedElement(cs: bool, items: seq<Json>, i: nat, key: string, v: Json, after: Json)
    requires Moved(cs, Array(items), Decimal(i), key, v, after) && i < |items| < SIZE_LIMIT
    ensures v == items[i]
    ensures var rest := items[..i] + items[i+1..];
            (key == "-" && after == Array(rest + [v]))
            || exists j :: 0 <= j <= |rest| && key == Decimal(j) && after == Array(rest[..j] + [v] + rest[j..])
  {
    hide Decimal, TakenOut;
    var left :| TakenOut(cs, Array(items), Decimal(i), v, left) && PutIn(cs, left, key, v, after);
    TakenElement(cs, items, i, v, left);
  }

  /** One value in the place of another. */
  ghost predicate Exchanged(cs: bool, node: Json, key: string, v: Json, after: Json)
  {
    match node
    case Object(ms) => after.Object? && View(cs, after.members) == View(cs, ms)[Fold(cs, key) := Abs(cs, v)]
    case Array(items) => exists i :: 0 <= i < |items| && key == Decimal(i) && after == Array(items[i := v])
    case _ => false
  }

  lemma ExchangedMember(cs: bool, ms: seq<Member>, key: string, was: Json, left: Json, v: Json, after: Json)
    requires TakenOut(cs, Object(ms), key, was, left) && PutIn(cs, left, key, v, after)
    ensures Exchanged(cs, Object(ms), key, v, after)
  {
    hide View, Abs, Fold;
    assert (View(cs, ms) - {Fold(cs, key)})[Fold(cs, key) := Abs(cs, v)] == View(cs, ms)[Fold(cs, key) := Abs(cs, v)];
  }

  lemma ExchangedElement(cs: bool, items: seq<Json>, key: string, was: Json, left: Json, v: Json, after: Json)
    requires |items| < SIZE_LIMIT && TakenOut(cs, Array(items), key, was, left) && PutIn(cs, left, key, v, after)
    ensures Exchanged(cs, Array(items), key, v, after)
  {
    hide Decimal, Fold;
    var i :| 0 <= i < |items| && key == Decimal(i) && left == Array(items[..i] + items[i+1..]);
    IndexRead(i);
    var j :| 0 <= j <= |left.items| && key == Decimal(j) && after == Array(left.items[..j] + [v] + left.items[j..]);
    IndexRead(j);
    BackIn(items, i, v);
  }

  lemma BackIn<T>(s: seq<T>, i: nat, x: T)
    requires i < |s|
    ensures var t := s[..i] + s[i+1..]; t[..i] + [x] + t[i..] == s[i := x]
  {
  }

  lemma ExchangedIs(cs: bool, node: Json, key: string, was: Json, left: Json, v: Json, after: Json)
    requires Regular(node) && TakenOut(cs, node, key, was, left) && PutIn(cs, left, key, v, after)
    ensures Exchanged(cs, node, key, v, after)
  {
    hide PutIn, Exchanged;
    match node
    case Object(ms) => ExchangedMember(cs, ms, key, was, left, v, after);
    case Array(items) => ExchangedElement(cs, items, key, was, left, v, after);
  }

  lemma StillTakes(cs: bool, node: Json, key: string, was: Json, left: Json)
    requires Regular(node) && TakenOut(cs, node, key, was, left)
    ensures Takes(left, key)
  {
    hide Decimal, View, Abs, Fold;
  }

  lemma ReplaceIs(cs: bool, doc: Json, patch: Json, path: string, v: Json)
    requires Asks(cs, patch, "replace", path) && Lookup(cs, patch, "value") == Some(v) && path != ""
    ensures var d := DetachPath(cs, doc, path);
            ApplyPatch(cs, doc, patch) == if d.None? then Outcome(13, doc) else AddPath(cs, d.value.1, path, v)
  {
    hide DetachPath, AddPath, Lookup, Resolve;
  }

  /** replace exchanges the value at one place; where there is none, it fails with 13. */
  lemma ReplaceMeans(cs: bool, doc: Json, patch: Json, path: string, loc: Location, parent: string, key: string, v: Json)
    requires Asks(cs, patch, "replace", path) && Lookup(cs, patch, "value") == Some(v)
    requires Place(cs, doc, path, loc, parent, key)
    ensures var r := ApplyPatch(cs, doc, patch);
            && (Absent(At(doc, loc), key) ==> r == Outcome(13, doc))
            && (Holds(cs, At(doc, loc), key) ==>
                  r.status == 0 && exists after :: Exchanged(cs, At(doc, loc), key, v, after) && r.doc == Put(doc, loc, after))
  {
    hide ApplyPatch, DetachPath, AddPath, Lookup, TakenOut, PutIn, Takes, Holds, Absent, Exchanged, Removed, Leads, Regular, Resolve;
    Detaches(cs, doc, path, loc, parent, key);
    ReplaceIs(cs, doc, patch, path, v);
    if Holds(cs, At(doc, loc), key) {
      PlaceLeads(cs, doc, path, loc, parent, key);
      var was, mid, left := OneParent(cs, doc, path, path, loc, parent, key, key);
      StillTakes(cs, At(doc, loc), key, was, left);
      var r := AddPath(cs, mid, path, v);
      var full :| PutIn(cs, left, key, v, full) && r.doc == Put(doc, loc, full);
      ExchangedIs(cs, At(doc, loc), key, was, left, v, full);
    }
  }

  lemma PlaceLeads(cs: bool, doc: Json, path: string, loc: Location, parent: string, key: string)
    requires Place(cs, doc, path, loc, parent, key)
    ensures Leads(cs, doc, path, loc, parent, key)
  {
  }

  // ---------------------------------------------------------------- the root, and what is refused

  /** At the root there is no parent: the whole document is replaced, or taken away. */
  lemma RootMeans(cs: bool, doc: Json, patch: Json, op: string)
    requires Asks(cs, patch, op, "")
    ensures op == "remove" ==> ApplyPatch(cs, doc, patch) == Outcome(0, Invalid)
    ensures op == "add" || op == "replace" ==>
              ApplyPatch(cs, doc, patch) ==
                (if Lookup(cs, patch, "value").Some? then Outcome(0, Lookup(cs, patch, "value").value) else Outcome(7, doc))
  {
    hide Lookup;
  }

  /** A patch without path, or without one of the six operations, or with nothing to add, is
      refused and leaves the document alone. */
  lemma Refused(cs: bool, doc: Json, patch: Json, op: string, path: string)
    ensures TextOf(Lookup(cs, patch, "path")).None? ==> ApplyPatch(cs, doc, patch) == Outcome(2, doc)
    ensures Asks(cs, patch, op, path) && op !in {"add", "remove", "replace", "move", "copy", "test"} ==>
              ApplyPatch(cs, doc, patch) == Outcome(3, doc)
    ensures Asks(cs, patch, op, path) && op == "add" && Lookup(cs, patch, "value").None? ==>
              ApplyPatch(cs, doc, patch) == Outcome(7, doc)
  {
    hide Lookup, Resolve, DetachPath, AddPath;
  }

  /** So is a move or a copy without a source. */
  lemma NoSource(cs: bool, doc: Json, patch: Json, op: string, path: string)
    requires Asks(cs, patch, op, path) && op in {"move", "copy"}
    ensures var from := Lookup(cs, patch, "from");
            && (from.None? ==> ApplyPatch(cs, doc, patch) == Outcome(4, doc))
            && (from.Some? && from.value.String? && op == "copy" && Resolve(cs, doc, from.value.s).None? ==>
                  ApplyPatch(cs, doc, patch) == Outcome(5, doc))
            && (from.Some? && from.value.String? && op == "move" && DetachPath(cs, doc, from.value.s).None? ==>
                  ApplyPatch(cs, doc, patch) == Outcome(5, doc))
  {
    hide Lookup, Resolve, DetachPath, AddPath;
  }

  /** Patches are applied in order; the first that fails ends it, and what the earlier ones did
      stays. */
  lemma {:induction false} FirstFailure(cs: bool, doc: Json, before: seq<Json>, patch: Json, after: seq<Json>)
    requires ApplyAll(cs, doc, before).status == 0
    ensures var r := ApplyPatch(cs, ApplyAll(cs, doc, before).doc, patch);
            ApplyAll(cs, doc, before + [patch] + after) == if r.status != 0 then r else ApplyAll(cs, r.doc, after)
    decreases |before|
  {
    hide ApplyPatch;
    var all := before + [patch] + after;
    if before == [] {
      assert all[0] == patch && all[1..] == after;
    } else {
      assert all[0] == before[0] && all[1..] == before[1..] + [patch] + after;
      FirstFailure(cs, ApplyPatch(cs, doc, before[0]).doc, before[1..], patch, after);
    }
  }

  /** All patches of an empty list succeed; what is no list is refused. */
  lemma NoPatches(cs: bool, doc: Json, patches: Json)
    ensures ApplyPatches(cs, doc, Array([])) == Outcome(0, doc)
    ensures !patches.Array? ==> ApplyPatches(cs, doc, patches) == Outcome(1, doc)
  {
  }
}
