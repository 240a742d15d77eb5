/** sort_list on linked nodes: it re-links the nodes of a chain, in place, in the order of
    ListSort, and leaves a chain again. Only the first node's `prev` is not looked after. */
module NodeSort {
  import opened CString
  import opened JsonValue
  import opened ListNodes
  import opened ListSort
  import opened JsonCompare

  const NAME: Item -> string := (n: Item) => n.name

  predicate NamesAreStrings(s: seq<Item>)
  {
    forall i :: 0 <= i < |s| ==> NulFree(s[i].name)
  }

  /** compare_strings on the names of two nodes. */
  method CompareNames(cs: bool, a: Item, b: Item) returns (less: bool)
    requires NulFree(a.name) && NulFree(b.name)
    ensures less <==> Compare(NAME, cs, a, b) < 0
  {
    if cs {
      less := Strcmp(a.name, b.name) < 0;
    } else {
      var r := CompareIgnoringCase(a.name, b.name);
      less := r < 0;
    }
  }

  /** The first loop: is the list sorted already? */
  method IsAscending(list: Item, cs: bool, ghost s: seq<Item>) returns (ascending: bool)
    requires Chain(s) && NamesAreStrings(s) && s != [] && list == s[0]
    ensures ascending <==> Ascending(NAME, cs, s)
  {
    var current := list;
    ghost var i := 0;
    assert NextIs(s, 0);
    while current.next != null
      invariant i < |s| && current == s[i] && NextIs(s, i)
      invariant forall k :: 0 <= k < i ==> Compare(NAME, cs, s[k], s[k+1]) < 0
      decreases |s| - i
    {
      var less := CompareNames(cs, current, current.next);
      if !less { return false; }
      assert NextIs(s, i + 1);
      current := current.next;
      i := i + 1;
    }
    return true;
  }

  /** Two pointers walk to the middle. */
  method Middle(list: Item, ghost s: seq<Item>) returns (second: Item?)
    requires Chain(s) && s != [] && list == s[0]
    ensures second == At(s, (|s| + 1) / 2)
  {
    second := list;
    var current: Item? := list;
    ghost var k := 0;
    while current != null
      invariant 2 * k <= |s| + 1 && current == At(s, 2 * k) && second == At(s, k)
      decreases |s| + 2 - 2 * k
    {
      assert NextIs(s, k) && NextIs(s, 2 * k);
      second := second.next;
      current := current.next;
      if current != null {
        assert NextIs(s, 2 * k + 1);
        current := current.next;
      }
      k := k + 1;
    }
  }

  /** Cut a chain in two. */
  method Split(second: Item, ghost s: seq<Item>, ghost mid: nat)
    requires Chain(s) && 0 < mid < |s| && second == s[mid]
    modifies s
    ensures Chain(s[..mid]) && Chain(s[mid..])
  {
    assert PrevIs(s, mid);
    if second.prev != null {
      second.prev.next := null;
      second.prev := null;
    }
    ghost var a, b := s[..mid], s[mid..];
    forall i | 0 <= i < |a| ensures NextIs(a, i) && (i > 0 ==> PrevIs(a, i)) {
      assert old(NextIs(s, i) && (i > 0 ==> PrevIs(s, i)));
    }
    forall i | 0 <= i < |b| ensures NextIs(b, i) && (i > 0 ==> PrevIs(b, i)) {
      assert old(NextIs(s, mid + i) && PrevIs(s, mid + i));
    }
  }

  ghost predicate Apart(s: seq<Item>, t: seq<Item>)
  {
    forall i, j :: 0 <= i < |s| && 0 <= j < |t| ==> s[i] != t[j]
  }

  /** A merged list so far: linked both ways, its last `next` still to be set. */
  ghost predicate Links(s: seq<Item>)
    reads s
  {
    && NoRepeats(s)
    && (forall i :: 0 <= i < |s| - 1 ==> NextIs(s, i))
    && (forall i :: 0 < i < |s| ==> PrevIs(s, i))
  }

  /** Hang the front of a list on the merged list. */
  method TakeFront(tail: Item?, node: Item, ghost done: seq<Item>, ghost rest: seq<Item>, ghost other: seq<Item>)
    requires Links(done) && Chain(rest) && Chain(other) && rest != [] && node == rest[0]
    requires tail == At(done, |done| - 1)
    requires Apart(done, rest) && Apart(done, other) && Apart(rest, other)
    modifies if tail == null then {} else {tail, node}
    ensures Links(done + [node]) && Chain(rest[1..]) && Chain(other)
    ensures Apart(done + [node], rest[1..]) && Apart(done + [node], other) && Apart(rest[1..], other)
    ensures node.next == old(node.next)
  {
    ghost var r, t := done + [node], rest[1..];
    if tail != null {
      tail.next := node;
      node.prev := tail;
    }
    forall i | 0 <= i < |r| ensures (i < |r| - 1 ==> NextIs(r, i)) && (i > 0 ==> PrevIs(r, i)) {
      if i < |done| { assert old((i < |done| - 1 ==> NextIs(done, i)) && (i > 0 ==> PrevIs(done, i))); }
    }
    forall i | 0 <= i < |t| ensures NextIs(t, i) && (i > 0 ==> PrevIs(t, i)) {
      assert old(NextIs(rest, i + 1) && PrevIs(rest, i + 1));
    }
  }

  /** What is left of one list follows the merged list. */
  method TakeRest(tail: Item?, node: Item, ghost done: seq<Item>, ghost rest: seq<Item>)
    requires Links(done) && Chain(rest) && rest != [] && node == rest[0] && Apart(done, rest)
    requires tail == At(done, |done| - 1)
    modifies if tail == null then {} else {tail, node}
    ensures Chain(done + rest)
  {
    if tail == null {
      assert done + rest == rest;
      return;
    }
    tail.next := node;
    node.prev := tail;
    ghost var r, n := done + rest, |done|;
    forall i | 0 <= i < |r| ensures NextIs(r, i) && (i > 0 ==> PrevIs(r, i)) {
      if i < n {
        assert old((i < n - 1 ==> NextIs(done, i)) && (i > 0 ==> PrevIs(done, i)));
      } else {
        assert old(NextIs(rest, i - n) && (i > n ==> PrevIs(rest, i - n)));
      }
    }
  }

  /** One step of a merge whose result so far is `done`. */
  lemma MergeStep(cs: bool, done: seq<Item>, a: seq<Item>, b: seq<Item>)
    requires a != [] && b != []
    ensures var x := if Compare(NAME, cs, a[0], b[0]) < 0 then a[0] else b[0];
            done + Merge(NAME, cs, a, b) ==
              (done + [x]) + if Compare(NAME, cs, a[0], b[0]) < 0 then Merge(NAME, cs, a[1..], b) else Merge(NAME, cs, a, b[1..])
  {
    hide Merge, Compare;
    MergeIs(NAME, cs, a, b);
  }

  lemma ApartSwap(s: seq<Item>, t: seq<Item>)
    requires Apart(s, t)
    ensures Apart(t, s)
  {
  }

  /** The merge: the smaller front is taken, the second list's on ties. */
  method MergeLists(list1: Item?, list2: Item?, cs: bool, ghost a: seq<Item>, ghost b: seq<Item>) returns (result: Item?)
    requires Chain(a) && Chain(b) && Apart(a, b) && NamesAreStrings(a) && NamesAreStrings(b)
    requires a != [] && b != [] && list1 == a[0] && list2 == b[0]
    modifies a, b
    ensures var r := Merge(NAME, cs, a, b); Chain(r) && result == At(r, 0)
  {
    hide Merge, Chain, Links, Compare, Apart, NamesAreStrings;
    var first, second := list1, list2;
    result := null;
    var tail: Item? := null;
    ghost var done: seq<Item>, x, y := [], a, b;
    NothingDone(a, b);
    while first != null && second != null
      invariant (x != [] || y != []) && first == At(x, 0) && second == At(y, 0)
      invariant Links(done) && Chain(x) && Chain(y) && NamesAreStrings(x) && NamesAreStrings(y)
      invariant Apart(done, x) && Apart(done, y) && Apart(x, y)
      invariant Within(x, a, b) && Within(y, a, b) && Within(done, a, b)
      invariant tail == At(done, |done| - 1) && result == At(done, 0)
      invariant Merge(NAME, cs, a, b) == done + Merge(NAME, cs, x, y)
      decreases |x| + |y|
    {
      NamesTail(x);
      NamesTail(y);
      var less := CompareNames(cs, first, second);
      var smaller := if less then first else second;
      MergeStep(cs, done, x, y);
      FrontNext(x);
      FrontNext(y);
      if less {
        TakeFront(tail, smaller, done, x, y);
        first := first.next;
        x := x[1..];
      } else {
        ApartSwap(x, y);
        TakeFront(tail, smaller, done, y, x);
        ApartSwap(y[1..], x);
        second := second.next;
        y := y[1..];
      }
      if result == null { result := smaller; }
      tail := smaller;
      done := done + [smaller];
    }
    MergeEnds(cs, x, y);
    if first != null {
      TakeRest(tail, first, done, x);
      if result == null { result := first; }
    } else if second != null {
      TakeRest(tail, second, done, y);
      if result == null { result := second; }
    }
  }

  /** All of these nodes come from the two lists. */
  ghost predicate Within(s: seq<Item>, a: seq<Item>, b: seq<Item>)
  {
    forall i :: 0 <= i < |s| ==> s[i] in a || s[i] in b
  }

  lemma NamesTail(s: seq<Item>)
    requires NamesAreStrings(s) && s != []
    ensures NulFree(s[0].name) && NamesAreStrings(s[1..])
  {
  }

  lemma NothingDone(a: seq<Item>, b: seq<Item>)
    requires Apart(a, b)
    ensures Links([]) && Apart([], a) && Apart([], b)
  {
  }

  lemma FrontNext(s: seq<Item>)
    requires Chain(s)
    ensures s != [] ==> s[0].next == At(s, 1)
  {
    if s != [] { assert NextIs(s, 0); }
  }

  lemma MergeEnds(cs: bool, a: seq<Item>, b: seq<Item>)
    requires a == [] || b == []
    ensures Merge(NAME, cs, a, b) == if a == [] then b else a
  {
  }

  /** sort_list: the same nodes, in the order of the value model's sort, linked as a chain. */
  method SortList(list: Item?, cs: bool, ghost s: seq<Item>) returns (result: Item?)
    requires Chain(s) && NamesAreStrings(s) && list == At(s, 0)
    modifies s
    ensures var r := Sorted(NAME, cs, s); Chain(r) && result == At(r, 0)
    decreases |s|
  {
    hide Chain, Compare, NamesAreStrings, Sorted, Merge, Apart;
    FrontNext(s);
    SortedIs(NAME, cs, s);
    if list == null || list.next == null { return list; }
    var ascending := IsAscending(list, cs, s);
    if ascending { return list; }
    var second := Middle(list, s);
    ghost var mid := (|s| + 1) / 2;
    ghost var a, b := s[..mid], s[mid..];
    Parts(s, mid);
    SortedParts(cs, a, b);
    Split(second, s, mid);
    ghost var x, y := Sorted(NAME, cs, a), Sorted(NAME, cs, b);
    forall i | 0 <= i < |x| ensures x[i] in s && x[i] !in b { assert x[i] in x; }
    forall i | 0 <= i < |y| ensures y[i] in s { assert y[i] in y; }
    var first := SortList(list, cs, a);
    second := SortList(second, cs, b);
    result := MergeLists(first, second, cs, x, y);
  }

  lemma Parts(s: seq<Item>, mid: nat)
    requires Chain(s) && NamesAreStrings(s) && mid <= |s|
    ensures (forall n :: n in s[..mid] ==> n in s && n !in s[mid..]) && (forall n :: n in s[mid..] ==> n in s)
    ensures Apart(s[..mid], s[mid..]) && NamesAreStrings(s[..mid]) && NamesAreStrings(s[mid..])
  {
  }

  lemma SameElements(cs: bool, s: seq<Item>, n: Item)
    ensures n in Sorted(NAME, cs, s) <==> n in s
  {
    SortedPermutes(NAME, cs, s);
    assert n in Sorted(NAME, cs, s) <==> n in multiset(Sorted(NAME, cs, s));
  }

  lemma SortedParts(cs: bool, a: seq<Item>, b: seq<Item>)
    requires Apart(a, b) && NamesAreStrings(a) && NamesAreStrings(b)
    ensures var x, y := Sorted(NAME, cs, a), Sorted(NAME, cs, b);
            && Apart(x, y) && NamesAreStrings(x) && NamesAreStrings(y)
            && (forall n :: n in x ==> n in a && n !in b) && (forall n :: n in y ==> n in b && n !in a)
  {
    hide Sorted;
    var x, y := Sorted(NAME, cs, a), Sorted(NAME, cs, b);
    forall n | n in x ensures n in a && n !in b && NulFree(n.name) { SameElements(cs, a, n); }
    forall n | n in y ensures n in b && n !in a && NulFree(n.name) { SameElements(cs, b, n); }
    forall i | 0 <= i < |x| ensures NulFree(x[i].name) { assert x[i] in x; }
    forall i | 0 <= i < |y| ensures NulFree(y[i].name) { assert y[i] in y; }
    forall i, j | 0 <= i < |x| && 0 <= j < |y| ensures x[i] != y[j] { assert x[i] in x && y[j] in y; }
  }

  /** sort_object. The list is in order afterwards and holds the nodes it held before; it is
      a list that can be searched, but the first `prev` may lead nowhere. */
  method SortObject(object_: Item?, cs: bool, ghost s: seq<Item>)
    requires object_ != null ==> Children(object_, s) && NamesAreStrings(s)
    modifies object_, s
    ensures object_ != null ==>
              var r := Sorted(NAME, cs, s);
              && Chain(r) && object_.child == At(r, 0)
              && multiset(r) == multiset(s) && Ordered(NAME, cs, r)
  {
    if object_ == null { return; }
    hide Sorted, Ordered, Compare;
    ghost var r := Sorted(NAME, cs, s);
    SortedPermutes(NAME, cs, s);
    SortedOrders(NAME, cs, s);
    forall i | 0 <= i < |r| ensures r[i] != object_ {
      assert r[i] in r;
      SameElements(cs, s, r[i]);
    }
    var child := SortList(object_.child, cs, s);
    SetChild(object_, child, r);
  }

  method SetChild(object_: Item, child: Item?, ghost r: seq<Item>)
    requires Chain(r) && child == At(r, 0) && forall i :: 0 <= i < |r| ==> r[i] != object_
    modifies object_`child
    ensures Chain(r) && object_.child == At(r, 0)
  {
    object_.child := child;
    forall k | 0 <= k < |r| ensures NextIs(r, k) && (k > 0 ==> PrevIs(r, k)) {
      assert old(NextIs(r, k) && (k > 0 ==> PrevIs(r, k)));
    }
  }

  /** Cross-wire the last copy and the new one. */
  method AppendCopy(next: Item, newChild: Item, ghost t: seq<Item>)
    requires Links(t) && t != [] && next == t[|t|-1] && newChild !in t
    modifies next`next, newChild`prev
    ensures Links(t + [newChild])
  {
    next.next := newChild;
    newChild.prev := next;
    ghost var u := t + [newChild];
    forall k | 0 <= k < |u| ensures (k < |u| - 1 ==> NextIs(u, k)) && (k > 0 ==> PrevIs(u, k)) {
      if k < |t| { assert old((k < |t| - 1 ==> NextIs(t, k)) && (k > 0 ==> PrevIs(t, k))); }
    }
  }

  /** The loop of cJSON_Duplicate over the children: new nodes for the same members, and the
      links of a whole list, even where sorting has left the first `prev` astray. */
  method DuplicateChildren(item: Item, ghost s: seq<Item>) returns (copy: Item, ghost t: seq<Item>)
    requires Chain(s) && item.child == At(s, 0)
    ensures fresh(copy) && (forall n :: n in t ==> fresh(n))
    ensures Children(copy, t) && Members(t) == Members(s)
  {
    copy := new Item(item.name, item.value);
    t := [];
    var next: Item? := null;
    var child := item.child;
    ghost var i := 0;
    while child != null
      invariant i <= |s| && child == At(s, i) && |t| == i && Chain(s)
      invariant fresh(copy) && copy !in t && (forall n :: n in t ==> fresh(n)) && copy.child == At(t, 0)
      invariant next == At(t, i - 1) && Links(t) && (t != [] ==> t[i-1].next == null)
      invariant forall k :: 0 <= k < i ==> t[k].name == s[k].name && t[k].value == s[k].value
      decreases |s| - i
    {
      var newChild := new Item(child.name, child.value);
      assert NextIs(s, i);
      if next != null {
        assert next in t;
        AppendCopy(next, newChild, t);
      } else {
        copy.child := newChild;
      }
      next := newChild;
      t := t + [newChild];
      child := child.next;
      i := i + 1;
    }
    label Linked:
    if copy.child != null {
      assert copy.child in t;
      copy.child.prev := next;
    }
    forall k | 0 <= k < |t| ensures NextIs(t, k) && (k > 0 ==> PrevIs(t, k)) {
      assert old@Linked((k < |t| - 1 ==> NextIs(t, k)) && (k > 0 ==> PrevIs(t, k)));
    }
    assert Members(t) == Members(s);
  }

  // ---------------------------------------------------------------- the sort of the value model

  lemma MembersConcat(a: seq<Item>, b: seq<Item>)
    ensures Members(a + b) == Members(a) + Members(b)
  {
  }

  lemma MembersTail(s: seq<Item>)
    requires s != []
    ensures Members(s)[0] == Member(s[0].name, s[0].value) && Members(s)[1..] == Members(s[1..])
    ensures Members([s[0]]) == [Members(s)[0]]
  {
  }

  lemma {:induction false} MergeCommutes(cs: bool, a: seq<Item>, b: seq<Item>)
    ensures Members(Merge(NAME, cs, a, b)) == Merge(KeyOf, cs, Members(a), Members(b))
    decreases |a| + |b|
  {
    hide Merge, Members;
    MergeIs(NAME, cs, a, b);
    MergeIs(KeyOf, cs, Members(a), Members(b));
    if a != [] && b != [] {
      MembersTail(a);
      MembersTail(b);
      MergeCommutes(cs, a[1..], b);
      MergeCommutes(cs, a, b[1..]);
      MembersConcat([a[0]], Merge(NAME, cs, a[1..], b));
      MembersConcat([b[0]], Merge(NAME, cs, a, b[1..]));
    }
  }

  /** The re-linked nodes are, as members, what the comparison and the patch generator of the
      value model sort. */
  lemma {:induction false} SortCommutes(cs: bool, s: seq<Item>)
    ensures Members(Sorted(NAME, cs, s)) == Sorted(KeyOf, cs, Members(s))
    decreases |s|
  {
    hide Sorted, Merge, Ascending;
    var ms := Members(s);
    AscendingCommutes(cs, s);
    SortedIs(NAME, cs, s);
    SortedIs(KeyOf, cs, ms);
    if !(|s| <= 1 || Ascending(NAME, cs, s)) {
      var mid := (|s| + 1) / 2;
      SortCommutes(cs, s[..mid]);
      SortCommutes(cs, s[mid..]);
      MergeCommutes(cs, Sorted(NAME, cs, s[..mid]), Sorted(NAME, cs, s[mid..]));
      assert Members(s[..mid]) == ms[..mid] && Members(s[mid..]) == ms[mid..];
    }
  }

  lemma AscendingCommutes(cs: bool, s: seq<Item>)
    ensures Ascending(NAME, cs, s) <==> Ascending(KeyOf, cs, Members(s))
  {
    var ms := Members(s);
    if Ascending(KeyOf, cs, ms) {
      forall i | 0 <= i < |s| - 1 ensures Compare(NAME, cs, s[i], s[i+1]) < 0 {
        assert Compare(KeyOf, cs, ms[i], ms[i+1]) < 0;
      }
    }
  }
}
