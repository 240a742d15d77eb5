/** The child lists of cJSON as linked nodes: `next` leads to the end of the list, `prev` to
    the node before, and the first node's `prev` to the last node. Every operation does to
    the nodes what the matching sequence operation does to the list, and keeps the links. */
module ListNodes {
  import opened CString
  import opened JsonValue

  /** A cJSON item; what is below it is a value here. */
  class Item {
    const name: string
    const value: Json
    var next: Item?
    var prev: Item?
    var child: Item?

    constructor (name: string, value: Json)
      ensures this.name == name && this.value == value
      ensures next == null && prev == null && child == null
    {
      this.name, this.value := name, value;
      next, prev, child := null, null, null;
    }
  }

  ghost predicate NoRepeats(s: seq<Item>)
  {
    forall i, j :: 0 <= i < j < |s| ==> s[i] != s[j]
  }

  /** The node at an index, or null beyond the end. */
  function At(s: seq<Item>, i: int): Item?
  {
    if 0 <= i < |s| then s[i] else null
  }

  ghost predicate NextIs(s: seq<Item>, i: nat)
    requires i < |s|
    reads s
  {
    s[i].next == At(s, i + 1)
  }

  ghost predicate PrevIs(s: seq<Item>, i: nat)
    requires i < |s|
    reads s
  {
    s[i].prev == At(s, i - 1)
  }

  /** A chain of nodes; nothing is said about the first node's `prev`. */
  ghost predicate Chain(s: seq<Item>)
    reads s
  {
    && NoRepeats(s)
    && (forall i :: 0 <= i < |s| ==> NextIs(s, i))
    && (forall i :: 0 < i < |s| ==> PrevIs(s, i))
  }

  /** The children of an item: a chain whose first `prev` is the last node. */
  ghost predicate Children(parent: Item, s: seq<Item>)
    reads parent, s
  {
    && Chain(s) && parent !in s
    && parent.child == At(s, 0)
    && (s != [] ==> s[0].prev == At(s, |s| - 1))
  }

  /** The list as the value model sees it. */
  function Members(s: seq<Item>): (ms: seq<Member>)
    ensures |ms| == |s| && forall i :: 0 <= i < |s| ==> ms[i] == Member(s[i].name, s[i].value)
  {
    seq(|s|, i requires 0 <= i < |s| => Member(s[i].name, s[i].value))
  }

  // ---------------------------------------------------------------- finding

  /** get_array_item. */
  method GetArrayItem(parent: Item, index: nat, ghost s: seq<Item>) returns (c: Item?)
    requires Children(parent, s)
    ensures c == At(s, index)
  {
    var left: nat := index;
    c := parent.child;
    ghost var i := 0;
    while c != null && left > 0
      invariant i + left == index && i <= |s|
      invariant c == At(s, i)
      decreases left
    {
      assert NextIs(s, i);
      left := left - 1;
      c := c.next;
      i := i + 1;
    }
    assert c == null ==> i == |s|;
  }

  /** get_object_item: the first child with this name. */
  method GetObjectItem(parent: Item, name: string, cs: bool, ghost s: seq<Item>) returns (c: Item?)
    requires Children(parent, s) && NulFree(name) && forall i :: 0 <= i < |s| ==> NulFree(s[i].name)
    ensures var i := Find(cs, Members(s), name);
            c == At(s, i)
  {
    c := parent.child;
    ghost var i := 0;
    ghost var ms := Members(s);
    assert ms[0..] == ms;
    while c != null
      invariant i <= |s| && c == At(s, i)
      invariant Find(cs, ms, name) == i + Find(cs, ms[i..], name)
      decreases |s| - i
    {
      assert ms[i..][0] == ms[i] && ms[i..][1..] == ms[i+1..];
      assert NextIs(s, i);
      var same := SameKey(cs, name, c.name);
      if same { break; }
      c := c.next;
      i := i + 1;
    }
  }

  method SameKey(cs: bool, a: string, b: string) returns (same: bool)
    requires NulFree(a) && NulFree(b)
    ensures same <==> Fold(cs, a) == Fold(cs, b)
  {
    if cs {
      same := a == b;
    } else {
      var r := CompareIgnoringCase(a, b);
      same := r == 0;
    }
  }

  // ---------------------------------------------------------------- adding

  method SuffixObject(prev: Item, item: Item)
    requires prev != item
    modifies prev`next, item`prev
    ensures prev.next == item && item.prev == prev
  {
    prev.next := item;
    item.prev := prev;
  }

  /** add_item_to_array; the item is not in a list. */
  method AddItemToArray(array_: Item?, item: Item?, ghost s: seq<Item>) returns (ok: bool)
    requires array_ != null ==> Children(array_, s)
    requires item != null ==> item !in s && item.next == null
    modifies array_, item, s
    ensures ok <==> array_ != null && item != null && array_ != item
    ensures ok ==> Children(array_, s + [item])
    ensures !ok ==> (array_ != null ==> unchanged(array_, s)) && (item != null ==> unchanged(item, s))
  {
    if item == null || array_ == null || array_ == item { return false; }
    var child := array_.child;
    if child == null {
      array_.child := item;
      item.prev := item;
      item.next := null;
    } else if child.prev != null {
      assert NextIs(s, |s| - 1);
      SuffixObject(child.prev, item);
      array_.child.prev := item;
    }
    ghost var r := s + [item];
    forall i | 0 <= i < |r| ensures NextIs(r, i) && (i > 0 ==> PrevIs(r, i)) {
      if i < |s| { assert old(NextIs(s, i) && (i > 0 ==> PrevIs(s, i))); }
    }
    return true;
  }

  /** cJSON_InsertItemInArray: behind the end, the item is appended. */
  method InsertItemInArray(array_: Item, which: int, newItem: Item, ghost s: seq<Item>) returns (ok: bool)
    requires Children(array_, s) && newItem !in s && newItem != array_ && newItem.next == null
    modifies array_, newItem, s
    ensures ok <==> which >= 0
    ensures ok ==> var n := if which < |s| then which else |s|; Children(array_, Insert(s, n, newItem))
    ensures !ok ==> unchanged(array_, newItem, s)
  {
    if which < 0 { return false; }
    var after := GetArrayItem(array_, which, s);
    if after == null {
      ok := AddItemToArray(array_, newItem, s);
      assert Insert(s, |s|, newItem) == s + [newItem];
    } else {
      InsertBefore(array_, after, newItem, s, which);
      ok := true;
    }
  }

  function Insert<T>(s: seq<T>, n: nat, x: T): (r: seq<T>)
    requires n <= |s|
    ensures |r| == |s| + 1 && r[n] == x
    ensures forall i :: 0 <= i < n ==> r[i] == s[i]
    ensures forall i :: n < i < |r| ==> r[i] == s[i-1]
  {
    s[..n] + [x] + s[n..]
  }

  /** The links that both versions of insertion set, in front of node n. */
  method InsertBefore(array_: Item, after: Item, newItem: Item, ghost s: seq<Item>, ghost n: nat)
    requires Children(array_, s) && n < |s| && after == s[n] && newItem !in s && newItem != array_
    modifies array_, newItem, s
    ensures Children(array_, Insert(s, n, newItem))
  {
    ghost var r := Insert(s, n, newItem);
    assert n > 0 ==> PrevIs(s, n);
    assert NextIs(s, n) && PrevOf(array_, s, n);
    assert n > 0 ==> NextIs(s, n - 1);
    newItem.next := after;
    newItem.prev := after.prev;
    after.prev := newItem;
    if after == array_.child {
      array_.child := newItem;
    } else {
      newItem.prev.next := newItem;
    }
    forall i | 0 <= i < |r| ensures NextIs(r, i) && (i > 0 ==> PrevIs(r, i)) {
      if i < n { assert old(NextIs(s, i) && (i > 0 ==> PrevIs(s, i))); }
      if i > n { assert old(NextIs(s, i - 1) && (i > 1 ==> PrevIs(s, i - 1))); }
    }
  }

  /** The `prev` of a child: the node before it, or the last one. */
  ghost predicate PrevOf(parent: Item, s: seq<Item>, i: nat)
    requires i < |s|
    reads parent, s
  {
    s[i].prev == s[if i == 0 then |s| - 1 else i - 1] && (parent.child == s[i] <==> i == 0)
  }

  /** insert_item_in_array of cJSON_Utils: not behind the end. */
  method InsertInside(array_: Item, which: nat, newItem: Item, ghost s: seq<Item>) returns (ok: bool)
    requires Children(array_, s) && newItem !in s && newItem != array_ && newItem.next == null
    modifies array_, newItem, s
    ensures ok <==> which <= |s|
    ensures ok ==> Children(array_, Insert(s, which, newItem))
    ensures !ok ==> unchanged(array_, newItem, s)
  {
    var child := array_.child;
    var left: nat := which;
    ghost var i := 0;
    while child != null && left > 0
      invariant i + left == which && i <= |s| && child == At(s, i)
      decreases left
    {
      assert NextIs(s, i);
      child := child.next;
      left := left - 1;
      i := i + 1;
    }
    assert child == null ==> i == |s|;
    if left > 0 { return false; }
    if child == null {
      ok := AddItemToArray(array_, newItem, s);
      assert Insert(s, which, newItem) == s + [newItem];
    } else {
      InsertBefore(array_, child, newItem, s, which);
      ok := true;
    }
  }

  // ---------------------------------------------------------------- removing and replacing

  /** cJSON_DetachItemViaPointer, for a child. */
  method DetachItemViaPointer(parent: Item?, item: Item?, ghost s: seq<Item>, ghost n: nat) returns (r: Item?)
    requires parent != null ==> Children(parent, s)
    requires parent != null && item != null ==> n < |s| && item == s[n]
    modifies parent, s
    ensures r == if parent == null then null else item
    ensures r != null ==> Children(parent, RemoveAt(s, n)) && r.next == null && r.prev == null
    ensures r == null && parent != null ==> unchanged(parent, s)
  {
    if parent == null || item == null { return null; }
    ghost var t := RemoveAt(s, n);
    RemoveAtAll(s, n);
    assert n > 0 ==> PrevIs(s, n);
    assert NextIs(s, n) && PrevOf(parent, s, n);
    assert n > 0 ==> NextIs(s, n - 1);
    if item != parent.child {
      item.prev.next := item.next;
    }
    if item.next != null {
      item.next.prev := item.prev;
    }
    if item == parent.child {
      parent.child := item.next;
    } else if item.next == null {
      parent.child.prev := item.prev;
    }
    item.prev := null;
    item.next := null;
    forall i | 0 <= i < |t| ensures NextIs(t, i) && (i > 0 ==> PrevIs(t, i)) {
      if i < n { assert old(NextIs(s, i) && (i > 0 ==> PrevIs(s, i))); }
      if i >= n { assert old(NextIs(s, i + 1) && PrevIs(s, i + 1)); }
    }
    return item;
  }

  lemma RemoveAtAll(s: seq<Item>, n: nat)
    requires n < |s|
    ensures var r := RemoveAt(s, n);
            && |r| == |s| - 1
            && (forall i :: 0 <= i < n ==> r[i] == s[i])
            && (forall i :: n <= i < |r| ==> r[i] == s[i+1])
  {
  }

  /** cJSON_ReplaceItemViaPointer, for a child and a node that is in no list. The old node is
      left without links. */
  method ReplaceItemViaPointer(parent: Item?, item: Item?, replacement: Item?, ghost s: seq<Item>, ghost n: nat)
    returns (ok: bool)
    requires parent != null ==> Children(parent, s)
    requires parent != null && item != null ==> n < |s| && item == s[n]
    requires replacement != null && replacement != item ==> replacement !in s && replacement != parent
    modifies parent, replacement, s
    ensures ok <==> parent != null && item != null && replacement != null
    ensures ok ==> Children(parent, s[n := replacement])
    ensures ok && replacement != item ==> item.next == null && item.prev == null
  {
    if parent == null || replacement == null || item == null { return false; }
    if replacement == item {
      assert s[n := replacement] == s;
      return true;
    }
    ghost var t := s[n := replacement];
    assert n > 0 ==> PrevIs(s, n);
    assert NextIs(s, n) && PrevOf(parent, s, n);
    assert n > 0 ==> NextIs(s, n - 1);
    replacement.next := item.next;
    replacement.prev := item.prev;
    if replacement.next != null {
      replacement.next.prev := replacement;
    }
    if parent.child == item {
      if parent.child.prev == parent.child {
        replacement.prev := replacement;
      }
      parent.child := replacement;
    } else {
      if replacement.prev != null {
        replacement.prev.next := replacement;
      }
      if replacement.next == null {
        parent.child.prev := replacement;
      }
    }
    item.next := null;
    item.prev := null;
    forall i | 0 <= i < |t| ensures NextIs(t, i) && (i > 0 ==> PrevIs(t, i)) {
      assert old(NextIs(s, i) && (i > 0 ==> PrevIs(s, i)));
    }
    return true;
  }

  /** detach_item_from_array of cJSON_Utils. */
  method DetachItemFromArray(array_: Item, which: nat, ghost s: seq<Item>) returns (c: Item?)
    requires Children(array_, s)
    modifies array_, s
    ensures c == At(s, which)
    ensures c != null ==> Children(array_, RemoveAt(s, which)) && c.next == null && c.prev == null
    ensures c == null ==> unchanged(array_, s)
  {
    c := GetArrayItem(array_, which, s);
    if c == null { return null; }
    c := DetachItemViaPointer(array_, c, s, which);
  }

  /** cJSON_DetachItemFromObject and its case-sensitive version: the first member with the
      name goes, as in the value model. */
  method DetachItemFromObject(object_: Item, name: string, cs: bool, ghost s: seq<Item>) returns (c: Item?)
    requires Children(object_, s) && NulFree(name) && forall i :: 0 <= i < |s| ==> NulFree(s[i].name)
    modifies object_, s
    ensures var i := Find(cs, Members(s), name);
            && c == At(s, i)
            && (c == null ==> unchanged(object_, s))
            && (c != null ==>
                  && Children(object_, RemoveAt(s, i)) && c.next == null && c.prev == null
                  && Members(RemoveAt(s, i)) == RemoveAt(Members(s), i))
  {
    c := GetObjectItem(object_, name, cs, s);
    ghost var i := Find(cs, Members(s), name);
    if i < |s| { assert Members(RemoveAt(s, i)) == RemoveAt(Members(s), i); }
    c := DetachItemViaPointer(object_, c, s, i);
  }
}
