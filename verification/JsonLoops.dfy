/** The loops of cJSON_Utils, each proved against the function that specifies it: those over
    pointer strings, two of which write through cursors, and those that walk child lists. A
    child pointer is an index into the list here. */
module JsonLoops {
  import opened CString
  import opened JsonValue
  import opened ListSort
  import opened JsonCompare
  import opened JsonPointer
  import opened JsonPatch
  import opened JsonDiff
  import opened JsonMerge

  // ---------------------------------------------------------------- pointer strings

  lemma FoldChar(cs: bool, a: char, b: char)
    ensures Fold(cs, [a]) == Fold(cs, [b]) <==> (cs && a == b) || (!cs && ToLower(a) == ToLower(b))
  {
    if Fold(cs, [a]) == Fold(cs, [b]) { assert Fold(cs, [a])[0] == Fold(cs, [b])[0]; }
  }

  /** One round of the loop of compare_pointers. */
  lemma MatchStep(cs: bool, name: string, p: string, n: nat, i: nat)
    requires n < |name| && i < |p| && p[i] != '/'
    ensures p[i] == '~' ==>
              var ok := (CharAt(p, i + 1) == '0' && name[n] == '~') || (CharAt(p, i + 1) == '1' && name[n] == '/');
              if ok then i + 2 <= |p| && TokenMatches(cs, name[n..], p[i..]) == TokenMatches(cs, name[n+1..], p[i+2..])
              else !TokenMatches(cs, name[n..], p[i..])
    ensures p[i] != '~' ==>
              var ok := (cs && name[n] == p[i]) || (!cs && ToLower(name[n]) == ToLower(p[i]));
              if ok then TokenMatches(cs, name[n..], p[i..]) == TokenMatches(cs, name[n+1..], p[i+1..])
              else !TokenMatches(cs, name[n..], p[i..])
  {
    var a, b := name[n..], p[i..];
    assert a[0] == name[n] && a[1..] == name[n+1..];
    assert b[0] == p[i] && b[1..] == p[i+1..];
    if |b| > 1 { assert b[1] == p[i+1] && b[2..] == p[i+2..]; }
    FoldChar(cs, name[n], p[i]);
  }

  /** compare_pointers, for the token that begins at `start`. */
  method ComparePointers(name: string, p: string, start: nat, cs: bool) returns (same: bool)
    requires NulFree(name) && NulFree(p) && start <= |p|
    ensures same == TokenMatches(cs, name, p[start..])
  {
    hide TokenMatches, Fold;
    var n, i := 0, start;
    assert name[0..] == name;
    while CharAt(name, n) != '\0' && CharAt(p, i) != '\0' && CharAt(p, i) != '/'
      invariant n <= |name| && start <= i <= |p|
      invariant TokenMatches(cs, name, p[start..]) == TokenMatches(cs, name[n..], p[i..])
      decreases |name| - n
    {
      MatchStep(cs, name, p, n, i);
      if p[i] == '~' {
        if (CharAt(p, i + 1) != '0' || name[n] != '~') && (CharAt(p, i + 1) != '1' || name[n] != '/') {
          return false;
        } else {
          i := i + 1;
        }
      } else if (!cs && ToLower(name[n]) != ToLower(p[i])) || (cs && name[n] != p[i]) {
        return false;
      }
      n, i := n + 1, i + 1;
    }
    MatchEnd(cs, name[n..], p[i..]);
    same := (CharAt(p, i) != '\0' && CharAt(p, i) != '/') == (CharAt(name, n) != '\0');
  }

  lemma MatchEnd(cs: bool, name: string, p: string)
    requires name == "" || AtTokenEnd(p)
    ensures TokenMatches(cs, name, p) <==> (name == "" && AtTokenEnd(p))
  {
  }

  /** pointer_encoded_length. */
  method PointerEncodedLength(s: string) returns (length: nat)
    requires NulFree(s)
    ensures length == |Encode(s)|
  {
    length := 0;
    var i := 0;
    assert s[0..] == s;
    while CharAt(s, i) != '\0'
      invariant i <= |s| && |Encode(s)| == length + |Encode(s[i..])|
      decreases |s| - i
    {
      assert s[i..][0] == s[i] && s[i..][1..] == s[i+1..];
      if s[i] == '~' || s[i] == '/' {
        length := length + 1;
      }
      i, length := i + 1, length + 1;
    }
  }

  lemma EncodeStep(s: string, i: nat, t: string)
    requires i < |s| && Encode(s) == t + Encode(s[i..])
    ensures Encode(s) == (t + EncodeChar(s[i])) + Encode(s[i+1..])
  {
    var u := s[i..];
    assert u[0] == s[i] && u[1..] == s[i+1..];
    EncodeFirst(u);
    hide Encode;
    Regroup(t, EncodeChar(s[i]), Encode(s[i+1..]));
  }

  lemma EncodeFirst(u: string)
    requires u != ""
    ensures Encode(u) == EncodeChar(u[0]) + Encode(u[1..])
  {
  }

  lemma Regroup(a: string, b: string, c: string)
    ensures (a + b) + c == a + (b + c)
  {
  }

  /** One character of the encoding, through the cursor. */
  method PutEncoded(dest: array<char>, at: nat, d: nat, c: char, ghost t: string) returns (next: nat)
    requires at <= d && d + |EncodeChar(c)| <= dest.Length && dest[at..d] == t
    modifies dest
    ensures next == d + |EncodeChar(c)| && dest[at..next] == t + EncodeChar(c) && dest[..at] == old(dest[..at])
  {
    next := d;
    if c == '/' {
      dest[next], dest[next+1] := '~', '1';
      next := next + 1;
    } else if c == '~' {
      dest[next], dest[next+1] := '~', '0';
      next := next + 1;
    } else {
      dest[next] := c;
    }
    next := next + 1;
  }

  /** encode_string_as_pointer; the destination has the room that pointer_encoded_length
      asked for, and one character more. */
  method EncodeStringAsPointer(dest: array<char>, at: nat, source: string)
    requires NulFree(source) && at + |Encode(source)| < dest.Length
    modifies dest
    ensures dest[at..at + |Encode(source)|] == Encode(source) && dest[at + |Encode(source)|] == '\0'
    ensures dest[..at] == old(dest[..at])
  {
    hide Encode;
    var d, s := at, 0;
    ghost var t := "";
    EncodeNothing();
    assert source[0..] == source && "" + Encode(source) == Encode(source);
    while CharAt(source, s) != '\0'
      invariant s <= |source| && d == at + |t|
      invariant Encode(source) == t + Encode(source[s..])
      invariant dest[at..d] == t && dest[..at] == old(dest[..at])
      decreases |source| - s
    {
      EncodeStep(source, s, t);
      d := PutEncoded(dest, at, d, source[s], t);
      t := t + EncodeChar(source[s]);
      s := s + 1;
    }
    assert source[s..] == "" && t + "" == t;
    dest[d] := '\0';
    assert dest[at..d] == t;
  }

  lemma EncodeNothing()
    ensures Encode("") == ""
  {
  }

  method CopyInto(b: array<char>, s: string)
    requires |s| <= b.Length
    modifies b
    ensures b[..|s|] == s
  {
    var i := 0;
    while i < |s|
      invariant i <= |s| && b[..i] == s[..i]
    {
      b[i] := s[i];
      i := i + 1;
    }
  }

  /** A path and the encoded token behind it, in a buffer of the size that was counted. */
  method WritePath(path: string, token: string) returns (full: string)
    requires NulFree(token)
    ensures full == path + "/" + Encode(token)
  {
    hide Encode;
    var length := PointerEncodedLength(token);
    var start := |path| + 1;
    var b := new char[start + length + 1](_ => '\0');
    CopyInto(b, path + "/");
    EncodeStringAsPointer(b, start, token);
    full := b[..start + length];
    assert full == b[..start] + b[start..start + length];
  }

  /** decode_array_index_from_pointer, for the token that begins at `start`. */
  method DecodeArrayIndex(p: string, start: nat) returns (index: Option<nat>)
    requires NulFree(p) && start <= |p|
    ensures index == DecodeIndex(p[start..])
  {
    ghost var q := p[start..];
    assert forall k :: 0 <= k <= |q| ==> CharAt(q, k) == CharAt(p, start + k);
    if CharAt(p, start) == '0' && CharAt(p, start + 1) != '\0' && CharAt(p, start + 1) != '/' { return None; }
    var parsed: nat, position: nat := 0, 0;
    assert q[0..] == q;
    while CharAt(p, start + position) >= '0' && CharAt(p, start) <= '9'
      invariant position <= |q| && (position > 0 ==> CharAt(p, start) <= '9')
      invariant Digits(q, 0) == Digits(q[position..], parsed)
      decreases |q| - position
    {
      assert q[position..][0] == p[start + position] && q[position..][1..] == q[position+1..];
      parsed := (10 * parsed + (p[start + position] as int - '0' as int)) % SIZE_LIMIT;
      position := position + 1;
    }
    if CharAt(p, start + position) != '\0' && CharAt(p, start + position) != '/' { return None; }
    return Some(parsed);
  }

  /** One round of decode_pointer_inplace. */
  lemma DecodeStep(buf: string, d: nat, s: nat)
    requires d <= s < |buf|
    ensures buf[s] != '~' ==> DecodeFrom(buf, d, s) == DecodeFrom(buf, d + 1, s + 1)
    ensures buf[s] == '~' && CharAt(buf, s + 1) == '0' ==>
              s + 2 <= |buf| && DecodeFrom(buf, d, s) == DecodeFrom(buf[d := '~'], d + 1, s + 2)
    ensures buf[s] == '~' && CharAt(buf, s + 1) == '1' ==>
              s + 2 <= |buf| && DecodeFrom(buf, d, s) == DecodeFrom(buf[d+1 := '/'], d + 1, s + 2)
    ensures buf[s] == '~' && CharAt(buf, s + 1) != '0' && CharAt(buf, s + 1) != '1' ==> DecodeFrom(buf, d, s) == buf
  {
  }

  lemma DecodeEnd(buf: string, d: nat)
    requires d <= |buf|
    ensures DecodeFrom(buf, d, |buf|) == buf[..d]
  {
  }

  /** decode_pointer_inplace, on the string that begins at `at`. */
  method DecodePointerInplace(b: array<char>, at: nat, ghost token: string)
    requires at + |token| < b.Length && b[at..at + |token|] == token && b[at + |token|] == '\0' && NulFree(token)
    modifies b
    ensures var r := DecodeToken(token);
            at + |r| < b.Length && b[at..at + |r|] == r && b[at + |r|] == '\0'
  {
    hide DecodeFrom;
    ghost var n := |token|;
    var d, s := 0, 0;
    while b[at + s] != '\0'
      invariant d <= s <= n && b[at + n] == '\0' && NulFree(b[at..at + n])
      invariant DecodeFrom(b[at..at + n], d, s) == DecodeToken(token)
      invariant b[at + s] == '\0' ==> s == n
      decreases n - s
    {
      ghost var buf := b[at..at + n];
      assert buf[s] == b[at + s] && CharAt(buf, s + 1) == b[at + s + 1];
      DecodeStep(buf, d, s);
      if b[at + s] == '~' {
        if b[at + s + 1] == '0' {
          b[at + d] := '~';
          assert b[at..at + n] == buf[d := '~'];
        } else if b[at + s + 1] == '1' {
          b[at + d + 1] := '/';
          assert b[at..at + n] == buf[d+1 := '/'];
        } else {
          return;
        }
        s := s + 1;
      }
      s, d := s + 1, d + 1;
      if s < n { assert b[at..at + n][s] == b[at + s]; }
    }
    DecodeEnd(b[at..at + n], d);
    SliceOfSlice(b[..], at, n, d);
    b[at + d] := '\0';
  }

  lemma SliceOfSlice(b: seq<char>, at: nat, n: nat, d: nat)
    requires d <= n && at + n <= |b|
    ensures b[at..at + n][..d] == b[at..at + d]
  {
  }

  // ---------------------------------------------------------------- following a pointer

  /** Keys are C strings, at any depth. */
  predicate KeysAreStrings(j: Json)
  {
    match j
    case Array(items) => forall i :: 0 <= i < |items| ==> KeysAreStrings(items[i])
    case Object(ms) => forall i :: 0 <= i < |ms| ==> NulFree(ms[i].key) && KeysAreStrings(ms[i].value)
    case _ => true
  }

  /** The location `loc` and, below it, what was found there. */
  function Under(loc: Location, below: Option<Location>): Option<Location>
  {
    if below.Some? then Some(loc + below.value) else None
  }

  lemma {:induction false} Deeper(doc: Json, loc: Location, i: nat)
    requires ValidLocation(doc, loc) && i < ChildCount(At(doc, loc))
    ensures ValidLocation(doc, loc + [i]) && At(doc, loc + [i]) == Child(At(doc, loc), i)
    decreases |loc|
  {
    if loc == [] {
      assert [] + [i] == [i] && [i][1..] == [];
    } else {
      Deeper(Child(doc, loc[0]), loc[1..], i);
      assert (loc + [i])[0] == loc[0] && (loc + [i])[1..] == loc[1..] + [i];
    }
  }

  lemma ResolveNext(cs: bool, j: Json, p: string, i: nat, loc: Location)
    requires i < |p| && p[i] == '/'
    ensures var child := Step(cs, j, p[i+1..]);
            Under(loc, Resolve(cs, j, p[i..])) ==
              if child.None? then None
              else Under(loc + [child.value], Resolve(cs, Child(j, child.value), SkipToken(p[i+1..])))
  {
    hide Step, SkipToken;
    assert p[i..][0] == '/' && p[i..][1..] == p[i+1..];
    var child := Step(cs, j, p[i+1..]);
    if child.Some? {
      var below := Resolve(cs, Child(j, child.value), SkipToken(p[i+1..]));
      if below.Some? { assert loc + ([child.value] + below.value) == (loc + [child.value]) + below.value; }
    }
  }

  lemma ResolveHere(cs: bool, j: Json, p: string, i: nat, loc: Location)
    requires i <= |p| && (i < |p| ==> p[i] != '/')
    ensures Under(loc, Resolve(cs, j, p[i..])) == Some(loc)
  {
    if i < |p| { assert p[i..][0] == p[i]; }
    assert loc + [] == loc;
  }

  /** The loops over the children: by index, or by the name in the next token. */
  method SelectChild(j: Json, p: string, start: nat, cs: bool) returns (child: Option<nat>)
    requires NulFree(p) && start <= |p| && KeysAreStrings(j)
    ensures child == Step(cs, j, p[start..])
  {
    hide TokenMatches, DecodeIndex;
    match j
    case Array(items) =>
      var index := DecodeArrayIndex(p, start);
      child := if index.Some? && index.value < |items| then index else None;
    case Object(ms) =>
      var i := 0;
      assert ms[0..] == ms;
      while i < |ms|
        invariant i <= |ms| && FindToken(cs, ms, p[start..]) == i + FindToken(cs, ms[i..], p[start..])
      {
        assert ms[i..][0] == ms[i] && ms[i..][1..] == ms[i+1..];
        var same := ComparePointers(ms[i].key, p, start, cs);
        if same { return Some(i); }
        i := i + 1;
      }
      child := None;
    case _ =>
      child := None;
  }

  method NextToken(p: string, start: nat) returns (i: nat)
    requires NulFree(p) && start <= |p|
    ensures start <= i <= |p| && p[i..] == SkipToken(p[start..])
  {
    i := start;
    while CharAt(p, i) != '\0' && CharAt(p, i) != '/'
      invariant start <= i <= |p| && SkipToken(p[start..]) == SkipToken(p[i..])
      decreases |p| - i
    {
      assert p[i..][0] == p[i] && p[i..][1..] == p[i+1..];
      i := i + 1;
    }
    if i < |p| { assert p[i..][0] == '/'; }
  }

  /** get_item_from_pointer: the item that the pointer leads to, and where it is. */
  method GetItemFromPointer(doc: Json, p: string, cs: bool) returns (item: Option<Json>, ghost loc: Location)
    requires NulFree(p) && KeysAreStrings(doc)
    ensures item.Some? <==> Resolve(cs, doc, p).Some?
    ensures item.Some? ==> Resolve(cs, doc, p) == Some(loc) && ValidLocation(doc, loc) && item.value == At(doc, loc)
  {
    hide Resolve, SkipToken, Step, ValidLocation, At, Under;
    var current, i := doc, 0;
    loc := [];
    ResolveStart(cs, doc, p);
    while i < |p| && p[i] == '/'
      invariant i <= |p| && KeysAreStrings(current)
      invariant ValidLocation(doc, loc) && current == At(doc, loc)
      invariant Under([], Resolve(cs, doc, p)) == Under(loc, Resolve(cs, current, p[i..]))
      decreases |p| - i
    {
      ResolveNext(cs, current, p, i, loc);
      i := i + 1;
      var child := SelectChild(current, p, i, cs);
      if child.None? {
        NotUnder(Resolve(cs, doc, p));
        return None, loc;
      }
      Deeper(doc, loc, child.value);
      loc := loc + [child.value];
      current := if current.Array? then current.items[child.value] else current.members[child.value].value;
      i := NextToken(p, i);
    }
    ResolveHere(cs, current, p, i, loc);
    NotUnder(Resolve(cs, doc, p));
    item := Some(current);
  }

  lemma NotUnder(r: Option<Location>)
    ensures Under([], r) == r
  {
    if r.Some? { assert [] + r.value == r.value; }
  }

  lemma ResolveStart(cs: bool, doc: Json, p: string)
    ensures p[0..] == p && ValidLocation(doc, []) && At(doc, []) == doc
  {
  }

  /** cJSONUtils_FindPointerFromObjectTo: items are told apart by where they are. */
  method FindPointerTo(j: Json, here: Location, target: Location) returns (p: Option<string>)
    requires KeysAreStrings(j)
    ensures p == FindPointer(j, here, target)
    decreases j
  {
    if here == target { return Some(""); }
    var i := 0;
    while i < ChildCount(j)
      invariant i <= ChildCount(j) && FindPointer(j, here, target) == FindInChildren(j, here, target, i)
    {
      var below := FindPointerTo(Child(j, i), here + [i], target);
      if below.Some? {
        if j.Array? { return Some("/" + Decimal(i) + below.value); }
        var full := WritePath("", j.members[i].key);
        assert "" + "/" + Encode(j.members[i].key) == "/" + Encode(j.members[i].key);
        return Some(full + below.value);
      }
      i := i + 1;
    }
    return None;
  }

  // ---------------------------------------------------------------- patches

  /** cJSONUtils_ApplyPatches and its case-sensitive form: the document changes patch by patch,
      and stays as it is at the first patch that fails. */
  method ApplyInOrder(doc0: Json, patches: Json, cs: bool) returns (status: nat, doc: Json)
    ensures Outcome(status, doc) == ApplyPatches(cs, doc0, patches)
  {
    hide ApplyPatch;
    doc := doc0;
    if !patches.Array? { return 1, doc; }
    var i := 0;
    assert patches.items[0..] == patches.items;
    while i < |patches.items|
      invariant i <= |patches.items|
      invariant ApplyAll(cs, doc0, patches.items) == ApplyAll(cs, doc, patches.items[i..])
    {
      assert patches.items[i..][0] == patches.items[i] && patches.items[i..][1..] == patches.items[i+1..];
      var r := ApplyPatch(cs, doc, patches.items[i]);
      doc := r.doc;
      if r.status != 0 { return r.status, doc; }
      i := i + 1;
    }
    status := 0;
  }

  /** merge_patch. */
  method MergeInto(target: Option<Json>, patch: Json, cs: bool) returns (r: Json)
    ensures r == MergePatch(cs, target, patch)
    decreases patch
  {
    if !patch.Object? { return patch; }
    var start := if target.Some? && target.value.Object? then target.value.members else [];
    var ts, ps := start, patch.members;
    var i := 0;
    assert ps[0..] == ps;
    while i < |ps|
      invariant i <= |ps| && MergeMembers(cs, start, ps) == MergeMembers(cs, ts, ps[i..])
    {
      assert ps[i..][0] == ps[i] && ps[i..][1..] == ps[i+1..];
      if ps[i].value.Null? {
        ts := Without(cs, ts, ps[i].key);
      } else {
        var replacement := MergeInto(FoundValue(cs, ts, ps[i].key), ps[i].value, cs);
        ts := Without(cs, ts, ps[i].key) + [Member(ps[i].key, replacement)];
      }
      i := i + 1;
    }
    r := Object(ts);
  }

  // ---------------------------------------------------------------- walks over two lists

  method ComparePairs(xs: seq<Json>, ys: seq<Json>, cs: bool) returns (same: bool)
    ensures same == ComparePairwise(cs, xs, ys)
    decreases xs, 0
  {
    var i := 0;
    assert xs[0..] == xs && ys[0..] == ys;
    while i < |xs| && i < |ys|
      invariant i <= |xs| && i <= |ys| && ComparePairwise(cs, xs, ys) == ComparePairwise(cs, xs[i..], ys[i..])
    {
      assert xs[i..][0] == xs[i] && xs[i..][1..] == xs[i+1..] && ys[i..][0] == ys[i] && ys[i..][1..] == ys[i+1..];
      var identical := CompareTrees(xs[i], ys[i], cs);
      if !identical { return false; }
      i := i + 1;
    }
    same := i == |xs| && i == |ys|;
  }

  method CompareMembers(ms: seq<Member>, ns: seq<Member>, cs: bool, ghost whole: Json) returns (same: bool)
    requires whole.Object? && forall m :: m in ms ==> m in whole.members
    ensures same == CompareWalk(cs, ms, ns, whole)
    decreases whole, 0
  {
    var i := 0;
    assert ms[0..] == ms && ns[0..] == ns;
    while i < |ms| && i < |ns|
      invariant i <= |ms| && i <= |ns| && CompareWalk(cs, ms, ns, whole) == CompareWalk(cs, ms[i..], ns[i..], whole)
    {
      assert ms[i..][0] == ms[i] && ms[i..][1..] == ms[i+1..] && ns[i..][0] == ns[i] && ns[i..][1..] == ns[i+1..];
      if CompareStrings(cs, ms[i].key, ns[i].key) != 0 { return false; }
      MemberIsSmaller(whole, ms[i]);
      var identical := CompareTrees(ms[i].value, ns[i].value, cs);
      if !identical { return false; }
      i := i + 1;
    }
    same := i == |ms| && i == |ns|;
  }

  /** compare_json. */
  method CompareTrees(a: Json, b: Json, cs: bool) returns (same: bool)
    ensures same == CompareJson(cs, a, b)
    decreases a, 1
  {
    match (a, b)
    case (Number(x), Number(y)) => same := x == y;
    case (String(s), String(t)) => same := s == t;
    case (Array(xs), Array(ys)) => same := ComparePairs(xs, ys, cs);
    case (Object(ms), Object(ns)) =>
      same := CompareMembers(SortedMembers(cs, ms), SortedMembers(cs, ns), cs, a);
    case _ =>
      same := (a.Invalid? && b.Invalid?) || (a.Null? && b.Null?) || (a.False? && b.False?) || (a.True? && b.True?);
  }

  // ---------------------------------------------------------------- generating patches

  /** compose_patch: one more patch object; a suffix is encoded and put behind the path. */
  method ComposePatch(patches: seq<Json>, op: string, path: string, suffix: Option<string>, v: Option<Json>)
    returns (r: seq<Json>)
    requires op in {"remove", "add", "replace"} && (v.None? <==> op == "remove")
    requires suffix.Some? ==> NulFree(suffix.value)
    ensures var full := if suffix.None? then path else path + "/" + Encode(suffix.value);
            var e := if op == "remove" then Remove(full) else if op == "add" then Add(full, v.value) else Replace(full, v.value);
            r == patches + EditsJson([e])
  {
    hide Encode;
    var full := path;
    if suffix.Some? {
      full := WritePath(path, suffix.value);
    }
    var fields := [Member("op", String(op)), Member("path", String(full))];
    if v.Some? {
      fields := fields + [Member("value", v.value)];
    }
    ghost var e := if op == "remove" then Remove(full) else if op == "add" then Add(full, v.value) else Replace(full, v.value);
    assert fields == EditJson(e).members;
    assert EditsJson([e]) == [EditJson(e)];
    r := patches + [Object(fields)];
  }

  lemma EditsConcat(a: seq<Edit>, b: seq<Edit>)
    ensures EditsJson(a + b) == EditsJson(a) + EditsJson(b)
  {
  }

  /** The patches so far, and the edits that are still to come. */
  ghost predicate Emitting(patches0: seq<Json>, patches: seq<Json>, all: seq<Edit>, rest: seq<Edit>)
  {
    exists done: seq<Edit> :: patches == patches0 + EditsJson(done) && all == done + rest
  }

  lemma EmitStart(patches: seq<Json>, all: seq<Edit>)
    ensures Emitting(patches, patches, all, all)
  {
    var done: seq<Edit> := [];
    assert patches == patches + EditsJson(done) && all == done + all;
  }

  lemma EmitMore(patches0: seq<Json>, patches: seq<Json>, all: seq<Edit>, rest: seq<Edit>, more: seq<Edit>, rest': seq<Edit>)
    requires Emitting(patches0, patches, all, rest) && rest == more + rest'
    ensures Emitting(patches0, patches + EditsJson(more), all, rest')
  {
    var done :| patches == patches0 + EditsJson(done) && all == done + rest;
    EditsConcat(done, more);
    assert patches + EditsJson(more) == patches0 + EditsJson(done + more);
    assert all == (done + more) + rest';
  }

  lemma EmitEnd(patches0: seq<Json>, patches: seq<Json>, all: seq<Edit>)
    requires Emitting(patches0, patches, all, [])
    ensures patches == patches0 + EditsJson(all)
  {
    var done :| patches == patches0 + EditsJson(done) && all == done + [];
    assert all == done;
  }

  /** The definitions of the two walks, one step at a time. */
  lemma ArrayNext(cs: bool, path: string, xs: seq<Json>, ys: seq<Json>, i: nat, j: nat, index: nat)
    requires i <= |xs| && j <= |ys|
    ensures var rest := ArrayEdits(cs, path, xs[i..], ys[j..], index);
            && (i < |xs| && j < |ys| ==>
                  rest == CreateEdits(cs, path + "/" + Decimal(index), xs[i], ys[j]) + ArrayEdits(cs, path, xs[i+1..], ys[j+1..], index + 1))
            && (i < |xs| && j == |ys| ==>
                  rest == [Remove(path + "/" + Encode(Decimal(index)))] + ArrayEdits(cs, path, xs[i+1..], ys[j..], index))
            && (i == |xs| && j < |ys| ==>
                  rest == [Add(path + "/" + Encode("-"), ys[j])] + ArrayEdits(cs, path, xs[i..], ys[j+1..], index + 1))
            && (i == |xs| && j == |ys| ==> rest == [])
  {
    hide CreateEdits, Decimal, Encode;
    if i < |xs| { assert xs[i..][0] == xs[i] && xs[i..][1..] == xs[i+1..]; }
    if j < |ys| { assert ys[j..][0] == ys[j] && ys[j..][1..] == ys[j+1..]; }
  }

  lemma ObjectNext(cs: bool, path: string, ms: seq<Member>, ns: seq<Member>, i: nat, j: nat, whole: Json)
    requires i <= |ms| && j <= |ns| && whole.Object? && forall m :: m in ms ==> m in whole.members
    ensures var rest := ObjectEdits(cs, path, ms[i..], ns[j..], whole);
            var diff := if i == |ms| then 1 else if j == |ns| then -1 else CompareStrings(cs, ms[i].key, ns[j].key);
            && (i == |ms| && j == |ns| ==> rest == [])
            && (i < |ms| && j < |ns| && diff == 0 ==>
                  rest == CreateEdits(cs, path + "/" + Encode(ms[i].key), ms[i].value, ns[j].value)
                          + ObjectEdits(cs, path, ms[i+1..], ns[j+1..], whole))
            && (i < |ms| && diff < 0 ==>
                  rest == [Remove(path + "/" + Encode(ms[i].key))] + ObjectEdits(cs, path, ms[i+1..], ns[j..], whole))
            && (j < |ns| && diff > 0 ==>
                  rest == [Add(path + "/" + Encode(ns[j].key), ns[j].value)] + ObjectEdits(cs, path, ms[i..], ns[j+1..], whole))
  {
    hide CreateEdits, Encode, CompareStrings;
    if i < |ms| { assert ms[i..][0] == ms[i] && ms[i..][1..] == ms[i+1..]; }
    if j < |ns| { assert ns[j..][0] == ns[j] && ns[j..][1..] == ns[j+1..]; }
  }

  method ArrayPatches(patches0: seq<Json>, path: string, xs: seq<Json>, ys: seq<Json>, cs: bool) returns (patches: seq<Json>)
    requires KeysAreStrings(Array(xs)) && KeysAreStrings(Array(ys))
    ensures patches == patches0 + EditsJson(ArrayEdits(cs, path, xs, ys, 0))
    decreases xs, 0
  {
    hide ArrayEdits, CreateEdits, Emitting, Encode, Decimal;
    ghost var all := ArrayEdits(cs, path, xs, ys, 0);
    patches := patches0;
    var index, i, j := 0, 0, 0;
    assert xs[0..] == xs && ys[0..] == ys;
    EmitStart(patches, all);
    while i < |xs| && j < |ys|
      invariant i <= |xs| && j <= |ys| && i == j && index == i
      invariant Emitting(patches0, patches, all, ArrayEdits(cs, path, xs[i..], ys[j..], index))
    {
      ArrayNext(cs, path, xs, ys, i, j, index);
      ghost var before := patches;
      var newPath := path + "/" + Decimal(index);
      patches := CreatePatches(patches, newPath, xs[i], ys[j], cs);
      EmitMore(patches0, before, all, ArrayEdits(cs, path, xs[i..], ys[j..], index),
               CreateEdits(cs, newPath, xs[i], ys[j]), ArrayEdits(cs, path, xs[i+1..], ys[j+1..], index + 1));
      i, j, index := i + 1, j + 1, index + 1;
    }
    while i < |xs|
      invariant i <= |xs| && j <= |ys| && (i < |xs| ==> j == |ys|)
      invariant Emitting(patches0, patches, all, ArrayEdits(cs, path, xs[i..], ys[j..], index))
    {
      ArrayNext(cs, path, xs, ys, i, j, index);
      ghost var before, e := patches, Remove(path + "/" + Encode(Decimal(index)));
      patches := ComposePatch(patches, "remove", path, Some(Decimal(index)), None);
      EmitMore(patches0, before, all, ArrayEdits(cs, path, xs[i..], ys[j..], index), [e], ArrayEdits(cs, path, xs[i+1..], ys[j..], index));
      i := i + 1;
    }
    while j < |ys|
      invariant i == |xs| && j <= |ys|
      invariant Emitting(patches0, patches, all, ArrayEdits(cs, path, xs[i..], ys[j..], index))
    {
      ArrayNext(cs, path, xs, ys, i, j, index);
      ghost var before, e := patches, Add(path + "/" + Encode("-"), ys[j]);
      patches := ComposePatch(patches, "add", path, Some("-"), Some(ys[j]));
      EmitMore(patches0, before, all, ArrayEdits(cs, path, xs[i..], ys[j..], index), [e], ArrayEdits(cs, path, xs[i..], ys[j+1..], index + 1));
      j, index := j + 1, index + 1;
    }
    ArrayNext(cs, path, xs, ys, i, j, index);
    EmitEnd(patches0, patches, all);
  }

  method ObjectPatches(patches0: seq<Json>, path: string, ms: seq<Member>, ns: seq<Member>, cs: bool, ghost whole: Json)
    returns (patches: seq<Json>)
    requires whole.Object? && forall m :: m in ms ==> m in whole.members
    requires KeysAreStrings(Object(ms)) && KeysAreStrings(Object(ns))
    ensures patches == patches0 + EditsJson(ObjectEdits(cs, path, ms, ns, whole))
    decreases whole, 0
  {
    hide ObjectEdits, CreateEdits, Emitting, Encode, CompareStrings;
    ghost var all := ObjectEdits(cs, path, ms, ns, whole);
    patches := patches0;
    var i, j := 0, 0;
    assert ms[0..] == ms && ns[0..] == ns;
    EmitStart(patches, all);
    while i < |ms| || j < |ns|
      invariant i <= |ms| && j <= |ns|
      invariant Emitting(patches0, patches, all, ObjectEdits(cs, path, ms[i..], ns[j..], whole))
      decreases |ms| - i + |ns| - j
    {
      ObjectNext(cs, path, ms, ns, i, j, whole);
      ghost var before, rest := patches, ObjectEdits(cs, path, ms[i..], ns[j..], whole);
      var diff := if i == |ms| then 1 else if j == |ns| then -1 else CompareStrings(cs, ms[i].key, ns[j].key);
      if diff == 0 {
        MemberIsSmaller(whole, ms[i]);
        var newPath := WritePath(path, ms[i].key);
        patches := CreatePatches(patches, newPath, ms[i].value, ns[j].value, cs);
        EmitMore(patches0, before, all, rest, CreateEdits(cs, newPath, ms[i].value, ns[j].value),
                 ObjectEdits(cs, path, ms[i+1..], ns[j+1..], whole));
        i, j := i + 1, j + 1;
      } else if diff < 0 {
        patches := ComposePatch(patches, "remove", path, Some(ms[i].key), None);
        EmitMore(patches0, before, all, rest, [Remove(path + "/" + Encode(ms[i].key))], ObjectEdits(cs, path, ms[i+1..], ns[j..], whole));
        i := i + 1;
      } else {
        patches := ComposePatch(patches, "add", path, Some(ns[j].key), Some(ns[j].value));
        EmitMore(patches0, before, all, rest, [Add(path + "/" + Encode(ns[j].key), ns[j].value)], ObjectEdits(cs, path, ms[i..], ns[j+1..], whole));
        j := j + 1;
      }
    }
    ObjectNext(cs, path, ms, ns, i, j, whole);
    EmitEnd(patches0, patches, all);
  }

  lemma SortedStrings(cs: bool, ms: seq<Member>)
    requires KeysAreStrings(Object(ms))
    ensures KeysAreStrings(Object(SortedMembers(cs, ms)))
  {
    hide SortedMembers;
    var r := SortedMembers(cs, ms);
    forall i | 0 <= i < |r| ensures NulFree(r[i].key) && KeysAreStrings(r[i].value) {
      assert r[i] in ms;
    }
  }

  /** create_patches: the patches from one document to the other are appended to a list. */
  method CreatePatches(patches0: seq<Json>, path: string, from: Json, to: Json, cs: bool) returns (patches: seq<Json>)
    requires KeysAreStrings(from) && KeysAreStrings(to)
    ensures patches == patches0 + EditsJson(CreateEdits(cs, path, from, to))
    decreases from, 1
  {
    hide ArrayEdits, ObjectEdits, SortedMembers;
    match (from, to)
    case (Array(xs), Array(ys)) => patches := ArrayPatches(patches0, path, xs, ys, cs);
    case (Object(ms), Object(ns)) =>
      SortedStrings(cs, ms);
      SortedStrings(cs, ns);
      patches := ObjectPatches(patches0, path, SortedMembers(cs, ms), SortedMembers(cs, ns), cs, from);
    case _ =>
      var same := match (from, to)
        case (Invalid, Invalid) => true
        case (Null, Null) => true
        case (False, False) => true
        case (True, True) => true
        case (Number(x), Number(y)) => x == y
        case (String(s), String(t)) => s == t
        case _ => false;
      if same {
        patches := patches0 + [];
      } else {
        patches := ComposePatch(patches0, "replace", path, None, Some(to));
      }
  }

  /** generate_merge_patch. */
  method GenerateMerge(from: Json, to: Json, cs: bool) returns (patch: Option<Json>)
    ensures patch == Generate(cs, from, to)
    decreases from, 1
  {
    hide GenerateWalk, SortedMembers;
    if !to.Object? || !from.Object? { return Some(to); }
    var ms := MergeWalk(SortedMembers(cs, from.members), SortedMembers(cs, to.members), cs, from);
    patch := if ms == [] then None else Some(Object(ms));
  }

  method MergeWalk(fs: seq<Member>, ts: seq<Member>, cs: bool, ghost whole: Json) returns (out: seq<Member>)
    requires whole.Object? && forall m :: m in fs ==> m in whole.members
    ensures out == GenerateWalk(cs, fs, ts, whole)
    decreases whole, 0
  {
    hide GenerateWalk, CompareJson, Generate, Strcmp;
    out := [];
    var i, j := 0, 0;
    assert fs[0..] == fs && ts[0..] == ts && [] + GenerateWalk(cs, fs, ts, whole) == GenerateWalk(cs, fs, ts, whole);
    while i < |fs| || j < |ts|
      invariant i <= |fs| && j <= |ts|
      invariant GenerateWalk(cs, fs, ts, whole) == out + GenerateWalk(cs, fs[i..], ts[j..], whole)
      decreases |fs| - i + |ts| - j
    {
      WalkNext(cs, fs, ts, i, j, whole, out);
      var diff := if i == |fs| then 1 else if j == |ts| then -1 else Strcmp(fs[i].key, ts[j].key);
      if diff < 0 {
        out := out + [Member(fs[i].key, Null)];
        i := i + 1;
      } else if diff > 0 {
        out := out + [Member(ts[j].key, ts[j].value)];
        j := j + 1;
      } else {
        MemberIsSmaller(whole, fs[i]);
        var same := CompareTrees(fs[i].value, ts[j].value, cs);
        if !same {
          var nested := GenerateMerge(fs[i].value, ts[j].value, false);
          if nested.Some? { out := out + [Member(ts[j].key, nested.value)]; }
        }
        i, j := i + 1, j + 1;
      }
    }
    WalkNext(cs, fs, ts, i, j, whole, out);
  }

  lemma WalkNext(cs: bool, fs: seq<Member>, ts: seq<Member>, i: nat, j: nat, whole: Json, out: seq<Member>)
    requires i <= |fs| && j <= |ts| && whole.Object? && forall m :: m in fs ==> m in whole.members
    ensures var rest := out + GenerateWalk(cs, fs[i..], ts[j..], whole);
            var diff := if i == |fs| then 1 else if j == |ts| then -1 else Strcmp(fs[i].key, ts[j].key);
            && (i == |fs| && j == |ts| ==> rest == out)
            && (i < |fs| && diff < 0 ==>
                  rest == (out + [Member(fs[i].key, Null)]) + GenerateWalk(cs, fs[i+1..], ts[j..], whole))
            && (j < |ts| && diff > 0 ==>
                  rest == (out + [Member(ts[j].key, ts[j].value)]) + GenerateWalk(cs, fs[i..], ts[j+1..], whole))
            && (i < |fs| && j < |ts| && diff == 0 ==>
                  var nested := if CompareJson(cs, fs[i].value, ts[j].value) then None
                                else Generate(false, fs[i].value, ts[j].value);
                  rest == (if nested.Some? then out + [Member(ts[j].key, nested.value)] else out)
                          + GenerateWalk(cs, fs[i+1..], ts[j+1..], whole))
  {
    hide CompareJson, Generate, Strcmp;
    if i < |fs| { assert fs[i..][0] == fs[i] && fs[i..][1..] == fs[i+1..]; }
    if j < |ts| { assert ts[j..][0] == ts[j] && ts[j..][1..] == ts[j+1..]; }
  }
}
