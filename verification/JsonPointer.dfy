/** JSON Pointers (RFC 6901) as cJSON_Utils writes and follows them. A node of a document is
    identified by its location: the child indices on the way from the root. */
module JsonPointer {
  import opened CString
  import opened JsonValue

  type Location = seq<nat>

  /** size_t and unsigned long are 32 bits wide on the target. */
  const SIZE_LIMIT: nat := 0x1_0000_0000

  predicate AtTokenEnd(p: string)
  {
    p == "" || p[0] == '/'
  }

  function EncodeChar(c: char): string
  {
    if c == '/' then "~1" else if c == '~' then "~0" else [c]
  }

  /** encode_string_as_pointer. */
  function Encode(s: string): (r: string)
    ensures |r| >= |s|
    ensures '/' !in r
  {
    if s == "" then ""
    else EncodeChar(s[0]) + Encode(s[1..])
  }

  /** compare_pointers: does the next token of the pointer name this key? */
  predicate TokenMatches(cs: bool, name: string, p: string)
    decreases |name|
  {
    if name == "" || AtTokenEnd(p) then name == "" && AtTokenEnd(p)
    else if p[0] == '~' then
      && |p| > 1
      && ((p[1] == '0' && name[0] == '~') || (p[1] == '1' && name[0] == '/'))
      && TokenMatches(cs, name[1..], p[2..])
    else
      && Fold(cs, [name[0]]) == Fold(cs, [p[0]])
      && TokenMatches(cs, name[1..], p[1..])
  }

  /** The digit loop of decode_array_index_from_pointer: it stops only at a character
      below '0'. Returns the index, which wraps, and what is left. */
  function Digits(p: string, acc: nat): (r: (nat, string))
    decreases |p|
  {
    if p == "" || p[0] < '0' then (acc, p)
    else Digits(p[1..], (10 * acc + (p[0] as int - '0' as int)) % SIZE_LIMIT)
  }

  /** decode_array_index_from_pointer. An empty token is index 0. */
  function DecodeIndex(p: string): (r: Option<nat>)
  {
    if |p| >= 2 && p[0] == '0' && p[1] != '/' then None
    else if p != "" && p[0] > '9' then None
    else
      var (index, rest) := Digits(p, 0);
      if AtTokenEnd(rest) then Some(index) else None
  }

  function SkipToken(p: string): (r: string)
    ensures |r| <= |p| && AtTokenEnd(r)
  {
    if AtTokenEnd(p) then p else SkipToken(p[1..])
  }

  function FindToken(cs: bool, ms: seq<Member>, p: string): (i: nat)
    ensures i <= |ms|
    ensures i < |ms| ==> TokenMatches(cs, ms[i].key, p)
    ensures forall k :: 0 <= k < i ==> !TokenMatches(cs, ms[k].key, p)
  {
    if ms == [] || TokenMatches(cs, ms[0].key, p) then 0 else 1 + FindToken(cs, ms[1..], p)
  }

  function Prepend(i: nat, loc: Option<Location>): Option<Location>
  {
    if loc.Some? then Some([i] + loc.value) else None
  }

  /** The child that one pointer token selects. */
  function Step(cs: bool, j: Json, p: string): (i: Option<nat>)
    ensures i.Some? ==> i.value < ChildCount(j)
  {
    match j
    case Array(items) =>
      var index := DecodeIndex(p);
      if index.Some? && index.value < |items| then index else None
    case Object(ms) =>
      var i := FindToken(cs, ms, p);
      if i < |ms| then Some(i) else None
    case _ => None
  }

  /** get_item_from_pointer: the location of the node the pointer leads to. */
  function Resolve(cs: bool, j: Json, p: string): (loc: Option<Location>)
    ensures loc.Some? ==> ValidLocation(j, loc.value)
    decreases |p|
  {
    if p == "" || p[0] != '/' then Some([])
    else
      var child := Step(cs, j, p[1..]);
      if child.None? then None
      else Prepend(child.value, Resolve(cs, Child(j, child.value), SkipToken(p[1..])))
  }

  function ChildCount(j: Json): nat
  {
    match j
    case Array(items) => |items|
    case Object(ms) => |ms|
    case _ => 0
  }

  function Child(j: Json, i: nat): (c: Json)
    requires i < ChildCount(j)
    ensures j decreases to c
  {
    if j.Array? then j.items[i] else j.members[i].value
  }

  predicate ValidLocation(j: Json, loc: Location)
    decreases |loc|
  {
    loc == [] || (loc[0] < ChildCount(j) && ValidLocation(Child(j, loc[0]), loc[1..]))
  }

  function At(j: Json, loc: Location): Json
    requires ValidLocation(j, loc)
    decreases |loc|
  {
    if loc == [] then j else At(Child(j, loc[0]), loc[1..])
  }

  function WithChild(j: Json, i: nat, c: Json): (r: Json)
    requires i < ChildCount(j)
    ensures ChildCount(r) == ChildCount(j)
  {
    if j.Array? then Array(j.items[i := c])
    else Object(j.members[i := Member(j.members[i].key, c)])
  }

  /** The document with the node at a location replaced. */
  function Put(j: Json, loc: Location, v: Json): Json
    requires ValidLocation(j, loc)
    decreases |loc|
  {
    if loc == [] then v else WithChild(j, loc[0], Put(Child(j, loc[0]), loc[1..], v))
  }

  /** printf's %lu. */
  function Decimal(n: nat): (s: string)
    ensures s != ""
    ensures forall i :: 0 <= i < |s| ==> '0' <= s[i] <= '9'
  {
    if n < 10 then [('0' as int + n) as char]
    else Decimal(n / 10) + [('0' as int + n % 10) as char]
  }

  /** The token FindPointerFromObjectTo writes for a child. */
  function TokenFor(j: Json, i: nat): string
    requires i < ChildCount(j)
  {
    if j.Array? then Decimal(i) else Encode(j.members[i].key)
  }

  /** cJSONUtils_FindPointerFromObjectTo: depth-first search for a node, which is compared
      by identity, that is by location. */
  function FindPointer(j: Json, here: Location, target: Location): (p: Option<string>)
    decreases j, 1, 0
  {
    if here == target then Some("")
    else FindInChildren(j, here, target, 0)
  }

  function FindInChildren(j: Json, here: Location, target: Location, i: nat): (p: Option<string>)
    requires i <= ChildCount(j)
    decreases j, 0, ChildCount(j) - i
  {
    if i == ChildCount(j) then None
    else
      var below := FindPointer(Child(j, i), here + [i], target);
      if below.Some? then Some("/" + TokenFor(j, i) + below.value)
      else FindInChildren(j, here, target, i + 1)
  }

  // ---------------------------------------------------------------- tokens

  lemma FoldSpecial(cs: bool, a: char, b: char)
    requires b == '~' || b == '/'
    ensures Fold(cs, [a]) == Fold(cs, [b]) <==> a == b
  {
    if Fold(cs, [a]) == Fold(cs, [b]) {
      assert Fold(cs, [a])[0] == Fold(cs, [b])[0];
    }
  }

  lemma FoldCons(cs: bool, a: string, b: string)
    requires a != "" && b != ""
    ensures Fold(cs, a) == Fold(cs, b) <==> Fold(cs, [a[0]]) == Fold(cs, [b[0]]) && Fold(cs, a[1..]) == Fold(cs, b[1..])
  {
    var x, y := Fold(cs, a), Fold(cs, b);
    assert x == [x[0]] + x[1..] && y == [y[0]] + y[1..];
    assert x[1..] == Fold(cs, a[1..]) && y[1..] == Fold(cs, b[1..]);
    assert [x[0]] == Fold(cs, [a[0]]) && [y[0]] == Fold(cs, [b[0]]);
  }

  lemma MatchChar(cs: bool, name: string, c: char, tail: string)
    requires name != ""
    ensures TokenMatches(cs, name, EncodeChar(c) + tail) <==>
              Fold(cs, [name[0]]) == Fold(cs, [c]) && TokenMatches(cs, name[1..], tail)
  {
    var p := EncodeChar(c) + tail;
    if c == '/' || c == '~' {
      assert p[2..] == tail;
      FoldSpecial(cs, name[0], c);
    } else {
      assert p[1..] == tail;
    }
  }

  lemma MatchEdges(cs: bool, name: string, p: string)
    ensures name == "" || AtTokenEnd(p) ==> (TokenMatches(cs, name, p) <==> name == "" && AtTokenEnd(p))
  {
  }

  /** A key's encoding names exactly the keys that compare equal to it, whatever bytes it has. */
  lemma {:induction false} EncodeMatches(cs: bool, name: string, key: string, rest: string)
    requires AtTokenEnd(rest)
    ensures TokenMatches(cs, name, Encode(key) + rest) <==> Fold(cs, name) == Fold(cs, key)
    decreases |key|
  {
    hide TokenMatches, Fold;
    MatchEdges(cs, name, Encode(key) + rest);
    if key == "" {
      assert Encode(key) + rest == rest;
      FoldEmpty(cs, name, key);
    } else {
      var tail := Encode(key[1..]) + rest;
      assert Encode(key) + rest == EncodeChar(key[0]) + tail;
      if name == "" {
        assert (EncodeChar(key[0]) + tail)[0] == EncodeChar(key[0])[0];
        FoldEmpty(cs, key, name);
      } else {
        MatchChar(cs, name, key[0], tail);
        EncodeMatches(cs, name[1..], key[1..], rest);
        FoldCons(cs, name, key);
      }
    }
  }

  lemma FoldEmpty(cs: bool, a: string, b: string)
    requires b == ""
    ensures Fold(cs, a) == Fold(cs, b) <==> a == ""
  {
    assert |Fold(cs, a)| == |a|;
  }

  lemma {:induction false} SkipEncoded(token: string, rest: string)
    requires '/' !in token && AtTokenEnd(rest)
    ensures SkipToken(token + rest) == rest
  {
    if token == "" {
      assert token + rest == rest;
    } else {
      assert (token + rest)[0] == token[0] && token[0] in token;
      assert (token + rest)[1..] == token[1..] + rest;
      SkipEncoded(token[1..], rest);
    }
  }

  lemma DecimalMore(n: nat, tail: string)
    ensures var c := ('0' as int + n % 10) as char;
            Decimal(n) + tail == if n < 10 then [c] + tail else Decimal(n / 10) + ([c] + tail)
  {
  }

  lemma {:induction false} DigitsDecimal(n: nat, tail: string)
    requires n < SIZE_LIMIT
    ensures Digits(Decimal(n) + tail, 0) == Digits(tail, n)
  {
    var c := ('0' as int + n % 10) as char;
    hide Digits, Decimal;
    DecimalMore(n, tail);
    DigitValue(n);
    DigitStep(c, tail, n / 10);
    if n >= 10 { DigitsDecimal(n / 10, [c] + tail); }
  }

  lemma DigitValue(n: nat)
    requires n < SIZE_LIMIT
    ensures (10 * (n / 10) + n % 10) % SIZE_LIMIT == n
  {
    assert 10 * (n / 10) + n % 10 == n;
  }

  lemma DigitStep(c: char, tail: string, acc: nat)
    requires '0' <= c
    ensures Digits([c] + tail, acc) == Digits(tail, (10 * acc + (c as int - '0' as int)) % SIZE_LIMIT)
  {
    assert ([c] + tail)[1..] == tail;
  }

  lemma {:induction false} DecimalLeading(n: nat)
    ensures |Decimal(n)| >= 2 ==> Decimal(n)[0] != '0'
    ensures n > 0 ==> Decimal(n)[0] != '0'
  {
    if n >= 10 { DecimalLeading(n / 10); }
  }

  /** Reading back a written array index gives the index, as long as it fits size_t. */
  lemma DecodeDecimal(n: nat, rest: string)
    requires n < SIZE_LIMIT && AtTokenEnd(rest)
    ensures DecodeIndex(Decimal(n) + rest) == Some(n)
  {
    var p := Decimal(n) + rest;
    DecimalLeading(n);
    DigitsDecimal(n, rest);
    assert '0' <= p[0] <= '9';
    if |Decimal(n)| == 1 && |p| >= 2 { assert p[1] == rest[0]; }
    assert Digits(rest, n) == (n, rest);
  }

  // ---------------------------------------------------------------- pointers

  /** No array is too long to be indexed by size_t. */
  predicate Indexable(j: Json)
  {
    match j
    case Array(items) => |items| <= SIZE_LIMIT && forall i :: 0 <= i < |items| ==> Indexable(items[i])
    case Object(ms) => forall i :: 0 <= i < |ms| ==> Indexable(ms[i].value)
    case _ => true
  }

  /** On the way to the location, no member is hidden by an earlier sibling with a matching key. */
  predicate Unshadowed(cs: bool, j: Json, loc: Location)
    requires ValidLocation(j, loc)
    decreases |loc|
  {
    loc == [] ||
    (&& (j.Object? ==> Find(cs, j.members, j.members[loc[0]].key) == loc[0])
     && Unshadowed(cs, Child(j, loc[0]), loc[1..]))
  }

  lemma {:induction false} FindTokenIsFind(cs: bool, ms: seq<Member>, key: string, rest: string)
    requires AtTokenEnd(rest)
    ensures FindToken(cs, ms, Encode(key) + rest) == Find(cs, ms, key)
  {
    if ms != [] {
      EncodeMatches(cs, ms[0].key, key, rest);
      FindTokenIsFind(cs, ms[1..], key, rest);
    }
  }

  lemma TokenHasNoSlash(j: Json, i: nat)
    requires i < ChildCount(j)
    ensures '/' !in TokenFor(j, i)
  {
  }

  /** One token written for a child selects that child, or for an object the first
      member with a matching key. */
  lemma StepToken(cs: bool, j: Json, i: nat, rest: string)
    requires i < ChildCount(j) && AtTokenEnd(rest)
    requires j.Array? ==> i < SIZE_LIMIT
    ensures Step(cs, j, TokenFor(j, i) + rest) == Some(if j.Array? then i else Find(cs, j.members, j.members[i].key))
  {
    if j.Array? {
      DecodeDecimal(i, rest);
    } else {
      FindTokenIsFind(cs, j.members, j.members[i].key, rest);
    }
  }

  /** Following "/token" and then the rest is one step and then the rest. */
  lemma ResolveToken(cs: bool, j: Json, token: string, rest: string)
    requires '/' !in token && AtTokenEnd(rest)
    ensures Resolve(cs, j, "/" + token + rest) ==
              var child := Step(cs, j, token + rest);
              if child.None? then None else Prepend(child.value, Resolve(cs, Child(j, child.value), rest))
  {
    var p := "/" + token + rest;
    assert p[1..] == token + rest;
    SkipEncoded(token, rest);
  }

  /** The pointer to a location: one token per step. */
  function PointerTo(j: Json, loc: Location): (p: string)
    requires ValidLocation(j, loc)
    ensures AtTokenEnd(p)
    decreases |loc|
  {
    if loc == [] then "" else "/" + TokenFor(j, loc[0]) + PointerTo(Child(j, loc[0]), loc[1..])
  }

  /** The search finds a node exactly if it is below, and then returns its pointer. */
  lemma {:induction false} FindPointerFinds(j: Json, here: Location, target: Location)
    ensures FindPointer(j, here, target) ==
              if here <= target && ValidLocation(j, target[|here|..])
              then Some(PointerTo(j, target[|here|..])) else None
    decreases j, 1, 0
  {
    if here != target {
      FindInChildrenFinds(j, here, target, 0);
      if here <= target && ValidLocation(j, target[|here|..]) {
        assert target[|here|..][0] == target[|here|];
        assert target[|here|..][1..] == target[|here| + 1..];
      }
    }
  }

  lemma {:induction false} FindInChildrenFinds(j: Json, here: Location, target: Location, i: nat)
    requires i <= ChildCount(j)
    ensures FindInChildren(j, here, target, i) ==
              if here < target && i <= target[|here|] < ChildCount(j)
                 && ValidLocation(Child(j, target[|here|]), target[|here| + 1..])
              then Some("/" + TokenFor(j, target[|here|]) + PointerTo(Child(j, target[|here|]), target[|here| + 1..]))
              else None
    decreases j, 0, ChildCount(j) - i
  {
    if i < ChildCount(j) {
      FindPointerFinds(Child(j, i), here + [i], target);
      FindInChildrenFinds(j, here, target, i + 1);
      if here < target && target[|here|] == i {
        assert here + [i] <= target;
      }
    }
  }

  /** Resolving the pointer written for a node leads back to that node if and only if no
      node on the way is hidden by an earlier sibling with a matching key. */
  lemma {:induction false} PointerRoundTrip(cs: bool, j: Json, loc: Location)
    requires ValidLocation(j, loc) && Indexable(j)
    ensures FindPointer(j, [], loc) == Some(PointerTo(j, loc))
    ensures Resolve(cs, j, PointerTo(j, loc)) == Some(loc) <==> Unshadowed(cs, j, loc)
    decreases |loc|
  {
    hide FindPointer, Resolve, Step, TokenFor, Find;
    assert loc[0..] == loc;
    FindPointerFinds(j, [], loc);
    if loc == [] {
      ResolveNothing(cs, j);
    } else {
      var i, rest := loc[0], PointerTo(Child(j, loc[0]), loc[1..]);
      PointerRoundTrip(cs, Child(j, i), loc[1..]);
      TokenHasNoSlash(j, i);
      ResolveToken(cs, j, TokenFor(j, i), rest);
      StepToken(cs, j, i, rest);
      var k := if j.Array? then i else Find(cs, j.members, j.members[i].key);
      PrependIs(k, Resolve(cs, Child(j, k), rest), loc);
    }
  }

  lemma ResolveNothing(cs: bool, j: Json)
    ensures Resolve(cs, j, "") == Some([])
  {
  }

  lemma PrependIs(i: nat, below: Option<Location>, loc: Location)
    requires loc != []
    ensures Prepend(i, below) == Some(loc) <==> i == loc[0] && below == Some(loc[1..])
  {
    assert loc == [loc[0]] + loc[1..];
    if below.Some? { assert ([i] + below.value)[0] == i && ([i] + below.value)[1..] == below.value; }
  }

  lemma {:induction false} DistinctIsUnshadowed(cs: bool, j: Json, loc: Location)
    requires ValidLocation(j, loc) && DistinctKeys(cs, j)
    ensures Unshadowed(cs, j, loc)
    decreases |loc|
  {
    if loc != [] {
      DistinctIsUnshadowed(cs, Child(j, loc[0]), loc[1..]);
      if j.Object? { ViewAt(cs, j.members, loc[0]); }
    }
  }

  /** cJSONUtils_GetPointerCaseSensitive undoes cJSONUtils_FindPointerFromObjectTo in every
      document whose sibling keys are distinct; the keys may hold '~', '/' or nothing at all. */
  lemma FoundPointerResolves(j: Json, loc: Location)
    requires ValidLocation(j, loc) && Indexable(j) && DistinctKeys(true, j)
    ensures FindPointer(j, [], loc).Some?
    ensures Resolve(true, j, FindPointer(j, [], loc).value) == Some(loc)
  {
    PointerRoundTrip(true, j, loc);
    DistinctIsUnshadowed(true, j, loc);
  }

  // ---------------------------------------------------------------- any pointer

  /** The unescaping of section 4 of RFC 6901, with an undefined escape kept as it is. */
  function Unescape(token: string): string
  {
    if token == "" then ""
    else if |token| >= 2 && token[0] == '~' && token[1] == '0' then "~" + Unescape(token[2..])
    else if |token| >= 2 && token[0] == '~' && token[1] == '1' then "/" + Unescape(token[2..])
    else [token[0]] + Unescape(token[1..])
  }

  /** The token at the front of a pointer. */
  function TokenOf(p: string): (t: string)
  {
    if AtTokenEnd(p) then "" else [p[0]] + TokenOf(p[1..])
  }

  /** Every '~' is followed by '0' or '1'. */
  predicate WellEscaped(t: string)
    decreases |t|
  {
    t == "" ||
    (if t[0] == '~' then |t| >= 2 && (t[1] == '0' || t[1] == '1') && WellEscaped(t[2..]) else WellEscaped(t[1..]))
  }

  /** A token names exactly the keys equal to what RFC 6901 says it stands for; one with a bad
      escape names nothing. */
  lemma {:induction false} TokenMatchesExact(cs: bool, name: string, p: string)
    ensures TokenMatches(cs, name, p) <==> WellEscaped(TokenOf(p)) && Fold(cs, name) == Fold(cs, Unescape(TokenOf(p)))
    decreases |p|
  {
    hide Fold;
    if AtTokenEnd(p) {
      FoldEmpty(cs, name, "");
    } else {
      TokenNotEmpty(cs, name, p);
      if name != "" {
        if p[0] == '~' { TildeExact(cs, name, p); } else { PlainExact(cs, name, p); }
      }
    }
  }

  lemma TokenNotEmpty(cs: bool, name: string, p: string)
    requires !AtTokenEnd(p)
    ensures Unescape(TokenOf(p)) != "" && (name == "" ==> Fold(cs, name) != Fold(cs, Unescape(TokenOf(p))))
  {
    var u := Unescape(TokenOf(p));
    assert |Fold(cs, u)| == |u| && |Fold(cs, name)| == |name|;
  }

  lemma {:induction false} PlainExact(cs: bool, name: string, p: string)
    requires !AtTokenEnd(p) && name != "" && p[0] != '~'
    ensures TokenMatches(cs, name, p) <==> WellEscaped(TokenOf(p)) && Fold(cs, name) == Fold(cs, Unescape(TokenOf(p)))
    decreases |p|, 0
  {
    hide Fold;
    var t := TokenOf(p[1..]);
    assert TokenOf(p)[1..] == t;
    TokenMatchesExact(cs, name[1..], p[1..]);
    var u := [p[0]] + Unescape(t);
    assert u[1..] == Unescape(t);
    FoldCons(cs, name, u);
  }

  lemma {:induction false} TildeExact(cs: bool, name: string, p: string)
    requires !AtTokenEnd(p) && name != "" && p[0] == '~'
    ensures TokenMatches(cs, name, p) <==> WellEscaped(TokenOf(p)) && Fold(cs, name) == Fold(cs, Unescape(TokenOf(p)))
    decreases |p|, 0
  {
    hide Fold;
    if |p| >= 2 && (p[1] == '0' || p[1] == '1') {
      var t, c := TokenOf(p[2..]), if p[1] == '0' then '~' else '/';
      TwoOfToken(p);
      assert TokenOf(p)[2..] == t;
      TokenMatchesExact(cs, name[1..], p[2..]);
      var u := [c] + Unescape(t);
      assert u[1..] == Unescape(t);
      FoldCons(cs, name, u);
      FoldSpecial(cs, name[0], c);
    } else {
      BadTilde(p);
    }
  }

  lemma TwoOfToken(p: string)
    requires |p| >= 2 && p[0] != '/' && p[1] != '/'
    ensures TokenOf(p) == [p[0], p[1]] + TokenOf(p[2..])
  {
    assert p[1..][1..] == p[2..];
  }

  lemma BadTilde(p: string)
    requires p != "" && p[0] == '~' && !(|p| >= 2 && (p[1] == '0' || p[1] == '1'))
    ensures !WellEscaped(TokenOf(p))
  {
    var t := TokenOf(p);
    if |p| >= 2 && p[1] != '/' { TwoOfToken(p); }
  }

  /** The array tokens that are accepted: the empty one, and those that begin with a digit, not
      with a zero in front of more, and go on with characters not below '0'. The loop tests
      only the first character against '9'. */
  lemma DecodeIndexExact(p: string)
    ensures var t := TokenOf(p);
            DecodeIndex(p).Some? <==>
              t == "" || ('0' <= t[0] <= '9' && (t[0] == '0' ==> |t| == 1) && NotBelowZero(t))
  {
    hide Digits;
    var t := TokenOf(p);
    DigitsExact(p, 0);
    if |p| >= 2 && p[0] != '/' && p[1] != '/' { TwoOfToken(p); }
    if p != "" && p[0] != '/' { assert t[0] == p[0]; }
  }

  predicate NotBelowZero(t: string)
  {
    forall i :: 0 <= i < |t| ==> t[i] >= '0'
  }

  lemma NotBelowFirst(c: char, t: string)
    ensures NotBelowZero([c] + t) <==> c >= '0' && NotBelowZero(t)
  {
    var s := [c] + t;
    assert s[0] == c && forall i :: 0 < i < |s| ==> s[i] == t[i-1];
    if NotBelowZero(s) {
      forall i | 0 <= i < |t| ensures t[i] >= '0' { assert s[i+1] == t[i]; }
    }
  }

  lemma {:induction false} DigitsExact(p: string, acc: nat)
    ensures AtTokenEnd(Digits(p, acc).1) <==> NotBelowZero(TokenOf(p))
    decreases |p|
  {
    hide NotBelowZero;
    if AtTokenEnd(p) {
      NothingBelow();
    } else {
      NotBelowFirst(p[0], TokenOf(p[1..]));
      if p[0] >= '0' { DigitsExact(p[1..], (10 * acc + (p[0] as int - '0' as int)) % SIZE_LIMIT); }
    }
  }

  lemma NothingBelow()
    ensures NotBelowZero("")
  {
  }
}
