/** Exactly when generated JSON patches give the wanted document: decoding a path's last token
    in place must not damage the key of any member that is added, removed or replaced. */
module JsonPatchExact {
  import opened CString
  import opened JsonValue
  import opened ListSort
  import opened JsonCompare
  import opened JsonPointer
  import opened JsonPatch
  import opened JsonDiff
  import opened JsonRoundTrip

  /** Generation replaces the whole value instead of going into it. */
  predicate ReplacedWhole(from: Json, to: Json)
  {
    !(from.Array? && to.Array?) && !(from.Object? && to.Object?) && from != to
  }

  predicate Missing(cs: bool, key: string, ms: seq<Member>)
  {
    Find(cs, ms, key) == |ms|
  }

  /** At every level both documents have, the key of each member removed, added or replaced
      survives. Keys of members that stay, or are changed further down only, do not matter. */
  predicate ChangesSurvive(cs: bool, from: Json, to: Json)
    decreases from
  {
    match (from, to)
    case (Array(xs), Array(ys)) =>
      forall i :: 0 <= i < |xs| && i < |ys| ==> ChangesSurvive(cs, xs[i], ys[i])
    case (Object(ms), Object(ns)) =>
      && (forall i :: 0 <= i < |ms| && Missing(cs, ms[i].key, ns) ==> Survives(ms[i].key))
      && (forall j :: 0 <= j < |ns| && Missing(cs, ns[j].key, ms) ==> Survives(ns[j].key))
      && (forall i, j :: 0 <= i < |ms| && 0 <= j < |ns| && Fold(cs, ms[i].key) == Fold(cs, ns[j].key) ==>
            if ReplacedWhole(ms[i].value, ns[j].value) then Survives(ms[i].key)
            else ChangesSurvive(cs, ms[i].value, ns[j].value))
    case _ => true
  }

  // ---------------------------------------------------------------- damaged keys only climb

  /** Encoding and decoding a damaged key raises the first character it changes. */
  function Rank(c: char): (r: nat)
    ensures r < 4
  {
    if c == '/' then 0 else if c == '0' then 2 else if c == '~' then 3 else 1
  }

  function Weight(k: string): nat
  {
    if k == "" then 0 else 4 * Weight(k[..|k|-1]) + Rank(k[|k|-1])
  }

  lemma {:induction false} WeightLower(k: string)
    ensures Weight(Lower(k)) == Weight(k)
  {
    if k != "" {
      WeightLower(k[..|k|-1]);
      assert Lower(k)[..|k|-1] == Lower(k[..|k|-1]);
    }
  }

  lemma {:induction false} WeightFirst(a: string, b: string, j: nat)
    requires |a| == |b| && j < |a| && a[..j] == b[..j] && Rank(a[j]) < Rank(b[j])
    ensures Weight(a) < Weight(b)
  {
    var n := |a| - 1;
    if j == n {
    } else {
      assert a[..n][..j] == a[..j] && b[..n][..j] == b[..j];
      WeightFirst(a[..n], b[..n], j);
    }
  }

  /** What decoding leaves, character by character. */
  lemma DecodedAt(k: string, i: nat)
    requires i < |k|
    ensures |DecodeToken(Encode(k))| == |k|
    ensures DecodeToken(Encode(k))[i] ==
              if k[i] == '~' then '~' else if i > 0 && k[i-1] == '/' then '/' else Encode(k)[i]
  {
    var enc := Encode(k);
    assert enc[0..] == enc;
    DecodeFromEffect(enc, 0, 0, k);
    assert DecodeToken(enc)[i] == LeftAt(enc, 0, k, i);
  }

  lemma DecodedLength(k: string)
    ensures |DecodeToken(Encode(k))| == |k|
  {
    var enc := Encode(k);
    assert enc[0..] == enc;
    DecodeFromEffect(enc, 0, 0, k);
  }

  lemma EncodePrefix(k: string, p: nat, i: nat)
    requires p <= |k| && i < p
    ensures Encode(k)[i] == Encode(k[..p])[i]
  {
    assert k == k[..p] + k[p..];
    EncodeConcat(k[..p], k[p..]);
  }

  lemma EncodeBefore(k: string, p: nat)
    requires p <= |k|
    ensures forall i :: 0 <= i < p ==> Encode(k)[i] == Encode(k[..p])[i]
  {
    forall i | 0 <= i < p ensures Encode(k)[i] == Encode(k[..p])[i] { EncodePrefix(k, p, i); }
  }

  /** Before the first '/', decoding only takes characters from the encoding. */
  lemma DecodedBefore(k: string, p: nat, j: nat)
    requires j <= p <= |k| && j < |k| && '/' !in k[..p]
    requires forall i :: 0 <= i < j ==> k[i] == '~' || k[i] == Encode(k)[i]
    ensures var r := DecodeToken(Encode(k));
            |r| == |k| && r[..j] == k[..j] && r[j] == if k[j] == '~' then '~' else Encode(k)[j]
  {
    hide DecodeToken, Encode;
    var r := DecodeToken(Encode(k));
    DecodedLength(k);
    forall i | 0 <= i <= j ensures r[i] == if k[i] == '~' then '~' else Encode(k)[i] {
      DecodedAt(k, i);
      assert i > 0 ==> k[..p][i-1] == k[i-1] && k[..p][i-1] in k[..p];
    }
  }

  /** The first character that decoding changes, in a stretch of the key without '/'. */
  lemma FirstChanged(k: string, p: nat, n: nat) returns (j: nat)
    requires n < p <= |k| && '/' !in k[..p] && k[n] != '~' && k[n] != Encode(k)[n]
    ensures j <= n && k[j] != '~' && k[j] != Encode(k)[j] && RunChar(Encode(k)[j])
    ensures forall i :: 0 <= i < j ==> k[i] == '~' || k[i] == Encode(k)[i]
  {
    hide Encode;
    var u := k[..p];
    EncodeBefore(k, p);
    j := FirstWrong(u, n);
    WrongChar(u, j);
    forall i | 0 <= i < j ensures k[i] == '~' || k[i] == Encode(k)[i] { assert u[i] == k[i]; }
  }

  lemma ChangedChar(k: string, p: nat, n: nat)
    requires n < p <= |k| && '/' !in k[..p] && k[n] != '~' && k[n] != Encode(k)[n]
    ensures Weight(DecodeToken(Encode(k))) > Weight(k)
  {
    hide Weight, DecodeToken, Encode;
    var j := FirstChanged(k, p, n);
    DecodedBefore(k, p, j);
    assert k[..p][j] == k[j] && k[..p][j] in k[..p];
    WeightFirst(k, DecodeToken(Encode(k)), j);
  }

  lemma Climbs(k: string)
    requires !Survives(k)
    ensures Weight(DecodeToken(Encode(k))) > Weight(k)
  {
    hide Weight, DecodeToken, Encode;
    var p := |k|;
    if '/' in k { p := FirstSlash(k); } else { assert k[..p] == k; }
    if n :| 0 <= n < p && k[n] != '~' && k[n] != Encode(k)[n] {
      ChangedChar(k, p, n);
    } else {
      assert p < |k|;
      DecodedBefore(k, p, p);
      assert Encode(k)[p] in Encode(k);
      WeightFirst(k, DecodeToken(Encode(k)), p);
    }
  }

  lemma {:induction false} EncodeLower(k: string)
    ensures Encode(Lower(k)) == Lower(Encode(k))
  {
    if k != "" {
      EncodeLower(k[1..]);
      assert Lower(k)[1..] == Lower(k[1..]);
      assert Lower(EncodeChar(k[0]) + Encode(k[1..])) == Lower(EncodeChar(k[0])) + Lower(Encode(k[1..]));
      assert Lower(EncodeChar(k[0])) == EncodeChar(ToLower(k[0]));
    }
  }

  /** Keys that differ in case only survive together. */
  lemma SurvivesLower(k: string)
    ensures Survives(k) <==> Survives(Lower(k))
  {
    var l, enc := Lower(k), Encode(k);
    EncodeLower(k);
    assert Encode(l) == Lower(enc);
    if '/' in k {
      var i :| 0 <= i < |k| && k[i] == '/';
      assert l[i] == '/' && l[i] in l;
    } else if Survives(k) {
      forall j | 0 <= j < |l| ensures l[j] == '~' || l[j] == Encode(l)[j] { }
    } else {
      var n :| 0 <= n < |k| && k[n] != '~' && k[n] != enc[n];
      var j := FirstWrong(k, n);
      WrongChar(k, j);
      assert l[j] == ToLower(k[j]) && Lower(enc)[j] == ToLower(enc[j]);
    }
  }

  /** A change of the member `key` does not get at members matching `k`, in either case. */
  predicate Apart(key: string, k: string)
  {
    Lower(DecodeToken(Encode(key))) != Lower(k)
  }

  /** Of the damaged keys, the lightest is not hit by the change of any other key. */
  lemma LightestIsApart(key: string, k: string)
    requires !Survives(k)
    requires Survives(key) || Weight(key) >= Weight(k)
    ensures Apart(key, k)
  {
    hide Weight, DecodeToken, Encode, Survives;
    var d := DecodeToken(Encode(key));
    WeightLower(d);
    WeightLower(k);
    if Survives(key) {
      DecodeTokenExact(key);
      SurvivesLower(key);
      SurvivesLower(k);
    } else {
      Climbs(key);
    }
  }

  // ---------------------------------------------------------------- edits that leave a member alone

  lemma LookupFirst(cs: bool, ts: seq<Member>, k: string)
    requires ts != []
    ensures Lookup(cs, Object(ts), k) ==
              if Fold(cs, ts[0].key) == Fold(cs, k) then Some(ts[0].value) else Lookup(cs, Object(ts[1..]), k)
  {
    hide Fold;
  }

  lemma {:induction false} LookupWithout(cs: bool, ts: seq<Member>, i: nat, k: string)
    requires i < |ts| && Fold(cs, ts[i].key) != Fold(cs, k)
    ensures Lookup(cs, Object(RemoveAt(ts, i)), k) == Lookup(cs, Object(ts), k)
  {
    hide Fold, Lookup;
    var us := RemoveAt(ts, i);
    LookupFirst(cs, ts, k);
    if i == 0 {
      assert us == ts[1..];
    } else {
      assert us[0] == ts[0] && us[1..] == RemoveAt(ts[1..], i - 1);
      LookupFirst(cs, us, k);
      LookupWithout(cs, ts[1..], i - 1, k);
    }
  }

  lemma {:induction false} LookupBefore(cs: bool, ts: seq<Member>, m: Member, k: string)
    requires Fold(cs, m.key) != Fold(cs, k)
    ensures Lookup(cs, Object(ts + [m]), k) == Lookup(cs, Object(ts), k)
  {
    hide Fold, Lookup;
    var us := ts + [m];
    LookupFirst(cs, us, k);
    if ts == [] {
      assert us[1..] == [];
    } else {
      assert us[0] == ts[0] && us[1..] == ts[1..] + [m];
      LookupFirst(cs, ts, k);
      LookupBefore(cs, ts[1..], m, k);
    }
  }

  lemma LookupChanged(cs: bool, ts: seq<Member>, i: nat, v: Json, k: string)
    requires i < |ts| && Fold(cs, ts[i].key) != Fold(cs, k)
    ensures Lookup(cs, Object(ts[i := Member(ts[i].key, v)]), k) == Lookup(cs, Object(ts), k)
  {
    var us := ts[i := Member(ts[i].key, v)];
    assert RemoveAt(us, i) == RemoveAt(ts, i);
    LookupWithout(cs, us, i, k);
    LookupWithout(cs, ts, i, k);
  }

  /** If all went well, the document is still an object, with the same member under `k`. */
  ghost predicate Spared(cs: bool, ts: seq<Member>, r: Outcome, k: string)
  {
    r.status == 0 ==> r.doc.Object? && Lookup(cs, r.doc, k) == Lookup(cs, Object(ts), k)
  }

  lemma DetachSpares(cs: bool, ts: seq<Member>, token: string, k: string)
    requires Lower(token) != Lower(k)
    ensures var d := DetachChild(Object(ts), token);
            d.Some? ==> d.value.1.Object? && Lookup(cs, d.value.1, k) == Lookup(cs, Object(ts), k)
  {
    var i := Find(false, ts, token);
    if i < |ts| {
      FoldIdempotent(cs, ts[i].key, k);
      LookupWithout(cs, ts, i, k);
    }
  }

  lemma AddSpares(cs: bool, ts: seq<Member>, token: string, v: Json, k: string)
    requires Lower(token) != Lower(k)
    ensures Spared(cs, ts, AddChild(cs, Object(ts), token, v), k)
  {
    hide Find;
    FoldIdempotent(cs, token, k);
    var i := Find(cs, ts, token);
    var rest := if i < |ts| then RemoveAt(ts, i) else ts;
    if i < |ts| { LookupWithout(cs, ts, i, k); }
    LookupBefore(cs, rest, Member(token, v), k);
  }

  /** Removing, adding or replacing a member under another key. */
  lemma EditSpares(cs: bool, ts: seq<Member>, e: Edit, key: string, k: string)
    requires e.path == "/" + Encode(key) && Apart(key, k)
    ensures Spared(cs, ts, ApplyEdit(cs, Object(ts), e), k)
  {
    hide DetachPath, AddPath, DetachChild, AddChild, Encode, DecodeToken, Lookup;
    var token := DecodeToken(Encode(key));
    TopDetach(cs, Object(ts), Encode(key));
    DetachSpares(cs, ts, token, k);
    var d := DetachChild(Object(ts), token);
    if e.Add? {
      TopAdd(cs, Object(ts), Encode(key), e.v);
      AddSpares(cs, ts, token, e.v, k);
    } else if e.Replace? && d.Some? {
      TopAdd(cs, d.value.1, Encode(key), e.v);
      AddSpares(cs, d.value.1.members, token, e.v, k);
    }
  }

  /** Edits below a member that is not there fail. */
  lemma NowhereBelow(cs: bool, ts: seq<Member>, key: string, e: Edit)
    requires Missing(cs, key, ts) && e.path != "" && e.path[0] == '/'
    ensures ApplyEdit(cs, Object(ts), Rebase("/" + Encode(key), e)).status != 0
  {
    hide Encode;
    var pre := "/" + Encode(key);
    SplitBelow(pre, e.path);
    var a := SplitLast(e.path).value.0;
    FindTokenIsFind(cs, ts, key, a);
    ResolveToken(cs, Object(ts), Encode(key), a);
  }

  /** Edits below another member. */
  lemma BelowSpares(cs: bool, ts: seq<Member>, key: string, es: seq<Edit>, k: string)
    requires AllBelow(es) && Fold(cs, key) != Fold(cs, k)
    ensures Spared(cs, ts, RunEdits(cs, Object(ts), RebaseAll("/" + Encode(key), es)), k)
  {
    hide Encode, Lookup, RunEdits, ApplyEdit;
    var i := Find(cs, ts, key);
    if i < |ts| {
      RunLocal(cs, Object(ts), i, key, es);
      LookupChanged(cs, ts, i, RunEdits(cs, ts[i].value, es).doc, k);
    } else if es != [] {
      NowhereBelow(cs, ts, key, es[0]);
      FailsAtOnce(cs, Object(ts), RebaseAll("/" + Encode(key), es));
    } else {
      NoEdits(cs, Object(ts), "/" + Encode(key));
    }
  }

  lemma NoEdits(cs: bool, t: Json, pre: string)
    ensures RebaseAll(pre, []) == [] && RunEdits(cs, t, []) == Outcome(0, t)
  {
  }

  lemma FailsAtOnce(cs: bool, t: Json, es: seq<Edit>)
    requires es != [] && ApplyEdit(cs, t, es[0]).status != 0
    ensures RunEdits(cs, t, es).status != 0
  {
  }

  /** Edits for two values: one replacement, or none but below. */
  lemma EditsKind(cs: bool, from: Json, to: Json)
    ensures ReplacedWhole(from, to) ==> CreateEdits(cs, "", from, to) == [Replace("", to)]
    ensures !ReplacedWhole(from, to) ==> AllBelow(CreateEdits(cs, "", from, to))
  {
    match (from, to)
    case (Array(xs), Array(ys)) => ArrayEditsBelow(cs, xs, ys, 0);
    case (Object(ms), Object(ns)) => ObjectEditsBelow(cs, SortedMembers(cs, ms), SortedMembers(cs, ns), from);
    case _ =>
  }

  /** What the walk over two member lists does leaves the member under `k` alone; if `own`,
      but for edits below that member itself. */
  ghost predicate Spares(cs: bool, ms: seq<Member>, ns: seq<Member>, k: string, own: bool)
  {
    && (forall m :: m in ms && Missing(cs, m.key, ns) ==> Apart(m.key, k))
    && (forall n :: n in ns && Missing(cs, n.key, ms) ==> Apart(n.key, k))
    && (forall m, n :: m in ms && n in ns && Fold(cs, m.key) == Fold(cs, n.key) ==>
          if ReplacedWhole(m.value, n.value) then Apart(m.key, k) else own || Fold(cs, m.key) != Fold(cs, k))
  }

  lemma MissingIs(cs: bool, key: string, ms: seq<Member>)
    ensures Missing(cs, key, ms) <==> forall m :: m in ms ==> Fold(cs, m.key) != Fold(cs, key)
    ensures Missing(cs, key, ms) <==> Fold(cs, key) !in View(cs, ms)
  {
    ViewFind(cs, ms, key);
    var i := Find(cs, ms, key);
    if i < |ms| { assert ms[i] in ms; }
  }

  /** The fronts of the two sorted lists, by how their keys compare. */
  function Diff(cs: bool, ms: seq<Member>, ns: seq<Member>): int
  {
    if ms == [] then 1 else if ns == [] then -1 else CompareStrings(cs, ms[0].key, ns[0].key)
  }

  lemma Fronts(cs: bool, ms: seq<Member>, ns: seq<Member>)
    requires StrictlyOrdered(KeyOf, cs, ms) && StrictlyOrdered(KeyOf, cs, ns) && (ms != [] || ns != [])
    ensures var d := Diff(cs, ms, ns);
            && (d <= 0 ==> ms != [] && StrictlyOrdered(KeyOf, cs, ms[1..]) && Missing(cs, ms[0].key, ms[1..]))
            && (d >= 0 ==> ns != [] && StrictlyOrdered(KeyOf, cs, ns[1..]) && Missing(cs, ns[0].key, ns[1..]))
            && (d < 0 ==> Missing(cs, ms[0].key, ns))
            && (d == 0 ==> Fold(cs, ms[0].key) == Fold(cs, ns[0].key))
            && (d > 0 ==> Missing(cs, ns[0].key, ms))
  {
    var d := Diff(cs, ms, ns);
    if d <= 0 {
      TailOrdered(cs, ms);
      MissingIs(cs, ms[0].key, ms[1..]);
    }
    if d >= 0 {
      TailOrdered(cs, ns);
      MissingIs(cs, ns[0].key, ns[1..]);
    }
    if d < 0 {
      FrontMissing(cs, Fold(cs, ms[0].key), ns);
      MissingIs(cs, ms[0].key, ns);
    } else if d == 0 {
      StrcmpZero(Fold(cs, ms[0].key), Fold(cs, ns[0].key));
    } else {
      if ms != [] { StrcmpSwap(Fold(cs, ms[0].key), Fold(cs, ns[0].key)); }
      FrontMissing(cs, Fold(cs, ns[0].key), ms);
      MissingIs(cs, ns[0].key, ms);
    }
  }

  /** A key is not found in the tail only because the front matched it, unless that is the
      key's own front. */
  lemma MissingTail(cs: bool, key: string, ns: seq<Member>)
    requires ns != [] && Missing(cs, key, ns[1..]) && Fold(cs, ns[0].key) != Fold(cs, key)
    ensures Missing(cs, key, ns)
  {
    hide Fold;
  }

  /** Taking the fronts off leaves no new key unmatched. */
  lemma MissingTails(cs: bool, ms: seq<Member>, ns: seq<Member>)
    requires StrictlyOrdered(KeyOf, cs, ms) && StrictlyOrdered(KeyOf, cs, ns) && (ms != [] || ns != [])
    ensures var d := Diff(cs, ms, ns);
            var ms', ns' := if d <= 0 then ms[1..] else ms, if d >= 0 then ns[1..] else ns;
            && (forall m :: m in ms' && Missing(cs, m.key, ns') ==> Missing(cs, m.key, ns))
            && (forall n :: n in ns' && Missing(cs, n.key, ms') ==> Missing(cs, n.key, ms))
  {
    hide Diff, StrictlyOrdered, Missing, Fold;
    Fronts(cs, ms, ns);
    var d := Diff(cs, ms, ns);
    var ms', ns' := if d <= 0 then ms[1..] else ms, if d >= 0 then ns[1..] else ns;
    forall m | m in ms' && Missing(cs, m.key, ns') ensures Missing(cs, m.key, ns) {
      if d >= 0 {
        MissingIs(cs, if d == 0 then ms[0].key else ns[0].key, ms');
        MissingTail(cs, m.key, ns);
      }
    }
    forall n | n in ns' && Missing(cs, n.key, ms') ensures Missing(cs, n.key, ms) {
      if d <= 0 {
        MissingIs(cs, if d == 0 then ns[0].key else ms[0].key, ns');
        MissingTail(cs, n.key, ms);
      }
    }
  }

  lemma SparesTail(cs: bool, ms: seq<Member>, ns: seq<Member>, k: string, own: bool)
    requires StrictlyOrdered(KeyOf, cs, ms) && StrictlyOrdered(KeyOf, cs, ns) && (ms != [] || ns != [])
    requires Spares(cs, ms, ns, k, own)
    ensures var d := Diff(cs, ms, ns);
            Spares(cs, if d <= 0 then ms[1..] else ms, if d >= 0 then ns[1..] else ns, k, own)
  {
    hide StrictlyOrdered, Missing, ReplacedWhole, Apart, Fold;
    MissingTails(cs, ms, ns);
  }

  /** The edits for the fronts of the two lists. */
  function FrontEdits(cs: bool, ms: seq<Member>, ns: seq<Member>): seq<Edit>
    requires ms != [] || ns != []
  {
    var d := Diff(cs, ms, ns);
    if d == 0 then CreateEdits(cs, "/" + Encode(ms[0].key), ms[0].value, ns[0].value)
    else if d < 0 then [Remove("/" + Encode(ms[0].key))]
    else [Add("/" + Encode(ns[0].key), ns[0].value)]
  }

  lemma EditsFromFront(cs: bool, ms: seq<Member>, ns: seq<Member>, whole: Json)
    requires whole.Object? && (forall m :: m in ms ==> m in whole.members) && (ms != [] || ns != [])
    ensures var d := Diff(cs, ms, ns);
            ObjectEdits(cs, "", ms, ns, whole) ==
              FrontEdits(cs, ms, ns) +
              ObjectEdits(cs, "", if d <= 0 then ms[1..] else ms, if d >= 0 then ns[1..] else ns, whole)
  {
    hide CreateEdits, Encode;
    if ms != [] { assert "" + "/" + Encode(ms[0].key) == "/" + Encode(ms[0].key); }
    if ns != [] { assert "" + "/" + Encode(ns[0].key) == "/" + Encode(ns[0].key); }
  }

  lemma OneRun(cs: bool, t: Json, e: Edit)
    ensures var r := ApplyEdit(cs, t, e); RunEdits(cs, t, [e]) == r
  {
    hide ApplyEdit;
    assert [e][1..] == [];
    var r := ApplyEdit(cs, t, e);
    assert RunEdits(cs, r.doc, []) == Outcome(0, r.doc);
  }

  lemma FrontSpares(cs: bool, ts: seq<Member>, ms: seq<Member>, ns: seq<Member>, k: string, own: bool)
    requires StrictlyOrdered(KeyOf, cs, ms) && StrictlyOrdered(KeyOf, cs, ns) && (ms != [] || ns != [])
    requires Spares(cs, ms, ns, k, own)
    requires own ==> !(Diff(cs, ms, ns) == 0 && Fold(cs, ms[0].key) == Fold(cs, k))
    ensures Spared(cs, ts, RunEdits(cs, Object(ts), FrontEdits(cs, ms, ns)), k)
  {
    hide StrictlyOrdered, Diff, Encode, CreateEdits, RunEdits, ApplyEdit, Spared, ReplacedWhole, Apart;
    Fronts(cs, ms, ns);
    var d := Diff(cs, ms, ns);
    if d == 0 {
      var key, v, w := ms[0].key, ms[0].value, ns[0].value;
      assert ms[0] in ms && ns[0] in ns;
      assert "" + "/" + Encode(key) == "/" + Encode(key);
      ChildEdits(cs, Encode(key), v, w);
      EditsKind(cs, v, w);
      if ReplacedWhole(v, w) {
        var e := Replace("/" + Encode(key), w);
        RebaseSelf("/" + Encode(key), w);
        OneRun(cs, Object(ts), e);
        EditSpares(cs, ts, e, key, k);
      } else {
        BelowSpares(cs, ts, key, CreateEdits(cs, "", v, w), k);
      }
    } else {
      var e := FrontEdits(cs, ms, ns)[0];
      OneRun(cs, Object(ts), e);
      EditSpares(cs, ts, e, if d < 0 then ms[0].key else ns[0].key, k);
    }
  }

  lemma SparedThen(cs: bool, ts: seq<Member>, first: seq<Edit>, later: seq<Edit>, k: string)
    requires var r := RunEdits(cs, Object(ts), first);
             && Spared(cs, ts, r, k)
             && (r.status == 0 ==> Spared(cs, r.doc.members, RunEdits(cs, r.doc, later), k))
    ensures Spared(cs, ts, RunEdits(cs, Object(ts), first + later), k)
  {
    hide Lookup;
    RunConcat(cs, Object(ts), first, later);
  }

  /** Walking lists that spare a member to their end leaves that member alone. */
  lemma {:induction false} WalkSpares(cs: bool, ts: seq<Member>, ms: seq<Member>, ns: seq<Member>, whole: Json, k: string)
    requires whole.Object? && forall m :: m in ms ==> m in whole.members
    requires StrictlyOrdered(KeyOf, cs, ms) && StrictlyOrdered(KeyOf, cs, ns) && Spares(cs, ms, ns, k, false)
    ensures Spared(cs, ts, RunEdits(cs, Object(ts), ObjectEdits(cs, "", ms, ns, whole)), k)
    decreases |ms| + |ns|
  {
    hide StrictlyOrdered, Diff, FrontEdits, RunEdits, Lookup, Spares;
    if ms == [] && ns == [] {
      NothingLeft(cs, Object(ts), whole);
    } else {
      var d := Diff(cs, ms, ns);
      Fronts(cs, ms, ns);
      var ms', ns' := if d <= 0 then ms[1..] else ms, if d >= 0 then ns[1..] else ns;
      EditsFromFront(cs, ms, ns, whole);
      FrontSpares(cs, ts, ms, ns, k, false);
      SparesTail(cs, ms, ns, k, false);
      var r := RunEdits(cs, Object(ts), FrontEdits(cs, ms, ns));
      if r.status == 0 { WalkSpares(cs, r.doc.members, ms', ns', whole, k); }
      SparedThen(cs, ts, FrontEdits(cs, ms, ns), ObjectEdits(cs, "", ms', ns', whole), k);
    }
  }

  lemma NothingLeft(cs: bool, t: Json, whole: Json)
    requires whole.Object?
    ensures ObjectEdits(cs, "", [], [], whole) == [] && RunEdits(cs, t, []) == Outcome(0, t)
  {
  }

  // ---------------------------------------------------------------- a damaged change is never made good

  ghost predicate Reached(cs: bool, r: Outcome, goal: Val)
  {
    r.status == 0 && Abs(cs, r.doc) == goal
  }

  lemma {:induction false} Breaks(cs: bool, from: Json, to: Json, t: Json)
    requires DistinctKeys(false, from) && DistinctKeys(false, to) && DistinctKeys(false, t)
    requires Indexable(from) && Abs(cs, t) == Abs(cs, from) && !ChangesSurvive(cs, from, to)
    ensures !Reached(cs, RunEdits(cs, t, CreateEdits(cs, "", from, to)), Abs(cs, to))
    decreases from, 1
  {
    hide *;
    NotReplaced(cs, from, to);
    BothKinds(cs, from, to, t);
    if from.Array? { ElementBreaks(cs, t, from, to); } else { ObjectBreaks(cs, t, from, to); }
  }

  lemma BothKinds(cs: bool, from: Json, to: Json, t: Json)
    requires !ChangesSurvive(cs, from, to) && Abs(cs, t) == Abs(cs, from)
    ensures (from.Array? && to.Array? && t.Array?) || (from.Object? && to.Object? && t.Object?)
  {
  }

  // ---------------------------------------------------------------- in an array

  lemma {:induction false} ElementBreaks(cs: bool, t: Json, from: Json, to: Json)
    requires from.Array? && to.Array? && t.Array?
    requires DistinctKeys(false, from) && DistinctKeys(false, to) && DistinctKeys(false, t)
    requires Indexable(from) && Abs(cs, t) == Abs(cs, from) && !ChangesSurvive(cs, from, to)
    ensures !Reached(cs, RunEdits(cs, t, CreateEdits(cs, "", from, to)), Abs(cs, to))
    decreases from, 0
  {
    hide *;
    var xs, ys := from.items, to.items;
    var i := FailingElement(cs, from, to);
    ArrayFacts(cs, t, from, to);
    assert [] + t.items == t.items;
    ArrayBreaks(cs, [], t.items, xs, ys, i);
    WrongArray(cs, RunEdits(cs, t, CreateEdits(cs, "", from, to)), to, i);
  }

  lemma FailingElement(cs: bool, from: Json, to: Json) returns (i: nat)
    requires from.Array? && to.Array? && !ChangesSurvive(cs, from, to)
    ensures i < |from.items| && i < |to.items| && !ChangesSurvive(cs, from.items[i], to.items[i])
  {
    i :| 0 <= i < |from.items| && i < |to.items| && !ChangesSurvive(cs, from.items[i], to.items[i]);
  }

  lemma ArrayFacts(cs: bool, t: Json, from: Json, to: Json)
    requires from.Array? && to.Array? && t.Array? && Abs(cs, t) == Abs(cs, from)
    requires DistinctKeys(false, from) && DistinctKeys(false, to) && DistinctKeys(false, t) && Indexable(from)
    ensures ArrayFit(cs, [], t.items, from.items, to.items)
    ensures CreateEdits(cs, "", from, to) == ArrayEdits(cs, "", from.items, to.items, 0)
    ensures Array(t.items) == t
  {
    hide ArrayEdits;
  }

  lemma WrongArray(cs: bool, r: Outcome, to: Json, i: nat)
    requires to.Array? && i < |to.items|
    requires r.status == 0 ==> r.doc.Array? && i < |r.doc.items| && Abs(cs, r.doc.items[i]) != Abs(cs, to.items[i])
    ensures !Reached(cs, r, Abs(cs, to))
  {
  }

  /** The edits for one element change that element alone. */
  lemma ElementRun(cs: bool, ts: seq<Json>, i: nat, from: Json, to: Json) returns (r: Outcome)
    requires i < |ts| && i < SIZE_LIMIT
    ensures RunEdits(cs, Array(ts), CreateEdits(cs, "/" + Decimal(i), from, to)) == Outcome(r.status, Array(ts[i := r.doc]))
    ensures !ReplacedWhole(from, to) ==> r == RunEdits(cs, ts[i], CreateEdits(cs, "", from, to))
  {
    hide CreateEdits, RunEdits, ApplyEdit, Decimal;
    var es := CreateEdits(cs, "", from, to);
    assert "" + "/" + Decimal(i) == "/" + Decimal(i);
    ChildEdits(cs, Decimal(i), from, to);
    EditsKind(cs, from, to);
    if ReplacedWhole(from, to) {
      RebaseSelf("/" + Decimal(i), to);
      OneRun(cs, Array(ts), Replace("/" + Decimal(i), to));
      ReplaceElement(cs, ts, i, to);
      r := Outcome(0, to);
    } else {
      RunLocal(cs, Array(ts), i, "", es);
      r := RunEdits(cs, ts[i], es);
    }
  }

  ghost predicate StartsWith(r: Outcome, done: seq<Json>)
  {
    r.status == 0 ==> r.doc.Array? && done <= r.doc.items
  }

  lemma ArrayFront(cs: bool, xs: seq<Json>, ys: seq<Json>, index: nat)
    requires xs != [] && ys != []
    ensures ArrayEdits(cs, "", xs, ys, index) ==
              CreateEdits(cs, "/" + Decimal(index), xs[0], ys[0]) + ArrayEdits(cs, "", xs[1..], ys[1..], index + 1)
  {
    hide CreateEdits, Decimal;
    assert "" + "/" + Decimal(index) == "/" + Decimal(index);
  }

  lemma ArrayRest(cs: bool, ts: seq<Json>, xs: seq<Json>, ys: seq<Json>, index: nat)
    requires (xs == [] || ys == []) && |ts| == index + |xs| && |ts| <= SIZE_LIMIT
    ensures StartsWith(RunEdits(cs, Array(ts), ArrayEdits(cs, "", xs, ys, index)), ts[..index])
    decreases |xs| + |ys|
  {
    hide ApplyEdit, Decimal, Encode, RemoveAt;
    var es := ArrayEdits(cs, "", xs, ys, index);
    if xs != [] {
      assert "" + "/" + Encode(Decimal(index)) == "/" + Encode(Decimal(index));
      assert es[1..] == ArrayEdits(cs, "", xs[1..], ys, index);
      RemoveElement(cs, ts, index);
      RemovedFrom(ts, index);
      ArrayRest(cs, RemoveAt(ts, index), xs[1..], ys, index);
    } else if ys != [] {
      AppendRest(cs, ts, ys, index, |ts|);
    }
  }

  lemma RemovedFrom<T>(s: seq<T>, i: nat)
    requires i < |s|
    ensures |RemoveAt(s, i)| == |s| - 1 && RemoveAt(s, i)[..i] == s[..i]
  {
  }

  /** Appending keeps whatever there was. */
  lemma AppendRest(cs: bool, ts: seq<Json>, ys: seq<Json>, index: nat, n: nat)
    requires n <= |ts|
    ensures StartsWith(RunEdits(cs, Array(ts), ArrayEdits(cs, "", [], ys, index)), ts[..n])
    decreases |ys|
  {
    hide ApplyEdit, Encode;
    if ys != [] {
      var es := ArrayEdits(cs, "", [], ys, index);
      assert "" + "/" + Encode("-") == "/" + Encode("-");
      assert es[1..] == ArrayEdits(cs, "", [], ys[1..], index + 1);
      AppendElement(cs, ts, ys[0]);
      AppendRest(cs, ts + [ys[0]], ys[1..], index + 1, n);
      assert (ts + [ys[0]])[..n] == ts[..n];
    }
  }

  lemma RunThen(cs: bool, t: Json, first: seq<Edit>, later: seq<Edit>, mid: Outcome)
    requires mid == RunEdits(cs, t, first)
    ensures RunEdits(cs, t, first + later) == if mid.status != 0 then mid else RunEdits(cs, mid.doc, later)
  {
    RunConcat(cs, t, first, later);
  }

  /** Later elements are changed without touching the earlier ones. */
  lemma {:induction false} ArrayKeeps(cs: bool, done: seq<Json>, rest: seq<Json>, xs: seq<Json>, ys: seq<Json>)
    requires |rest| == |xs| && |done| + |xs| <= SIZE_LIMIT
    ensures StartsWith(RunEdits(cs, Array(done + rest), ArrayEdits(cs, "", xs, ys, |done|)), done)
    decreases |xs|
  {
    hide CreateEdits, ArrayEdits, RunEdits, Decimal;
    var ts, i := done + rest, |done|;
    if xs != [] && ys != [] {
      var r := ElementRun(cs, ts, i, xs[0], ys[0]);
      ArrayFront(cs, xs, ys, i);
      RunThen(cs, Array(ts), CreateEdits(cs, "/" + Decimal(i), xs[0], ys[0]), ArrayEdits(cs, "", xs[1..], ys[1..], i + 1),
              Outcome(r.status, Array(ts[i := r.doc])));
      SplitUpdate(done, rest, r.doc);
      ArrayKeeps(cs, done + [r.doc], rest[1..], xs[1..], ys[1..]);
    } else if xs == [] {
      assert rest == [] && ts == done;
      assert ts[..i] == done;
      AppendOnly(cs, ts, ys, i);
    } else {
      assert ts[..i] == done;
      ArrayRest(cs, ts, xs, ys, i);
    }
  }

  lemma AppendOnly(cs: bool, ts: seq<Json>, ys: seq<Json>, index: nat)
    ensures StartsWith(RunEdits(cs, Array(ts), ArrayEdits(cs, "", [], ys, index)), ts)
  {
    AppendRest(cs, ts, ys, index, |ts|);
    assert ts[..|ts|] == ts;
  }

  ghost predicate ArrayFit(cs: bool, done: seq<Json>, rest: seq<Json>, xs: seq<Json>, ys: seq<Json>)
  {
    && AbsAll(cs, rest) == AbsAll(cs, xs) && |done| + |xs| <= SIZE_LIMIT
    && (forall i :: 0 <= i < |rest| ==> DistinctKeys(false, rest[i]))
    && (forall i :: 0 <= i < |xs| ==> DistinctKeys(false, xs[i]) && Indexable(xs[i]))
    && (forall i :: 0 <= i < |ys| ==> DistinctKeys(false, ys[i]))
  }

  lemma ArrayFitNext(cs: bool, done: seq<Json>, rest: seq<Json>, xs: seq<Json>, ys: seq<Json>, v: Json)
    requires ArrayFit(cs, done, rest, xs, ys) && xs != [] && ys != []
    ensures rest != [] && |rest| == |xs| && ArrayFit(cs, done + [v], rest[1..], xs[1..], ys[1..])
    ensures Abs(cs, rest[0]) == Abs(cs, xs[0]) && DistinctKeys(false, rest[0])
    ensures DistinctKeys(false, xs[0]) && Indexable(xs[0]) && DistinctKeys(false, ys[0])
  {
    hide DistinctKeys, Indexable, Abs;
    ReadyTail(cs, rest, xs);
  }

  /** An element that does not come out right stays wrong. */
  lemma {:induction false} ArrayBreaks(cs: bool, done: seq<Json>, rest: seq<Json>, xs: seq<Json>, ys: seq<Json>, n: nat)
    requires ArrayFit(cs, done, rest, xs, ys) && n < |xs| && n < |ys| && !ChangesSurvive(cs, xs[n], ys[n])
    ensures var r := RunEdits(cs, Array(done + rest), ArrayEdits(cs, "", xs, ys, |done|));
            r.status == 0 ==> r.doc.Array? && |done| + n < |r.doc.items|
                              && Abs(cs, r.doc.items[|done| + n]) != Abs(cs, ys[n])
    decreases xs, 0
  {
    hide CreateEdits, ArrayEdits, RunEdits, Decimal, Abs, DistinctKeys, Indexable, ArrayFit, AbsAll, ChangesSurvive, ReplacedWhole, Reached, StartsWith;
    var ts, i := done + rest, |done|;
    ArrayFitNext(cs, done, rest, xs, ys, xs[0]);
    FitSize(cs, done, rest, xs, ys);
    var r := ElementRun(cs, ts, i, xs[0], ys[0]);
    var more, tail := done + [r.doc], rest[1..];
    ArrayFitNext(cs, done, rest, xs, ys, r.doc);
    ArrayFront(cs, xs, ys, i);
    var first, later := CreateEdits(cs, "/" + Decimal(i), xs[0], ys[0]), ArrayEdits(cs, "", xs[1..], ys[1..], |more|);
    SplitUpdate(done, rest, r.doc);
    assert ts[i := r.doc] == more + tail;
    RunThen(cs, Array(ts), first, later, Outcome(r.status, Array(more + tail)));
    if r.status == 0 {
      if n == 0 {
        assert ts[i] == rest[0];
        NotReplaced(cs, xs[0], ys[0]);
        Breaks(cs, xs[0], ys[0], rest[0]);
        WrongElement(cs, r, Abs(cs, ys[0]));
        FitSize(cs, more, tail, xs[1..], ys[1..]);
        ArrayKeeps(cs, more, tail, xs[1..], ys[1..]);
        if RunEdits(cs, Array(more + tail), later).status == 0 { KeptAt(RunEdits(cs, Array(more + tail), later), done, r.doc); }
      } else {
        ArrayBreaks(cs, more, tail, xs[1..], ys[1..], n - 1);
      }
    }
  }

  lemma WrongElement(cs: bool, r: Outcome, goal: Val)
    requires !Reached(cs, r, goal) && r.status == 0
    ensures Abs(cs, r.doc) != goal
  {
  }

  lemma KeptAt(r: Outcome, done: seq<Json>, v: Json)
    requires StartsWith(r, done + [v]) && r.status == 0
    ensures r.doc.Array? && |done| < |r.doc.items| && r.doc.items[|done|] == v
  {
    assert r.doc.items[..|done| + 1][|done|] == v;
  }

  lemma FitSize(cs: bool, done: seq<Json>, rest: seq<Json>, xs: seq<Json>, ys: seq<Json>)
    requires ArrayFit(cs, done, rest, xs, ys)
    ensures |rest| == |xs| && |done| + |xs| <= SIZE_LIMIT
  {
  }

  lemma NotReplaced(cs: bool, from: Json, to: Json)
    requires !ChangesSurvive(cs, from, to)
    ensures !ReplacedWhole(from, to)
  {
  }

  // ---------------------------------------------------------------- in an object

  lemma LookupView(cs: bool, ts: seq<Member>, k: string)
    ensures Lookup(cs, Object(ts), k).Some? <==> Fold(cs, k) in View(cs, ts)
    ensures Lookup(cs, Object(ts), k).Some? ==> View(cs, ts)[Fold(cs, k)] == Abs(cs, Lookup(cs, Object(ts), k).value)
    ensures Lookup(cs, Object(ts), k).Some? ==> exists m :: m in ts && m.value == Lookup(cs, Object(ts), k).value
  {
    hide View, Abs, Fold;
    ViewFind(cs, ts, k);
    var i := Find(cs, ts, k);
    if i < |ts| { assert ts[i] in ts; }
  }

  /** The value under `k` does not come out as it should. */
  ghost predicate Wrong(cs: bool, r: Outcome, k: string, goal: Val)
  {
    r.status == 0 ==>
      && r.doc.Object? && Lookup(cs, r.doc, k).Some?
      && Abs(cs, Lookup(cs, r.doc, k).value) != goal
  }

  /** The edits below one member, when the member's own changes do not all survive. */
  lemma {:induction false} OwnFront(cs: bool, ts: seq<Member>, m: Member, n: Member)
    requires Lookup(cs, Object(ts), m.key).Some? && DistinctKeys(false, Lookup(cs, Object(ts), m.key).value)
    requires Abs(cs, Lookup(cs, Object(ts), m.key).value) == Abs(cs, m.value)
    requires DistinctKeys(false, m.value) && DistinctKeys(false, n.value) && Indexable(m.value)
    requires !ChangesSurvive(cs, m.value, n.value)
    ensures Wrong(cs, RunEdits(cs, Object(ts), CreateEdits(cs, "/" + Encode(m.key), m.value, n.value)), m.key, Abs(cs, n.value))
    decreases m.value, 2
  {
    hide CreateEdits, RunEdits, ChangesSurvive, DistinctKeys, Abs, Encode, Indexable, ReplacedWhole, View;
    var k, i := m.key, Find(cs, ts, m.key);
    var es := CreateEdits(cs, "", m.value, n.value);
    assert "" + "/" + Encode(k) == "/" + Encode(k);
    ChildEdits(cs, Encode(k), m.value, n.value);
    EditsKind(cs, m.value, n.value);
    NotReplaced(cs, m.value, n.value);
    Breaks(cs, m.value, n.value, ts[i].value);
    RunLocal(cs, Object(ts), i, k, es);
    SelectsKept(cs, Object(ts), i, k, RunEdits(cs, ts[i].value, es).doc);
  }

  lemma OnceOnly(cs: bool, ms: seq<Member>, ns: seq<Member>, k: string)
    requires Spares(cs, ms, ns, k, true) && Missing(cs, k, ms)
    ensures Spares(cs, ms, ns, k, false)
  {
    hide Missing, ReplacedWhole, Apart, Fold;
    MissingIs(cs, k, ms);
  }

  lemma WrongThen(cs: bool, ts: seq<Member>, first: seq<Edit>, later: seq<Edit>, k: string, goal: Val)
    requires var r := RunEdits(cs, Object(ts), first);
             r.status == 0 ==> r.doc.Object? && Wrong(cs, RunEdits(cs, r.doc, later), k, goal)
    ensures Wrong(cs, RunEdits(cs, Object(ts), first + later), k, goal)
  {
    hide Lookup;
    RunConcat(cs, Object(ts), first, later);
  }

  lemma WrongStays(cs: bool, ts: seq<Member>, r: Outcome, k: string, goal: Val)
    requires Lookup(cs, Object(ts), k).Some? && Abs(cs, Lookup(cs, Object(ts), k).value) != goal && Spared(cs, ts, r, k)
    ensures Wrong(cs, r, k, goal)
  {
    hide Lookup;
  }

  lemma {:induction false} OwnBreaks(cs: bool, ts: seq<Member>, ms: seq<Member>, ns: seq<Member>, whole: Json, m: Member, n: Member)
    requires whole.Object? && forall m :: m in ms ==> m in whole.members
    requires StrictlyOrdered(KeyOf, cs, ms) && StrictlyOrdered(KeyOf, cs, ns) && Spares(cs, ms, ns, m.key, true)
    requires m in ms && n in ns && Fold(cs, m.key) == Fold(cs, n.key)
    requires Lookup(cs, Object(ts), m.key).Some? && DistinctKeys(false, Lookup(cs, Object(ts), m.key).value)
    requires Abs(cs, Lookup(cs, Object(ts), m.key).value) == Abs(cs, m.value)
    requires DistinctKeys(false, m.value) && DistinctKeys(false, n.value) && Indexable(m.value)
    requires !ChangesSurvive(cs, m.value, n.value)
    ensures Wrong(cs, RunEdits(cs, Object(ts), ObjectEdits(cs, "", ms, ns, whole)), m.key, Abs(cs, n.value))
    decreases whole, 0, |ms| + |ns|
  {
    hide StrictlyOrdered, Diff, RunEdits, Lookup, Spares, ChangesSurvive, DistinctKeys, Indexable, Abs, Missing, Fold, ObjectEdits, CreateEdits, Wrong;
    var k, d := m.key, Diff(cs, ms, ns);
    Fronts(cs, ms, ns);
    var ms', ns' := if d <= 0 then ms[1..] else ms, if d >= 0 then ns[1..] else ns;
    EditsFromFront(cs, ms, ns, whole);
    SparesTail(cs, ms, ns, k, true);
    var first, later := FrontEdits(cs, ms, ns), ObjectEdits(cs, "", ms', ns', whole);
    var r := RunEdits(cs, Object(ts), first);
    if d == 0 && Fold(cs, ms[0].key) == Fold(cs, k) {
      FrontIs(cs, ms, m);
      FrontIs(cs, ns, n);
      MemberIsSmaller(whole, m);
      OwnFront(cs, ts, m, n);
      OnceOnly(cs, ms', ns', k);
      if r.status == 0 {
        WrongNow(cs, r, k, Abs(cs, n.value));
        WalkSpares(cs, r.doc.members, ms', ns', whole, k);
        WrongStays(cs, r.doc.members, RunEdits(cs, r.doc, later), k, Abs(cs, n.value));
      }
    } else {
      StillThere(cs, ms, ns, m, n);
      FrontSpares(cs, ts, ms, ns, k, true);
      if r.status == 0 { OwnBreaks(cs, r.doc.members, ms', ns', whole, m, n); }
    }
    WrongThen(cs, ts, first, later, k, Abs(cs, n.value));
  }

  lemma WrongNow(cs: bool, r: Outcome, k: string, goal: Val)
    requires Wrong(cs, r, k, goal) && r.status == 0
    ensures r.doc.Object? && Lookup(cs, r.doc, k).Some? && Abs(cs, Lookup(cs, r.doc, k).value) != goal
  {
  }

  lemma FrontIs(cs: bool, ms: seq<Member>, m: Member)
    requires m in ms && Fold(cs, ms[0].key) == Fold(cs, m.key) && Missing(cs, ms[0].key, ms[1..])
    ensures ms[0] == m
  {
    hide Fold;
    MissingIs(cs, ms[0].key, ms[1..]);
  }

  lemma StillThere(cs: bool, ms: seq<Member>, ns: seq<Member>, m: Member, n: Member)
    requires StrictlyOrdered(KeyOf, cs, ms) && StrictlyOrdered(KeyOf, cs, ns)
    requires m in ms && n in ns && Fold(cs, m.key) == Fold(cs, n.key)
    requires !(Diff(cs, ms, ns) == 0 && Fold(cs, ms[0].key) == Fold(cs, m.key))
    ensures var d := Diff(cs, ms, ns);
            m in (if d <= 0 then ms[1..] else ms) && n in (if d >= 0 then ns[1..] else ns)
  {
    hide StrictlyOrdered, Diff, Missing, Fold;
    Fronts(cs, ms, ns);
    var d := Diff(cs, ms, ns);
    if d < 0 { MissingIs(cs, ms[0].key, ns); }
    if d > 0 { MissingIs(cs, ns[0].key, ms); }
  }

  // ---------------------------------------------------------------- which member goes wrong

  /** The keys of the members removed, added and replaced. */
  ghost function TouchedKeys(cs: bool, ms: seq<Member>, ns: seq<Member>): set<string>
  {
    (set m | m in ms && Missing(cs, m.key, ns) :: m.key)
    + (set n | n in ns && Missing(cs, n.key, ms) :: n.key)
    + (set m, n | m in ms && n in ns && Fold(cs, m.key) == Fold(cs, n.key) && ReplacedWhole(m.value, n.value) :: m.key)
  }

  ghost predicate Alike(cs: bool, ms: seq<Member>, ns: seq<Member>)
  {
    Distinct(false, ms) && Distinct(false, ns) && Distinct(cs, ms) && Distinct(cs, ns)
  }

  lemma OneWithKey(cs: bool, ms: seq<Member>, a: Member, b: Member)
    requires Distinct(cs, ms) && a in ms && b in ms && Fold(cs, a.key) == Fold(cs, b.key)
    ensures a == b
  {
    hide Fold;
    var i :| 0 <= i < |ms| && ms[i] == a;
    var j :| 0 <= j < |ms| && ms[j] == b;
  }

  lemma {:induction false} Lightest(ks: set<string>) returns (k: string)
    requires ks != {}
    ensures k in ks && forall l :: l in ks ==> Weight(k) <= Weight(l)
  {
    hide Weight;
    k :| k in ks;
    if ks != {k} {
      var l := Lightest(ks - {k});
      if Weight(l) < Weight(k) { k := l; }
    }
  }

  /** The lightest damaged key among the touched ones is spared by the whole walk. */
  lemma LightestSpared(cs: bool, ms: seq<Member>, ns: seq<Member>, k: string)
    requires Alike(cs, ms, ns) && k in TouchedKeys(cs, ms, ns) && !Survives(k)
    requires forall l :: l in TouchedKeys(cs, ms, ns) && !Survives(l) ==> Weight(k) <= Weight(l)
    ensures Spares(cs, ms, ns, k, false)
  {
    hide Survives, Weight, Apart, Fold, Missing, ReplacedWhole;
    forall l | l in TouchedKeys(cs, ms, ns) ensures Apart(l, k) { LightestIsApart(l, k); }
    forall m, n | m in ms && n in ns && Fold(cs, m.key) == Fold(cs, n.key) && !ReplacedWhole(m.value, n.value)
      ensures Fold(cs, m.key) != Fold(cs, k)
    {
      if Fold(cs, m.key) == Fold(cs, k) { NotTouched(cs, ms, ns, m, n, k); }
    }
  }

  lemma NotTouched(cs: bool, ms: seq<Member>, ns: seq<Member>, m: Member, n: Member, k: string)
    requires Alike(cs, ms, ns) && m in ms && n in ns && Fold(cs, m.key) == Fold(cs, n.key) == Fold(cs, k)
    requires !ReplacedWhole(m.value, n.value)
    ensures k !in TouchedKeys(cs, ms, ns)
  {
    hide Fold, Missing, ReplacedWhole;
    MissingIs(cs, k, ms);
    MissingIs(cs, k, ns);
    forall a, b | a in ms && b in ns && a.key == k && Fold(cs, a.key) == Fold(cs, b.key) ensures a == m && b == n {
      OneWithKey(cs, ms, a, m);
      OneWithKey(cs, ns, b, n);
    }
  }

  /** If all touched keys survive, none of the changes gets at a member changed further down. */
  lemma OthersSpare(cs: bool, ms: seq<Member>, ns: seq<Member>, m: Member, n: Member)
    requires Alike(cs, ms, ns) && m in ms && n in ns && Fold(cs, m.key) == Fold(cs, n.key)
    requires !ReplacedWhole(m.value, n.value) && forall l :: l in TouchedKeys(cs, ms, ns) ==> Survives(l)
    ensures Spares(cs, ms, ns, m.key, true)
  {
    hide Survives, Missing, ReplacedWhole, Fold;
    forall l | l in TouchedKeys(cs, ms, ns) ensures Apart(l, m.key) {
      DecodeTokenExact(l);
      if Lower(l) == Lower(m.key) {
        SameCaseKey(cs, ms, ns, m, n, l);
        NotTouched(cs, ms, ns, m, n, l);
      }
    }
  }

  lemma SameCaseKey(cs: bool, ms: seq<Member>, ns: seq<Member>, m: Member, n: Member, l: string)
    requires Alike(cs, ms, ns) && m in ms && n in ns && Fold(cs, m.key) == Fold(cs, n.key)
    requires l in TouchedKeys(cs, ms, ns) && Lower(l) == Lower(m.key)
    ensures Fold(cs, l) == Fold(cs, m.key)
  {
    hide Survives, Missing, ReplacedWhole;
    FoldIdempotent(cs, m.key, n.key);
    if a :| a in ms && a.key == l { OneWithKey(false, ms, a, m); }
    else { var b :| b in ns && b.key == l; OneWithKey(false, ns, b, n); }
  }

  /** Under a touched key the two objects differ. */
  lemma TouchedDiffers(cs: bool, ms: seq<Member>, ns: seq<Member>, k: string)
    requires Distinct(cs, ms) && Distinct(cs, ns) && k in TouchedKeys(cs, ms, ns)
    ensures var f := Fold(cs, k);
            !(f in View(cs, ms) <==> f in View(cs, ns)) || (f in View(cs, ms) && View(cs, ms)[f] != View(cs, ns)[f])
  {
    hide View, Fold, Abs, ReplacedWhole;
    MissingIs(cs, k, ms);
    MissingIs(cs, k, ns);
    if !Missing(cs, k, ms) && !Missing(cs, k, ns) {
      var m, n :| m in ms && n in ns && Fold(cs, m.key) == Fold(cs, n.key) && ReplacedWhole(m.value, n.value) && m.key == k;
      ViewMember(cs, ms, m);
      ViewMember(cs, ns, n);
      ReplacedDiffers(cs, m.value, n.value);
    }
  }

  lemma ViewMember(cs: bool, ms: seq<Member>, m: Member)
    requires Distinct(cs, ms) && m in ms
    ensures Fold(cs, m.key) in View(cs, ms) && View(cs, ms)[Fold(cs, m.key)] == Abs(cs, m.value)
  {
    var i :| 0 <= i < |ms| && ms[i] == m;
    ViewAt(cs, ms, i);
  }

  lemma ReplacedDiffers(cs: bool, from: Json, to: Json)
    requires ReplacedWhole(from, to)
    ensures Abs(cs, from) != Abs(cs, to)
  {
  }

  lemma {:induction false} ObjectBreaks(cs: bool, t: Json, from: Json, to: Json)
    requires from.Object? && to.Object? && t.Object?
    requires DistinctKeys(false, from) && DistinctKeys(false, to) && DistinctKeys(false, t)
    requires Indexable(from) && Abs(cs, t) == Abs(cs, from) && !ChangesSurvive(cs, from, to)
    ensures !Reached(cs, RunEdits(cs, t, CreateEdits(cs, "", from, to)), Abs(cs, to))
    decreases from, 0
  {
    hide CreateEdits, ObjectEdits, SortedMembers, RunEdits, View, StrictlyOrdered, ChangesSurvive, Abs, TouchedKeys, Survives, Indexable, Weight;
    var ms, ns := SortedMembers(cs, from.members), SortedMembers(cs, to.members);
    ObjectFacts(cs, t, from, to);
    SortedBoth(cs, from.members);
    SortedBoth(cs, to.members);
    SortedAlike(cs, ms, ns);
    var touched := TouchedKeys(cs, ms, ns);
    var damaged := set k | k in touched && !Survives(k);
    var r := RunEdits(cs, t, ObjectEdits(cs, "", ms, ns, from));
    if damaged != {} {
      var k := Lightest(damaged);
      LightestSpared(cs, ms, ns, k);
      WalkSpares(cs, t.members, ms, ns, from, k);
      TouchedDiffers(cs, ms, ns, k);
      if r.status == 0 {
        LookupView(cs, t.members, k);
        LookupView(cs, r.doc.members, k);
        ObjectView(cs, r.doc);
      }
    } else {
      forall k | k in touched ensures Survives(k) {
        assert !Survives(k) ==> k in damaged;
      }
      var m, n := ChangedBelow(cs, from, to, ms, ns);
      OwnMember(cs, t, from, m);
      MemberFacts(to, n);
      OthersSpare(cs, ms, ns, m, n);
      NotReplaced(cs, m.value, n.value);
      OwnBreaks(cs, t.members, ms, ns, from, m, n);
      WrongIsNot(cs, r, to, m.key, n);
    }
  }

  lemma SortedAlike(cs: bool, ms: seq<Member>, ns: seq<Member>)
    requires Distinct(false, ms) && Distinct(false, ns)
    ensures Alike(cs, ms, ns)
  {
  }

  lemma ObjectView(cs: bool, j: Json)
    requires j.Object?
    ensures Abs(cs, j) == VObject(View(cs, j.members))
  {
  }

  lemma MemberFacts(j: Json, m: Member)
    requires j.Object? && m in j.members && DistinctKeys(false, j)
    ensures DistinctKeys(false, m.value) && (Indexable(j) ==> Indexable(m.value))
  {
    var i :| 0 <= i < |j.members| && j.members[i] == m;
  }

  /** A document equal to `from` has the value of each member of `from`. */
  lemma OwnMember(cs: bool, t: Json, from: Json, m: Member)
    requires t.Object? && from.Object? && m in from.members && Abs(cs, t) == Abs(cs, from)
    requires DistinctKeys(false, t) && DistinctKeys(false, from) && Indexable(from)
    ensures var v := Lookup(cs, t, m.key); v.Some? && DistinctKeys(false, v.value) && Abs(cs, v.value) == Abs(cs, m.value)
    ensures DistinctKeys(false, m.value) && Indexable(m.value)
  {
    hide View, Lookup, Abs, Indexable;
    MemberFacts(from, m);
    ObjectView(cs, t);
    ObjectView(cs, from);
    SortedAlike(cs, from.members, from.members);
    ViewMember(cs, from.members, m);
    LookupView(cs, t.members, m.key);
    var n :| n in t.members && n.value == Lookup(cs, t, m.key).value;
    MemberFacts(t, n);
  }

  lemma WrongIsNot(cs: bool, r: Outcome, to: Json, k: string, n: Member)
    requires Wrong(cs, r, k, Abs(cs, n.value)) && to.Object? && n in to.members
    requires Fold(cs, n.key) == Fold(cs, k) && Distinct(cs, to.members)
    ensures !Reached(cs, r, Abs(cs, to))
  {
    hide View, Lookup, Abs, Fold;
    if Reached(cs, r, Abs(cs, to)) {
      ObjectView(cs, to);
      ObjectView(cs, r.doc);
      ViewMember(cs, to.members, n);
      LookupView(cs, r.doc.members, k);
    }
  }

  // ---------------------------------------------------------------- the condition, on sorted members

  ghost predicate Safe(cs: bool, ms: seq<Member>, ns: seq<Member>)
  {
    && (forall m :: m in ms && Missing(cs, m.key, ns) ==> Survives(m.key))
    && (forall n :: n in ns && Missing(cs, n.key, ms) ==> Survives(n.key))
    && (forall m, n :: m in ms && n in ns && Fold(cs, m.key) == Fold(cs, n.key) ==>
          if ReplacedWhole(m.value, n.value) then Survives(m.key) else ChangesSurvive(cs, m.value, n.value))
  }

  lemma SafeIs(cs: bool, from: Json, to: Json)
    requires from.Object? && to.Object?
    ensures ChangesSurvive(cs, from, to) <==> Safe(cs, from.members, to.members)
  {
    hide Survives, Missing, ReplacedWhole, Fold;
    var ms, ns := from.members, to.members;
    if ChangesSurvive(cs, from, to) {
      forall m | m in ms && Missing(cs, m.key, ns) ensures Survives(m.key) {
        var i :| 0 <= i < |ms| && ms[i] == m;
      }
      forall n | n in ns && Missing(cs, n.key, ms) ensures Survives(n.key) {
        var j :| 0 <= j < |ns| && ns[j] == n;
      }
      forall m, n | m in ms && n in ns && Fold(cs, m.key) == Fold(cs, n.key)
        ensures if ReplacedWhole(m.value, n.value) then Survives(m.key) else ChangesSurvive(cs, m.value, n.value)
      {
        var i :| 0 <= i < |ms| && ms[i] == m;
        var j :| 0 <= j < |ns| && ns[j] == n;
      }
    }
    if Safe(cs, ms, ns) { SafeSurvives(cs, ms, ns); }
  }

  lemma SafeSurvives(cs: bool, ms: seq<Member>, ns: seq<Member>)
    requires Safe(cs, ms, ns)
    ensures ChangesSurvive(cs, Object(ms), Object(ns))
  {
    hide Survives, Missing, ReplacedWhole, Fold;
  }

  lemma SafeSorted(cs: bool, ms: seq<Member>, ns: seq<Member>)
    ensures Safe(cs, ms, ns) <==> Safe(cs, SortedMembers(cs, ms), SortedMembers(cs, ns))
  {
    hide Survives, Missing, ReplacedWhole, Fold, ChangesSurvive;
    var ms', ns' := SortedMembers(cs, ms), SortedMembers(cs, ns);
    forall k ensures (Missing(cs, k, ms) <==> Missing(cs, k, ms')) && (Missing(cs, k, ns) <==> Missing(cs, k, ns')) {
      MissingIs(cs, k, ms);
      MissingIs(cs, k, ms');
      MissingIs(cs, k, ns);
      MissingIs(cs, k, ns');
    }
  }

  /** Where all touched keys survive and still not everything does, a member both objects
      have goes wrong further down. */
  lemma ChangedBelow(cs: bool, from: Json, to: Json, ms: seq<Member>, ns: seq<Member>) returns (m: Member, n: Member)
    requires from.Object? && to.Object? && !ChangesSurvive(cs, from, to)
    requires ms == SortedMembers(cs, from.members) && ns == SortedMembers(cs, to.members)
    requires forall k :: k in TouchedKeys(cs, ms, ns) ==> Survives(k)
    ensures m in ms && n in ns && Fold(cs, m.key) == Fold(cs, n.key)
    ensures !ReplacedWhole(m.value, n.value) && !ChangesSurvive(cs, m.value, n.value)
  {
    hide Survives, Missing, ReplacedWhole, Fold, ChangesSurvive, SortedMembers;
    SafeIs(cs, from, to);
    SafeSorted(cs, from.members, to.members);
    assert forall m :: m in ms && Missing(cs, m.key, ns) ==> m.key in TouchedKeys(cs, ms, ns);
    assert forall n :: n in ns && Missing(cs, n.key, ms) ==> n.key in TouchedKeys(cs, ms, ns);
    m, n :| m in ms && n in ns && Fold(cs, m.key) == Fold(cs, n.key)
            && !(if ReplacedWhole(m.value, n.value) then Survives(m.key) else ChangesSurvive(cs, m.value, n.value));
    assert ReplacedWhole(m.value, n.value) ==> m.key in TouchedKeys(cs, ms, ns);
  }

  // ---------------------------------------------------------------- where nothing is damaged, every path is right

  lemma {:induction false} SafeEdits(cs: bool, path: string, from: Json, to: Json)
    requires DistinctKeys(false, from) && DistinctKeys(false, to)
    requires ChangesSurvive(cs, from, to) && (ReplacedWhole(from, to) ==> LastTokenOk(path))
    ensures TokensOk(CreateEdits(cs, path, from, to))
    decreases from, 1
  {
    hide ArrayEdits, ObjectEdits, SortedMembers, LastTokenOk, Survives;
    match (from, to)
    case (Array(xs), Array(ys)) => SafeArray(cs, path, xs, ys, 0);
    case (Object(ms), Object(ns)) =>
      SortedBoth(cs, ms);
      SortedBoth(cs, ns);
      SafeIs(cs, from, to);
      SafeSorted(cs, ms, ns);
      forall n | n in SortedMembers(cs, ns) ensures DistinctKeys(false, n.value) { MemberFacts(to, n); }
      SafeObject(cs, path, SortedMembers(cs, ms), SortedMembers(cs, ns), from);
    case _ =>
  }

  lemma {:induction false} SafeArray(cs: bool, path: string, xs: seq<Json>, ys: seq<Json>, index: nat)
    requires forall i :: 0 <= i < |xs| ==> DistinctKeys(false, xs[i])
    requires forall i :: 0 <= i < |ys| ==> DistinctKeys(false, ys[i])
    requires forall i :: 0 <= i < |xs| && i < |ys| ==> ChangesSurvive(cs, xs[i], ys[i])
    ensures TokensOk(ArrayEdits(cs, path, xs, ys, index))
    decreases xs, 0, |ys|
  {
    hide LastTokenOk, Decimal, Encode, CreateEdits, DistinctKeys, ChangesSurvive;
    IndexToken(path, index);
    if xs != [] && ys != [] {
      SafeEdits(cs, path + "/" + Decimal(index), xs[0], ys[0]);
      SafeArray(cs, path, xs[1..], ys[1..], index + 1);
    } else if xs != [] {
      SafeArray(cs, path, xs[1..], ys, index);
    } else if ys != [] {
      SafeArray(cs, path, xs, ys[1..], index + 1);
    }
  }

  lemma SafeTail(cs: bool, ms: seq<Member>, ns: seq<Member>)
    requires StrictlyOrdered(KeyOf, cs, ms) && StrictlyOrdered(KeyOf, cs, ns) && (ms != [] || ns != []) && Safe(cs, ms, ns)
    ensures var d := Diff(cs, ms, ns);
            Safe(cs, if d <= 0 then ms[1..] else ms, if d >= 0 then ns[1..] else ns)
  {
    hide StrictlyOrdered, Missing, ReplacedWhole, Survives, Fold;
    MissingTails(cs, ms, ns);
  }

  /** What is known of the fronts of two safe lists. */
  lemma SafeFront(cs: bool, ms: seq<Member>, ns: seq<Member>)
    requires StrictlyOrdered(KeyOf, cs, ms) && StrictlyOrdered(KeyOf, cs, ns) && (ms != [] || ns != []) && Safe(cs, ms, ns)
    ensures var d := Diff(cs, ms, ns);
            && (d < 0 ==> Survives(ms[0].key)) && (d > 0 ==> Survives(ns[0].key))
            && (d == 0 ==> ChangesSurvive(cs, ms[0].value, ns[0].value)
                           && (ReplacedWhole(ms[0].value, ns[0].value) ==> Survives(ms[0].key)))
  {
    hide Diff, StrictlyOrdered, Missing, ReplacedWhole, Survives, Fold, ChangesSurvive;
    Fronts(cs, ms, ns);
    if Diff(cs, ms, ns) == 0 {
      assert ms[0] in ms && ns[0] in ns;
      if ReplacedWhole(ms[0].value, ns[0].value) { NotWalked(cs, ms[0].value, ns[0].value); }
    }
  }

  lemma {:induction false} SafeObject(cs: bool, path: string, ms: seq<Member>, ns: seq<Member>, whole: Json)
    requires whole.Object? && DistinctKeys(false, whole) && forall m :: m in ms ==> m in whole.members
    requires forall n :: n in ns ==> DistinctKeys(false, n.value)
    requires StrictlyOrdered(KeyOf, cs, ms) && StrictlyOrdered(KeyOf, cs, ns) && Safe(cs, ms, ns)
    ensures TokensOk(ObjectEdits(cs, path, ms, ns, whole))
    decreases whole, 0, |ms| + |ns|
  {
    hide LastTokenOk, Encode, CreateEdits, DistinctKeys, ChangesSurvive, StrictlyOrdered, ReplacedWhole, Fold, Survives, Missing, Safe;
    if ms != [] || ns != [] {
      var d := Diff(cs, ms, ns);
      Fronts(cs, ms, ns);
      SafeFront(cs, ms, ns);
      SafeTail(cs, ms, ns);
      if d == 0 {
        SafeObject(cs, path, ms[1..], ns[1..], whole);
        MemberIsSmaller(whole, ms[0]);
        if ReplacedWhole(ms[0].value, ns[0].value) { SurvivingToken(path, ms[0].key); }
        SafeEdits(cs, path + "/" + Encode(ms[0].key), ms[0].value, ns[0].value);
      } else if d < 0 {
        SafeObject(cs, path, ms[1..], ns, whole);
        SurvivingToken(path, ms[0].key);
      } else {
        SafeObject(cs, path, ms, ns[1..], whole);
        SurvivingToken(path, ns[0].key);
      }
    }
  }

  lemma NotWalked(cs: bool, from: Json, to: Json)
    requires ReplacedWhole(from, to)
    ensures ChangesSurvive(cs, from, to)
  {
  }

  // ---------------------------------------------------------------- the theorem

  /** Only documents without repeated keys compare equal to one without. */
  lemma {:induction false} EqualIsDistinct(cs: bool, a: Json, b: Json)
    requires CompareJson(cs, a, b) && DistinctKeys(cs, b)
    ensures DistinctKeys(cs, a)
    decreases a, 1
  {
    match (a, b)
    case (Array(xs), Array(ys)) => PairwiseDistinct(cs, xs, ys);
    case (Object(ms), Object(ns)) =>
      SortedView(cs, ns);
      forall n | n in SortedMembers(cs, ns) ensures DistinctKeys(cs, n.value) { MemberIsSmaller(b, n); }
      WalkDistinct(cs, SortedMembers(cs, ms), SortedMembers(cs, ns), a);
      UnsortedDistinct(cs, ms);
      forall i | 0 <= i < |ms| ensures DistinctKeys(cs, ms[i].value) {
        assert ms[i] in SortedMembers(cs, ms);
      }
    case _ =>
  }

  lemma UnsortedDistinct(cs: bool, ms: seq<Member>)
    requires Distinct(cs, SortedMembers(cs, ms))
    ensures Distinct(cs, ms)
  {
    assert NoTies(KeyOf, cs, SortedMembers(cs, ms));
    SortedPermutes(KeyOf, cs, ms);
    NoTiesPermuted(KeyOf, cs, SortedMembers(cs, ms), ms);
  }

  lemma {:induction false} PairwiseDistinct(cs: bool, xs: seq<Json>, ys: seq<Json>)
    requires ComparePairwise(cs, xs, ys) && forall i :: 0 <= i < |ys| ==> DistinctKeys(cs, ys[i])
    ensures forall i :: 0 <= i < |xs| ==> DistinctKeys(cs, xs[i])
    decreases xs, 0
  {
    hide DistinctKeys, CompareJson;
    if xs != [] {
      EqualIsDistinct(cs, xs[0], ys[0]);
      PairwiseDistinct(cs, xs[1..], ys[1..]);
    }
  }

  lemma {:induction false} WalkDistinct(cs: bool, ms: seq<Member>, ns: seq<Member>, whole: Json)
    requires whole.Object? && forall m :: m in ms ==> m in whole.members
    requires CompareWalk(cs, ms, ns, whole) && Distinct(cs, ns) && forall n :: n in ns ==> DistinctKeys(cs, n.value)
    ensures Distinct(cs, ms) && forall m :: m in ms ==> DistinctKeys(cs, m.value)
    ensures |ms| == |ns| && forall i :: 0 <= i < |ms| ==> Fold(cs, ms[i].key) == Fold(cs, ns[i].key)
    decreases whole, 0, |ms|
  {
    hide DistinctKeys, CompareJson, Fold;
    if ms != [] {
      StrcmpZero(Fold(cs, ms[0].key), Fold(cs, ns[0].key));
      assert ns[0] in ns;
      MemberIsSmaller(whole, ms[0]);
      EqualIsDistinct(cs, ms[0].value, ns[0].value);
      var ms', ns' := ms[1..], ns[1..];
      forall i, j | 0 <= i < j < |ns'| ensures Fold(cs, ns'[i].key) != Fold(cs, ns'[j].key) {
        assert ns'[i] == ns[i+1] && ns'[j] == ns[j+1];
      }
      WalkDistinct(cs, ms', ns', whole);
      forall i | 0 <= i < |ms| ensures Fold(cs, ms[i].key) == Fold(cs, ns[i].key) {
        if i > 0 { assert ms[i] == ms'[i-1] && ns[i] == ns'[i-1]; }
      }
    }
  }

  /** Generated patches, applied in order to a document equal to `from` up to member order,
      all succeed and give a document that compare_json finds equal to `to`, if and only if
      the keys of all members removed, added and replaced survive. */
  lemma PatchRoundTrip(cs: bool, from: Json, to: Json, t: Json)
    requires DistinctKeys(false, from) && DistinctKeys(false, to) && DistinctKeys(false, t)
    requires Indexable(from) && CompareJson(cs, t, from)
    ensures var r := ApplyPatches(cs, t, GeneratePatches(cs, from, to));
            (r.status == 0 && CompareJson(cs, r.doc, to)) <==> ChangesSurvive(cs, from, to)
  {
    hide CreateEdits, RunEdits, ChangesSurvive, DistinctKeys, CompareJson, Abs, Indexable, ApplyAll, LastTokenOk;
    if cs { DistinctModes(t); DistinctModes(from); DistinctModes(to); }
    var es := CreateEdits(cs, "", from, to);
    PatchesAreEdits(cs, t, es);
    if ChangesSurvive(cs, from, to) {
      EmptyPathOk();
      SafeEdits(cs, "", from, to);
      PatchesReach(cs, from, to, t);
    } else {
      CompareJsonCorrect(cs, t, from);
      Breaks(cs, from, to, t);
      var r := RunEdits(cs, t, es);
      if r.status == 0 && CompareJson(cs, r.doc, to) {
        EqualIsDistinct(cs, r.doc, to);
        CompareJsonCorrect(cs, r.doc, to);
      }
    }
  }

  lemma EmptyPathOk()
    ensures LastTokenOk("")
  {
  }

  predicate SurvivingKeys(j: Json)
  {
    match j
    case Array(items) => forall i :: 0 <= i < |items| ==> SurvivingKeys(items[i])
    case Object(ms) => forall i :: 0 <= i < |ms| ==> Survives(ms[i].key) && SurvivingKeys(ms[i].value)
    case _ => true
  }

  lemma {:induction false} SurvivingChanges(cs: bool, from: Json, to: Json)
    requires SurvivingKeys(from) && SurvivingKeys(to)
    ensures ChangesSurvive(cs, from, to)
    decreases from
  {
    hide Survives, Fold, ReplacedWhole, Missing;
    match (from, to)
    case (Array(xs), Array(ys)) =>
      forall i | 0 <= i < |xs| && i < |ys| ensures ChangesSurvive(cs, xs[i], ys[i]) { SurvivingChanges(cs, xs[i], ys[i]); }
    case (Object(ms), Object(ns)) =>
      forall i, j | 0 <= i < |ms| && 0 <= j < |ns| ensures ChangesSurvive(cs, ms[i].value, ns[j].value) {
        SurvivingChanges(cs, ms[i].value, ns[j].value);
      }
    case _ =>
  }

  /** When all keys of both documents survive, such as keys without '~' and '/', nothing can
      go wrong. */
  lemma PatchRoundTripSurviving(cs: bool, from: Json, to: Json, t: Json)
    requires DistinctKeys(false, from) && DistinctKeys(false, to) && DistinctKeys(false, t)
    requires Indexable(from) && CompareJson(cs, t, from)
    requires SurvivingKeys(from) && SurvivingKeys(to)
    ensures var r := ApplyPatches(cs, t, GeneratePatches(cs, from, to));
            r.status == 0 && CompareJson(cs, r.doc, to) && DistinctKeys(false, r.doc)
  {
    SurvivingChanges(cs, from, to);
    EmptyPathOk();
    SafeEdits(cs, "", from, to);
    PatchesReach(cs, from, to, t);
  }

  lemma {:induction false} NothingChanges(cs: bool, j: Json)
    requires DistinctKeys(cs, j)
    ensures ChangesSurvive(cs, j, j)
  {
    hide Survives, Fold, Missing, ReplacedWhole;
    match j
    case Array(items) => forall i | 0 <= i < |items| ensures ChangesSurvive(cs, items[i], items[i]) { NothingChanges(cs, items[i]); }
    case Object(ms) =>
      forall m | m in ms ensures ChangesSurvive(cs, m.value, m.value) && !ReplacedWhole(m.value, m.value) {
        MemberIsSmaller(j, m);
        NothingChanges(cs, m.value);
        NeverReplaced(m.value);
      }
      SafeSelf(cs, ms);
      SafeIs(cs, j, j);
    case _ =>
  }

  lemma SafeSelf(cs: bool, ms: seq<Member>)
    requires Distinct(cs, ms)
    requires forall m :: m in ms ==> ChangesSurvive(cs, m.value, m.value) && !ReplacedWhole(m.value, m.value)
    ensures Safe(cs, ms, ms)
  {
    hide Survives, Fold, Missing, ReplacedWhole, ChangesSurvive;
    forall m | m in ms ensures !Missing(cs, m.key, ms) { MissingIs(cs, m.key, ms); }
    forall m, n | m in ms && n in ms && Fold(cs, m.key) == Fold(cs, n.key) ensures m == n { OneWithKey(cs, ms, m, n); }
  }

  /** A single value replaced in an object comes out right if and only if its key survives. */
  lemma OneMemberReplaced(cs: bool, ms: seq<Member>, i: nat, v: Json)
    requires i < |ms| && ReplacedWhole(ms[i].value, v)
    requires DistinctKeys(false, Object(ms)) && DistinctKeys(false, v) && Indexable(Object(ms))
    ensures var from, to := Object(ms), Object(ms[i := Member(ms[i].key, v)]);
            var r := ApplyPatches(cs, from, GeneratePatches(cs, from, to));
            (r.status == 0 && CompareJson(cs, r.doc, to)) <==> Survives(ms[i].key)
  {
    hide ApplyPatches, GeneratePatches, CompareJson, Abs, Indexable;
    var from, to := Object(ms), Object(ms[i := Member(ms[i].key, v)]);
    if cs { DistinctModes(from); }
    CompareJsonCorrect(cs, from, from);
    OneChange(cs, ms, i, v);
    PatchRoundTrip(cs, from, to, from);
  }

  lemma OneChange(cs: bool, ms: seq<Member>, i: nat, v: Json)
    requires i < |ms| && ReplacedWhole(ms[i].value, v)
    requires DistinctKeys(cs, Object(ms))
    ensures ChangesSurvive(cs, Object(ms), Object(ms[i := Member(ms[i].key, v)])) <==> Survives(ms[i].key)
  {
    hide Survives, Fold, ReplacedWhole, Missing;
    var ns := ms[i := Member(ms[i].key, v)];
    forall j | 0 <= j < |ms| ensures !Missing(cs, ms[j].key, ns) && !Missing(cs, ns[j].key, ms) && ns[j].key == ms[j].key {
      assert ns[j] in ns && ms[j] in ms;
      MissingIs(cs, ms[j].key, ns);
      MissingIs(cs, ns[j].key, ms);
    }
    forall j | 0 <= j < |ms| ensures ChangesSurvive(cs, ms[j].value, ms[j].value) && !ReplacedWhole(ms[j].value, ms[j].value) {
      NothingChanges(cs, ms[j].value);
      NeverReplaced(ms[j].value);
    }
    assert Fold(cs, ms[i].key) == Fold(cs, ns[i].key);
  }

  lemma NeverReplaced(j: Json)
    ensures !ReplacedWhole(j, j)
  {
  }
}
