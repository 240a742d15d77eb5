/** JSON Patch application (RFC 6902): apply_patch of cJSON_Utils over value trees, with the
    status codes of the source. */
module JsonPatch {
  import opened CString
  import opened JsonValue
  import opened JsonPointer
  import opened JsonCompare

  /** decode_pointer_inplace from its write cursor d and read cursor s. It writes only at
      escapes, and for "~1" one place too far. */
  function DecodeFrom(buf: string, d: nat, s: nat): string
    requires d <= s <= |buf|
    decreases |buf| - s
  {
    if s == |buf| then buf[..d]
    else if buf[s] != '~' then DecodeFrom(buf, d + 1, s + 1)
    else if s + 1 < |buf| && buf[s+1] == '0' then DecodeFrom(buf[d := '~'], d + 1, s + 2)
    else if s + 1 < |buf| && buf[s+1] == '1' then DecodeFrom(buf[d+1 := '/'], d + 1, s + 2)
    else buf
  }

  function DecodeToken(token: string): string
  {
    DecodeFrom(token, 0, 0)
  }

  /** Parent pointer and last token, split at the last '/'. */
  function SplitLast(p: string): (r: Option<(string, string)>)
    ensures r.Some? ==> p == r.value.0 + "/" + r.value.1 && '/' !in r.value.1
    ensures r.None? ==> '/' !in p
  {
    if p == "" then None
    else
      var r := SplitLast(p[1..]);
      if r.Some? then
        assert p == [p[0]] + p[1..];
        Some(([p[0]] + r.value.0, r.value.1))
      else if p[0] == '/' then Some(("", p[1..]))
      else None
  }

  /** Removing the child that a decoded token names. Members are matched ignoring case,
      in either mode. */
  function DetachChild(parent: Json, token: string): Option<(Json, Json)>
  {
    match parent
    case Array(items) =>
      var index := DecodeIndex(token);
      if index.Some? && index.value < |items|
      then Some((items[index.value], Array(RemoveAt(items, index.value)))) else None
    case Object(ms) =>
      var i := Find(false, ms, token);
      if i < |ms| then Some((ms[i].value, Object(RemoveAt(ms, i)))) else None
    case _ => None
  }

  /** detach_path: the detached item and what is left of the document. */
  function DetachPath(cs: bool, doc: Json, path: string): Option<(Json, Json)>
  {
    var split := SplitLast(path);
    if split.None? then None
    else
      var loc := Resolve(cs, doc, split.value.0);
      if loc.None? then None
      else
        var r := DetachChild(At(doc, loc.value), DecodeToken(split.value.1));
        if r.None? then None else Some((r.value.0, Put(doc, loc.value, r.value.1)))
  }

  datatype Outcome = Outcome(status: nat, doc: Json)

  function AddChild(cs: bool, parent: Json, token: string, v: Json): Outcome
  {
    match parent
    case Array(items) =>
      if token == "-" then Outcome(0, Array(items + [v]))
      else
        var index := DecodeIndex(token);
        if index.None? then Outcome(11, parent)
        else if index.value > |items| then Outcome(10, parent)
        else Outcome(0, Array(items[..index.value] + [v] + items[index.value..]))
    case Object(ms) =>
      var i := Find(cs, ms, token);
      var rest := if i < |ms| then RemoveAt(ms, i) else ms;
      Outcome(0, Object(rest + [Member(token, v)]))
    case _ => Outcome(9, parent)
  }

  /** The last part of apply_patch: add a value at a path. */
  function AddPath(cs: bool, doc: Json, path: string, v: Json): Outcome
  {
    var split := SplitLast(path);
    if split.None? then Outcome(9, doc)
    else
      var loc := Resolve(cs, doc, split.value.0);
      if loc.None? then Outcome(9, doc)
      else
        var r := AddChild(cs, At(doc, loc.value), DecodeToken(split.value.1), v);
        Outcome(r.status, Put(doc, loc.value, r.doc))
  }

  function Lookup(cs: bool, j: Json, name: string): Option<Json>
  {
    if j.Object? && Find(cs, j.members, name) < |j.members|
    then Some(j.members[Find(cs, j.members, name)].value) else None
  }

  function TextOf(j: Option<Json>): Option<string>
  {
    if j.Some? && j.value.String? then Some(j.value.s) else None
  }

  /** apply_patch. */
  function ApplyPatch(cs: bool, doc: Json, patch: Json): Outcome
  {
    var path := TextOf(Lookup(cs, patch, "path"));
    var op := TextOf(Lookup(cs, patch, "op"));
    var value := Lookup(cs, patch, "value");
    if path.None? then Outcome(2, doc)
    else if op.None? || op.value !in {"add", "remove", "replace", "move", "copy", "test"} then Outcome(3, doc)
    else if op.value == "test" then
      var loc := Resolve(cs, doc, path.value);
      var same := loc.Some? && value.Some? && CompareJson(cs, At(doc, loc.value), value.value);
      Outcome(if same then 0 else 1, doc)
    else if path.value == "" && op.value == "remove" then Outcome(0, Invalid)
    else if path.value == "" && op.value in {"replace", "add"} then
      if value.None? then Outcome(7, doc) else Outcome(0, value.value)
    else if op.value == "remove" then
      var d := DetachPath(cs, doc, path.value);
      if d.None? then Outcome(13, doc) else Outcome(0, d.value.1)
    else if op.value == "replace" then
      var d := DetachPath(cs, doc, path.value);
      if d.None? then Outcome(13, doc)
      else if value.None? then Outcome(7, d.value.1)
      else AddPath(cs, d.value.1, path.value, value.value)
    else if op.value == "add" then
      if value.None? then Outcome(7, doc) else AddPath(cs, doc, path.value, value.value)
    else
      var from := Lookup(cs, patch, "from");
      if from.None? then Outcome(4, doc)
      else if !from.value.String? then Outcome(5, doc)
      else if op.value == "move" then
        var d := DetachPath(cs, doc, from.value.s);
        if d.None? then Outcome(5, doc) else AddPath(cs, d.value.1, path.value, d.value.0)
      else
        var loc := Resolve(cs, doc, from.value.s);
        if loc.None? then Outcome(5, doc) else AddPath(cs, doc, path.value, At(doc, loc.value))
  }

  /** The loop of cJSONUtils_ApplyPatches: it stops at the first patch that fails. */
  function ApplyAll(cs: bool, doc: Json, patches: seq<Json>): Outcome
    decreases |patches|
  {
    if patches == [] then Outcome(0, doc)
    else
      var r := ApplyPatch(cs, doc, patches[0]);
      if r.status != 0 then r else ApplyAll(cs, r.doc, patches[1..])
  }

  function ApplyPatches(cs: bool, doc: Json, patches: Json): Outcome
  {
    if patches.Array? then ApplyAll(cs, doc, patches.items) else Outcome(1, doc)
  }

  // ---------------------------------------------------------------- decoding the last token

  /** What the in-place decoding leaves at place d + i when key t is still to be read. */
  function LeftAt(buf: string, d: nat, t: string, i: nat): char
    requires d + |t| <= |buf| && i < |t|
  {
    if t[i] == '~' then '~' else if i > 0 && t[i-1] == '/' then '/' else buf[d+i]
  }

  function Left(buf: string, d: nat, t: string): (r: string)
    requires d + |t| <= |buf|
    ensures |r| == d + |t|
  {
    buf[..d] + seq(|t|, i requires 0 <= i < |t| => LeftAt(buf, d, t, i))
  }

  lemma LeftStep(buf: string, d: nat, t: string)
    requires t != "" && d + |t| <= |buf| && (t[0] == '/' ==> d + 1 < |buf|)
    ensures var buf' := if t[0] == '~' then buf[d := '~'] else if t[0] == '/' then buf[d+1 := '/'] else buf;
            Left(buf', d + 1, t[1..]) == Left(buf, d, t)
  {
    var buf' := if t[0] == '~' then buf[d := '~'] else if t[0] == '/' then buf[d+1 := '/'] else buf;
    var x, y := Left(buf', d + 1, t[1..]), Left(buf, d, t);
    forall j | 0 <= j < |x| ensures x[j] == y[j] {
      if j > d {
        assert x[j] == LeftAt(buf', d + 1, t[1..], j - d - 1);
        assert y[j] == LeftAt(buf, d, t, j - d);
      }
    }
  }

  lemma {:induction false} DecodeFromEffect(buf: string, d: nat, s: nat, t: string)
    requires d <= s <= |buf| && buf[s..] == Encode(t)
    ensures DecodeFrom(buf, d, s) == Left(buf, d, t)
    decreases |t|
  {
    if t == "" {
      assert s == |buf|;
    } else {
      var e := buf[s..];
      assert e == EncodeChar(t[0]) + Encode(t[1..]);
      assert e[0] == buf[s];
      LeftStep(buf, d, t);
      if t[0] == '~' || t[0] == '/' {
        assert e[1] == buf[s+1];
        assert e[2..] == Encode(t[1..]);
        var buf' := if t[0] == '~' then buf[d := '~'] else buf[d+1 := '/'];
        assert buf'[s+2..] == e[2..];
        DecodeFromEffect(buf', d + 1, s + 2, t[1..]);
      } else {
        assert e[1..] == Encode(t[1..]);
        assert buf[s+1..] == e[1..];
        DecodeFromEffect(buf, d + 1, s + 1, t[1..]);
      }
    }
  }

  /** The keys that survive being encoded and decoded in place: no '/', and every other
      character than '~' happens to stand at its own index in the encoded key too. */
  predicate Survives(k: string)
  {
    '/' !in k && forall j :: 0 <= j < |k| ==> k[j] == '~' || k[j] == Encode(k)[j]
  }

  lemma {:induction false} FirstSlash(k: string) returns (p: nat)
    requires '/' in k
    ensures p < |k| && k[p] == '/' && '/' !in k[..p]
  {
    if k[0] == '/' { p := 0; }
    else {
      assert k == [k[0]] + k[1..];
      var q := FirstSlash(k[1..]);
      p := q + 1;
      assert k[..p] == [k[0]] + k[1..][..q];
    }
  }

  /** decode_pointer_inplace undoes encode_string_as_pointer on exactly these keys. */
  lemma DecodeTokenExact(k: string)
    ensures DecodeToken(Encode(k)) == k <==> Survives(k)
  {
    var enc := Encode(k);
    var r := DecodeToken(enc);
    assert enc[0..] == enc;
    DecodeFromEffect(enc, 0, 0, k);
    if Survives(k) {
      forall j | 0 <= j < |k| ensures r[j] == k[j] {
        assert r[j] == LeftAt(enc, 0, k, j);
        assert j > 0 ==> k[j-1] in k;
      }
    } else if '/' in k {
      var p := FirstSlash(k);
      assert p > 0 ==> k[p-1] == k[..p][p-1] && k[p-1] in k[..p];
      assert r[p] == LeftAt(enc, 0, k, p) == enc[p] && enc[p] in enc;
    } else {
      var j :| 0 <= j < |k| && k[j] != '~' && k[j] != enc[j];
      assert j > 0 ==> k[j-1] in k;
      assert r[j] == LeftAt(enc, 0, k, j) == enc[j];
    }
  }

  lemma {:induction false} EncodePlain(k: string)
    requires '~' !in k && '/' !in k
    ensures Encode(k) == k
  {
    if k != "" {
      assert k[0] in k;
      EncodePlain(k[1..]);
      assert k == [k[0]] + k[1..];
    }
  }

  lemma PlainSurvives(k: string)
    requires '~' !in k && '/' !in k
    ensures Survives(k) && DecodeToken(Encode(k)) == k
  {
    EncodePlain(k);
    DecodeTokenExact(k);
  }

  lemma {:induction false} EncodeConcat(a: string, b: string)
    ensures Encode(a + b) == Encode(a) + Encode(b)
  {
    if a == "" {
      assert a + b == b;
    } else {
      assert (a + b)[1..] == a[1..] + b;
      EncodeConcat(a[1..], b);
    }
  }

  predicate RunChar(c: char) { c == '0' || c == '~' }

  lemma {:induction false} EncodeRun(w: string)
    requires forall i :: 0 <= i < |w| ==> RunChar(w[i])
    ensures forall i :: 0 <= i < |Encode(w)| ==> RunChar(Encode(w)[i])
    ensures w != "" && w[0] == '~' ==> |Encode(w)| > |w|
  {
    if w != "" { EncodeRun(w[1..]); }
  }

  /** From the first '~' on, up to where decoding first goes wrong, there are only '0' and
      '~', and so in the encoding one place further. */
  lemma {:induction false} RunChars(u: string, m: nat)
    requires 0 < m < |u| && u[0] == '~'
    requires forall i :: 0 <= i < m ==> u[i] == '~' || u[i] == Encode(u)[i]
    ensures RunChar(Encode(u)[m]) && forall i :: 0 <= i < m ==> RunChar(u[i])
  {
    if m > 1 { RunChars(u, m - 1); }
    assert u == u[..m] + u[m..];
    EncodeConcat(u[..m], u[m..]);
    EncodeRun(u[..m]);
  }

  lemma {:induction false} FirstWrong(k: string, n: nat) returns (j: nat)
    requires n < |k| && k[n] != '~' && k[n] != Encode(k)[n]
    ensures j <= n && k[j] != '~' && k[j] != Encode(k)[j]
    ensures forall i :: 0 <= i < j ==> k[i] == '~' || k[i] == Encode(k)[i]
  {
    if i :| 0 <= i < n && k[i] != '~' && k[i] != Encode(k)[i] { j := FirstWrong(k, i); } else { j := n; }
  }

  lemma {:induction false} FirstTilde(k: string, n: nat) returns (p: nat)
    requires n <= |k| && '~' in k[..n]
    ensures p < n && k[p] == '~' && '~' !in k[..p]
  {
    if k[0] == '~' { p := 0; }
    else {
      assert k[..n] == [k[0]] + k[1..][..n-1];
      var q := FirstTilde(k[1..], n - 1);
      p := q + 1;
      assert k[..p] == [k[0]] + k[1..][..q];
    }
  }

  lemma ContainedFree(k: string, a: nat, b: nat, c: char)
    requires a <= b <= |k| && c !in k
    ensures c !in k[a..b]
  {
  }

  /** Where decoding first goes wrong in a key without '/', it leaves '0' or '~'. */
  lemma WrongChar(k: string, j: nat)
    requires '/' !in k && j < |k| && k[j] != '~' && k[j] != Encode(k)[j]
    requires forall i :: 0 <= i < j ==> k[i] == '~' || k[i] == Encode(k)[i]
    ensures RunChar(Encode(k)[j])
  {
    if '~' in k[..j] {
      var p := FirstTilde(k, j);
      WrongCharAfter(k, p, j);
    } else {
      PlainChar(k, j);
    }
  }

  lemma PlainChar(k: string, j: nat)
    requires '/' !in k && j < |k| && k[j] != '~' && '~' !in k[..j]
    ensures Encode(k)[j] == k[j]
  {
    hide Encode;
    assert k == k[..j+1] + k[j+1..];
    EncodeConcat(k[..j+1], k[j+1..]);
    assert k[..j+1] == k[..j] + [k[j]];
    ContainedFree(k, 0, j + 1, '/');
    EncodePlain(k[..j+1]);
  }

  lemma WrongCharAfter(k: string, p: nat, j: nat)
    requires '/' !in k && p < j < |k| && k[p] == '~' && '~' !in k[..p]
    requires forall i :: 0 <= i < j ==> k[i] == '~' || k[i] == Encode(k)[i]
    ensures RunChar(Encode(k)[j])
  {
    var u, enc := k[p..], Encode(k);
    assert k == k[..p] + u;
    EncodeConcat(k[..p], u);
    ContainedFree(k, 0, p, '/');
    EncodePlain(k[..p]);
    var e := Encode(u);
    forall i | 0 <= i < |u| ensures u[i] == k[p+i] && e[i] == enc[p+i] {
    }
    RunChars(u, j - p);
  }

  /** Even ignoring case, a key that does not survive is decoded to another key. */
  lemma DecodeTokenFolded(k: string)
    ensures Lower(DecodeToken(Encode(k))) == Lower(k) <==> Survives(k)
  {
    DecodeTokenExact(k);
    var enc, r := Encode(k), DecodeToken(Encode(k));
    assert enc[0..] == enc;
    DecodeFromEffect(enc, 0, 0, k);
    if '/' in k {
      var p := FirstSlash(k);
      assert p > 0 ==> k[p-1] == k[..p][p-1] && k[p-1] in k[..p];
      assert r[p] == LeftAt(enc, 0, k, p) == enc[p] && enc[p] in enc;
      assert Lower(r)[p] != Lower(k)[p];
    } else if !Survives(k) {
      var n :| 0 <= n < |k| && k[n] != '~' && k[n] != enc[n];
      var j := FirstWrong(k, n);
      WrongChar(k, j);
      assert j > 0 ==> k[j-1] in k;
      assert r[j] == LeftAt(enc, 0, k, j) == enc[j];
      assert Lower(r)[j] != Lower(k)[j];
    }
  }

  /** Asked for a key that is there, detach_path goes for that member exactly if the key survives. */
  lemma DetachExact(ms: seq<Member>, k: string)
    requires Find(false, ms, k) < |ms|
    ensures Find(false, ms, DecodeToken(Encode(k))) == Find(false, ms, k) <==> Survives(k)
  {
    DecodeTokenFolded(k);
    DecodeTokenExact(k);
  }

  lemma {:induction false} UnescapeEncode(k: string)
    ensures Unescape(Encode(k)) == k
  {
    if k != "" {
      UnescapeEncode(k[1..]);
      var e := Encode(k);
      if k[0] == '~' || k[0] == '/' {
        assert e[2..] == Encode(k[1..]);
      } else {
        assert e[1..] == Encode(k[1..]);
      }
    }
  }

  // ---------------------------------------------------------------- splitting paths

  lemma {:induction false} SplitUnique(p: string, token: string)
    requires '/' !in token
    ensures SplitLast(p + "/" + token) == Some((p, token))
  {
    var q := p + "/" + token;
    if p == "" {
      assert q[1..] == token;
    } else {
      assert q[1..] == p[1..] + "/" + token;
      SplitUnique(p[1..], token);
      assert q[0] == p[0] && p == [p[0]] + p[1..];
    }
  }
}
