/** One line of the 2048 board: what compress_line does to it and what it scores. */
module Line2048 {
  /** The tiles of a line, without the gaps. */
  function Tiles(s: seq<int>): (r: seq<int>)
    ensures |r| <= |s| && 0 !in r
  {
    if s == [] then [] else if s[0] != 0 then [s[0]] + Tiles(s[1..]) else Tiles(s[1..])
  }

  /** Equal neighbours merge, the front ones first, and no tile merges twice. */
  function Merged(s: seq<int>): (r: seq<int>)
    requires 0 !in s
    ensures |r| <= |s| && 0 !in r
  {
    if |s| >= 2 && s[0] == s[1] then [2 * s[0]] + Merged(s[2..])
    else if s == [] then []
    else [s[0]] + Merged(s[1..])
  }

  /** What the merges score: the new tiles. */
  function Gain(s: seq<int>): int
  {
    if |s| >= 2 && s[0] == s[1] then 2 * s[0] + Gain(s[2..])
    else if s == [] then 0
    else Gain(s[1..])
  }

  function Zeros(n: nat): (r: seq<int>)
    ensures |r| == n && forall i :: 0 <= i < n ==> r[i] == 0
  {
    seq(n, _ => 0)
  }

  function Slide(line: seq<int>): (r: seq<int>)
    ensures |r| == |line|
  {
    var t := Merged(Tiles(line));
    t + Zeros(|line| - |t|)
  }

  // ---------------------------------------------------------------- compress_line

  lemma {:induction false} TilesConcat(a: seq<int>, b: seq<int>)
    ensures Tiles(a + b) == Tiles(a) + Tiles(b)
  {
    hide Tiles;
    if a == [] {
      TilesEmpty();
      assert a + b == b;
    } else {
      TilesConcat(a[1..], b);
      assert (a + b)[0] == a[0] && (a + b)[1..] == a[1..] + b;
      TilesFirst(a);
      TilesFirst(a + b);
    }
  }

  lemma TilesEmpty()
    ensures Tiles([]) == []
  {
  }

  lemma TilesFirst(s: seq<int>)
    requires s != []
    ensures Tiles(s) == (if s[0] != 0 then [s[0]] else []) + Tiles(s[1..])
  {
  }

  lemma {:induction false} TilesOfZeros(n: nat)
    ensures Tiles(Zeros(n)) == []
  {
    if n > 0 {
      TilesOfZeros(n - 1);
      assert Zeros(n)[1..] == Zeros(n - 1);
    }
  }

  lemma {:induction false} TilesOfTiles(s: seq<int>)
    requires 0 !in s
    ensures Tiles(s) == s
  {
    if s != [] {
      assert s[0] in s;
      TilesOfTiles(s[1..]);
    }
  }

  lemma TilesMore(s: seq<int>, i: nat)
    requires i < |s|
    ensures Tiles(s[..i+1]) == Tiles(s[..i]) + (if s[i] != 0 then [s[i]] else [])
  {
    assert s[..i+1] == s[..i] + [s[i]];
    TilesConcat(s[..i], [s[i]]);
  }

  /** Move the tiles of a buffer to its front, in place, and clear the rest. */
  method Pack(tmp: array<int>)
    modifies tmp
    ensures tmp[..] == Tiles(old(tmp[..])) + Zeros(tmp.Length - |Tiles(old(tmp[..]))|)
  {
    ghost var was := tmp[..];
    var pos, i := 0, 0;
    while i < tmp.Length
      invariant pos <= i <= tmp.Length
      invariant tmp[..pos] == Tiles(was[..i]) && tmp[i..] == was[i..]
    {
      TilesMore(was, i);
      var v := tmp[i];
      assert v == was[i..][0];
      if v != 0 {
        tmp[pos] := v;
        assert tmp[..pos+1] == tmp[..pos] + [v];
        pos := pos + 1;
      }
      assert tmp[i+1..] == was[i+1..];
      i := i + 1;
    }
    assert was[..i] == was;
    ghost var n := pos;
    while pos < tmp.Length
      invariant n <= pos <= tmp.Length
      invariant tmp[..n] == Tiles(was) && forall k :: n <= k < pos ==> tmp[k] == 0
    {
      tmp[pos] := 0;
      pos := pos + 1;
    }
  }

  /** The state of the merge pass at index i: what is behind has been merged, what is ahead is
      still packed. */
  ghost predicate Merging(tmp: seq<int>, i: nat, packed: seq<int>, score: int)
    requires 0 !in packed
  {
    && i <= |tmp| && |packed| <= |tmp|
    && (forall k :: i <= k < |tmp| ==> tmp[k] == if k < |packed| then packed[k] else 0)
    && (i <= |packed| ==>
          && Merged(packed) == Tiles(tmp[..i]) + Merged(packed[i..])
          && Gain(packed) == score + Gain(packed[i..]))
    && (i > |packed| ==> Merged(packed) == Tiles(tmp[..i]) && Gain(packed) == score)
  }

  lemma MergeStart(tmp: seq<int>, packed: seq<int>)
    requires 0 !in packed && |packed| <= |tmp| && tmp == packed + Zeros(|tmp| - |packed|)
    ensures Merging(tmp, 0, packed, 0)
  {
    hide Merged, Gain;
    assert packed[0..] == packed && tmp[..0] == [];
    assert Tiles([]) == [] && [] + Merged(packed) == Merged(packed);
  }

  /** The merge pass of compress_line: a pair becomes its double and a gap. */
  method MergePass(tmp: array<int>, ghost packed: seq<int>) returns (score: int)
    requires 0 !in packed && |packed| <= tmp.Length && tmp[..] == packed + Zeros(tmp.Length - |packed|)
    modifies tmp
    ensures Tiles(tmp[..]) == Merged(packed) && score == Gain(packed)
  {
    hide Merging, Tiles, Merged, Gain, Zeros;
    score := 0;
    var i := 0;
    MergeStart(tmp[..], packed);
    while i < tmp.Length - 1
      invariant Merging(tmp[..], i, packed, score)
    {
      if tmp[i] != 0 && tmp[i] == tmp[i+1] {
        MergePair(tmp[..], i, packed, score);
        tmp[i] := tmp[i] * 2;
        score := score + tmp[i];
        tmp[i+1] := 0;
        i := i + 1;
      } else {
        MergeNot(tmp[..], i, packed, score);
      }
      i := i + 1;
    }
    MergeEnd(tmp[..], i, packed, score);
  }

  lemma MergePair(tmp: seq<int>, i: nat, packed: seq<int>, score: int)
    requires 0 !in packed && Merging(tmp, i, packed, score) && i + 1 < |tmp| && tmp[i] != 0 && tmp[i] == tmp[i+1]
    ensures Merging(tmp[i := 2 * tmp[i]][i + 1 := 0], i + 2, packed, score + 2 * tmp[i])
  {
    var t := tmp[i := 2 * tmp[i]][i + 1 := 0];
    assert i + 1 < |packed| && packed[i] == packed[i+1] == tmp[i];
    var rest := packed[i..];
    assert rest[0] == packed[i] && rest[1] == packed[i+1] && rest[2..] == packed[i+2..];
    assert t[..i+2] == tmp[..i] + [2 * tmp[i], 0];
    TilesConcat(tmp[..i], [2 * tmp[i], 0]);
    assert [2 * tmp[i], 0][1..] == [0];
    assert Tiles([2 * tmp[i], 0]) == [2 * tmp[i]];
  }

  lemma MergeNot(tmp: seq<int>, i: nat, packed: seq<int>, score: int)
    requires 0 !in packed && Merging(tmp, i, packed, score) && i + 1 < |tmp| && !(tmp[i] != 0 && tmp[i] == tmp[i+1])
    ensures Merging(tmp, i + 1, packed, score)
  {
    TilesMore(tmp, i);
    if i < |packed| {
      var rest := packed[i..];
      assert packed[i] in packed;
      assert rest[0] == packed[i] && rest[1..] == packed[i+1..];
      if i + 1 < |packed| { assert rest[1] == packed[i+1] && tmp[i+1] == packed[i+1]; }
    } else if i == |packed| {
      assert packed[i..] == [];
    }
  }

  lemma MergedShort(s: seq<int>)
    requires 0 !in s && |s| <= 1
    ensures Merged(s) == s && Gain(s) == 0
  {
  }

  lemma MergeEnd(tmp: seq<int>, i: nat, packed: seq<int>, score: int)
    requires 0 !in packed && Merging(tmp, i, packed, score) && i + 1 >= |tmp|
    ensures Tiles(tmp) == Merged(packed) && score == Gain(packed)
  {
    hide Tiles, Merged, Gain;
    if i <= |packed| { MergedShort(packed[i..]); }
    if i == |tmp| {
      assert tmp[..i] == tmp;
    } else {
      TilesMore(tmp, i);
      assert tmp[..i+1] == tmp;
      if i < |packed| {
        assert packed[i] in packed;
        assert packed[i..] == [packed[i]];
      }
    }
  }

  /** compress_line: the line slides to its front; whether it changed, and what it scores. */
  method CompressLine(line: array<int>) returns (moved: bool, score: int)
    modifies line
    ensures line[..] == Slide(old(line[..]))
    ensures moved <==> line[..] != old(line[..])
    ensures score == Gain(Tiles(old(line[..])))
  {
    hide Tiles, Merged, Gain, Zeros;
    ghost var was := line[..];
    var tmp := Collect(line);
    score := MergePass(tmp, Tiles(was));
    Pack(tmp);
    moved := CopyBack(line, tmp);
  }

  /** The tiles of the line in a buffer of zeros. */
  method Collect(line: array<int>) returns (tmp: array<int>)
    ensures fresh(tmp) && tmp.Length == line.Length
    ensures tmp[..] == Tiles(line[..]) + Zeros(line.Length - |Tiles(line[..])|)
  {
    hide Tiles;
    tmp := new int[line.Length](_ => 0);
    ghost var was := line[..];
    var i, pos := 0, 0;
    TilesEmpty();
    while i < line.Length
      invariant pos <= i <= line.Length && line[..] == was
      invariant tmp[..pos] == Tiles(was[..i]) && forall k :: pos <= k < tmp.Length ==> tmp[k] == 0
    {
      TilesMore(was, i);
      if line[i] != 0 {
        tmp[pos] := line[i];
        assert tmp[..pos+1] == tmp[..pos] + [was[i]];
        pos := pos + 1;
      }
      i := i + 1;
    }
    assert was[..i] == was;
  }

  method CopyBack(line: array<int>, tmp: array<int>) returns (moved: bool)
    requires line != tmp && line.Length == tmp.Length
    modifies line
    ensures line[..] == tmp[..] && (moved <==> line[..] != old(line[..]))
  {
    ghost var was := line[..];
    var i := 0;
    moved := false;
    while i < line.Length
      invariant i <= line.Length
      invariant forall k :: 0 <= k < line.Length ==> line[k] == if k < i then tmp[k] else was[k]
      invariant moved <==> exists k :: 0 <= k < i && tmp[k] != was[k]
    {
      if line[i] != tmp[i] { moved := true; }
      line[i] := tmp[i];
      i := i + 1;
    }
    if !moved {
      forall k | 0 <= k < line.Length ensures line[..][k] == was[k] { }
      assert line[..] == was;
    }
  }
}
