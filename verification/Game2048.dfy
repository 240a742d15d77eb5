/** The 2048 game: every move conserves what the score counts, tiles stay powers of two, and
    the game is over exactly when no direction would change the board. */
module Game2048 {
  import opened Line2048

  // ---------------------------------------------------------------- lines

  /** The exponent of a power of two. */
  function Exponent(v: int): nat
    decreases if v > 0 then v else 0
  {
    if v <= 1 then 0 else 1 + Exponent(v / 2)
  }

  /** What making a tile out of twos has scored: (k - 1) * 2^k for the tile 2^k. */
  function Worth(v: int): int
  {
    if v <= 0 then 0 else (Exponent(v) - 1) * v
  }

  predicate PowerOfTwo(v: int)
    decreases if v > 0 then v else 0
  {
    v == 1 || (v > 1 && v % 2 == 0 && PowerOfTwo(v / 2))
  }

  predicate Tile(v: int)
  {
    v >= 2 && PowerOfTwo(v)
  }

  predicate Playable(s: seq<int>)
  {
    forall i :: 0 <= i < |s| ==> s[i] == 0 || Tile(s[i])
  }

  function LineWorth(s: seq<int>): int
  {
    if s == [] then 0 else Worth(s[0]) + LineWorth(s[1..])
  }

  lemma {:induction false} WorthConcat(a: seq<int>, b: seq<int>)
    ensures LineWorth(a + b) == LineWorth(a) + LineWorth(b)
  {
    if a == [] {
      assert a + b == b;
    } else {
      WorthConcat(a[1..], b);
      assert (a + b)[1..] == a[1..] + b;
    }
  }

  /** Two equal tiles and the score of their merge are worth their double. */
  lemma MergeWorth(v: int)
    requires Tile(v)
    ensures Tile(2 * v) && Worth(2 * v) == 2 * Worth(v) + 2 * v
  {
    assert (2 * v) / 2 == v;
    assert Exponent(2 * v) == Exponent(v) + 1;
    var e := Exponent(v);
    assert e * (2 * v) == 2 * ((e - 1) * v) + 2 * v;
  }

  lemma {:induction false} MergedWorth(s: seq<int>)
    requires 0 !in s && Playable(s)
    ensures Playable(Merged(s)) && LineWorth(Merged(s)) == LineWorth(s) + Gain(s)
  {
    if |s| >= 2 && s[0] == s[1] {
      assert s[0] in s;
      MergeWorth(s[0]);
      MergedWorth(s[2..]);
      assert s[1..][1..] == s[2..] && s[1..][0] == s[1];
      assert LineWorth(s) == 2 * Worth(s[0]) + LineWorth(s[2..]);
    } else if s != [] {
      MergedWorth(s[1..]);
    }
  }

  lemma {:induction false} TilesWorth(s: seq<int>)
    requires Playable(s)
    ensures Playable(Tiles(s)) && LineWorth(Tiles(s)) == LineWorth(s)
  {
    if s != [] { TilesWorth(s[1..]); }
  }

  lemma {:induction false} ZerosWorth(n: nat)
    ensures LineWorth(Zeros(n)) == 0
  {
    if n > 0 {
      ZerosWorth(n - 1);
      assert Zeros(n)[1..] == Zeros(n - 1);
    }
  }

  /** Sliding a line is worth its score. */
  lemma SlideWorth(s: seq<int>)
    requires Playable(s)
    ensures Playable(Slide(s)) && LineWorth(Slide(s)) == LineWorth(s) + Gain(Tiles(s))
  {
    var t := Merged(Tiles(s));
    TilesWorth(s);
    MergedWorth(Tiles(s));
    WorthConcat(t, Zeros(|s| - |t|));
    ZerosWorth(|s| - |t|);
  }

  /** A line that does not slide: no gap in front of a tile, and no equal neighbours. */
  predicate Stuck(s: seq<int>)
  {
    forall j :: 0 <= j < |s| - 1 ==> (s[j+1] != 0 ==> s[j] != 0) && (s[j] != 0 ==> s[j] != s[j+1])
  }

  lemma {:induction false} StuckStays(s: seq<int>)
    requires Stuck(s)
    ensures Slide(s) == s
  {
    if s == [] {
    } else if s[0] == 0 {
      AllZero(s);
      TilesOfZeros(|s|);
    } else {
      var t := s[1..];
      forall j | 0 <= j < |t| - 1 ensures (t[j+1] != 0 ==> t[j] != 0) && (t[j] != 0 ==> t[j] != t[j+1]) {
        assert t[j] == s[j+1] && t[j+1] == s[j+1+1];
      }
      StuckStays(t);
      var u := Tiles(t);
      assert Tiles(s) == [s[0]] + u;
      assert u != [] ==> u[0] == t[0] by { if |t| > 0 && t[0] == 0 { AllZero(t); TilesOfZeros(|t|); } }
      assert ([s[0]] + u)[1..] == u;
      assert Merged(Tiles(s)) == [s[0]] + Merged(u);
      assert s == [s[0]] + t;
    }
  }

  lemma {:induction false} AllZero(s: seq<int>)
    requires Stuck(s) && s != [] && s[0] == 0
    ensures s == Zeros(|s|)
  {
    if |s| > 1 {
      var t := s[1..];
      assert s[0+1] == t[0];
      forall j | 0 <= j < |t| - 1 ensures (t[j+1] != 0 ==> t[j] != 0) && (t[j] != 0 ==> t[j] != t[j+1]) {
        assert t[j] == s[j+1] && t[j+1] == s[j+1+1];
      }
      AllZero(t);
      assert s == [0] + t;
    }
  }

  /** The slid line begins with tiles, and they are no more than before. */
  lemma {:induction false} SlidIsStuck(s: seq<int>)
    requires Slide(s) == s
    ensures Stuck(s)
  {
    var t := Tiles(s);
    var m := Merged(t);
    assert s == m + Zeros(|s| - |m|);
    TilesConcat(m, Zeros(|s| - |m|));
    TilesOfTiles(m);
    TilesOfZeros(|s| - |m|);
    assert t == m;
    NoPairs(t);
    forall j | 0 <= j < |s| - 1 ensures (s[j+1] != 0 ==> s[j] != 0) && (s[j] != 0 ==> s[j] != s[j+1]) {
      if j + 1 < |t| {
        assert s[j] == t[j] && s[j+1] == t[j+1] && t[j] in t;
      } else if j < |t| {
        assert s[j] == t[j] && t[j] in t && s[j+1] == 0;
      }
    }
  }

  lemma {:induction false} NoPairs(t: seq<int>)
    requires 0 !in t && Merged(t) == t
    ensures forall j :: 0 <= j < |t| - 1 ==> t[j] != t[j+1]
  {
    if |t| >= 2 {
      assert t[0] in t;
      if t[0] == t[1] {
        assert false;
      } else {
        assert Merged(t)[1..] == Merged(t[1..]);
        NoPairs(t[1..]);
        forall j | 0 <= j < |t| - 1 ensures t[j] != t[j+1] {
          if j > 0 { assert t[1..][j-1] == t[j] && t[1..][j] == t[j+1]; }
        }
      }
    }
  }

  // ---------------------------------------------------------------- the board

  type Grid = g: seq<seq<int>> | |g| == 4 && forall y :: 0 <= y < 4 ==> |g[y]| == 4
    witness seq(4, _ => seq(4, _ => 0))

  /** The cell (y, x) that is number j of line i, when sliding up, right, down or left. */
  function Place(dir: nat, i: nat, j: nat): (nat, nat)
    requires dir < 4 && i < 4 && j < 4
  {
    if dir == 0 then (j, i) else if dir == 1 then (i, 3 - j) else if dir == 2 then (3 - j, i) else (i, j)
  }

  function At(g: Grid, p: (nat, nat)): int
    requires p.0 < 4 && p.1 < 4
  {
    g[p.0][p.1]
  }

  function LineOf(g: Grid, dir: nat, i: nat): (s: seq<int>)
    requires dir < 4 && i < 4
    ensures |s| == 4
  {
    seq(4, j requires 0 <= j < 4 => At(g, Place(dir, i, j)))
  }

  /** The board after every line has slid, before a tile is added. */
  ghost predicate Slid(g: Grid, dir: nat, h: Grid)
    requires dir < 4
  {
    forall i :: 0 <= i < 4 ==> LineOf(h, dir, i) == Slide(LineOf(g, dir, i))
  }

  ghost predicate Changes(g: Grid, dir: nat)
    requires dir < 4
  {
    exists i :: 0 <= i < 4 && Slide(LineOf(g, dir, i)) != LineOf(g, dir, i)
  }

  function Score(g: Grid, dir: nat): int
    requires dir < 4
  {
    Gain(Tiles(LineOf(g, dir, 0))) + Gain(Tiles(LineOf(g, dir, 1)))
    + Gain(Tiles(LineOf(g, dir, 2))) + Gain(Tiles(LineOf(g, dir, 3)))
  }

  function GridWorth(g: Grid): int
  {
    LineWorth(g[0]) + LineWorth(g[1]) + LineWorth(g[2]) + LineWorth(g[3])
  }

  ghost predicate Legal(g: Grid)
  {
    forall y, x :: 0 <= y < 4 && 0 <= x < 4 ==> g[y][x] == 0 || Tile(g[y][x])
  }

  lemma FourWorth(s: seq<int>)
    requires |s| == 4
    ensures LineWorth(s) == Worth(s[0]) + Worth(s[1]) + Worth(s[2]) + Worth(s[3])
  {
    hide Worth;
    var t := s[1..];
    var u := t[1..];
    var v := u[1..];
    assert t[0] == s[1] && u[0] == s[2] && v[0] == s[3] && v[1..] == [];
    assert LineWorth(v) == Worth(v[0]);
  }

  /** The worth of a board is the worth of its lines, in whatever direction. */
  lemma WorthOfLines(g: Grid, dir: nat)
    requires dir < 4
    ensures GridWorth(g) == LineWorth(LineOf(g, dir, 0)) + LineWorth(LineOf(g, dir, 1))
                            + LineWorth(LineOf(g, dir, 2)) + LineWorth(LineOf(g, dir, 3))
  {
    hide Worth, LineWorth;
    FourWorth(g[0]);
    FourWorth(g[1]);
    FourWorth(g[2]);
    FourWorth(g[3]);
    FourWorth(LineOf(g, dir, 0));
    FourWorth(LineOf(g, dir, 1));
    FourWorth(LineOf(g, dir, 2));
    FourWorth(LineOf(g, dir, 3));
  }

  lemma LegalLines(g: Grid, dir: nat)
    requires dir < 4
    ensures Legal(g) <==> forall i :: 0 <= i < 4 ==> Playable(LineOf(g, dir, i))
  {
    hide Tile;
    if forall i :: 0 <= i < 4 ==> Playable(LineOf(g, dir, i)) {
      forall y, x | 0 <= y < 4 && 0 <= x < 4 ensures g[y][x] == 0 || Tile(g[y][x]) {
        var i := if dir % 2 == 0 then x else y;
        var j := if dir == 0 then y else if dir == 1 then 3 - x else if dir == 2 then 3 - y else x;
        assert Place(dir, i, j) == (y, x);
        assert LineOf(g, dir, i)[j] == g[y][x];
      }
    } else {
      var i :| 0 <= i < 4 && !Playable(LineOf(g, dir, i));
      var j :| 0 <= j < 4 && LineOf(g, dir, i)[j] != 0 && !Tile(LineOf(g, dir, i)[j]);
      var p := Place(dir, i, j);
      assert LineOf(g, dir, i)[j] == g[p.0][p.1];
    }
  }

  /** A move is worth its score, and leaves powers of two. */
  lemma MoveWorth(g: Grid, dir: nat, h: Grid)
    requires dir < 4 && Legal(g) && Slid(g, dir, h)
    ensures Legal(h) && GridWorth(h) == GridWorth(g) + Score(g, dir)
  {
    hide Legal, LineWorth, GridWorth, LineOf, Playable;
    LegalLines(g, dir);
    forall i | 0 <= i < 4
      ensures Playable(LineOf(h, dir, i))
      ensures LineWorth(LineOf(h, dir, i)) == LineWorth(LineOf(g, dir, i)) + Gain(Tiles(LineOf(g, dir, i))) {
      SlideWorth(LineOf(g, dir, i));
    }
    LegalLines(h, dir);
    WorthOfLines(g, dir);
    WorthOfLines(h, dir);
  }

  // ---------------------------------------------------------------- no move left

  /** What board_has_move looks for. */
  predicate Open(g: Grid, y: nat, x: nat)
    requires y < 4 && x < 4
  {
    || g[y][x] == 0
    || (x < 3 && g[y][x] == g[y][x+1])
    || (y < 3 && g[y][x] == g[y+1][x])
  }

  ghost predicate HasMove(g: Grid)
  {
    exists y, x :: 0 <= y < 4 && 0 <= x < 4 && Open(g, y, x)
  }

  ghost predicate HasTile(g: Grid)
  {
    exists y, x :: 0 <= y < 4 && 0 <= x < 4 && g[y][x] != 0
  }

  /** A line with a gap or equal neighbours moves one way or the other, unless it is empty. */
  lemma LineMoves(s: seq<int>, r: seq<int>)
    requires |s| == 4 && |r| == 4 && forall j :: 0 <= j < 4 ==> r[j] == s[3-j]
    requires Stuck(s) && Stuck(r)
    ensures (forall j :: 0 <= j < 4 ==> s[j] == 0) || (forall j :: 0 <= j < 4 ==> s[j] != 0)
    ensures forall j :: 0 <= j < 3 && s[j] != 0 ==> s[j] != s[j+1]
  {
    assert s[0+1] != 0 ==> s[0] != 0;
    assert s[1+1] != 0 ==> s[1] != 0;
    assert s[2+1] != 0 ==> s[2] != 0;
    assert r[0+1] != 0 ==> r[0] != 0;
    assert r[1+1] != 0 ==> r[1] != 0;
    assert r[2+1] != 0 ==> r[2] != 0;
  }

  lemma StuckLine(g: Grid, dir: nat, i: nat)
    requires dir < 4 && i < 4 && !Changes(g, dir)
    ensures Stuck(LineOf(g, dir, i))
  {
    SlidIsStuck(LineOf(g, dir, i));
  }

  lemma StuckBothWays(g: Grid, dir: nat, i: nat)
    requires dir < 2 && i < 4 && !Changes(g, dir) && !Changes(g, dir + 2)
    ensures var s := LineOf(g, dir, i);
            && ((forall j :: 0 <= j < 4 ==> s[j] == 0) || (forall j :: 0 <= j < 4 ==> s[j] != 0))
            && (forall j :: 0 <= j < 3 && s[j] != 0 ==> s[j] != s[j+1])
  {
    StuckLine(g, dir, i);
    StuckLine(g, dir + 2, i);
    hide Changes, Stuck;
    var s, r := LineOf(g, dir, i), LineOf(g, dir + 2, i);
    forall j | 0 <= j < 4 ensures r[j] == s[3-j] {
      assert Place(dir + 2, i, j) == Place(dir, i, 3 - j);
    }
    LineMoves(s, r);
  }

  /** With a tile on the board, no direction changes it exactly if board_has_move finds none. */
  lemma OverIsOver(g: Grid)
    requires HasTile(g)
    ensures HasMove(g) <==> exists dir :: 0 <= dir < 4 && Changes(g, dir)
  {
    if HasMove(g) {
      if forall dir :: 0 <= dir < 4 ==> !Changes(g, dir) { NoneChanges(g); }
    } else {
      forall dir | 0 <= dir < 4 ensures !Changes(g, dir) { NoneOpen(g, dir); }
    }
  }

  lemma NoneOpen(g: Grid, dir: nat)
    requires dir < 4 && !HasMove(g)
    ensures !Changes(g, dir)
  {
    forall y, x | 0 <= y < 4 && 0 <= x < 4 ensures !Open(g, y, x) { }
    forall i | 0 <= i < 4 ensures Slide(LineOf(g, dir, i)) == LineOf(g, dir, i) {
      var s := LineOf(g, dir, i);
      forall j | 0 <= j < 3 ensures (s[j+1] != 0 ==> s[j] != 0) && (s[j] != 0 ==> s[j] != s[j+1]) {
        var p, q := Place(dir, i, j), Place(dir, i, j + 1);
        assert s[j] == g[p.0][p.1] && s[j+1] == g[q.0][q.1];
        assert !Open(g, p.0, p.1) && !Open(g, q.0, q.1);
      }
      StuckStays(s);
    }
  }

  lemma StuckRow(g: Grid, y: nat)
    requires y < 4 && !Changes(g, 1) && !Changes(g, 3)
    ensures (forall x :: 0 <= x < 4 ==> g[y][x] == 0) || (forall x :: 0 <= x < 4 ==> g[y][x] != 0)
    ensures forall x :: 0 <= x < 3 && g[y][x] != 0 ==> g[y][x] != g[y][x+1]
  {
    StuckBothWays(g, 1, y);
    hide Changes;
    var s := LineOf(g, 1, y);
    forall x | 0 <= x < 4 ensures g[y][x] == s[3-x] { }
    forall x | 0 <= x < 3 && g[y][x] != 0 ensures g[y][x] != g[y][x+1] {
      assert s[2-x] == g[y][x+1] && s[2-x+1] == g[y][x];
    }
  }

  lemma StuckColumn(g: Grid, x: nat)
    requires x < 4 && !Changes(g, 0) && !Changes(g, 2)
    ensures (forall y :: 0 <= y < 4 ==> g[y][x] == 0) || (forall y :: 0 <= y < 4 ==> g[y][x] != 0)
    ensures forall y :: 0 <= y < 3 && g[y][x] != 0 ==> g[y][x] != g[y+1][x]
  {
    StuckBothWays(g, 0, x);
    hide Changes;
    var s := LineOf(g, 0, x);
    forall y | 0 <= y < 4 ensures g[y][x] == s[y] { }
  }

  lemma NoneChanges(g: Grid)
    requires HasTile(g) && forall dir :: 0 <= dir < 4 ==> !Changes(g, dir)
    ensures !HasMove(g)
  {
    var v, u :| 0 <= v < 4 && 0 <= u < 4 && g[v][u] != 0;
    StuckRow(g, v);
    forall y, x | 0 <= y < 4 && 0 <= x < 4 ensures !Open(g, y, x) {
      StuckColumn(g, x);
      StuckRow(g, y);
      assert g[v][x] != 0;
      assert g[y][x] != 0;
    }
  }

  // ---------------------------------------------------------------- adding a tile

  /** The empty cells, row by row, from the n-th cell on. */
  function EmptyFrom(g: Grid, n: nat): (r: seq<(nat, nat)>)
    requires n <= 16
    ensures forall k :: 0 <= k < |r| ==> r[k].0 < 4 && r[k].1 < 4 && g[r[k].0][r[k].1] == 0
    decreases 16 - n
  {
    if n == 16 then []
    else
      var p := (n / 4, n % 4);
      (if g[p.0][p.1] == 0 then [p] else []) + EmptyFrom(g, n + 1)
  }

  function Set(g: Grid, p: (nat, nat), v: int): Grid
    requires p.0 < 4 && p.1 < 4
  {
    g[p.0 := g[p.0][p.1 := v]]
  }

  /** The result of rand() for the place and for the tile. */
  datatype Roll = Roll(pick: nat, four: nat)

  function NewTile(roll: Roll): int
  {
    if roll.four % 10 == 0 then 4 else 2
  }

  /** board_add_tile. */
  function WithTile(g: Grid, roll: Roll): Grid
  {
    var e := EmptyFrom(g, 0);
    if |e| > 0 then Set(g, e[roll.pick % |e|], NewTile(roll)) else g
  }

  function Fours(g: Grid, roll: Roll): nat
  {
    if |EmptyFrom(g, 0)| > 0 && roll.four % 10 == 0 then 1 else 0
  }

  lemma LineSet(s: seq<int>, x: nat, v: int)
    requires |s| == 4 && x < 4
    ensures LineWorth(s[x := v]) == LineWorth(s) - Worth(s[x]) + Worth(v)
  {
    hide Worth;
    FourWorth(s);
    FourWorth(s[x := v]);
    hide LineWorth;
  }

  lemma NewTileWorth()
    ensures Worth(0) == 0 && Worth(2) == 0 && Worth(4) == 4 && Tile(2) && Tile(4)
  {
    assert Exponent(2) == 1 && Exponent(4) == 2;
    assert PowerOfTwo(2) && PowerOfTwo(4);
  }

  /** A new tile is worth four times the number of fours it is. */
  lemma WithTileWorth(g: Grid, roll: Roll)
    requires Legal(g)
    ensures Legal(WithTile(g, roll))
    ensures GridWorth(WithTile(g, roll)) == GridWorth(g) + 4 * Fours(g, roll)
    ensures HasTile(g) || |EmptyFrom(g, 0)| > 0 ==> HasTile(WithTile(g, roll))
  {
    var e := EmptyFrom(g, 0);
    if |e| > 0 {
      var p, v := e[roll.pick % |e|], NewTile(roll);
      assert WithTile(g, roll) == Set(g, p, v) && g[p.0][p.1] == 0;
      NewTileWorth();
      SetWorth(g, p, v);
      hide EmptyFrom, Worth, GridWorth, Legal, HasTile, Tile;
    }
  }

  lemma SetWorth(g: Grid, p: (nat, nat), v: int)
    requires p.0 < 4 && p.1 < 4 && Legal(g) && Tile(v)
    ensures Legal(Set(g, p, v)) && HasTile(Set(g, p, v))
    ensures GridWorth(Set(g, p, v)) == GridWorth(g) - Worth(g[p.0][p.1]) + Worth(v)
  {
    hide Worth, LineWorth, PowerOfTwo;
    LineSet(g[p.0], p.1, v);
    assert Set(g, p, v)[p.0][p.1] == v;
  }

  // ---------------------------------------------------------------- the game

  function LineNumber(dir: nat, y: nat, x: nat): nat
  {
    if dir % 2 == 0 then x else y
  }

  function LinePlace(dir: nat, y: nat, x: nat): nat
    requires dir < 4 && y < 4 && x < 4
  {
    if dir == 0 then y else if dir == 1 then 3 - x else if dir == 2 then 3 - y else x
  }

  /** The board after a move, before a tile is added. */
  function Moved(g: Grid, dir: nat): Grid
    requires dir < 4
  {
    seq(4, y requires 0 <= y < 4 =>
      seq(4, x requires 0 <= x < 4 =>
        Slide(LineOf(g, dir, LineNumber(dir, y, x)))[LinePlace(dir, y, x)]))
  }

  lemma MovedSlides(g: Grid, dir: nat)
    requires dir < 4
    ensures Slid(g, dir, Moved(g, dir))
  {
    var h := Moved(g, dir);
    forall i | 0 <= i < 4 ensures LineOf(h, dir, i) == Slide(LineOf(g, dir, i)) {
      hide Slide;
      forall j | 0 <= j < 4 ensures LineOf(h, dir, i)[j] == Slide(LineOf(g, dir, i))[j] {
        var p := Place(dir, i, j);
        assert h[p.0][p.1] == Slide(LineOf(g, dir, LineNumber(dir, p.0, p.1)))[LinePlace(dir, p.0, p.1)];
      }
    }
  }

  /** The lines in one direction are the whole board. */
  lemma LinesAreAll(g: Grid, h: Grid, dir: nat)
    requires dir < 4 && forall i :: 0 <= i < 4 ==> LineOf(g, dir, i) == LineOf(h, dir, i)
    ensures g == h
  {
    forall y, x | 0 <= y < 4 && 0 <= x < 4 ensures g[y][x] == h[y][x] {
      var i, j := LineNumber(dir, y, x), LinePlace(dir, y, x);
      assert LineOf(g, dir, i)[j] == LineOf(h, dir, i)[j];
      assert Place(dir, i, j) == (y, x);
    }
    forall y | 0 <= y < 4 ensures g[y] == h[y] { }
  }

  lemma ChangesIsMoved(g: Grid, dir: nat)
    requires dir < 4
    ensures Changes(g, dir) <==> Moved(g, dir) != g
  {
    hide Slide, Moved, LineOf;
    MovedSlides(g, dir);
    if !Changes(g, dir) { LinesAreAll(g, Moved(g, dir), dir); }
  }

  /** A game, with the number of fours that came up as new tiles. */
  datatype Game = Game(g: Grid, score: int, over: bool, fours: nat)

  function EmptyGrid(): (g: Grid)
    ensures forall y, x :: 0 <= y < 4 && 0 <= x < 4 ==> g[y][x] == 0
  {
    seq(4, _ => seq(4, _ => 0))
  }

  /** board_new_game. */
  ghost function NewGame(first: Roll, second: Roll): Game
  {
    var one := WithTile(EmptyGrid(), first);
    Game(WithTile(one, second), 0, false, Fours(EmptyGrid(), first) + Fours(one, second))
  }

  /** game_2048_move. */
  ghost function Play(s: Game, dir: nat, roll: Roll): Game
    requires dir < 4
  {
    if s.over then s
    else
      var h := Moved(s.g, dir);
      var moved := Changes(s.g, dir);
      var n := if moved then WithTile(h, roll) else h;
      Game(n, s.score + Score(s.g, dir), !HasMove(n), s.fours + if moved then Fours(h, roll) else 0)
  }

  datatype Event = Restart(first: Roll, second: Roll) | Button(dir: nat, roll: Roll)

  ghost function After(s: Game, e: Event): Game
  {
    match e
    case Restart(a, b) => NewGame(a, b)
    case Button(dir, roll) => if dir < 4 then Play(s, dir, roll) else s
  }

  ghost function PlayAll(s: Game, events: seq<Event>): Game
    decreases |events|
  {
    if events == [] then s else PlayAll(After(s, events[0]), events[1..])
  }

  /** Tiles are powers of two; the score is what they are worth, but for the fours that came
      as fours; and the game is over exactly when no direction would change the board. */
  ghost predicate Fair(s: Game)
  {
    && Legal(s.g) && HasTile(s.g)
    && s.score == GridWorth(s.g) - 4 * s.fours
    && (s.over <==> forall dir :: 0 <= dir < 4 ==> !Changes(s.g, dir))
  }

  /** Filling a cell takes away at most one empty cell. */
  lemma EmptyNext(g: Grid, n: nat)
    requires n < 16
    ensures |EmptyFrom(g, n)| == (if g[n / 4][n % 4] == 0 then 1 else 0) + |EmptyFrom(g, n + 1)|
  {
  }

  lemma EmptyEnd(g: Grid)
    ensures EmptyFrom(g, 16) == []
  {
  }

  lemma OtherCell(g: Grid, p: (nat, nat), v: int, n: nat)
    requires n < 16 && p.0 < 4 && p.1 < 4
    ensures n != 4 * p.0 + p.1 ==> Set(g, p, v)[n / 4][n % 4] == g[n / 4][n % 4]
  {
    assert n == 4 * (n / 4) + n % 4;
  }

  lemma {:induction false} FillOne(g: Grid, p: (nat, nat), v: int, n: nat)
    requires n <= 16 && p.0 < 4 && p.1 < 4
    ensures |EmptyFrom(g, n)| <= |EmptyFrom(Set(g, p, v), n)| + (if n <= 4 * p.0 + p.1 then 1 else 0)
    decreases 16 - n
  {
    hide Set, EmptyFrom;
    if n < 16 {
      FillOne(g, p, v, n + 1);
      OtherCell(g, p, v, n);
      EmptyNext(g, n);
      EmptyNext(Set(g, p, v), n);
    } else {
      EmptyEnd(g);
      EmptyEnd(Set(g, p, v));
    }
  }

  lemma FillAtMostOne(g: Grid, roll: Roll)
    ensures |EmptyFrom(g, 0)| <= |EmptyFrom(WithTile(g, roll), 0)| + 1
  {
    var e := EmptyFrom(g, 0);
    if |e| > 0 { FillOne(g, e[roll.pick % |e|], NewTile(roll), 0); }
  }

  lemma {:induction false} AllEmpty(n: nat)
    requires n <= 16
    ensures |EmptyFrom(EmptyGrid(), n)| == 16 - n
    decreases 16 - n
  {
    if n < 16 { AllEmpty(n + 1); }
  }

  lemma EmptyWorth()
    ensures GridWorth(EmptyGrid()) == 0 && Legal(EmptyGrid())
  {
    var g := EmptyGrid();
    NewTileWorth();
    hide Worth, LineWorth;
    FourWorth(g[0]);
    FourWorth(g[1]);
    FourWorth(g[2]);
    FourWorth(g[3]);
  }

  /** An empty cell lets something move. */
  lemma EmptyIsOpen(g: Grid)
    requires |EmptyFrom(g, 0)| > 0
    ensures HasMove(g)
  {
    var e := EmptyFrom(g, 0);
    assert Open(g, e[0].0, e[0].1);
  }

  lemma NewGameIsFair(first: Roll, second: Roll)
    ensures Fair(NewGame(first, second))
  {
    hide WithTile, EmptyFrom, Fours, HasMove, Changes, Legal, GridWorth, HasTile, EmptyGrid;
    var g := EmptyGrid();
    var one := WithTile(g, first);
    var two := WithTile(one, second);
    AllEmpty(0);
    EmptyWorth();
    FillAtMostOne(g, first);
    FillAtMostOne(one, second);
    WithTileWorth(g, first);
    WithTileWorth(one, second);
    EmptyIsOpen(two);
    OverIsOver(two);
  }

  lemma {:induction false} TilesLeft(s: seq<int>, j: nat)
    requires j < |s| && s[j] != 0
    ensures Tiles(s) != []
  {
    if s[0] == 0 { TilesLeft(s[1..], j - 1); }
  }

  /** Tiles do not vanish. */
  lemma MovedHasTile(g: Grid, dir: nat)
    requires dir < 4 && HasTile(g)
    ensures HasTile(Moved(g, dir))
  {
    hide Slide, Moved;
    var y, x :| 0 <= y < 4 && 0 <= x < 4 && g[y][x] != 0;
    var i, j := LineNumber(dir, y, x), LinePlace(dir, y, x);
    assert Place(dir, i, j) == (y, x);
    assert LineOf(g, dir, i)[j] != 0;
    SlideHasTile(LineOf(g, dir, i), j);
    MovedSlides(g, dir);
    var h := Moved(g, dir);
    assert LineOf(h, dir, i)[0] != 0;
    var p := Place(dir, i, 0);
    assert h[p.0][p.1] != 0;
  }

  lemma SlideHasTile(s: seq<int>, j: nat)
    requires j < |s| && s[j] != 0
    ensures Slide(s)[0] != 0
  {
    TilesLeft(s, j);
    var m := Merged(Tiles(s));
    assert m != [];
    assert m[0] in m;
  }

  lemma PlayIsFair(s: Game, dir: nat, roll: Roll)
    requires Fair(s) && dir < 4
    ensures Fair(Play(s, dir, roll))
  {
    hide Moved, WithTile, Fours, HasMove, Changes, Legal, GridWorth, HasTile, Slid, EmptyFrom, Score;
    if !s.over {
      var h := Moved(s.g, dir);
      MovedSlides(s.g, dir);
      MoveWorth(s.g, dir, h);
      MovedHasTile(s.g, dir);
      WithTileWorth(h, roll);
      OverIsOver(if Changes(s.g, dir) then WithTile(h, roll) else h);
    }
  }

  /** Every run of the game is fair. */
  lemma {:induction false} EveryRunIsFair(s: Game, events: seq<Event>)
    requires Fair(s)
    ensures Fair(PlayAll(s, events))
    decreases |events|
  {
    if events != [] {
      match events[0] {
        case Restart(a, b) => NewGameIsFair(a, b);
        case Button(dir, roll) => if dir < 4 { PlayIsFair(s, dir, roll); }
      }
      hide Fair, NewGame, Play;
      EveryRunIsFair(After(s, events[0]), events[1..]);
    }
  }
}
