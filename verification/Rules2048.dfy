/** The rules of 2048 in the coordinates of the board: row 0 is at the top, column 0 on the
    left. */
module Rules2048 {
  import opened Line2048
  import opened Game2048

  // ---------------------------------------------------------------- one line

  /** A gap makes no difference: what stands behind it moves up. */
  lemma GapsClose(a: seq<int>, b: seq<int>)
    ensures Slide(a + [0] + b) == Slide(a + b + [0])
  {
    TilesConcat(a + [0], b);
    TilesConcat(a, [0]);
    TilesConcat(a + b, [0]);
    TilesConcat(a, b);
    assert Tiles([0]) == [] by { assert [0][1..] == []; TilesEmpty(); }
    assert Tiles(a) + [] + Tiles(b) == Tiles(a) + Tiles(b) + [];
  }

  /** Without gaps: of equal neighbours the front ones merge first, no tile merges twice, and
      the rest closes up. */
  lemma SlideTable(a: int, b: int, c: int, d: int)
    requires a != 0 && b != 0 && c != 0 && d != 0
    ensures Slide([a, b, c, d]) ==
              if a == b then (if c == d then [2 * a, 2 * c, 0, 0] else [2 * a, c, d, 0])
              else if b == c then [a, 2 * b, d, 0]
              else if c == d then [a, b, 2 * c, 0]
              else [a, b, c, d]
    ensures Slide([a, b, c, 0]) == if a == b then [2 * a, c, 0, 0] else if b == c then [a, 2 * b, 0, 0] else [a, b, c, 0]
    ensures Slide([a, b, 0, 0]) == if a == b then [2 * a, 0, 0, 0] else [a, b, 0, 0]
    ensures Slide([a, 0, 0, 0]) == [a, 0, 0, 0] && Slide([0, 0, 0, 0]) == [0, 0, 0, 0]
  {
    hide Slide, Tiles, Merged;
    SlideFull([a, b, c, d], []);
    SlideFull([a, b, c], [0]);
    SlideFull([a, b], [0, 0]);
    SlideFull([a], [0, 0, 0]);
    SlideFull([], [0, 0, 0, 0]);
    MergedFour(a, b, c, d);
    MergedThree(a, b, c);
    MergedTwo(a, b);
    MergedOne(a);
    assert [a, b, c, d] + [] == [a, b, c, d] && [a, b, c] + [0] == [a, b, c, 0] && [a, b] + [0, 0] == [a, b, 0, 0];
    assert [a] + [0, 0, 0] == [a, 0, 0, 0] && [] + [0, 0, 0, 0] == [0, 0, 0, 0];
    assert Zeros(0) == [] && Zeros(1) == [0] && Zeros(2) == [0, 0] && Zeros(3) == [0, 0, 0] && Zeros(4) == [0, 0, 0, 0];
  }

  lemma SlideFull(s: seq<int>, zeros: seq<int>)
    requires 0 !in s && forall i :: 0 <= i < |zeros| ==> zeros[i] == 0
    ensures Slide(s + zeros) == Merged(s) + Zeros(|s + zeros| - |Merged(s)|)
  {
    hide Slide, Merged, Tiles, Zeros;
    AllZeros(zeros);
    TilesConcat(s, zeros);
    TilesOfZeros(|zeros|);
    TilesOfTiles(s);
    assert s + [] == s;
    SlideOf(s + zeros, s);
  }

  lemma SlideOf(line: seq<int>, t: seq<int>)
    requires Tiles(line) == t && 0 !in t
    ensures Slide(line) == Merged(t) + Zeros(|line| - |Merged(t)|)
  {
    hide Merged, Tiles, Zeros;
  }

  lemma AllZeros(zeros: seq<int>)
    requires forall i :: 0 <= i < |zeros| ==> zeros[i] == 0
    ensures zeros == Zeros(|zeros|)
  {
  }

  lemma MergedOne(a: int)
    requires a != 0
    ensures Merged([a]) == [a] && Merged([]) == []
  {
    assert [a][1..] == [];
  }

  lemma MergedTwo(a: int, b: int)
    requires a != 0 && b != 0
    ensures Merged([a, b]) == if a == b then [2 * a] else [a, b]
  {
    MergedOne(b);
    assert [a, b][1..] == [b] && [a, b][2..] == [];
  }

  lemma MergedThree(a: int, b: int, c: int)
    requires a != 0 && b != 0 && c != 0
    ensures Merged([a, b, c]) == if a == b then [2 * a, c] else if b == c then [a, 2 * b] else [a, b, c]
  {
    MergedOne(c);
    MergedTwo(b, c);
    assert [a, b, c][1..] == [b, c] && [a, b, c][2..] == [c];
  }

  lemma MergedFour(a: int, b: int, c: int, d: int)
    requires a != 0 && b != 0 && c != 0 && d != 0
    ensures Merged([a, b, c, d]) ==
              if a == b then (if c == d then [2 * a, 2 * c] else [2 * a, c, d])
              else if b == c then [a, 2 * b, d]
              else if c == d then [a, b, 2 * c]
              else [a, b, c, d]
  {
    MergedTwo(c, d);
    MergedThree(b, c, d);
    assert [a, b, c, d][1..] == [b, c, d] && [a, b, c, d][2..] == [c, d];
  }

  // ---------------------------------------------------------------- the four directions

  /** Button 0 slides every column to the top, 1 every row to the right, 2 every column to the
      bottom, and 3 every row to the left. */
  lemma Directions(g: Grid, i: nat)
    requires i < 4
    ensures var h := Moved(g, 0); [h[0][i], h[1][i], h[2][i], h[3][i]] == Slide([g[0][i], g[1][i], g[2][i], g[3][i]])
    ensures var h := Moved(g, 1); [h[i][3], h[i][2], h[i][1], h[i][0]] == Slide([g[i][3], g[i][2], g[i][1], g[i][0]])
    ensures var h := Moved(g, 2); [h[3][i], h[2][i], h[1][i], h[0][i]] == Slide([g[3][i], g[2][i], g[1][i], g[0][i]])
    ensures var h := Moved(g, 3); [h[i][0], h[i][1], h[i][2], h[i][3]] == Slide([g[i][0], g[i][1], g[i][2], g[i][3]])
  {
    hide Slide, Moved, LineOf;
    MovedSlides(g, 0);
    MovedSlides(g, 1);
    MovedSlides(g, 2);
    MovedSlides(g, 3);
    LinesAre(g, i);
    LinesAre(Moved(g, 0), i);
    LinesAre(Moved(g, 1), i);
    LinesAre(Moved(g, 2), i);
    LinesAre(Moved(g, 3), i);
  }

  lemma LinesAre(g: Grid, i: nat)
    requires i < 4
    ensures LineOf(g, 0, i) == [g[0][i], g[1][i], g[2][i], g[3][i]]
    ensures LineOf(g, 1, i) == [g[i][3], g[i][2], g[i][1], g[i][0]]
    ensures LineOf(g, 2, i) == [g[3][i], g[2][i], g[1][i], g[0][i]]
    ensures LineOf(g, 3, i) == [g[i][0], g[i][1], g[i][2], g[i][3]]
  {
  }

  // ---------------------------------------------------------------- the new tile

  /** How many of the first n cells, row by row, are empty. */
  function EmptyBefore(g: Grid, n: nat): nat
    requires n <= 16
  {
    if n == 0 then 0 else EmptyBefore(g, n - 1) + if g[(n - 1) / 4][(n - 1) % 4] == 0 then 1 else 0
  }

  lemma {:induction false} EmptyRank(g: Grid, n: nat, k: nat)
    requires n <= 16 && k < |EmptyFrom(g, n)|
    ensures var p := EmptyFrom(g, n)[k];
            n <= 4 * p.0 + p.1 < 16 && EmptyBefore(g, 4 * p.0 + p.1) == EmptyBefore(g, n) + k
    decreases 16 - n
  {
    hide EmptyFrom, EmptyBefore;
    EmptyStep(g, n);
    if g[n / 4][n % 4] == 0 {
      if k > 0 { EmptyRank(g, n + 1, k - 1); }
    } else {
      EmptyRank(g, n + 1, k);
    }
  }

  lemma EmptyStep(g: Grid, n: nat)
    requires n <= 16
    ensures n < 16 ==> EmptyFrom(g, n) == (if g[n / 4][n % 4] == 0 then [(n / 4, n % 4)] else []) + EmptyFrom(g, n + 1)
    ensures n < 16 ==> EmptyBefore(g, n + 1) == EmptyBefore(g, n) + if g[n / 4][n % 4] == 0 then 1 else 0
    ensures n == 16 ==> EmptyFrom(g, n) == []
    ensures 4 * (n / 4) + n % 4 == n
  {
  }

  lemma {:induction false} EmptyCount(g: Grid, n: nat)
    requires n <= 16
    ensures EmptyBefore(g, n) + |EmptyFrom(g, n)| == EmptyBefore(g, 16)
    decreases 16 - n
  {
    if n < 16 { EmptyCount(g, n + 1); }
  }

  /** The new tile goes to the empty cell with the number that was drawn, counted row by row,
      and is a four once in ten draws, otherwise a two; a full board gets none. */
  lemma NewTileMeans(g: Grid, roll: Roll)
    ensures EmptyBefore(g, 16) == 0 ==> WithTile(g, roll) == g
    ensures EmptyBefore(g, 16) > 0 ==>
              exists y, x :: 0 <= y < 4 && 0 <= x < 4 && g[y][x] == 0
                && EmptyBefore(g, 4 * y + x) == roll.pick % EmptyBefore(g, 16)
                && WithTile(g, roll) == g[y := g[y][x := if roll.four % 10 == 0 then 4 else 2]]
  {
    hide EmptyFrom, EmptyBefore;
    EmptyCount(g, 0);
    NoneBefore(g);
    var e := EmptyFrom(g, 0);
    if |e| > 0 {
      var k := roll.pick % |e|;
      EmptyRank(g, 0, k);
      var p := e[k];
      assert g[p.0][p.1] == 0;
    }
  }

  lemma NoneBefore(g: Grid)
    ensures EmptyBefore(g, 0) == 0
  {
  }

  /** A press on a direction button in a running game: if anything slides, the slid board with
      a new tile, and otherwise the board as it was. */
  lemma PressMeans(s: Game, dir: nat, roll: Roll)
    requires !s.over && dir < 4
    ensures var n := After(s, Button(dir, roll));
            n.g == if Moved(s.g, dir) == s.g then s.g else WithTile(Moved(s.g, dir), roll)
  {
    hide Moved, WithTile, Changes, HasMove;
    ChangesIsMoved(s.g, dir);
  }

  /** A new game: two new tiles on an empty board, no score, not over. */
  lemma RestartMeans(s: Game, first: Roll, second: Roll)
    ensures var n := After(s, Restart(first, second));
            n.g == WithTile(WithTile(EmptyGrid(), first), second) && n.score == 0 && !n.over
  {
  }
}
