/** The 2048 game as it runs: a board that is changed in place, a score and a flag. Each
    handler does what the game's model says. */
module Board2048 {
  import opened Line2048
  import opened Game2048

  /** The cells from the n-th on are looked at one by one. */
  lemma NextCell(g: Grid, y: nat, x: nat, found: seq<(nat, nat)>)
    requires y < 4 && x < 4
    ensures found + EmptyFrom(g, 4 * y + x) ==
              (if g[y][x] == 0 then found + [(y, x)] else found) + EmptyFrom(g, 4 * y + x + 1)
  {
    assert (4 * y + x) / 4 == y && (4 * y + x) % 4 == x;
  }

  /** The first lines have slid, the others not yet. */
  ghost predicate Sliding(g: Grid, dir: nat, h: Grid, n: nat)
    requires dir < 4 && n <= 4
  {
    && (forall i :: 0 <= i < n ==> LineOf(h, dir, i) == Slide(LineOf(g, dir, i)))
    && (forall i :: n <= i < 4 ==> LineOf(h, dir, i) == LineOf(g, dir, i))
  }

  function ScoreOf(g: Grid, dir: nat, n: nat): int
    requires dir < 4 && n <= 4
  {
    if n == 0 then 0 else ScoreOf(g, dir, n - 1) + Gain(Tiles(LineOf(g, dir, n - 1)))
  }

  ghost predicate Differs(g: Grid, dir: nat, n: nat)
    requires dir < 4 && n <= 4
  {
    exists i :: 0 <= i < n && Slide(LineOf(g, dir, i)) != LineOf(g, dir, i)
  }

  /** One more line. */
  lemma SlideNext(g: Grid, dir: nat, h: Grid, k: Grid, n: nat)
    requires dir < 4 && n < 4 && Sliding(g, dir, h, n)
    requires LineOf(k, dir, n) == Slide(LineOf(h, dir, n))
    requires forall i :: 0 <= i < 4 && i != n ==> LineOf(k, dir, i) == LineOf(h, dir, i)
    ensures Sliding(g, dir, k, n + 1)
  {
  }

  lemma AllSlid(g: Grid, dir: nat, h: Grid)
    requires dir < 4 && Sliding(g, dir, h, 4)
    ensures h == Moved(g, dir)
    ensures ScoreOf(g, dir, 4) == Score(g, dir)
    ensures Differs(g, dir, 4) <==> Changes(g, dir)
  {
    hide Slide, Moved, LineOf, Tiles, Gain;
    MovedSlides(g, dir);
    LinesAreAll(h, Moved(g, dir), dir);
    assert ScoreOf(g, dir, 1) == Gain(Tiles(LineOf(g, dir, 0)));
    assert ScoreOf(g, dir, 2) == Gain(Tiles(LineOf(g, dir, 0))) + Gain(Tiles(LineOf(g, dir, 1)));
  }

  class Board {
    const board: array2<int>
    var score: int
    var over: bool
    ghost var fours: nat

    constructor ()
      ensures Valid() && fresh(board)
    {
      board := new int[4, 4]((_, _) => 0);
      score, over, fours := 0, false, 0;
    }

    ghost predicate Valid()
    {
      board.Length0 == 4 && board.Length1 == 4
    }

    ghost function Cells(): (g: Grid)
      requires Valid()
      reads board
      ensures forall y, x :: 0 <= y < 4 && 0 <= x < 4 ==> g[y][x] == board[y, x]
    {
      seq(4, y requires 0 <= y < 4 && Valid() reads board =>
        seq(4, x requires 0 <= x < 4 && Valid() reads board => board[y, x]))
    }

    ghost function Model(): Game
      requires Valid()
      reads this, board
    {
      Game(Cells(), score, over, fours)
    }

    /** board_has_move. */
    method HasAnyMove() returns (r: bool)
      requires Valid()
      ensures r <==> HasMove(Cells())
    {
      ghost var g := Cells();
      var y := 0;
      while y < 4
        invariant y <= 4 && forall v, u :: 0 <= v < y && 0 <= u < 4 ==> !Open(g, v, u)
      {
        var x := 0;
        while x < 4
          invariant x <= 4 && forall u :: 0 <= u < x ==> !Open(g, y, u)
        {
          assert g[y][x] == board[y, x];
          if board[y, x] == 0 || (x < 3 && board[y, x] == board[y, x+1]) || (y < 3 && board[y, x] == board[y+1, x]) {
            assert Open(g, y, x);
            return true;
          }
          x := x + 1;
        }
        y := y + 1;
      }
      return false;
    }

    /** The empty cells, row by row. */
    method FindEmpty() returns (empty: array<(nat, nat)>, cnt: nat)
      requires Valid()
      ensures fresh(empty) && cnt <= empty.Length && empty[..cnt] == EmptyFrom(Cells(), 0)
    {
      hide EmptyFrom;
      ghost var g := Cells();
      empty := new (nat, nat)[16](_ => (0, 0));
      cnt := 0;
      var y := 0;
      while y < 4
        invariant y <= 4 && cnt <= 4 * y
        invariant EmptyFrom(g, 0) == empty[..cnt] + EmptyFrom(g, 4 * y)
      {
        var x := 0;
        while x < 4
          invariant x <= 4 && cnt <= 4 * y + x
          invariant EmptyFrom(g, 0) == empty[..cnt] + EmptyFrom(g, 4 * y + x)
        {
          NextCell(g, y, x, empty[..cnt]);
          assert g[y][x] == board[y, x];
          if board[y, x] == 0 {
            empty[cnt] := (y, x);
            assert empty[..cnt+1] == empty[..cnt] + [(y, x)];
            cnt := cnt + 1;
          }
          x := x + 1;
        }
        y := y + 1;
      }
      NoMoreCells(g);
    }

    /** board_add_tile. */
    method AddTile(roll: Roll)
      requires Valid()
      modifies board, this`fours
      ensures Cells() == WithTile(old(Cells()), roll)
      ensures fours == old(fours) + Fours(old(Cells()), roll)
    {
      hide WithTile, EmptyFrom;
      ghost var g := Cells();
      var empty, cnt := FindEmpty();
      TileAdded(g, roll);
      if cnt > 0 {
        var pick := roll.pick % cnt;
        var p := empty[pick];
        assert p == EmptyFrom(g, 0)[pick];
        board[p.0, p.1] := NewTile(roll);
        SameCells(Cells(), Set(g, p, NewTile(roll)));
      }
      fours := fours + Fours(g, roll);
    }

    /** The line that a move in this direction slides. */
    method ReadLine(dir: nat, i: nat, line: array<int>)
      requires Valid() && dir < 4 && i < 4 && line.Length == 4
      modifies line
      ensures line[..] == LineOf(Cells(), dir, i)
    {
      ghost var g := Cells();
      ghost var s := LineOf(g, dir, i);
      var j := 0;
      while j < 4
        invariant j <= 4 && forall k :: 0 <= k < j ==> line[k] == s[k]
      {
        if dir == 0 { line[j] := board[j, i]; }
        if dir == 1 { line[j] := board[i, 3 - j]; }
        if dir == 2 { line[j] := board[3 - j, i]; }
        if dir == 3 { line[j] := board[i, j]; }
        j := j + 1;
      }
    }

    method WriteCell(dir: nat, i: nat, j: nat, v: int)
      requires Valid() && dir < 4 && i < 4 && j < 4
      modifies board
      ensures Cells() == Set(old(Cells()), Place(dir, i, j), v)
    {
      ghost var h := Cells();
      if dir == 0 { board[j, i] := v; }
      if dir == 1 { board[i, 3 - j] := v; }
      if dir == 2 { board[3 - j, i] := v; }
      if dir == 3 { board[i, j] := v; }
      SameCells(Cells(), Set(h, Place(dir, i, j), v));
    }

    method WriteLine(dir: nat, i: nat, line: array<int>)
      requires Valid() && dir < 4 && i < 4 && line.Length == 4
      modifies board
      ensures LineOf(Cells(), dir, i) == line[..]
      ensures forall k :: 0 <= k < 4 && k != i ==> LineOf(Cells(), dir, k) == old(LineOf(Cells(), dir, k))
    {
      hide LineOf, Written, Set, Place;
      ghost var g := Cells();
      var j := 0;
      NothingWritten(g, dir, i, line[..]);
      while j < 4
        invariant j <= 4 && Written(g, Cells(), dir, i, line[..], j)
      {
        WriteOne(g, Cells(), dir, i, line[..], j);
        WriteCell(dir, i, j, line[j]);
        j := j + 1;
      }
      LineWritten(g, Cells(), dir, i, line[..]);
    }

    /** game_2048_move. */
    method Move(dir: nat, roll: Roll)
      requires Valid() && dir < 4
      modifies this, board
      ensures Model() == Play(old(Model()), dir, roll)
    {
      hide Slide, LineOf, HasMove, WithTile, Moved, Changes, Score, Sliding, Differs, ScoreOf, Tiles, Gain, Fours;
      if over { return; }
      ghost var g := Cells();
      var moved := false;
      var line := new int[4];
      var i := 0;
      NoneSlid(g, dir);
      while i < 4
        invariant i <= 4 && !over && fours == old(fours)
        invariant Sliding(g, dir, Cells(), i)
        invariant score == old(score) + ScoreOf(g, dir, i)
        invariant moved <==> Differs(g, dir, i)
      {
        moved := SlideLine(dir, i, line, moved, g);
        i := i + 1;
      }
      AllSlid(g, dir, Cells());
      if moved {
        AddTile(roll);
      }
      var any := HasAnyMove();
      if !any {
        over := true;
      }
    }

    /** Slide line i; `moved` is updated. */
    method SlideLine(dir: nat, i: nat, line: array<int>, moved: bool, ghost g: Grid) returns (now: bool)
      requires Valid() && dir < 4 && i < 4 && line.Length == 4
      requires Sliding(g, dir, Cells(), i) && (moved <==> Differs(g, dir, i))
      modifies line, board, this`score
      ensures Sliding(g, dir, Cells(), i + 1) && (now <==> Differs(g, dir, i + 1))
      ensures score == old(score) + ScoreOf(g, dir, i + 1) - ScoreOf(g, dir, i)
    {
      hide Slide, LineOf, Tiles, Gain;
      ghost var h := Cells();
      ReadLine(dir, i, line);
      var changed, gain := CompressLine(line);
      score := score + gain;
      WriteLine(dir, i, line);
      SlideNext(g, dir, h, Cells(), i);
      now := moved || changed;
    }

    /** board_new_game. */
    method Restart(first: Roll, second: Roll)
      requires Valid()
      modifies this, board
      ensures Model() == NewGame(first, second)
    {
      hide WithTile, Fours;
      forall y, x | 0 <= y < 4 && 0 <= x < 4 {
        board[y, x] := 0;
      }
      score, over, fours := 0, false, 0;
      SameCells(Cells(), EmptyGrid());
      AddTile(first);
      AddTile(second);
    }
  }

  lemma SameCells(g: Grid, h: Grid)
    requires forall y, x :: 0 <= y < 4 && 0 <= x < 4 ==> g[y][x] == h[y][x]
    ensures g == h
  {
    forall y | 0 <= y < 4 ensures g[y] == h[y] { }
  }

  lemma NoneSlid(g: Grid, dir: nat)
    requires dir < 4
    ensures Sliding(g, dir, g, 0) && ScoreOf(g, dir, 0) == 0 && !Differs(g, dir, 0)
  {
  }

  /** The first n cells of line i are written, the rest of the board is as it was. */
  ghost predicate Written(g: Grid, h: Grid, dir: nat, i: nat, line: seq<int>, n: nat)
    requires dir < 4 && i < 4 && |line| == 4
  {
    forall y, x :: 0 <= y < 4 && 0 <= x < 4 ==>
      h[y][x] == if LineNumber(dir, y, x) == i && LinePlace(dir, y, x) < n then line[LinePlace(dir, y, x)] else g[y][x]
  }

  lemma NothingWritten(g: Grid, dir: nat, i: nat, line: seq<int>)
    requires dir < 4 && i < 4 && |line| == 4
    ensures Written(g, g, dir, i, line, 0)
  {
  }

  lemma WriteOne(g: Grid, h: Grid, dir: nat, i: nat, line: seq<int>, n: nat)
    requires dir < 4 && i < 4 && |line| == 4 && n < 4 && Written(g, h, dir, i, line, n)
    ensures Written(g, Set(h, Place(dir, i, n), line[n]), dir, i, line, n + 1)
  {
  }

  lemma LineWritten(g: Grid, h: Grid, dir: nat, i: nat, line: seq<int>)
    requires dir < 4 && i < 4 && |line| == 4 && Written(g, h, dir, i, line, 4)
    ensures LineOf(h, dir, i) == line
    ensures forall k :: 0 <= k < 4 && k != i ==> LineOf(h, dir, k) == LineOf(g, dir, k)
  {
    forall k, j | 0 <= k < 4 && 0 <= j < 4
      ensures LineOf(h, dir, k)[j] == if k == i then line[j] else LineOf(g, dir, k)[j] {
      var p := Place(dir, k, j);
      assert LineNumber(dir, p.0, p.1) == k && LinePlace(dir, p.0, p.1) == j;
      assert h[p.0][p.1] == if k == i then line[j] else g[p.0][p.1];
    }
  }

  lemma NoMoreCells(g: Grid)
    ensures EmptyFrom(g, 16) == []
  {
  }

  lemma TileAdded(g: Grid, roll: Roll)
    ensures var e := EmptyFrom(g, 0);
            WithTile(g, roll) == if |e| > 0 then Set(g, e[roll.pick % |e|], NewTile(roll)) else g
  {
    hide EmptyFrom;
  }
}
