/** The snake game: along every run the body is a chain of distinct cells of the grid, it has
    grown exactly as the score says, and a live snake does not turn into its own neck. */
module Snake {
  const COLS: nat := 15
  const ROWS: nat := 13
  const MAX_LEN: nat := COLS * ROWS

  datatype Point = Point(x: int, y: int)

  predicate OnGrid(p: Point)
  {
    0 <= p.x < COLS && 0 <= p.y < ROWS
  }

  /** Up, right, down, left. */
  function Ahead(p: Point, dir: nat): Point
  {
    if dir == 0 then Point(p.x, p.y - 1)
    else if dir == 1 then Point(p.x + 1, p.y)
    else if dir == 2 then Point(p.x, p.y + 1)
    else if dir == 3 then Point(p.x - 1, p.y)
    else p
  }

  predicate Adjacent(p: Point, q: Point)
  {
    (p.x == q.x && (p.y == q.y + 1 || q.y == p.y + 1)) || (p.y == q.y && (p.x == q.x + 1 || q.x == p.x + 1))
  }

  datatype Game = Game(body: seq<Point>, food: Point, dir: nat, next: nat, score: int, over: bool)

  /** Results of rand() for the places that are tried. */
  type Rolls = nat -> (nat, nat)

  function Place(r: (nat, nat)): Point
  {
    Point(r.0 % COLS, r.1 % ROWS)
  }

  /** The first free place from a try on; after 200 tries the food goes to the corner. */
  function PlaceFood(body: seq<Point>, rolls: Rolls, tries: nat): Point
    decreases 200 - tries
  {
    if tries >= 200 then Point(0, 0)
    else if Place(rolls(tries)) in body then PlaceFood(body, rolls, tries + 1)
    else Place(rolls(tries))
  }

  /** snake_new_game. */
  function NewGame(rolls: Rolls): Game
  {
    var body := [Point(7, 6), Point(6, 6), Point(5, 6), Point(4, 6)];
    Game(body, PlaceFood(body, rolls, 0), 1, 1, 0, false)
  }

  /** The direction of the next step: a turn back is not taken. */
  function Turn(dir: nat, next: nat): nat
  {
    if (dir == 0 && next != 2) || (dir == 1 && next != 3) || (dir == 2 && next != 0) || (dir == 3 && next != 1)
    then next else dir
  }

  /** snake_step. The guard on the length is the source's. */
  function Step(s: Game, rolls: Rolls): Game
    requires s.body != []
  {
    if s.over then s
    else
      var dir := Turn(s.dir, s.next);
      var head := Ahead(s.body[0], dir);
      if !OnGrid(head) || head in s.body then s.(dir := dir, over := true)
      else
        var grow := head == s.food;
        var longer := grow && |s.body| < MAX_LEN;
        var body := [head] + if longer then s.body else s.body[..|s.body|-1];
        Game(body, if grow then PlaceFood(body, rolls, 0) else s.food, dir, s.next,
             if grow then s.score + 10 else s.score, false)
  }

  datatype Event = Tick(rolls: Rolls) | Button(dir: nat) | Restart(rolls: Rolls)

  /** The timer, a direction button (numbered 0 to 3), or the restart button. */
  function After(s: Game, e: Event): Game
  {
    match e
    case Tick(rolls) => if s.body == [] then s else Step(s, rolls)
    case Button(dir) => if dir < 4 then s.(next := dir) else s
    case Restart(rolls) => NewGame(rolls)
  }

  function Play(s: Game, events: seq<Event>): Game
    decreases |events|
  {
    if events == [] then s else Play(After(s, events[0]), events[1..])
  }

  // ---------------------------------------------------------------- the invariant

  predicate NoRepeats(body: seq<Point>)
  {
    forall i, j :: 0 <= i < j < |body| ==> body[i] != body[j]
  }

  /** A chain of distinct cells of the grid. */
  predicate Body(body: seq<Point>)
  {
    && |body| >= 4 && NoRepeats(body)
    && (forall i :: 0 <= i < |body| ==> OnGrid(body[i]))
    && (forall i :: 0 <= i < |body| - 1 ==> Adjacent(body[i], body[i+1]))
  }

  /** The neck is behind the head, as the snake is moving. */
  predicate Moving(s: Game)
    requires |s.body| >= 2
  {
    s.dir < 4 && s.next < 4 && s.body[0] == Ahead(s.body[1], s.dir)
  }

  predicate Sound(s: Game)
  {
    && Body(s.body) && s.dir < 4 && s.next < 4
    && s.score == 10 * (|s.body| - 4)
    && (!s.over ==> Moving(s))
  }

  /** Distinct numbers below n are at most n. */
  lemma {:induction false} Pigeonhole(s: seq<int>, n: nat)
    requires forall i :: 0 <= i < |s| ==> 0 <= s[i] < n
    requires forall i, j :: 0 <= i < j < |s| ==> s[i] != s[j]
    ensures |s| <= n
    decreases n
  {
    if |s| > 0 { assert 0 <= s[0] < n; }
    if n > 0 {
      if k :| 0 <= k < |s| && s[k] == n - 1 {
        var t := s[..k] + s[k+1..];
        forall i | 0 <= i < |t| ensures 0 <= t[i] < n - 1 {
          assert t[i] == s[if i < k then i else i + 1];
        }
        forall i, j | 0 <= i < j < |t| ensures t[i] != t[j] {
          assert t[i] == s[if i < k then i else i + 1] && t[j] == s[if j < k then j else j + 1];
        }
        Pigeonhole(t, n - 1);
      } else {
        Pigeonhole(s, n - 1);
      }
    }
  }

  function CellNumber(p: Point): int
  {
    p.y * COLS + p.x
  }

  /** There is no room for a snake longer than the grid. */
  lemma FitsGrid(body: seq<Point>)
    requires NoRepeats(body) && forall i :: 0 <= i < |body| ==> OnGrid(body[i])
    ensures |body| <= MAX_LEN
  {
    var s := seq(|body|, i requires 0 <= i < |body| => CellNumber(body[i]));
    forall i, j | 0 <= i < j < |s| ensures s[i] != s[j] {
      assert body[i] != body[j] && OnGrid(body[i]) && OnGrid(body[j]);
    }
    Pigeonhole(s, MAX_LEN);
  }

  lemma Longer(body: seq<Point>, head: Point)
    requires Body(body) && OnGrid(head) && head !in body && Adjacent(head, body[0])
    ensures Body([head] + body)
  {
    var b := [head] + body;
    forall i, j | 0 <= i < j < |b| ensures b[i] != b[j] {
      if i == 0 { assert body[j-1] in body; } else { assert body[i-1] != body[j-1]; }
    }
    forall i | 0 <= i < |b| - 1 ensures Adjacent(b[i], b[i+1]) {
      if i > 0 { assert Adjacent(body[i-1], body[i-1+1]); }
    }
  }

  lemma Shifted(body: seq<Point>, head: Point)
    requires Body(body) && OnGrid(head) && head !in body && Adjacent(head, body[0])
    ensures Body([head] + body[..|body|-1])
  {
    Longer(body, head);
    var b, c := [head] + body, [head] + body[..|body|-1];
    assert c == b[..|body|];
    forall i, j | 0 <= i < j < |c| ensures c[i] != c[j] { assert b[i] != b[j]; }
    forall i | 0 <= i < |c| - 1 ensures Adjacent(c[i], c[i+1]) { assert Adjacent(b[i], b[i+1]); }
  }

  /** The length guard never stops the snake from growing. */
  lemma GuardNeverBlocks(s: Game)
    requires Sound(s) && !s.over
    ensures var head := Ahead(s.body[0], Turn(s.dir, s.next));
            OnGrid(head) && head !in s.body ==> |s.body| < MAX_LEN
  {
    var head := Ahead(s.body[0], Turn(s.dir, s.next));
    if OnGrid(head) && head !in s.body {
      Longer(s.body, head);
      FitsGrid([head] + s.body);
    }
  }

  /** The next head of a live snake is never its neck. */
  lemma NoTurningBack(s: Game)
    requires Sound(s) && !s.over
    ensures Ahead(s.body[0], Turn(s.dir, s.next)) != s.body[1]
  {
  }

  lemma StepIsSound(s: Game, rolls: Rolls)
    requires Sound(s)
    ensures Sound(Step(s, rolls))
  {
    var head := Ahead(s.body[0], Turn(s.dir, s.next));
    if !s.over && OnGrid(head) && head !in s.body {
      GuardNeverBlocks(s);
      Longer(s.body, head);
      Shifted(s.body, head);
      hide Body, PlaceFood;
    }
  }

  lemma NewGameIsSound(rolls: Rolls)
    ensures Sound(NewGame(rolls))
  {
  }

  /** Every run, from a new game on. */
  lemma {:induction false} EveryRunIsSound(s: Game, events: seq<Event>)
    requires Sound(s)
    ensures Sound(Play(s, events))
    decreases |events|
  {
    if events != [] {
      match events[0] {
        case Tick(rolls) => StepIsSound(s, rolls);
        case Button(dir) =>
        case Restart(rolls) => NewGameIsSound(rolls);
      }
      EveryRunIsSound(After(s, events[0]), events[1..]);
    }
  }

  /** The cell that a snake with this head and neck goes to when button d was pressed last: up,
      right, down or left of the head, or straight on if that would be back onto the neck. */
  function Target(head: Point, neck: Point, d: nat): Point
  {
    var x := head.x + if d == 1 then 1 else if d == 3 then -1 else 0;
    var y := head.y + if d == 2 then 1 else if d == 0 then -1 else 0;
    if x == neck.x && y == neck.y then Point(2 * head.x - neck.x, 2 * head.y - neck.y) else Point(x, y)
  }

  lemma TargetIsAhead(s: Game, d: nat)
    requires Sound(s) && !s.over && d < 4
    ensures Target(s.body[0], s.body[1], d) == Ahead(s.body[0], Turn(s.dir, d))
  {
  }

  /** A button steers: the next tick takes the head to the target, and ends the game exactly
      if that is off the grid or on the snake, tail included. The rest of the body moves up;
      on the food the snake grows by one and scores ten. */
  lemma ButtonSteers(s: Game, d: nat, rolls: Rolls)
    requires Sound(s) && !s.over && d < 4
    ensures var n := After(After(s, Button(d)), Tick(rolls));
            var p := Target(s.body[0], s.body[1], d);
            && (n.over <==> !(0 <= p.x < 15 && 0 <= p.y < 13) || p in s.body)
            && (n.over ==> n.body == s.body && n.score == s.score && n.food == s.food)
            && (!n.over && p != s.food ==>
                  n.body == [p] + s.body[..|s.body|-1] && n.score == s.score && n.food == s.food)
            && (!n.over && p == s.food ==> n.body == [p] + s.body && n.score == s.score + 10)
  {
    GuardNeverBlocks(s.(next := d));
    TargetIsAhead(s, d);
    hide Turn, Ahead, PlaceFood, Body, Moving, Target;
  }

  /** Eaten food is put elsewhere: on a cell the longer snake leaves free, if a try hits one. */
  lemma FoodMoves(s: Game, d: nat, rolls: Rolls, k: nat)
    requires Sound(s) && !s.over && d < 4 && Target(s.body[0], s.body[1], d) == s.food
    requires !After(After(s, Button(d)), Tick(rolls)).over
    requires k < 200 && Point(rolls(k).0 % 15, rolls(k).1 % 13) !in [s.food] + s.body
    ensures var n := After(After(s, Button(d)), Tick(rolls));
            n.food !in n.body && 0 <= n.food.x < 15 && 0 <= n.food.y < 13
  {
    ButtonSteers(s, d, rolls);
    GuardNeverBlocks(s.(next := d));
    TargetIsAhead(s, d);
    FoodIsFree([s.food] + s.body, rolls, 0);
    hide PlaceFood, Body, Moving, Target;
    assert Place(rolls(k)) !in [s.food] + s.body;
  }

  /** Once the game is over, only a restart changes it. */
  lemma OverStays(s: Game, rolls: Rolls, d: nat)
    requires s.over
    ensures After(s, Tick(rolls)) == s && After(s, Button(d)).body == s.body && !After(s, Restart(rolls)).over
  {
  }

  /** Without a new button the snake goes straight on after that. */
  lemma StraightOn(s: Game, rolls: Rolls, more: Rolls)
    requires Sound(s) && !s.over
    ensures var n := After(s, Tick(rolls));
            var m := After(n, Tick(more));
            !n.over && !m.over ==>
              && m.body[0].x - n.body[0].x == n.body[0].x - n.body[1].x
              && m.body[0].y - n.body[0].y == n.body[0].y - n.body[1].y
  {
    StepIsSound(s, rolls);
    hide PlaceFood, Body;
  }

  /** A new game begins in the middle of the grid, going right. */
  lemma FirstMove(d: nat, rolls: Rolls)
    requires d < 4
    ensures var n := After(After(NewGame(rolls), Button(d)), Tick(rolls));
            !n.over && n.body[0] == (if d == 0 then Point(7, 5) else if d == 2 then Point(7, 7) else Point(8, 6))
            && n.body[1..4] == [Point(7, 6), Point(6, 6), Point(5, 6)]
  {
    hide PlaceFood, After, Sound;
    var s := NewGame(rolls);
    NewGameIsSound(rolls);
    ButtonSteers(s, d, rolls);
    var p := Target(s.body[0], s.body[1], d);
    assert p == if d == 0 then Point(7, 5) else if d == 2 then Point(7, 7) else Point(8, 6);
    assert p !in s.body;
    var n := After(After(s, Button(d)), Tick(rolls));
    assert n.body[..4] == [p] + s.body[..3];
  }

  /** Food is put on a free cell, or, when none was found, in the corner. */
  lemma {:induction false} FoodIsFree(body: seq<Point>, rolls: Rolls, tries: nat)
    requires tries <= 200
    ensures var f := PlaceFood(body, rolls, tries);
            if exists k :: tries <= k < 200 && Place(rolls(k)) !in body then f !in body && OnGrid(f)
            else f == Point(0, 0)
    decreases 200 - tries
  {
    if tries < 200 { FoodIsFree(body, rolls, tries + 1); }
  }

  /** It is the first free place that is tried. */
  lemma {:induction false} FoodIsFirst(body: seq<Point>, rolls: Rolls, tries: nat, k: nat)
    requires tries <= k < 200 && Point(rolls(k).0 % 15, rolls(k).1 % 13) !in body
    requires forall i :: tries <= i < k ==> Point(rolls(i).0 % 15, rolls(i).1 % 13) in body
    ensures PlaceFood(body, rolls, tries) == Point(rolls(k).0 % 15, rolls(k).1 % 13)
    decreases k - tries
  {
    if tries < k { FoodIsFirst(body, rolls, tries + 1, k); }
  }

  // ---------------------------------------------------------------- the game as it runs

  class SnakeGame {
    const cells: array<Point>
    var len: nat
    var food: Point
    var dir: nat
    var next: nat
    var score: int
    var over: bool

    constructor (rolls: Rolls)
      ensures Valid() && fresh(cells) && Model() == NewGame(rolls)
    {
      cells := new Point[MAX_LEN](_ => Point(0, 0));
      len, food, dir, next, score, over := 4, Point(0, 0), 1, 1, 0, false;
      new;
      Restart(rolls);
    }

    ghost predicate Valid()
      reads this
    {
      cells.Length == MAX_LEN && 0 < len <= MAX_LEN
    }

    ghost function Model(): Game
      requires Valid()
      reads this, cells
    {
      Game(cells[..len], food, dir, next, score, over)
    }

    /** Does the snake lie on this cell? */
    method Hits(p: Point) returns (hit: bool)
      requires Valid()
      ensures hit <==> p in cells[..len]
    {
      var i := 0;
      while i < len
        invariant i <= len && p !in cells[..i]
      {
        if cells[i] == p {
          assert cells[..len][i] == p;
          return true;
        }
        assert cells[..i+1] == cells[..i] + [cells[i]];
        i := i + 1;
      }
      return false;
    }

    /** snake_place_food. */
    method PutFood(rolls: Rolls)
      requires Valid()
      modifies this`food
      ensures food == PlaceFood(cells[..len], rolls, 0)
    {
      var tries := 0;
      while tries < 200
        invariant tries <= 200
        invariant PlaceFood(cells[..len], rolls, 0) == PlaceFood(cells[..len], rolls, tries)
      {
        var p := Place(rolls(tries));
        var hit := Hits(p);
        if !hit {
          food := p;
          return;
        }
        tries := tries + 1;
      }
      food := Point(0, 0);
    }

    /** snake_new_game. */
    method Restart(rolls: Rolls)
      requires Valid()
      modifies this, cells
      ensures Valid() && Model() == NewGame(rolls)
    {
      len := 4;
      cells[0], cells[1], cells[2], cells[3] := Point(7, 6), Point(6, 6), Point(5, 6), Point(4, 6);
      dir, next, score, over := 1, 1, 0, false;
      assert cells[..len] == [Point(7, 6), Point(6, 6), Point(5, 6), Point(4, 6)];
      PutFood(rolls);
    }

    /** The cells move up by one, and the first one becomes the head. */
    method Shift(head: Point)
      requires Valid()
      modifies cells
      ensures cells[..len] == [head] + old(cells[..len-1])
    {
      ghost var was := cells[..];
      var i := len - 1;
      while i > 0
        invariant 0 <= i < len
        invariant forall k :: 0 <= k <= i ==> cells[k] == was[k]
        invariant forall k :: i < k < len ==> cells[k] == was[k-1]
      {
        cells[i] := cells[i-1];
        i := i - 1;
      }
      cells[0] := head;
    }

    /** Where the head goes, after the turn that was asked for. */
    method Steer() returns (head: Point)
      requires Valid()
      modifies this`dir
      ensures dir == Turn(old(dir), next) && head == Ahead(cells[0], dir)
    {
      if (dir == 0 && next != 2) || (dir == 1 && next != 3) || (dir == 2 && next != 0) || (dir == 3 && next != 1) {
        dir := next;
      }
      head := cells[0];
      if dir == 0 { head := head.(y := head.y - 1); }
      if dir == 1 { head := head.(x := head.x + 1); }
      if dir == 2 { head := head.(y := head.y + 1); }
      if dir == 3 { head := head.(x := head.x - 1); }
    }

    /** Move to a free cell, and eat what is there. */
    method Advance(head: Point, rolls: Rolls)
      requires Valid()
      modifies this, cells
      ensures Valid() && dir == old(dir) && next == old(next) && over == old(over)
      ensures var s := old(Model());
              var grow := head == s.food;
              var body := [head] + if grow && |s.body| < MAX_LEN then s.body else s.body[..|s.body|-1];
              && cells[..len] == body
              && food == (if grow then PlaceFood(body, rolls, 0) else s.food)
              && score == if grow then s.score + 10 else s.score
    {
      hide PlaceFood;
      ghost var body := cells[..len];
      var grow := false;
      if head == food {
        grow := true;
        score := score + 10;
      }
      if grow && len < MAX_LEN {
        len := len + 1;
      }
      assert cells[..len-1] == if len > |body| then body else body[..|body|-1];
      Shift(head);
      if grow {
        PutFood(rolls);
      }
    }

    /** snake_step. */
    method Tick(rolls: Rolls)
      requires Valid()
      modifies this, cells
      ensures Valid() && Model() == Step(old(Model()), rolls)
    {
      hide PlaceFood, Ahead, Turn;
      if over { return; }
      assert cells[..len][0] == cells[0];
      var head := Steer();
      if head.x < 0 || head.x >= COLS || head.y < 0 || head.y >= ROWS {
        over := true;
        return;
      }
      var hit := Hits(head);
      if hit {
        over := true;
        return;
      }
      Advance(head, rolls);
    }

    /** A direction button. */
    method Press(button: nat)
      requires Valid() && button < 4
      modifies this`next
      ensures Valid() && Model() == After(old(Model()), Event.Button(button))
    {
      next := button;
    }
  }
}
