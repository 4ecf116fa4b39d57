/** The game in the source's own form: coordinate arrays updated in place, refining `Snake.Tick`. */
module SnakeGame {
  import opened Snake

  function Cells(xs: seq<int>, ys: seq<int>): (r: seq<Cell>)
    requires |xs| == |ys|
    ensures |r| == |xs| && forall i | 0 <= i < |r| :: r[i] == Cell(xs[i], ys[i])
  {
    seq(|xs|, i requires 0 <= i < |xs| => Cell(xs[i], ys[i]))
  }

  /** The body after the shifting loop of a move. */
  lemma MovedCells(xs: seq<int>, ys: seq<int>, ox: seq<int>, oy: seq<int>, body: seq<Cell>, next: Cell, n: nat)
    requires |xs| == |ys| == |ox| == |oy| == BOARD_MAX && 1 <= n < BOARD_MAX && body == Cells(ox[..n], oy[..n])
    requires xs == [next.x] + ox[..n] + ox[n + 1..] && ys == [next.y] + oy[..n] + oy[n + 1..]
    ensures Cells(xs[..n], ys[..n]) == [next] + body[..n - 1]
    ensures Cells(xs[..n + 1], ys[..n + 1]) == [next] + body
  {
    assert xs[..n + 1] == [next.x] + ox[..n] && ys[..n + 1] == [next.y] + oy[..n];
    assert xs[..n] == [next.x] + ox[..n - 1] && ys[..n] == [next.y] + oy[..n - 1];
  }

  /** Slots above `i` up to `n` hold their predecessors, the others are untouched. */
  ghost predicate Shifted(s: seq<int>, was: seq<int>, i: nat, n: nat)
    requires i <= n < |was| == |s|
  {
    s == was[..i + 1] + was[i..n] + was[n + 1..]
  }

  lemma ShiftStep(s: seq<int>, was: seq<int>, i: nat, n: nat)
    requires 0 < i <= n < |was| == |s| && Shifted(s, was, i, n)
    ensures Shifted(s[i := s[i - 1]], was, i - 1, n)
  {
  }

  lemma ShiftDone(s: seq<int>, was: seq<int>, n: nat, x: int)
    requires n < |was| == |s| && Shifted(s, was, 0, n)
    ensures s[0 := x] == [x] + was[..n] + was[n + 1..]
  {
  }

  /** The three outcomes of a move, by the first food at the cell. */
  lemma MoveIs(g: Game, next: Cell, i: nat)
    requires 1 <= |g.body| < BOARD_MAX && i == IndexOf(g.foods, next)
    ensures var n := |g.body|; var hit := next in g.body[..if i < |g.foods| then n else n - 1];
      && (hit ==> Move(g, next) == g.(status := Over))
      && (!hit && i == |g.foods| ==> Move(g, next) == g.(body := [next] + g.body[..n - 1]))
      && (!hit && i < |g.foods| ==>
            Move(g, next) == Snake.PlaceFood(g.(foods := RemoveFood(g.foods, i), score := g.score + 10,
                                                body := if n + 1 < BOARD_MAX then [next] + g.body
                                                  else [next] + g.body[..n - 1])))
  {
    hide Snake.PlaceFood, RemoveFood;
    assert g.body[..|g.body|] == g.body;
    assert ([next] + g.body)[..|g.body|] == [next] + g.body[..|g.body| - 1];
  }

  class Board {
    const xs: array<int>
    const ys: array<int>
    const fx: array<int>
    const fy: array<int>
    var length: nat
    var foods: nat
    var dx: int
    var dy: int
    var score: int
    var frame: nat
    var draws: seq<nat>
    var status: Status

    ghost predicate Valid()
      reads this, xs, ys, fx, fy
    {
      && xs.Length == BOARD_MAX && ys.Length == BOARD_MAX && fx.Length == MAX_FOODS && fy.Length == MAX_FOODS
      && xs != ys && fx != fy
      && length < BOARD_MAX && foods <= MAX_FOODS
    }

    constructor ()
      ensures Valid() && fresh(xs) && fresh(ys) && fresh(fx) && fresh(fy)
    {
      xs, ys := new int[BOARD_MAX], new int[BOARD_MAX];
      fx, fy := new int[MAX_FOODS], new int[MAX_FOODS];
      length, foods := 0, 0;
    }

    function Body(): seq<Cell>
      requires Valid()
      reads this, xs, ys, fx, fy
    {
      Cells(xs[..length], ys[..length])
    }

    function Foods(): seq<Cell>
      requires Valid()
      reads this, xs, ys, fx, fy
    {
      Cells(fx[..foods], fy[..foods])
    }

    function View(): Game
      requires Valid()
      reads this, xs, ys, fx, fy
    {
      Game(Body(), Foods(), dx, dy, score, frame, draws, status)
    }

    method Occupies(c: Cell) returns (b: bool)
      requires Valid()
      ensures b == (c in Body())
    {
      b := Hits(c, length);
      assert Body()[..length] == Body();
    }

    /** The self-collision scan over the first `limit` cells. */
    method Hits(c: Cell, limit: nat) returns (b: bool)
      requires Valid() && limit <= length
      ensures b == (c in Body()[..limit])
    {
      for i := 0 to limit
        invariant forall k | 0 <= k < i :: Body()[k] != c
      {
        if xs[i] == c.x && ys[i] == c.y {
          assert Body()[..limit][i] == c;
          return true;
        }
      }
      return false;
    }

    /** The first food at a cell, or `foods`. */
    method FindFood(c: Cell) returns (i: nat)
      requires Valid()
      ensures i == IndexOf(Foods(), c)
    {
      i := 0;
      while i < foods && !(fx[i] == c.x && fy[i] == c.y)
        invariant i <= foods && forall k | 0 <= k < i :: Foods()[k] != c
      {
        i := i + 1;
      }
      assert i < foods ==> Foods()[i] == c;
    }

    method HasFood(c: Cell) returns (b: bool)
      requires Valid()
      ensures b == (c in Foods())
    {
      var i := FindFood(c);
      b := i < foods;
    }

    method AddFood(c: Cell)
      requires Valid() && foods < MAX_FOODS
      modifies this`foods, fx, fy
      ensures Valid() && View() == old(View()).(foods := old(Foods()) + [c])
    {
      ghost var before := Foods();
      fx[foods] := c.x;
      fy[foods] := c.y;
      foods := foods + 1;
      assert Foods() == before + [c];
    }

    method PlaceFood()
      requires Valid()
      modifies this, fx, fy
      ensures Valid() && View() == Snake.PlaceFood(old(View()))
    {
      if foods >= MAX_FOODS { return; }
      while |draws| >= 2
        invariant Valid() && foods < MAX_FOODS && length == old(length)
        invariant Snake.PlaceFood(View()) == Snake.PlaceFood(old(View()))
        decreases |draws|
      {
        var c := Drawn(draws[0], draws[1]);
        var body := Occupies(c);
        var food := HasFood(c);
        ghost var before := View();
        draws := draws[2..];
        assert View() == before.(draws := draws);
        if !body && !food {
          AddFood(c);
          return;
        }
      }
      status := Drawing;
    }

    method Start(stream: seq<nat>)
      requires Valid()
      modifies this, xs, ys, fx, fy
      ensures Valid() && View() == Snake.Start(stream)
    {
      length, foods, dx, dy, score, frame, draws, status := 4, 0, 1, 0, 0, 0, stream, Playing;
      for i := 0 to 4
        invariant Valid() && length == 4 && foods == 0 && dx == 1 && dy == 0 && score == 0 && frame == 0
        invariant draws == stream && status == Playing
        invariant forall k | 0 <= k < i :: xs[k] == WIDTH / 2 - k && ys[k] == HEIGHT / 2
      {
        xs[i] := WIDTH / 2 - i;
        ys[i] := HEIGHT / 2;
      }
      assert Body() == StartBody();
      assert Foods() == [];
      PlaceFood();
      if status == Playing { PlaceFood(); }
      if status == Playing { PlaceFood(); }
    }

    /** The shifting loop: every cell takes its predecessor's place and the head moves to `next`. */
    method Shift(next: Cell)
      requires Valid() && length >= 1
      modifies xs, ys
      ensures Valid()
      ensures xs[..] == [next.x] + old(xs[..length]) + old(xs[length + 1..])
      ensures ys[..] == [next.y] + old(ys[..length]) + old(ys[length + 1..])
    {
      ghost var n, ox, oy := length, xs[..], ys[..];
      var i := length;
      while i > 0
        invariant 0 <= i <= n == length && xs.Length == ys.Length == |ox| == |oy| == BOARD_MAX
        invariant Shifted(xs[..], ox, i, n) && Shifted(ys[..], oy, i, n)
      {
        ShiftStep(xs[..], ox, i, n);
        ShiftStep(ys[..], oy, i, n);
        xs[i] := xs[i - 1];
        ys[i] := ys[i - 1];
        i := i - 1;
      }
      ShiftDone(xs[..], ox, n, next.x);
      ShiftDone(ys[..], oy, n, next.y);
      xs[0] := next.x;
      ys[0] := next.y;
    }

    /** The eaten food's slot takes the last food. */
    method Eat(i: nat)
      requires Valid() && i < foods
      modifies this, fx, fy
      ensures Valid() && View() == old(View()).(foods := RemoveFood(old(Foods()), i))
    {
      if i < foods - 1 {
        fx[i] := fx[foods - 1];
        fy[i] := fy[foods - 1];
      }
      foods := foods - 1;
    }

    /** The cells of the first `n` array slots. */
    function Prefix(n: nat): seq<Cell>
      requires Valid() && n <= BOARD_MAX
      reads this, xs, ys, fx, fy
    {
      Cells(xs[..n], ys[..n])
    }

    method MoveBody(next: Cell)
      requires Valid() && length >= 1
      modifies xs, ys
      ensures Valid() && View() == old(View()).(body := [next] + old(Body())[..length - 1])
      ensures Prefix(length + 1) == [next] + old(Body())
    {
      ghost var n, ox, oy := length, xs[..], ys[..];
      assert ox[..n] == xs[..n] && oy[..n] == ys[..n] && ox[n + 1..] == xs[n + 1..] && oy[n + 1..] == ys[n + 1..];
      ghost var body := Body();
      assert body == Cells(ox[..n], oy[..n]);
      Shift(next);
      assert xs[..][..n] == xs[..n] && ys[..][..n] == ys[..n] && xs[..][..n + 1] == xs[..n + 1];
      assert ys[..][..n + 1] == ys[..n + 1];
      hide Cells;
      MovedCells(xs[..], ys[..], ox, oy, body, next, n);
    }

    /** What eating food `i` does once the head has moved onto it. */
    method Feed(i: nat)
      requires Valid() && length >= 1 && i < foods
      modifies this, fx, fy
      ensures Valid()
      ensures View() == Snake.PlaceFood(old(View()).(foods := RemoveFood(old(Foods()), i), score := old(score) + 10,
                          body := old(Prefix(if length + 1 < BOARD_MAX then length + 1 else length))))
    {
      hide Snake.PlaceFood;
      Eat(i);
      if length + 1 < BOARD_MAX { length := length + 1; }
      score := score + 10;
      PlaceFood();
    }

    method Advance(next: Cell)
      requires Valid() && length >= 1
      modifies this, xs, ys, fx, fy
      ensures Valid() && View() == Move(old(View()), next)
    {
      hide Snake.PlaceFood, RemoveFood, Cells, Move, IndexOf;
      var i := FindFood(next);
      var limit := if i < foods then length else length - 1;
      var hit := Hits(next, limit);
      MoveIs(View(), next, i);
      if hit { status := Over; return; }
      MoveBody(next);
      if i < foods { Feed(i); }
    }

    method Steer(key: int)
      requires Valid()
      modifies this`dx, this`dy
      ensures Valid()
      ensures View() == old(View()).(dx := Turn(old(dx), old(dy), key).0, dy := Turn(old(dx), old(dy), key).1)
    {
      if UpKey(key) && dy != 1 { dx, dy := 0, -1; }
      else if DownKey(key) && dy != -1 { dx, dy := 0, 1; }
      else if LeftKey(key) && dx != 1 { dx, dy := -1, 0; }
      else if RightKey(key) && dx != -1 { dx, dy := 1, 0; }
    }

    /** One pass of the game loop. */
    method Pass(key: int)
      requires Valid() && length >= 1
      modifies this, xs, ys, fx, fy
      ensures Valid() && View() == Tick(old(View()), key)
    {
      hide Move, Turn, UpKey, DownKey, LeftKey, RightKey;
      if status != Playing { return; }
      if QuitKey(key) { status := Over; return; }
      Steer(key);
      frame := frame + 1;
      if frame < GAME_SPEED { return; }
      frame := 0;
      var next := Cell(xs[0] + dx, ys[0] + dy);
      if !Inside(next) { status := Over; return; }
      Advance(next);
    }

    /** A whole game: the invariant holds of the arrays after every frame. */
    method PlayAll(stream: seq<nat>, keys: seq<int>)
      requires Valid()
      modifies this, xs, ys, fx, fy
      ensures Valid() && GameOk(Snake.Start(stream)) && View() == Play(Snake.Start(stream), keys)
      ensures GameOk(View()) && score == 10 * Meals(Snake.Start(stream), keys)
    {
      Start(stream);
      StartOk(stream);
      hide BodyOk, FoodsOk, Tick, Snake.Start;
      ghost var first := View();
      var i := 0;
      while i < |keys|
        invariant 0 <= i <= |keys| && Valid() && GameOk(View())
        invariant Play(first, keys) == Play(View(), keys[i..])
      {
        TickOk(View(), keys[i]);
        assert keys[i..][1..] == keys[i + 1..];
        Pass(keys[i]);
        i := i + 1;
      }
      PlayOk(first, keys);
    }
  }
}
