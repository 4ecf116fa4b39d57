/** The snake game's state machine (bin/snake/snake.c:82-112, 250-363). */
module Snake {

  const WIDTH := 80
  const HEIGHT := 25
  const MAX_FOODS := 5
  const BOARD_MAX := 256
  const GAME_SPEED := 3

  datatype Cell = Cell(x: int, y: int)
  datatype Status = Playing | Over | Drawing     // Drawing: the random stream ended inside snake_place_food

  /** `draws` is what is left of the random stream. */
  datatype Game = Game(body: seq<Cell>, foods: seq<Cell>, dx: int, dy: int, score: int, frame: nat, draws: seq<nat>,
    status: Status)

  predicate Inside(c: Cell) { 1 <= c.x <= WIDTH - 2 && 1 <= c.y <= HEIGHT - 2 }

  predicate Adjacent(a: Cell, b: Cell) {
    (a.x == b.x && (a.y - b.y == 1 || b.y - a.y == 1)) || (a.y == b.y && (a.x - b.x == 1 || b.x - a.x == 1))
  }

  // ---- The step ----

  predicate UpKey(k: int) { k == 'w' as int || k == 'W' as int || k == 0xE0 }
  predicate DownKey(k: int) { k == 's' as int || k == 'S' as int || k == 0xE1 }
  predicate LeftKey(k: int) { k == 'a' as int || k == 'A' as int || k == 0xE2 }
  predicate RightKey(k: int) { k == 'd' as int || k == 'D' as int || k == 0xE3 }
  predicate QuitKey(k: int) { k == 'q' as int || k == 'Q' as int }

  function Turn(dx: int, dy: int, k: int): (int, int) {
    if UpKey(k) && dy != 1 then (0, -1)
    else if DownKey(k) && dy != -1 then (0, 1)
    else if LeftKey(k) && dx != 1 then (-1, 0)
    else if RightKey(k) && dx != -1 then (1, 0)
    else (dx, dy)
  }

  function Drawn(a: nat, b: nat): Cell { Cell(a % (WIDTH - 4) + 2, b % (HEIGHT - 4) + 2) }

  /** snake_place_food: draw cells until one is neither on the body nor a food. */
  function PlaceFood(g: Game): Game
    decreases |g.draws|
  {
    if |g.foods| >= MAX_FOODS then g
    else if |g.draws| < 2 then g.(status := Drawing)
    else
      var c := Drawn(g.draws[0], g.draws[1]);
      var h := g.(draws := g.draws[2..]);
      if c !in g.body && c !in g.foods then h.(foods := g.foods + [c]) else PlaceFood(h)
  }

  function IndexOf(cs: seq<Cell>, c: Cell): (i: nat)
    ensures i <= |cs| && (i < |cs| ==> cs[i] == c) && forall k | 0 <= k < i :: cs[k] != c
  {
    if cs == [] || cs[0] == c then 0
    else
      var i := 1 + IndexOf(cs[1..], c);
      assert forall k | 0 < k < |cs| :: cs[k] == cs[1..][k - 1];
      i
  }

  /** Removal by moving the last food into the gap. */
  function RemoveFood(foods: seq<Cell>, i: nat): seq<Cell>
    requires i < |foods|
  {
    foods[i := foods[|foods| - 1]][..|foods| - 1]
  }

  /** A move of the head to a cell inside the border. */
  function Move(g: Game, next: Cell): Game
    requires 1 <= |g.body| < BOARD_MAX
  {
    var i := IndexOf(g.foods, next);
    if i < |g.foods| then
      if next in g.body then g.(status := Over)
      else
        var grown := [next] + g.body;
        PlaceFood(g.(foods := RemoveFood(g.foods, i), score := g.score + 10,
                     body := if |g.body| + 1 < BOARD_MAX then grown else grown[..|g.body|]))
    else if next in g.body[..|g.body| - 1] then g.(status := Over)
    else g.(body := [next] + g.body[..|g.body| - 1])
  }

  /** One pass of the game loop with the polled key. */
  function Tick(g: Game, k: int): Game
    requires 1 <= |g.body| < BOARD_MAX
  {
    if g.status != Playing then g
    else if QuitKey(k) then g.(status := Over)
    else
      var d := Turn(g.dx, g.dy, k);
      var t := g.(dx := d.0, dy := d.1);
      if g.frame + 1 < GAME_SPEED then t.(frame := g.frame + 1)
      else
        var next := Cell(g.body[0].x + d.0, g.body[0].y + d.1);
        if !Inside(next) then t.(frame := 0, status := Over) else Move(t.(frame := 0), next)
  }

  function StartBody(): seq<Cell> { [Cell(40, 12), Cell(39, 12), Cell(38, 12), Cell(37, 12)] }

  function Start(draws: seq<nat>): Game {
    var g := Game(StartBody(), [], 1, 0, 0, 0, draws, Playing);
    var a := PlaceFood(g);
    var b := if a.status == Playing then PlaceFood(a) else a;
    if b.status == Playing then PlaceFood(b) else b
  }

  // ---- The invariant ----

  ghost predicate Distinct(cs: seq<Cell>) { forall i, j | 0 <= i < j < |cs| :: cs[i] != cs[j] }

  predicate Linked(cs: seq<Cell>, i: nat)
    requires 0 < i < |cs|
  {
    Adjacent(cs[i - 1], cs[i])
  }

  /** Body cells are distinct, consecutive ones adjacent, all inside the border. */
  ghost predicate BodyOk(body: seq<Cell>) {
    && 1 <= |body| < BOARD_MAX && Distinct(body)
    && (forall i | 0 < i < |body| :: Linked(body, i))
    && (forall i | 0 <= i < |body| :: Inside(body[i]))
  }

  /** Foods are distinct, inside the border and off the body. */
  ghost predicate FoodsOk(body: seq<Cell>, foods: seq<Cell>) {
    && Distinct(foods)
    && (forall i | 0 <= i < |foods| :: Inside(foods[i]) && foods[i] !in body)
  }

  predicate Heading(dx: int, dy: int) { (dx == 0 && (dy == 1 || dy == -1)) || (dy == 0 && (dx == 1 || dx == -1)) }

  function Length(eaten: nat): nat { if 4 + eaten < 255 then 4 + eaten else 255 }

  ghost predicate GameOk(g: Game) {
    && BodyOk(g.body) && FoodsOk(g.body, g.foods) && Heading(g.dx, g.dy)
    && g.score >= 0 && g.score % 10 == 0 && |g.body| == Length(g.score / 10)
    && (g.status != Drawing ==> |g.foods| == 3)
  }

  lemma {:induction false} PlaceFoodOk(g: Game)
    requires FoodsOk(g.body, g.foods) && |g.foods| < MAX_FOODS
    ensures var r := PlaceFood(g);
      && FoodsOk(r.body, r.foods) && r == g.(foods := r.foods, draws := r.draws, status := r.status)
      && (if r.status == Drawing && g.status != Drawing then r.foods == g.foods
        else r.status == g.status && (g.status != Drawing ==> |r.foods| == |g.foods| + 1))
    decreases |g.draws|
  {
    if |g.draws| >= 2 {
      var c := Drawn(g.draws[0], g.draws[1]);
      if c in g.body || c in g.foods {
        PlaceFoodOk(g.(draws := g.draws[2..]));
      }
    }
  }

  lemma StartBodyOk()
    ensures BodyOk(StartBody())
  {
  }

  lemma StartOk(draws: seq<nat>)
    ensures GameOk(Start(draws)) && Start(draws).score == 0
  {
    StartBodyOk();
    hide PlaceFood, BodyOk, FoodsOk;
    var g := Game(StartBody(), [], 1, 0, 0, 0, draws, Playing);
    NoFoodsOk(g.body);
    PlaceFoodOk(g);
    var a := PlaceFood(g);
    if a.status == Playing {
      PlaceFoodOk(a);
      if PlaceFood(a).status == Playing { PlaceFoodOk(PlaceFood(a)); }
    }
  }

  lemma NoFoodsOk(body: seq<Cell>)
    ensures FoodsOk(body, [])
  {
  }

  lemma RemoveFoodOk(body: seq<Cell>, foods: seq<Cell>, i: nat, n: nat)
    requires FoodsOk(body, foods) && i < |foods| && n <= |body|
    ensures FoodsOk([foods[i]] + body[..n], RemoveFood(foods, i))
  {
  }

  lemma MissedFoodsOk(body: seq<Cell>, foods: seq<Cell>, next: Cell, n: nat)
    requires FoodsOk(body, foods) && next !in foods && n <= |body|
    ensures FoodsOk([next] + body[..n], foods)
  {
  }

  /** Prepending an adjacent free cell and dropping cells at the tail keeps the body well-formed. */
  lemma PushHead(body: seq<Cell>, next: Cell, n: nat)
    requires BodyOk(body) && Inside(next) && Adjacent(next, body[0]) && n <= |body| && next !in body[..n]
    requires n + 1 < BOARD_MAX
    ensures BodyOk([next] + body[..n])
  {
    var r := [next] + body[..n];
    forall i | 0 < i < |r| ensures Linked(r, i) {
      if i > 1 { assert Linked(body, i - 1); }
    }
    forall i, j | 0 <= i < j < |r| ensures r[i] != r[j] {
      assert i == 0 ==> r[j] in body[..n];
    }
  }

  lemma MoveOk(g: Game, next: Cell)
    requires GameOk(g) && g.status == Playing && Inside(next) && Adjacent(next, g.body[0])
    ensures GameOk(Move(g, next))
  {
    hide Distinct, Linked, FoodsOk, PlaceFood, RemoveFood, Inside, Adjacent;
    var i := IndexOf(g.foods, next);
    if i < |g.foods| {
      if next !in g.body {
        var n := if |g.body| + 1 < BOARD_MAX then |g.body| else |g.body| - 1;
        EatOk(g, next, i, n);
        assert g.body[..|g.body|] == g.body;
        assert ([next] + g.body)[..|g.body|] == [next] + g.body[..|g.body| - 1];
      }
    } else if next !in g.body[..|g.body| - 1] {
      PushHead(g.body, next, |g.body| - 1);
      MissedFoodsOk(g.body, g.foods, next, |g.body| - 1);
    }
  }

  lemma EatOk(g: Game, next: Cell, i: nat, n: nat)
    requires GameOk(g) && g.status == Playing && Inside(next) && Adjacent(next, g.body[0])
    requires i < |g.foods| && g.foods[i] == next && next !in g.body
    requires n == if |g.body| + 1 < BOARD_MAX then |g.body| else |g.body| - 1
    ensures GameOk(PlaceFood(g.(foods := RemoveFood(g.foods, i), score := g.score + 10, body := [next] + g.body[..n])))
  {
    hide Distinct, Linked, FoodsOk, PlaceFood, Inside, Adjacent;
    RemoveFoodOk(g.body, g.foods, i, n);
    PushHead(g.body, next, n);
    PlaceFoodOk(g.(foods := RemoveFood(g.foods, i), score := g.score + 10, body := [next] + g.body[..n]));
    assert (g.score + 10) / 10 == g.score / 10 + 1;
  }

  lemma TurnHeads(dx: int, dy: int, k: int)
    requires Heading(dx, dy)
    ensures Heading(Turn(dx, dy, k).0, Turn(dx, dy, k).1)
  {
  }

  lemma TickOk(g: Game, k: int)
    requires GameOk(g)
    ensures GameOk(Tick(g, k))
  {
    hide Turn, Move, FoodsOk, Distinct, Linked, QuitKey;
    if g.status == Playing && !QuitKey(k) {
      var d := Turn(g.dx, g.dy, k);
      TurnHeads(g.dx, g.dy, k);
      var next := Cell(g.body[0].x + d.0, g.body[0].y + d.1);
      if g.frame + 1 >= GAME_SPEED && Inside(next) {
        MoveOk(g.(dx := d.0, dy := d.1, frame := 0), next);
      }
    }
  }

  /** The head moves this frame onto a food that is not under the body. */
  predicate Eats(g: Game, k: int)
    requires 1 <= |g.body| < BOARD_MAX
  {
    && g.status == Playing && !QuitKey(k) && g.frame + 1 >= GAME_SPEED
    && var d := Turn(g.dx, g.dy, k);
       var next := Cell(g.body[0].x + d.0, g.body[0].y + d.1);
       Inside(next) && next in g.foods && next !in g.body
  }

  lemma ScoreStep(g: Game, k: int)
    requires GameOk(g)
    ensures Tick(g, k).score == g.score + (if Eats(g, k) then 10 else 0)
  {
    hide Inside;
    var d := Turn(g.dx, g.dy, k);
    var next := Cell(g.body[0].x + d.0, g.body[0].y + d.1);
    if Eats(g, k) {
      var i := IndexOf(g.foods, next);
      PlaceFoodKeeps(g.(dx := d.0, dy := d.1, frame := 0, foods := RemoveFood(g.foods, i), score := g.score + 10,
                        body := if |g.body| + 1 < BOARD_MAX then [next] + g.body else ([next] + g.body)[..|g.body|]));
    }
  }

  lemma {:induction false} PlaceFoodKeeps(g: Game)
    ensures PlaceFood(g).score == g.score && PlaceFood(g).body == g.body
    decreases |g.draws|
  {
    if |g.foods| < MAX_FOODS && |g.draws| >= 2 {
      PlaceFoodKeeps(g.(draws := g.draws[2..]));
    }
  }

  function Play(g: Game, keys: seq<int>): Game
    requires GameOk(g)
    decreases |keys|
  {
    if keys == [] then g else (TickOk(g, keys[0]); Play(Tick(g, keys[0]), keys[1..]))
  }

  /** Foods eaten during a run. */
  function Meals(g: Game, keys: seq<int>): nat
    requires GameOk(g)
    decreases |keys|
  {
    if keys == [] then 0
    else (TickOk(g, keys[0]); (if Eats(g, keys[0]) then 1 else 0) + Meals(Tick(g, keys[0]), keys[1..]))
  }

  /** Every run keeps the invariant and pays ten points per food. */
  lemma {:induction false} PlayOk(g: Game, keys: seq<int>)
    requires GameOk(g)
    ensures GameOk(Play(g, keys)) && Play(g, keys).score == g.score + 10 * Meals(g, keys)
    decreases |keys|
  {
    hide BodyOk, FoodsOk, Tick, Eats;
    if keys != [] {
      TickOk(g, keys[0]);
      ScoreStep(g, keys[0]);
      PlayOk(Tick(g, keys[0]), keys[1..]);
    }
  }

  /** Main result: for every key sequence and every random stream, at every frame the body is a
      chain of distinct cells inside the border, exactly three foods lie off it, the length is
      min(4 + foods eaten, 255) and the score is ten per food. */
  lemma SnakeInvariant(draws: seq<nat>, keys: seq<int>)
    ensures GameOk(Start(draws))
    ensures var r := Play(Start(draws), keys); var n := Meals(Start(draws), keys);
      && BodyOk(r.body) && FoodsOk(r.body, r.foods) && |r.body| == Length(n) && r.score == 10 * n
      && (r.status != Drawing ==> |r.foods| == 3)
  {
    hide BodyOk, FoodsOk, Start, Tick, Play, Meals;
    StartOk(draws);
    PlayOk(Start(draws), keys);
    assert 10 * Meals(Start(draws), keys) / 10 == Meals(Start(draws), keys);
  }

  // ---- Reversal ----

  /** The direction a key asks for; (0, 0) for every other key. */
  function Asked(k: int): (int, int) {
    if UpKey(k) then (0, -1)
    else if DownKey(k) then (0, 1)
    else if LeftKey(k) then (-1, 0)
    else if RightKey(k) then (1, 0)
    else (0, 0)
  }

  predicate Ahead(dx: int, dy: int, k: int) { Asked(k) == (dx, dy) }
  predicate Back(dx: int, dy: int, k: int) { Asked(k) == (-dx, -dy) }
  predicate Across(dx: int, dy: int, k: int) { Asked(k) == (dy, dx) || Asked(k) == (-dy, -dx) }

  /** The heading after the three keys polled between two moves. */
  function Turned(dx: int, dy: int, a: int, b: int, c: int): (int, int) {
    var t := Turn(dx, dy, a);
    var u := Turn(t.0, t.1, b);
    Turn(u.0, u.1, c)
  }

  /** One key never turns the snake back on itself. */
  lemma TurnNeverReverses(dx: int, dy: int, k: int)
    requires Heading(dx, dy)
    ensures Turn(dx, dy, k) != (-dx, -dy)
  {
  }

  predicate Doubles(dx: int, dy: int, a: int, b: int, c: int) {
    || (Across(dx, dy, a) && Back(dx, dy, b) && !Across(dx, dy, c))
    || (Across(dx, dy, b) && Back(dx, dy, c))
    || (Across(dx, dy, a) && !Ahead(dx, dy, b) && Back(dx, dy, c))
  }

  /** Exactly which three keys reverse the heading. */
  lemma TurnedBack(dx: int, dy: int, a: int, b: int, c: int)
    requires Heading(dx, dy)
    ensures Turned(dx, dy, a, b, c) == (-dx, -dy) <==> Doubles(dx, dy, a, b, c)
  {
    TurnIs(dx, dy, a);
    TurnHeads(dx, dy, a);
    var t := Turn(dx, dy, a);
    TurnIs(t.0, t.1, b);
    TurnHeads(t.0, t.1, b);
    var u := Turn(t.0, t.1, b);
    TurnIs(u.0, u.1, c);
    hide Turn, UpKey, DownKey, LeftKey, RightKey;
  }

  /** A key is obeyed unless it asks for the opposite of the current direction. */
  lemma TurnIs(dx: int, dy: int, k: int)
    requires Heading(dx, dy)
    ensures Turn(dx, dy, k) == if Asked(k) == (0, 0) || Back(dx, dy, k) then (dx, dy) else Asked(k)
    ensures Asked(k) == (0, 0) || Heading(Asked(k).0, Asked(k).1)
  {
  }

  /** Right after a move the snake faces away from its second cell. */
  predicate Facing(g: Game) {
    g.status == Playing && g.frame == 0 && |g.body| >= 2 ==>
      g.dx == g.body[0].x - g.body[1].x && g.dy == g.body[0].y - g.body[1].y
  }

  lemma PlaceFoodOnly(g: Game)
    ensures var r := PlaceFood(g); r.body == g.body && r.dx == g.dx && r.dy == g.dy && r.frame == g.frame
    decreases |g.draws|
  {
  }

  lemma TickFacing(g: Game, k: int)
    requires GameOk(g) && Facing(g)
    ensures Facing(Tick(g, k))
  {
    hide BodyOk, FoodsOk, Turn, QuitKey, PlaceFood, Inside;
    if g.status == Playing && !QuitKey(k) && g.frame + 1 >= GAME_SPEED {
      var d := Turn(g.dx, g.dy, k);
      var t := g.(dx := d.0, dy := d.1, frame := 0);
      var next := Cell(g.body[0].x + d.0, g.body[0].y + d.1);
      var i := IndexOf(g.foods, next);
      if i < |g.foods| {
        PlaceFoodOnly(t.(foods := RemoveFood(g.foods, i), score := g.score + 10,
                         body := if |g.body| + 1 < BOARD_MAX then [next] + g.body else ([next] + g.body)[..|g.body|]));
      }
    }
  }

  lemma {:induction false} PlayFacing(g: Game, keys: seq<int>)
    requires GameOk(g) && Facing(g)
    ensures Facing(Play(g, keys))
    decreases |keys|
  {
    hide BodyOk, FoodsOk, Tick, Facing;
    if keys != [] {
      TickOk(g, keys[0]);
      TickFacing(g, keys[0]);
      PlayFacing(Tick(g, keys[0]), keys[1..]);
    }
  }

  lemma StartShape(draws: seq<nat>)
    ensures var g := Start(draws); g.body == StartBody() && g.dx == 1 && g.dy == 0 && g.frame == 0
  {
    var g := Game(StartBody(), [], 1, 0, 0, 0, draws, Playing);
    hide PlaceFood;
    PlaceFoodOnly(g);
    PlaceFoodOnly(PlaceFood(g));
    PlaceFoodOnly(PlaceFood(PlaceFood(g)));
  }

  lemma ThreeKeys(g: Game, i: int, j: int, k: int)
    requires GameOk(g)
    ensures GameOk(Tick(g, i)) && GameOk(Tick(Tick(g, i), j))
    ensures Play(g, [i, j, k]) == Tick(Tick(Tick(g, i), j), k)
  {
    hide BodyOk, FoodsOk, Tick;
    TickOk(g, i);
    var a := Tick(g, i);
    TickOk(a, j);
    var b := Tick(a, j);
    TickOk(b, k);
    assert [i, j, k][1..] == [j, k] && [j, k][1..] == [k] && [k][1..] == [];
    assert Play(b, [k]) == Tick(b, k);
    assert Play(a, [j, k]) == Play(b, [k]);
  }

  /** The three frames that lead to a move. */
  lemma ThreeTicks(g: Game, a: int, b: int, c: int)
    requires 1 <= |g.body| < BOARD_MAX && g.status == Playing && g.frame == 0 && !QuitKey(a) && !QuitKey(b)
    requires !QuitKey(c)
    ensures Tick(g, a).body == g.body && Tick(Tick(g, a), b).body == g.body
    ensures var d := Turned(g.dx, g.dy, a, b, c); var t := g.(dx := d.0, dy := d.1);
      var next := Cell(g.body[0].x + d.0, g.body[0].y + d.1);
      Tick(Tick(Tick(g, a), b), c) == if Inside(next) then Move(t, next) else t.(status := Over)
  {
    hide Turn, QuitKey, Move, Inside;
    var t := Turn(g.dx, g.dy, a);
    var g1 := Tick(g, a);
    assert g1 == g.(dx := t.0, dy := t.1, frame := 1);
    var u := Turn(t.0, t.1, b);
    assert Tick(g1, b) == g.(dx := u.0, dy := u.1, frame := 2);
  }

  lemma OntoNeck(t: Game, next: Cell)
    requires 4 <= |t.body| < BOARD_MAX && next == t.body[1] && next !in t.foods
    ensures Move(t, next) == t.(status := Over)
  {
    hide PlaceFood, RemoveFood;
    assert t.body[..|t.body| - 1][1] == next;
  }

  /** The move lands on the second cell. */
  predicate BitesNeck(g: Game, a: int, b: int, c: int)
    requires |g.body| >= 2
  {
    var d := Turned(g.dx, g.dy, a, b, c);
    Cell(g.body[0].x + d.0, g.body[0].y + d.1) == g.body[1]
  }

  /** Main result: in every game, between two moves, exactly the keys of `Doubles` drive the head onto
      the second cell, and then the game is over with the body where it was. */
  lemma ReversalExact(draws: seq<nat>, keys: seq<int>, a: int, b: int, c: int)
    requires GameOk(Start(draws)) && var g := Play(Start(draws), keys); g.status == Playing && g.frame == 0
    requires !QuitKey(a) && !QuitKey(b) && !QuitKey(c)
    ensures var g := Play(Start(draws), keys);
      && GameOk(g) && |g.body| >= 2
      && (BitesNeck(g, a, b, c) <==> Doubles(g.dx, g.dy, a, b, c))
      && (BitesNeck(g, a, b, c) ==> Play(g, [a, b, c]).status == Over && Play(g, [a, b, c]).body == g.body)
  {
    StartFaces(draws);
    var g := Play(Start(draws), keys);
    PlayOk(Start(draws), keys);
    PlayFacing(Start(draws), keys);
    NeckExact(g, a, b, c);
  }

  lemma StartFaces(draws: seq<nat>)
    ensures Facing(Start(draws))
  {
    StartShape(draws);
    hide Start;
  }

  lemma NeckExact(g: Game, a: int, b: int, c: int)
    requires GameOk(g) && Facing(g) && g.status == Playing && g.frame == 0
    requires !QuitKey(a) && !QuitKey(b) && !QuitKey(c)
    ensures |g.body| >= 4 && (BitesNeck(g, a, b, c) <==> Doubles(g.dx, g.dy, a, b, c))
    ensures BitesNeck(g, a, b, c) ==> Play(g, [a, b, c]).status == Over && Play(g, [a, b, c]).body == g.body
  {
    hide Turned, QuitKey, Doubles, Play, Move, Inside, Tick, GameOk, Heading;
    SecondCell(g);
    TurnedBack(g.dx, g.dy, a, b, c);
    ThreeKeys(g, a, b, c);
    ThreeTicks(g, a, b, c);
    var d := Turned(g.dx, g.dy, a, b, c);
    if BitesNeck(g, a, b, c) { OntoNeck(g.(dx := d.0, dy := d.1), g.body[1]); }
  }

  lemma SecondCell(g: Game)
    requires GameOk(g)
    ensures 4 <= |g.body| < BOARD_MAX && Inside(g.body[1]) && g.body[1] !in g.foods && Heading(g.dx, g.dy)
  {
  }

  /** Such keys exist from the start: up, then left, then any key that asks for nothing. */
  lemma TwoTurnsReverse(draws: seq<nat>)
    requires Start(draws).status == Playing
    ensures GameOk(Start(draws)) && Play(Start(draws), ['w' as int, 'a' as int, 0]).status == Over
  {
    StartOk(draws);
    StartFaces(draws);
    StartShape(draws);
    NeckExact(Start(draws), 'w' as int, 'a' as int, 0);
  }

  // ---- Keys and borders ----

  /** The heading a key asks for, by its character or scan code. */
  function KeyHeading(k: int): (int, int) {
    if k == 119 || k == 87 || k == 224 then (0, -1)        // w, W, cursor up
    else if k == 115 || k == 83 || k == 225 then (0, 1)    // s, S, cursor down
    else if k == 97 || k == 65 || k == 226 then (-1, 0)    // a, A, cursor left
    else if k == 100 || k == 68 || k == 227 then (1, 0)    // d, D, cursor right
    else (0, 0)
  }

  /** Exactly q and Q end a running game; every other key turns the snake to its heading unless that is
      the opposite of the current one, and waits for the third frame to move. */
  lemma KeyPressed(g: Game, k: int)
    requires GameOk(g) && g.status == Playing
    ensures k == 113 || k == 81 ==> Tick(g, k) == g.(status := Over)
    ensures k != 113 && k != 81 ==>
      var r, d := Tick(g, k), KeyHeading(k);
      && (r.dx, r.dy) == (if d == (0, 0) || d == (-g.dx, -g.dy) then (g.dx, g.dy) else d)
      && (g.frame < 2 ==> r == g.(dx := r.dx, dy := r.dy, frame := g.frame + 1))
      && (g.frame >= 2 ==> r.frame == 0)
  {
    hide BodyOk, FoodsOk, PlaceFood, Inside;
    var d := Turn(g.dx, g.dy, k);
    TurnIs(g.dx, g.dy, k);
    assert Asked(k) == KeyHeading(k);
    var next := Cell(g.body[0].x + d.0, g.body[0].y + d.1);
    var i := IndexOf(g.foods, next);
    if i < |g.foods| {
      PlaceFoodOnly(g.(dx := d.0, dy := d.1, frame := 0, foods := RemoveFood(g.foods, i), score := g.score + 10,
                       body := if |g.body| + 1 < BOARD_MAX then [next] + g.body else ([next] + g.body)[..|g.body|]));
    }
  }

  /** A move ends the game exactly when it leaves columns 1 to 78 or rows 1 to 23 or meets the body, whose
      last cell counts only when the move eats; otherwise the head is on the new cell. */
  lemma MoveEnds(g: Game, k: int)
    requires GameOk(g) && g.status == Playing && g.frame >= 2 && k != 113 && k != 81
    ensures var r := Tick(g, k); var next := Cell(g.body[0].x + r.dx, g.body[0].y + r.dy);
      var hits := next in (if next in g.foods then g.body else g.body[..|g.body| - 1]);
      && (r.status == Over <==> next.x < 1 || next.x > 78 || next.y < 1 || next.y > 23 || hits)
      && (r.status == Over ==> r.body == g.body && r.score == g.score)
      && (r.status != Over ==>
            && |r.body| == |g.body| + (if next in g.foods && |g.body| < 255 then 1 else 0)
            && r.body[0] == next && r.body[1..] == g.body[..|r.body| - 1]
            && (next in g.foods ==> next !in r.foods && r.score == g.score + 10)
            && (next !in g.foods ==> r.foods == g.foods && r.score == g.score))
  {
    hide BodyOk, Turn, PlaceFood, FoodsOk;
    var d := Turn(g.dx, g.dy, k);
    var next := Cell(g.body[0].x + d.0, g.body[0].y + d.1);
    var i := IndexOf(g.foods, next);
    BodyLength(g.body);
    if Inside(next) && i < |g.foods| && next !in g.body {
      var t := g.(dx := d.0, dy := d.1, frame := 0, foods := RemoveFood(g.foods, i), score := g.score + 10,
                  body := if |g.body| + 1 < BOARD_MAX then [next] + g.body else ([next] + g.body)[..|g.body|]);
      PlaceFoodOnly(t);
      PlaceFoodKeeps(t);
      PlaceFoodStatus(t);
      OtherFoods(g.body, g.foods, i);
      assert t.body[0] == next;
      FreshFoods(t, next);
    }
  }

  lemma BodyLength(body: seq<Cell>)
    requires BodyOk(body)
    ensures 1 <= |body| <= 255
  {
  }

  lemma {:induction false} PlaceFoodStatus(g: Game)
    ensures g.status == Playing ==> PlaceFood(g).status != Over
    decreases |g.draws|
  {
    if |g.foods| < MAX_FOODS && |g.draws| >= 2 { PlaceFoodStatus(g.(draws := g.draws[2..])); }
  }

  /** New food never lands on the body. */
  lemma {:induction false} FreshFoods(g: Game, c: Cell)
    requires c in g.body && c !in g.foods
    ensures c !in PlaceFood(g).foods
    decreases |g.draws|
  {
    if |g.foods| < MAX_FOODS && |g.draws| >= 2 { FreshFoods(g.(draws := g.draws[2..]), c); }
  }

  lemma OtherFoods(body: seq<Cell>, foods: seq<Cell>, i: nat)
    requires FoodsOk(body, foods) && i < |foods|
    ensures foods[i] !in RemoveFood(foods, i)
  {
  }

  /** Food never lies on the outermost cells: columns 2 to 77, rows 2 to 22. */
  predicate Inner(foods: seq<Cell>) { forall c | c in foods :: 2 <= c.x <= 77 && 2 <= c.y <= 22 }

  lemma {:induction false} PlaceFoodInner(g: Game)
    requires Inner(g.foods)
    ensures Inner(PlaceFood(g).foods)
    decreases |g.draws|
  {
    if |g.foods| < MAX_FOODS && |g.draws| >= 2 { PlaceFoodInner(g.(draws := g.draws[2..])); }
  }

  lemma TickInner(g: Game, k: int)
    requires GameOk(g) && Inner(g.foods)
    ensures Inner(Tick(g, k).foods)
  {
    hide BodyOk, FoodsOk, Turn, QuitKey, PlaceFood, Inside;
    if g.status == Playing && !QuitKey(k) && g.frame + 1 >= GAME_SPEED {
      var d := Turn(g.dx, g.dy, k);
      var t := g.(dx := d.0, dy := d.1, frame := 0);
      var next := Cell(g.body[0].x + d.0, g.body[0].y + d.1);
      var i := IndexOf(g.foods, next);
      if i < |g.foods| {
        PlaceFoodInner(t.(foods := RemoveFood(g.foods, i), score := g.score + 10,
                          body := if |g.body| + 1 < BOARD_MAX then [next] + g.body else ([next] + g.body)[..|g.body|]));
      }
    }
  }

  lemma {:induction false} PlayInner(g: Game, keys: seq<int>)
    requires GameOk(g) && Inner(g.foods)
    ensures Inner(Play(g, keys).foods)
    decreases |keys|
  {
    hide BodyOk, FoodsOk, Tick, Inner;
    if keys != [] {
      TickOk(g, keys[0]);
      TickInner(g, keys[0]);
      PlayInner(Tick(g, keys[0]), keys[1..]);
    }
  }

  /** In every game. */
  lemma FoodRange(draws: seq<nat>, keys: seq<int>)
    ensures GameOk(Start(draws)) && Inner(Play(Start(draws), keys).foods)
  {
    hide Play, PlaceFood, BodyOk, FoodsOk;
    StartOk(draws);
    var g := Game(StartBody(), [], 1, 0, 0, 0, draws, Playing);
    PlaceFoodInner(g);
    PlaceFoodInner(PlaceFood(g));
    PlaceFoodInner(PlaceFood(PlaceFood(g)));
    PlayInner(Start(draws), keys);
  }
}
