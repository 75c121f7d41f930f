/**
 The snake engine of `src/game.rs` as values: the entities of a game, one function per
 step of a tick, the tick itself (`Step`), and the properties a tick keeps.
 The class `Engine.Game` updates its fields in place and is proved against these functions.
 */
module GameModel {

  /** Unsigned 16-bit integers: every coordinate, arena dimension and the score. */
  type U16 = x: int | 0 <= x < 0x1_0000

  const U16_MAX: int := 0xFFFF

  datatype State = Running | GameOver

  datatype Coordinates = Coordinates(x: U16, y: U16)

  datatype Direction = Up | Down | Left | Right

  /** The arena; of the terminal rectangle only its dimensions matter to the engine. */
  datatype Rect = Rect(width: U16, height: U16)

  /** The key codes the engine tells apart: the four arrows and everything else. */
  datatype KeyCode = Arrow(dir: Direction) | Esc | Char(c: char) | Other

  /** The two raw random u16 values the engine draws for one food candidate. */
  datatype Draw = Draw(rx: U16, ry: U16)

  /** Everything a `Game` holds; `tail` runs from the neck to the tail-end. */
  datatype Snapshot = Snapshot(
    state: State,
    score: U16,
    head: Coordinates,
    tail: seq<Coordinates>,
    food: seq<Coordinates>,
    direction: Direction,
    size: Rect)

  /** The playable cells, strictly inside the border. */
  predicate Interior(c: Coordinates, r: Rect) {
    1 <= c.x <= r.width - 2 && 1 <= c.y <= r.height - 2
  }

  /** The border cells (src/game.rs:91-94). */
  predicate OnBorder(c: Coordinates, r: Rect)
    requires r.width >= 1 && r.height >= 1
  {
    c.x == 0 || c.y == 0 || c.x == r.width - 1 || c.y == r.height - 1
  }

  /** Every food item is playable and lies on no part of the snake. */
  ghost predicate FoodPlaced(s: Snapshot) {
    forall f :: f in s.food ==> Interior(f, s.size) && f != s.head && f !in s.tail
  }

  /**
   The invariant of a game: the arena it was created with, at most one food item,
   food placement, and,
   while it runs in an arena with a playable interior, a head inside that interior
   and off the body.
   */
  ghost predicate Consistent(s: Snapshot) {
    && s.size.width >= 2 && s.size.height >= 2
    && |s.food| <= 1
    && FoodPlaced(s)
    && (s.state == Running ==> s.head !in s.tail)
    && (s.state == Running && s.size.width >= 3 && s.size.height >= 3 ==> Interior(s.head, s.size))
  }

  // ---------------------------------------------------------------------------
  // Game::new

  /** The starting cell: the middle of the interior, rounded towards the top-left. */
  function Middle(r: Rect): (c: Coordinates)
    requires r.width >= 2 && r.height >= 2
    ensures 1 <= c.x <= r.width - 1 && 1 <= c.y <= r.height - 1
    ensures r.width >= 3 && r.height >= 3 ==> Interior(c, r)
    // interior columns (rows) before the head outnumber those after it by zero or one
    ensures 0 <= (c.x - 1) - (r.width - 2 - c.x) <= 1
    ensures 0 <= (c.y - 1) - (r.height - 2 - c.y) <= 1
  {
    Coordinates((r.width - 2) / 2 + 1, (r.height - 2) / 2 + 1)
  }

  /** A fresh game: running, no score, no body, no food, heading up. */
  function Initial(r: Rect): (s: Snapshot)
    requires r.width >= 2 && r.height >= 2
    ensures Consistent(s)
    ensures s.state == Running && s.score == 0 && s.tail == [] && s.food == []
    ensures s.direction == Up && s.size == r && s.head == Middle(r)
  {
    Snapshot(Running, 0, Middle(r), [], [], Up, r)
  }

  // ---------------------------------------------------------------------------
  // Game::handle_input

  /** An arrow key replaces the direction; any other key changes nothing. */
  function Steer(s: Snapshot, key: KeyCode): (r: Snapshot)
    ensures r == s.(direction := r.direction)
    ensures key.Arrow? ==> r.direction == key.dir
    ensures !key.Arrow? ==> r == s
  {
    match key
    case Arrow(d) => s.(direction := d)
    case _ => s
  }

  // ---------------------------------------------------------------------------
  // Game::handle_movement

  /** Moving from `c` in direction `d` stays within u16 (no underflow below 0, no overflow past 0xFFFF). */
  predicate CanMove(c: Coordinates, d: Direction) {
    match d
    case Up => c.y >= 1
    case Down => c.y < U16_MAX
    case Left => c.x >= 1
    case Right => c.x < U16_MAX
  }

  function Opposite(d: Direction): Direction {
    match d
    case Up => Down
    case Down => Up
    case Left => Right
    case Right => Left
  }

  /** The neighbouring cell in direction `d`; rows grow downwards. */
  function Moved(c: Coordinates, d: Direction): (n: Coordinates)
    requires CanMove(c, d)
    ensures d == Up || d == Down ==> n.x == c.x && (n.y < c.y <==> d == Up)
    ensures d == Left || d == Right ==> n.y == c.y && (n.x < c.x <==> d == Left)
    ensures (if n.x < c.x then c.x - n.x else n.x - c.x) + (if n.y < c.y then c.y - n.y else n.y - c.y) == 1
  {
    match d
    case Up => c.(y := c.y - 1)
    case Down => c.(y := c.y + 1)
    case Left => c.(x := c.x - 1)
    case Right => c.(x := c.x + 1)
  }

  /** Stepping back the opposite way returns to the start. */
  lemma MovedReverses(c: Coordinates, d: Direction)
    requires CanMove(c, d)
    ensures CanMove(Moved(c, d), Opposite(d)) && Moved(Moved(c, d), Opposite(d)) == c
  {
  }

  /** Push the old head at the neck end, then step the head. */
  function Move(s: Snapshot): (r: Snapshot)
    requires CanMove(s.head, s.direction)
    ensures |r.tail| == |s.tail| + 1 && r.tail[0] == s.head && r.tail[1..] == s.tail
    ensures r.head == Moved(s.head, s.direction)
    ensures r == s.(head := r.head, tail := r.tail)
  {
    s.(tail := [s.head] + s.tail, head := Moved(s.head, s.direction))
  }

  // ---------------------------------------------------------------------------
  // Game::handle_collision_tail and Game::handle_collision_border

  /** Running the head into the body ends the game; nothing else changes. */
  function CollideTail(s: Snapshot): (r: Snapshot)
    ensures s.head in s.tail ==> r.state == GameOver
    ensures s.head !in s.tail ==> r.state == s.state
    ensures r == s.(state := r.state)
  {
    if s.head in s.tail then s.(state := GameOver) else s
  }

  /** Running the head onto the border ends the game; nothing else changes. */
  function CollideBorder(s: Snapshot): (r: Snapshot)
    requires s.size.width >= 1 && s.size.height >= 1
    ensures OnBorder(s.head, s.size) ==> r.state == GameOver
    ensures !OnBorder(s.head, s.size) ==> r.state == s.state
    ensures r == s.(state := r.state)
  {
    if OnBorder(s.head, s.size) then s.(state := GameOver) else s
  }

  // ---------------------------------------------------------------------------
  // Game::handle_collision_food

  /** `sub` can be obtained from `xs` by deleting elements: its elements occur in `xs` in the same order. */
  ghost predicate InOrderWithin<T>(sub: seq<T>, xs: seq<T>)
    decreases |xs|
  {
    sub == [] || (xs != [] && if sub[0] == xs[0] then InOrderWithin(sub[1..], xs[1..]) else InOrderWithin(sub, xs[1..]))
  }

  /** `Vec::retain(|f| f != c)`: every item equal to `c` is dropped, the others are kept in order. */
  function Without(xs: seq<Coordinates>, c: Coordinates): (r: seq<Coordinates>)
    ensures c !in r
    ensures forall f :: f != c ==> multiset(r)[f] == multiset(xs)[f]
    ensures InOrderWithin(r, xs)
    ensures c !in xs ==> r == xs
  {
    if xs == [] then []
    else
      assert xs == [xs[0]] + xs[1..];
      if xs[0] == c then Without(xs[1..], c) else [xs[0]] + Without(xs[1..], c)
  }

  /**
   A head on food eats every item there and scores one; otherwise the tail-end is
   dropped (`pop_back`, which leaves an empty body empty).
   */
  function CollideFood(s: Snapshot): (r: Snapshot)
    requires s.head in s.food ==> s.score < U16_MAX
    ensures s.head in s.food ==>
      && r.score == s.score + 1 && r.tail == s.tail
      && s.head !in r.food && InOrderWithin(r.food, s.food)
      && (forall f :: f != s.head ==> multiset(r.food)[f] == multiset(s.food)[f])
    ensures s.head !in s.food ==>
      && r.score == s.score && r.food == s.food
      && (s.tail != [] ==> r.tail == s.tail[..|s.tail| - 1])
      && (s.tail == [] ==> r.tail == [])
    ensures r == s.(score := r.score, tail := r.tail, food := r.food)
  {
    if s.head in s.food then
      s.(food := Without(s.food, s.head), score := s.score + 1)
    else if s.tail != [] then
      s.(tail := s.tail[..|s.tail| - 1])
    else
      s
  }

  // ---------------------------------------------------------------------------
  // Game::spawn_food

  /** A cell food may take: neither the head nor a body segment. */
  predicate Free(c: Coordinates, s: Snapshot) {
    c != s.head && c !in s.tail
  }

  /** A draw mapped into the interior, `r % (dimension - 2) + 1` on each axis. */
  function Candidate(d: Draw, r: Rect): (c: Coordinates)
    requires r.width >= 3 && r.height >= 3
    ensures Interior(c, r)
  {
    Coordinates(d.rx % (r.width - 2) + 1, d.ry % (r.height - 2) + 1)
  }

  /** Some draw yields a free cell: the retry loop ends. */
  ghost predicate HasFreeDraw(s: Snapshot, draws: seq<Draw>)
    requires s.size.width >= 3 && s.size.height >= 3
  {
    exists j :: 0 <= j < |draws| && Free(Candidate(draws[j], s.size), s)
  }

  /**
   The food step does not fail: it has nothing to do, or the interior is non-empty
   (no division by zero) and some draw is accepted (the loop ends).
   */
  ghost predicate SpawnDefined(s: Snapshot, draws: seq<Draw>) {
    |s.food| > 0 || (s.size.width >= 3 && s.size.height >= 3 && HasFreeDraw(s, draws))
  }

  /** The index of the first accepted draw. */
  function FirstFree(s: Snapshot, draws: seq<Draw>): (k: nat)
    requires s.size.width >= 3 && s.size.height >= 3 && HasFreeDraw(s, draws)
    ensures k < |draws| && Free(Candidate(draws[k], s.size), s)
    ensures forall j :: 0 <= j < k ==> !Free(Candidate(draws[j], s.size), s)
    decreases |draws|
  {
    if Free(Candidate(draws[0], s.size), s) then 0
    else
      var j :| 0 <= j < |draws| && Free(Candidate(draws[j], s.size), s);
      assert draws[1..][j - 1] == draws[j];
      1 + FirstFree(s, draws[1..])
  }

  /**
   With food present nothing changes; otherwise exactly one item is placed, at the
   first accepted draw, which is an interior cell off the snake.
   */
  function Spawn(s: Snapshot, draws: seq<Draw>): (r: Snapshot)
    requires SpawnDefined(s, draws)
    ensures |s.food| > 0 ==> r == s
    ensures |s.food| == 0 ==>
      && r == s.(food := r.food) && |r.food| == 1
      && Interior(r.food[0], s.size) && Free(r.food[0], s)
      && exists k :: 0 <= k < |draws| && r.food[0] == Candidate(draws[k], s.size)
           && forall j :: 0 <= j < k ==> !Free(Candidate(draws[j], s.size), s)
  {
    if |s.food| > 0 then s
    else
      var k := FirstFree(s, draws);
      s.(food := [Candidate(draws[k], s.size)])
  }

  // ---------------------------------------------------------------------------
  // Game::tick

  /** The state after the first four steps of a tick. */
  function AfterFood(s: Snapshot): (r: Snapshot)
    requires s.size.width >= 1 && s.size.height >= 1
    requires CanMove(s.head, s.direction) && s.score < U16_MAX
  {
    CollideFood(CollideBorder(CollideTail(Move(s))))
  }

  /**
   A tick does not panic or hang: the head stays within u16, the score can grow,
   and the food step is defined on the state it meets.
   */
  ghost predicate TickDefined(s: Snapshot, draws: seq<Draw>) {
    && s.size.width >= 1 && s.size.height >= 1
    && CanMove(s.head, s.direction) && s.score < U16_MAX
    && SpawnDefined(AfterFood(s), draws)
  }

  /** One tick: move, tail check, border check, eat or shrink, refill food — never short-circuited. */
  function Step(s: Snapshot, draws: seq<Draw>): (r: Snapshot)
    requires TickDefined(s, draws)
    ensures r.head == Moved(s.head, s.direction)
    ensures r.direction == s.direction && r.size == s.size
    ensures s.state == GameOver ==> r.state == GameOver
  {
    Spawn(AfterFood(s), draws)
  }

  // ---------------------------------------------------------------------------
  // Properties of one tick

  /** The snake grows by one exactly when the moved head lands on food; otherwise its length is kept. */
  lemma StepLength(s: Snapshot, draws: seq<Draw>)
    requires TickDefined(s, draws)
    ensures Moved(s.head, s.direction) in s.food ==> |Step(s, draws).tail| == |s.tail| + 1
    ensures Moved(s.head, s.direction) !in s.food ==> |Step(s, draws).tail| == |s.tail|
    ensures Step(s, draws).head == Moved(s.head, s.direction)
  {
  }

  /** The score never falls, rises by at most one, and rises exactly when food is eaten. */
  lemma StepScore(s: Snapshot, draws: seq<Draw>)
    requires TickDefined(s, draws)
    ensures s.score <= Step(s, draws).score <= s.score + 1
    ensures Step(s, draws).score == s.score + 1 <==> Moved(s.head, s.direction) in s.food
  {
  }

  /** After a tick there is always food. */
  lemma StepFood(s: Snapshot, draws: seq<Draw>)
    requires TickDefined(s, draws)
    ensures |Step(s, draws).food| > 0
  {
  }

  /**
   A running game is over after a tick exactly when the moved head hit the body as it
   stood after the push (the old head included) or the border.
   */
  lemma StepGameOver(s: Snapshot, draws: seq<Draw>)
    requires TickDefined(s, draws) && s.state == Running
    ensures Step(s, draws).state == GameOver <==>
      (Moved(s.head, s.direction) in [s.head] + s.tail || OnBorder(Moved(s.head, s.direction), s.size))
  {
  }

  /** No step sets `Running`: a finished game stays finished under `Step`. */
  lemma StepKeepsGameOver(s: Snapshot, draws: seq<Draw>)
    requires TickDefined(s, draws) && s.state == GameOver
    ensures Step(s, draws).state == GameOver
  {
  }

  /**
   The collision check comes before the tail-end is dropped: moving into the cell the
   tail-end is about to vacate still ends the game.
   */
  lemma StepIntoVacatingCell(s: Snapshot, draws: seq<Draw>)
    requires TickDefined(s, draws) && s.tail != []
    requires Moved(s.head, s.direction) == s.tail[|s.tail| - 1]
    ensures Step(s, draws).state == GameOver
  {
  }

  /**
   Turning straight back while the body is non-empty moves the head onto the neck,
   which the tail check sees: no 180-degree turn survives a tick.
   */
  lemma StepReverseIntoNeck(s: Snapshot, draws: seq<Draw>, d: Direction)
    requires TickDefined(s, draws) && s.tail != []
    requires CanMove(s.tail[0], d) && s.head == Moved(s.tail[0], d) && s.direction == Opposite(d)
    ensures Step(s, draws).state == GameOver
  {
    MovedReverses(s.tail[0], d);
    assert Moved(s.head, s.direction) in [s.head] + s.tail;
  }

  /**
   A collision does not stop the rest of the tick: the body still shifts (or grows)
   and food is still refilled. In a consistent game no food lies where a collision
   happens, so the score stays and the body is the old body shifted by one.
   */
  lemma CollisionStillShifts(s: Snapshot, draws: seq<Draw>)
    requires Consistent(s) && TickDefined(s, draws)
    requires Moved(s.head, s.direction) in [s.head] + s.tail || OnBorder(Moved(s.head, s.direction), s.size)
    ensures Step(s, draws).score == s.score
    ensures Step(s, draws).tail == ([s.head] + s.tail)[..|s.tail|]
    ensures |Step(s, draws).food| > 0
  {
  }

  /**
   A tick keeps the invariant: exactly one food item afterwards, food interior and off
   the snake, and a running head interior and off the body.
   */
  lemma StepConsistent(s: Snapshot, draws: seq<Draw>)
    requires Consistent(s) && TickDefined(s, draws)
    ensures Consistent(Step(s, draws))
    ensures |Step(s, draws).food| == 1
  {
    var n := Moved(s.head, s.direction);
    var m := Move(s);
    var c := AfterFood(s);
    var r := Step(s, draws);
    // eating the single item leaves no food, so exactly one is placed
    if n in s.food {
      assert s.food == [n];
      assert Without(s.food, n) == [];
    }
    // the body after the food step lies within the pushed body
    assert forall t :: t in c.tail ==> t in m.tail by {
      forall t | t in c.tail ensures t in m.tail {
        if n !in s.food && m.tail != [] {
          assert c.tail == m.tail[..|m.tail| - 1];
        }
      }
    }
    // food left after the food step stays where it was placed
    assert forall f :: f in c.food ==> f in s.food && f != n;
    if r.state == Running {
      assert s.state == Running;
      assert n !in m.tail && !OnBorder(n, s.size);
    }
  }

  // ---------------------------------------------------------------------------
  // Scenarios

  /** In the smallest playable arena the first tick ends the game: the head leaves the only interior cell, which then takes the food. */
  lemma SmallestArenaFirstTick(draws: seq<Draw>)
    requires |draws| > 0
    ensures TickDefined(Initial(Rect(3, 3)), draws)
    ensures Step(Initial(Rect(3, 3)), draws)
      == Snapshot(GameOver, 0, Coordinates(1, 0), [], [Coordinates(1, 1)], Up, Rect(3, 3))
  {
    var a := AfterFood(Initial(Rect(3, 3)));
    assert a.head == Coordinates(1, 0) && a.tail == [] && a.food == [];
    assert Free(Candidate(draws[0], a.size), a);
  }

  /** A 10 by 10 arena: the first tick moves the head from (5, 5) up to (5, 4) and keeps the length. */
  lemma TenByTenFirstTick(draws: seq<Draw>)
    requires TickDefined(Initial(Rect(10, 10)), draws)
    ensures var r := Step(Initial(Rect(10, 10)), draws);
      && r.state == Running && r.score == 0
      && r.head == Coordinates(5, 4) && r.tail == []
      && |r.food| == 1 && r.food[0] != Coordinates(5, 4)
  {
  }

  /** Food right ahead: the tick scores one, the snake grows by its old head, and new food lands off the snake. */
  lemma EatAhead(draws: seq<Draw>)
    requires TickDefined(Initial(Rect(10, 10)).(food := [Coordinates(5, 4)]), draws)
    ensures var r := Step(Initial(Rect(10, 10)).(food := [Coordinates(5, 4)]), draws);
      && r.state == Running && r.score == 1
      && r.head == Coordinates(5, 4) && r.tail == [Coordinates(5, 5)]
      && |r.food| == 1 && Free(r.food[0], r)
  {
  }
}
