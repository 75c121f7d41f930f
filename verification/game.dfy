/**
 The `Game` of `src/game.rs`: a snake whose fields every step updates in place.
 Each method is proved to leave the game in the state the matching `GameModel`
 function describes, so the properties proved there hold of the object.
 */
module Engine {
  import opened GameModel

  class Game {
    var state: State
    var score: U16
    var head: Coordinates
    /** The body, neck first and tail-end last (a `VecDeque` in the source). */
    var tail: seq<Coordinates>
    var food: seq<Coordinates>
    var direction: Direction
    /** The arena; the source never reassigns it. */
    const size: Rect

    /** The game as a value. */
    function Model(): Snapshot
      reads this
    {
      Snapshot(state, score, head, tail, food, direction, size)
    }

    ghost predicate Valid()
      reads this
    {
      Consistent(Model())
    }

    /** `Game::new`; the source subtracts 2 from each dimension in u16, so both must be at least 2. */
    constructor (rect: Rect)
      requires rect.width >= 2 && rect.height >= 2
      ensures Model() == Initial(rect) && Valid()
    {
      var middle := Coordinates((rect.width - 2) / 2 + 1, (rect.height - 2) / 2 + 1);
      state := Running;
      score := 0;
      head := middle;
      tail := [];
      food := [];
      direction := Up;
      size := rect;
    }

    function Over(): (over: bool)
      reads this
      ensures over <==> state == GameOver
      ensures over <==> !Model().state.Running?
    {
      state.GameOver?
    }

    method HandleInput(key: KeyCode)
      modifies this
      ensures Model() == Steer(old(Model()), key)
      ensures old(Valid()) ==> Valid()
    {
      direction := match key
        case Arrow(d) => d
        case _ => direction;
    }

    method HandleMovement()
      requires CanMove(head, direction)
      modifies this
      ensures Model() == Move(old(Model()))
    {
      tail := [head] + tail;
      match direction
      case Up => head := head.(y := head.y - 1);
      case Down => head := head.(y := head.y + 1);
      case Left => head := head.(x := head.x - 1);
      case Right => head := head.(x := head.x + 1);
    }

    method HandleCollisionTail()
      modifies this
      ensures Model() == CollideTail(old(Model()))
    {
      if head in tail {
        state := GameOver;
      }
    }

    method HandleCollisionBorder()
      requires size.width >= 1 && size.height >= 1
      modifies this
      ensures Model() == CollideBorder(old(Model()))
    {
      if head.x == 0 || head.y == 0 || head.x == size.width - 1 || head.y == size.height - 1 {
        state := GameOver;
      }
    }

    method HandleCollisionFood()
      requires head in food ==> score < U16_MAX
      modifies this
      ensures Model() == CollideFood(old(Model()))
    {
      if head in food {
        food := Without(food, head);
        score := score + 1;
      } else if tail != [] {
        tail := tail[..|tail| - 1];
      }
    }

    /** The retry loop of `spawn_food`, drawing candidates from `draws` in order. */
    method SpawnFood(draws: seq<Draw>)
      requires SpawnDefined(Model(), draws)
      modifies this
      ensures Model() == Spawn(old(Model()), draws)
    {
      var i := 0;
      while food == []
        invariant 0 <= i <= |draws|
        invariant Model() == old(Model()).(food := food)
        invariant old(food) != [] ==> food == old(food)
        invariant old(food) == [] && food == [] ==>
          forall j :: 0 <= j < i ==> !Free(Candidate(draws[j], size), old(Model()))
        invariant old(food) == [] && food != [] ==>
          && 0 < i && food == [Candidate(draws[i - 1], size)]
          && Free(food[0], old(Model()))
          && forall j :: 0 <= j < i - 1 ==> !Free(Candidate(draws[j], size), old(Model()))
        decreases |draws| - i
      {
        var candidate := Candidate(draws[i], size);
        if candidate !in tail && candidate != head {
          food := food + [candidate];
        }
        i := i + 1;
      }
      if old(food) == [] {
        var k := FirstFree(old(Model()), draws);
        assert k == i - 1;
      }
    }

    /** `Game::tick`: the five steps in order, none skipped after a collision. */
    method Tick(draws: seq<Draw>)
      requires Valid() && TickDefined(Model(), draws)
      modifies this
      ensures Model() == Step(old(Model()), draws)
      ensures Valid()
    {
      HandleMovement();
      HandleCollisionTail();
      HandleCollisionBorder();
      HandleCollisionFood();
      SpawnFood(draws);
      StepConsistent(old(Model()), draws);
    }
  }
}
