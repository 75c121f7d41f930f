/**
 The `App` of `src/app.rs`: the session around at most one `Game`. It waits for the
 terminal size, starts a game on Space, forwards arrows and ticks, drops everything
 on a resize, and stops running on Esc, `q` or Ctrl-C.
 */
module Shell {
  import opened GameModel
  import opened Engine

  datatype Option<T> = None | Some(value: T)

  /** The modifier flags a key event can carry. */
  datatype Modifier = Shift | Control | Alt | Super | Hyper | Meta

  datatype KeyEvent = KeyEvent(code: KeyCode, modifiers: set<Modifier>)

  /** `AppResult<()>`: the shell's handlers could report an error; the ones modelled here never do. */
  datatype AppResult = Ok | Err

  /** The keys that stop the application: Esc, `q`, and `c` or `C` held with Control and nothing else. */
  predicate Quits(e: KeyEvent) {
    || e.code == Esc
    || e.code == Char('q')
    || ((e.code == Char('c') || e.code == Char('C')) && e.modifiers == {Control})
  }

  /** What `App::tick` does to the game it holds: a running game takes one step, a finished one none. */
  function Advance(g: Snapshot, draws: seq<Draw>): (r: Snapshot)
    requires g.state == Running ==> TickDefined(g, draws)
    ensures g.state == GameOver ==> r == g
    ensures g.score <= r.score <= g.score + 1
    ensures r.state == Running ==> g.state == Running
    ensures g.state == Running ==> |r.food| > 0
  {
    if g.state == Running then
      StepScore(g, draws);
      StepFood(g, draws);
      Step(g, draws)
    else
      g
  }

  /** Ticks with these draws can all be delivered to the game without a panic or a hang. */
  ghost predicate PlayDefined(g: Snapshot, rounds: seq<seq<Draw>>)
    decreases |rounds|
  {
    |rounds| == 0 ||
    ((g.state == Running ==> TickDefined(g, rounds[0])) && PlayDefined(Advance(g, rounds[0]), rounds[1..]))
  }

  /** The game after a sequence of `App::tick` calls, one set of draws per tick. */
  function Play(g: Snapshot, rounds: seq<seq<Draw>>): (r: Snapshot)
    requires PlayDefined(g, rounds)
    ensures r.direction == g.direction && r.size == g.size
    decreases |rounds|
  {
    if |rounds| == 0 then g else Play(Advance(g, rounds[0]), rounds[1..])
  }

  /** Within one session the score never falls and rises by at most one per tick. */
  lemma {:induction false} PlayScore(g: Snapshot, rounds: seq<seq<Draw>>)
    requires PlayDefined(g, rounds)
    ensures g.score <= Play(g, rounds).score <= g.score + |rounds|
    decreases |rounds|
  {
    if |rounds| > 0 {
      PlayScore(Advance(g, rounds[0]), rounds[1..]);
    }
  }

  /** Ticks leave a finished game exactly as it is, however many arrive. */
  lemma {:induction false} PlayOverIsFixed(g: Snapshot, rounds: seq<seq<Draw>>)
    requires PlayDefined(g, rounds) && g.state == GameOver
    ensures Play(g, rounds) == g
    decreases |rounds|
  {
    if |rounds| > 0 {
      PlayOverIsFixed(Advance(g, rounds[0]), rounds[1..]);
    }
  }

  /** Every game reached by ticks keeps the game invariant. */
  lemma {:induction false} PlayConsistent(g: Snapshot, rounds: seq<seq<Draw>>)
    requires PlayDefined(g, rounds) && Consistent(g)
    ensures Consistent(Play(g, rounds))
    decreases |rounds|
  {
    if |rounds| > 0 {
      if g.state == Running {
        StepConsistent(g, rounds[0]);
      }
      PlayConsistent(Advance(g, rounds[0]), rounds[1..]);
    }
  }

  /** A game that ran at some point of a session had been running all along before it. */
  lemma {:induction false} PlayRunningHadRun(g: Snapshot, rounds: seq<seq<Draw>>)
    requires PlayDefined(g, rounds) && Play(g, rounds).state == Running
    ensures g.state == Running
    ensures |rounds| > 0 ==> |Play(g, rounds).food| > 0
    decreases |rounds|
  {
    if |rounds| > 0 {
      PlayRunningHadRun(Advance(g, rounds[0]), rounds[1..]);
    }
  }

  class App {
    var running: bool
    /** The terminal size, once a frame has reported it. */
    var size: Option<Rect>
    /** The current game, if any (`Option<Game>` in the source). */
    var game: Game?

    /** A game is always valid and played in the captured terminal size. */
    ghost predicate Valid()
      reads this, game
    {
      game != null ==> game.Valid() && size == Some(game.size)
    }

    constructor ()
      ensures running && size == None && game == null
      ensures Valid()
    {
      running := true;
      size := None;
      game := null;
    }

    method Tick(draws: seq<Draw>)
      requires Valid()
      requires game != null && !game.Over() ==> TickDefined(game.Model(), draws)
      modifies game
      ensures Valid()
      ensures game != null ==> game.Model() == Advance(old(game.Model()), draws)
    {
      if game != null && !game.Over() {
        game.Tick(draws);
      }
    }

    method Quit()
      requires Valid()
      modifies this
      ensures Valid()
      ensures !running && size == old(size) && game == old(game)
    {
      running := false;
    }

    method HandleResize() returns (r: AppResult)
      modifies this
      ensures r == Ok
      ensures size == None && game == null && running == old(running)
      ensures Valid()
    {
      size := None;
      game := null;
      return Ok;
    }

    method HandleInput(key: KeyEvent) returns (r: AppResult)
      requires Valid()
      requires size.Some? && key.code == Char(' ') && (game == null || game.Over()) ==>
        size.value.width >= 2 && size.value.height >= 2
      modifies this, game
      ensures r == Ok
      ensures Valid() && size == old(size)
      ensures running == (old(running) && !(old(size).Some? && Quits(key)))
      ensures old(size) == None ==> game == old(game)
      ensures old(size).Some? && key.code == Char(' ') && (old(game) == null || old(game.Over())) ==>
        game != null && fresh(game) && game.Model() == Initial(old(size).value)
      ensures old(size).Some? && key.code == Char(' ') && old(game) != null && !old(game.Over()) ==>
        game == old(game) && game.Model() == old(game.Model())
      ensures old(size).Some? && key.code.Arrow? ==>
        game == old(game) && (game != null ==> game.Model() == Steer(old(game.Model()), key.code))
      ensures !key.code.Arrow? && key.code != Char(' ') ==>
        game == old(game) && (game != null ==> game.Model() == old(game.Model()))
    {
      if size == None {
        return Ok;
      }
      match key.code {
        case Esc =>
          Quit();
        case Char(c) =>
          if c == 'q' {
            Quit();
          } else if c == 'c' || c == 'C' {
            if key.modifiers == {Control} {
              Quit();
            }
          } else if c == ' ' {
            if game == null || game.Over() {
              game := new Game(size.value);
            }
          }
        case Arrow(_) =>
          if game != null {
            game.HandleInput(key.code);
          }
        case Other =>
      }
      return Ok;
    }

    /** The first lines of `App::render`: the frame's size is captured once and then kept. */
    method CaptureSize(frame: Rect)
      requires Valid()
      modifies this
      ensures Valid()
      ensures old(size) == None ==> size == Some(frame)
      ensures old(size) != None ==> size == old(size)
      ensures running == old(running) && game == old(game)
    {
      if size == None {
        size := Some(frame);
      }
    }
  }
}
