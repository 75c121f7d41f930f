# snek: a verified model of the snake engine and its session shell

This project models the core of `snek`, a terminal snake game, in Dafny.

- `game_model.dfy`, module `GameModel`: the game as a value. It holds the entities
  (`Coordinates`, `Direction`, `State`, the arena `Rect`, key codes) and one function per
  step of a tick. `Step` is the whole tick. Lemmas state what a tick keeps and changes.
- `game.dfy`, module `Engine`: the class `Game`. Its fields are updated in place:
  `tail` is pushed at the front and popped at the back, `food` is filtered and pushed,
  and `spawn_food` is a `while` loop. Each method is proved to leave `Model()` equal to
  the matching `GameModel` function of the old state. `Tick` also keeps the invariant
  `Valid()`: at most one food item, interior and off the snake, and while the game runs its head is
  interior and off the body.
- `app.dfy`, module `Shell`: the class `App`. It holds `running`, the captured terminal
  `size`, and the current game (the nullable `Game?` stands for `Option<Game>`). Its
  invariant: a present game is valid and was created for the captured size.
  `Advance` and `Play` describe what a run of `App::tick` calls does to a game.

A tick runs five steps in order: move, tail check, border check, eat or shrink, refill
food. The model keeps two facts of the code:

- A tick never stops early. After a collision the food step and the refill still run. So
  the body still shifts and food is still placed (`CollisionStillShifts`). Only
  `App::tick` stops ticking a finished game.
- The tail check runs before the tail-end is dropped. Moving into the cell the tail-end is
  about to leave still ends the game (`StepIntoVacatingCell`).

Where the code could panic or hang, the model has a precondition:

- `Game::new` needs both dimensions to be at least 2, else `rect.width - 2` underflows.
- The food step needs both dimensions to be at least 3 when it has to place food, else
  it divides by zero.
- The food step also needs some draw to yield a free cell (`SpawnDefined`), else the
  retry loop never ends.
- `handle_movement` must not step below 0 or past 0xFFFF (`CanMove`).
- The score must be below 0xFFFF before a tick.

The random numbers are injected. A tick takes a sequence of `Draw`s, each a pair of raw
u16 values. They are consumed in order and mapped into the interior by
`r % (dimension - 2) + 1`. The first free candidate becomes the food.

## Model

| member | source | states |
|---|---|---|
| `GameModel.Middle` | src/game.rs:43-46 | The start cell is inside the arena, is interior when both dimensions are at least 3, and sits in the middle of the interior (at most one more column or row before it than after it). |
| `GameModel.Initial` | src/game.rs:42-57 | A new game is running, has score 0, an empty body, no food and direction Up, keeps the arena, starts at the middle cell, and satisfies the game invariant. |
| `GameModel.Steer` | src/game.rs:63-71 | An arrow key sets the direction to that arrow; any other key changes nothing; nothing but the direction ever changes. |
| `GameModel.Moved` | src/game.rs:76-81 | The head moves exactly one cell along the direction's axis, the other coordinate is unchanged, and Up and Left decrease. |
| `GameModel.MovedReverses` | src/game.rs:76-81 | Moving back the opposite way is always defined and returns to the start cell. |
| `GameModel.Move` | src/game.rs:73-82 | The body grows by one, its first segment is the old head, the old body follows it unchanged, and only head and body change. |
| `GameModel.CollideTail` | src/game.rs:84-88 | A head on the body sets GameOver; otherwise the state is kept; nothing else changes. |
| `GameModel.CollideBorder` | src/game.rs:90-98 | A head on x = 0, y = 0, x = width-1 or y = height-1 sets GameOver; otherwise the state is kept; nothing else changes. |
| `GameModel.Without` | src/game.rs:102 | Filtering removes every item equal to the head, keeps the count of every other item, keeps their order, and is the identity when the head is absent. |
| `GameModel.CollideFood` | src/game.rs:100-107 | On food: the score rises by one, the body is kept, no food item equals the head, the rest are kept in order. Otherwise the body loses exactly its last segment and score and food are kept. |
| `GameModel.Candidate` | src/game.rs:111-114 | Every draw maps to an interior cell. |
| `GameModel.FirstFree` | src/game.rs:110-119 | The loop stops at a draw whose cell is free, and every earlier draw was rejected. |
| `GameModel.Spawn` | src/game.rs:109-120 | With food present nothing changes. Otherwise exactly one item is added: interior, not the head, not on the body, and from the first accepted draw. |
| `GameModel.Step` | src/game.rs:122-128 | A tick leaves the head on the moved cell, never changes the direction or the arena, and never revives a finished game. |
| `GameModel.StepReverseIntoNeck` | src/game.rs:73-88 | Turning straight back onto the neck with a non-empty body ends the game on the next tick. |
| `GameModel.StepLength` | src/game.rs:122-128 | Over one tick the body grows by one exactly when the moved head lands on food; otherwise its length is kept. The head ends at the moved cell. |
| `GameModel.StepScore` | src/game.rs:103 | Over one tick the score never falls, rises by at most one, and rises exactly when the moved head lands on food. |
| `GameModel.StepFood` | src/game.rs:109-120 | After a tick the food list is non-empty. |
| `GameModel.StepGameOver` | src/game.rs:122-128 | A running game is over after a tick iff the moved head is on the pushed body (old head included) or on the border. |
| `GameModel.StepKeepsGameOver` | src/game.rs:84-98 | No step sets Running, so a finished game stays finished under a tick. |
| `GameModel.StepIntoVacatingCell` | src/game.rs:122-128 | Moving into the cell the tail-end is about to vacate ends the game, because the check runs before `pop_back`. |
| `GameModel.CollisionStillShifts` | src/game.rs:122-128 | In a consistent game a colliding tick keeps the score, still shifts the body by one cell and still leaves food. |
| `GameModel.StepConsistent` | src/game.rs:122-128 | A tick keeps the invariant and leaves exactly one food item: food interior and off the snake, and a running head interior and off the body. |
| `GameModel.SmallestArenaFirstTick` | src/game.rs:42-128 | In a 3 by 3 arena the first tick moves the head to (1, 0), ends the game, empties the body and puts food on (1, 1). |
| `GameModel.TenByTenFirstTick` | src/game.rs:122-128 | In a 10 by 10 arena the first tick moves the head from (5, 5) to (5, 4), keeps the game running with an empty body, and places one food item elsewhere. |
| `GameModel.EatAhead` | src/game.rs:100-107 | Food right ahead: the tick scores one, the body becomes the old head, and the new food lies off the snake. |
| `Engine.Game.constructor` | src/game.rs:42-57 | The new object is the initial game for the rectangle, and it is valid. |
| `Engine.Game.Over` | src/game.rs:59-61 | The query is true iff the state is GameOver. |
| `Engine.Game.HandleInput` | src/game.rs:63-71 | The object becomes `Steer` of its old value and stays valid. |
| `Engine.Game.HandleMovement` | src/game.rs:73-82 | The object becomes `Move` of its old value; it requires no u16 underflow or overflow. |
| `Engine.Game.HandleCollisionTail` | src/game.rs:84-88 | The object becomes `CollideTail` of its old value. |
| `Engine.Game.HandleCollisionBorder` | src/game.rs:90-98 | The object becomes `CollideBorder` of its old value. |
| `Engine.Game.HandleCollisionFood` | src/game.rs:100-107 | The object becomes `CollideFood` of its old value; the score must be able to grow when food is eaten. |
| `Engine.Game.SpawnFood` | src/game.rs:109-120 | The retry loop leaves the object equal to `Spawn` of its old value. |
| `Engine.Game.Tick` | src/game.rs:122-128 | The five steps in order leave the object equal to `Step` of its old value, and it stays valid. |
| `Shell.Advance` | src/app.rs:28-32 | A finished game is left as it is. A running game takes one tick: the score rises by at most one, food is present afterwards, and nothing becomes Running again. |
| `Shell.Play` | src/app.rs:28-32 | A run of ticks never changes the game's direction or arena. |
| `Shell.PlayScore` | src/app.rs:28-32 | Over any run of ticks the score never falls and rises by at most one per tick. |
| `Shell.PlayOverIsFixed` | src/app.rs:28-32 | Any number of ticks leaves a finished game unchanged. |
| `Shell.PlayConsistent` | src/app.rs:28-32 | Every game reached by ticks satisfies the game invariant. |
| `Shell.PlayRunningHadRun` | src/app.rs:28-32 | A game running after a run of ticks was running at its start and, after at least one tick, has food. |
| `Shell.App.constructor` | src/app.rs:20-26 | A new app is running, with no size and no game. |
| `Shell.App.Tick` | src/app.rs:28-32 | A present game becomes `Advance` of itself: it takes a tick only if it is not over. The invariant is kept. |
| `Shell.App.Quit` | src/app.rs:34-36 | Clears `running`, changes nothing else, and keeps the invariant. |
| `Shell.App.HandleResize` | src/app.rs:38-42 | Drops both the size and the game, keeps `running`, and returns Ok. |
| `Shell.App.HandleInput` | src/app.rs:44-77 | Without a size nothing changes. Esc, `q`, and `c`/`C` with exactly Control clear `running`. Space creates a fresh game for the size iff there is none or it is over. An arrow steers a present game. Any other key changes nothing. Always returns Ok. |
| `Shell.App.CaptureSize` | src/app.rs:80-82 | The frame size is stored only when no size is held, so a captured size is never overwritten. |

## Left out

- Drawing: `Game::render` and the drawing part of `App::render` (src/app.rs:84-101) produce terminal output only.
- `src/main.rs` is not part of this model: its event loop, terminal setup and 150 ms tick cadence are I/O. `Play` stands for a run of tick events.
- `rand::random::<u16>()` is a foreign random source. It is replaced by the injected `Draw` sequence; only the interior mapping and the acceptance test are modelled.
- Termination of `spawn_food` on a full board is not modelled. Each tick requires a free draw (`SpawnDefined`), so the hang on a board with no free interior cell is excluded, not shown.
- u16 wrap-around and panics are not modelled. Underflow or overflow of a coordinate, of `width - 2` and of the score are excluded by preconditions, and so is the division by zero in a 2-wide or 2-high arena.
- Engine.Game.Tick: requires `score < 0xFFFF` on every tick, also on a tick that eats nothing, where the source would not overflow.
- The `Rect` fields other than width and height, colours, glyphs and titles are left out.
- Key events are abstracted: `KeyCode` keeps the four arrows, Esc, characters and "other". Modifiers are a set of flags, compared with `{Control}` as the source compares with `KeyModifiers::CONTROL`.
