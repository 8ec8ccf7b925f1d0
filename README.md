# Retro Snake game logic in Dafny

This project models the discrete rules of a Snake clone written in Rust on
the Bevy engine. It covers:

- the snake's heading and its body of grid cells, head first;
- the timed movement step, with growth and reset;
- the arrow-key steering rule;
- the three collision checks: food, edges and tail;
- the handler that turns queued collision events into score, growth, food
  placement and game over;
- the input pass that resumes a paused game.

Files:

- `wrappers.dfy` holds `Option`.
- `snake.dfy` (module `Snake`) models `src/snake.rs`: `Direction`, the
  `Snake` resource as a class, the movement step `Snake.Update`, and the
  key handler `KeyboardInput`.
- `game.dfy` (module `Game`) models `src/main.rs`: `CELL_COUNT`,
  `CollisionEvent`, `GameState`, the three checks, the rejection-sampling
  loop `PlaceFood`, `game_over` and `handle_collision_event`.
- `input.dfy` (module `Input`) models `src/input.rs` as written. That file is
  not declared as a module in `src/main.rs:16-20`. It imports the private
  `snake::Direction`.

Modelling choices:

- **Positions.** Positions are Bevy `Vec2` floats in the game. Every
  coordinate it produces is a whole number: the seed cells, unit steps and
  food drawn from integer ranges. So `Vec2` is a pair of `int`s here.
- **The heading.** The `Direction` resource is a plain value. Methods take it
  as an in-parameter and return its new value.
- **The game-over flag.** The global `GAME_OVER` flag becomes:
  - an input of `Snake.Update`;
  - an in/out pair of `KeyboardInput`;
  - a field of the `World` class. `World` holds the resources the collision
    handler writes besides the snake: the score, the food position, the
    pending next state (`NextState`, `None` until set) and `GAME_OVER`.
- **Randomness.** Random food draws come from an oracle. Each queued event
  gets its own stream of draws. Every draw lies in the range the game draws
  from, `[0, 23]` on both axes. A `Food` event's stream must hold at least
  one cell off the body. This is exactly what the game's rejection loop needs
  to end.

What is proved, briefly:

- **Direction.** `opposite` is an involution with no fixed point. `to_vec2`
  is a unit step along one axis.
- **Movement.** A movement step shifts the body by one cell. The length
  stays the same, or grows by one while growing. The body stays an unbroken
  line of at least three cells.
- **Reset.** A reset happens even while the game is over.
- **Steering.** Each guarded overwrite refuses a reversal, yet one pass with
  two keys held can reverse the heading.
- **Collisions.** The edge, food and tail checks emit exactly the events
  their conditions call for.
- **Event handling.** The handler's result is characterised for any queue:
  - the score counts the foods eaten since the last lethal event;
  - the flags depend only on which kinds of events occurred;
  - the last event decides the pending state;
  - food placed by a food event is never on the body.

Behaviour of the code that is easy to miss:

- Movement does not look at the game state. Only the `GAME_OVER` flag stops
  it, so a `Paused` state does not freeze the snake.
- `game_over` does not reset the body itself. It sets `should_reset`, and the
  next movement step puts the snake back on its seed cells.
- After a game over, the food is drawn without checking the body.
- One input pass with two keys held can end on the reverse of the heading it
  started from. This is proved in `Snake.SteerCanReverseInOnePass`. The next
  movement step then puts the head on the neck and the tail check fires
  (`Game.ReversalHitsNeck`). The key guard compares each key with the
  heading left by the previous key, not with the last step taken.
- The handler applies the events in queue order. The order in which the
  three checks fill the queue is not fixed by the code.

## Model

| member | source | states |
|---|---|---|
| Snake.Direction.ToVec2 | src/snake.rs:44-51 | the step of every direction is a unit move along exactly one axis |
| Snake.Direction.Opposite | src/snake.rs:53-60 | no direction is its own opposite |
| Snake.OppositeInvolutive | src/snake.rs:53-60 | the opposite of the opposite is the direction itself, and a direction is the opposite of `d` exactly when it is `d.Opposite()` |
| Snake.OppositeStep | src/snake.rs:44-60 | the opposite direction steps by the negated vector |
| Snake.ToVec2Injective | src/snake.rs:44-51 | two directions have the same step exactly when they are equal |
| Snake.SeedIsChain | src/snake.rs:66-81 | the seed body has three cells in one line, and its head is one step to the right of its neck, matching the initial heading of src/snake.rs:91 |
| Snake.Snake.Default | src/snake.rs:66-81 | a new snake is on the seed cells (6,9), (5,9), (4,9), neither growing nor resetting, and satisfies the length-and-line invariant |
| Snake.Snake.Head | src/snake.rs:19-21 | there is a head exactly when the body is non-empty, and it is the front cell |
| Snake.Advance | src/snake.rs:125-133 | one movement step: the new head is the old head plus the step, every old cell moves back one place, and the length grows by one exactly when growing; an empty body stays empty |
| Snake.AdvancePreservesChain | src/snake.rs:125-133 | a movement step keeps the body an unbroken line of adjacent cells |
| Snake.AdvanceHeading | src/snake.rs:125-133 | after a step the neck lies exactly one step behind the head |
| Snake.TurnAvoidsNeck | src/snake.rs:124-126 | a heading that is not the reverse of the last step never moves the head onto the neck |
| Snake.SeedTicks | src/snake.rs:125-133 | from the seed cells heading right, a plain step gives (7,9), (6,9), (5,9), and a growing step also keeps (4,9) |
| Snake.Snake.Update | src/snake.rs:94-142 | a pending reset first restores the seed cells and heading Right and clears the flag, even while the game is over; a game over then leaves the body and growth flag alone; otherwise the body advances and the growth flag clears; the length-and-line invariant is kept |
| Snake.ValidHasLastStep | src/snake.rs:124-126 | a snake of three or more cells in one line has a head one step of some direction ahead of its neck, and any heading that is not the reverse of that step keeps the next head off the neck |
| Snake.Check | src/snake.rs:145-150 | one guarded overwrite never yields the opposite of the heading it replaces; an accepted key sets the requested heading, a rejected one leaves everything unchanged; it records whether any key was accepted so far |
| Snake.Steer | src/snake.rs:144-170 | the pass in scan order Up, Down, Left, Right: with some key accepted it ends on a pressed key's heading, with none it keeps the starting heading |
| Snake.SteerAcceptsIff | src/snake.rs:144-170 | some key is accepted exactly when some pressed key is not the reverse of the starting heading |
| Snake.SteerSingleKey | src/snake.rs:144-170 | with one key pressed the pass turns that way exactly when it is not the reverse |
| Snake.SteerCurrentKey | src/snake.rs:144-170 | pressing the current heading's key is accepted and keeps the heading |
| Snake.SteerCanReverseInOnePass | src/snake.rs:144-170 | heading right with Up and Left pressed, the pass ends heading left, the reverse of where it started |
| Snake.KeyboardInput | src/snake.rs:144-170 | the heading after the four checks in scan order, and the game-over flag cleared exactly when some key was accepted |
| Game.CheckFood | src/main.rs:99-113 | a single Food event exactly when the body is non-empty and the head is on the food, nothing otherwise |
| Game.CheckEdges | src/main.rs:115-125 | only Edges events, one for each axis whose head coordinate is -1 or 24, none for an empty body |
| Game.EdgesOffPlayfield | src/main.rs:115-125 | for a head on the board or its walls, no Edges event exactly when it is inside [0,23] on both axes; a corner gives two |
| Game.CheckTail | src/main.rs:127-136 | a single Tail event exactly when the head occurs again further down the body, nothing otherwise |
| Game.DistinctBodyHasNoTail | src/main.rs:127-136 | a body without repeated cells raises no Tail event |
| Game.FirstFreeIndex | src/main.rs:155-164 | rejection sampling stops at a draw off the body, and every earlier draw was on the body |
| Game.PlaceFood | src/main.rs:153-165 | the rejection loop returns the first draw off the body, so the food is in [0,23] on both axes and never on the body |
| Game.SingleFreeCellIsChosen | src/main.rs:155-164 | when exactly one cell of the playfield is off the body, the loop returns that cell whatever the draws |
| Game.FullBoardStarves | src/main.rs:155-164 | when the body covers the playfield no draw is ever accepted, so the loop cannot end |
| Game.World.constructor | src/main.rs:50-77 | the start-up resources: score 0 (line 54), no pending state, the game-over flag false (line 27), and the first food cell given |
| Game.GameOverEffects | src/main.rs:186-196 | the value view of `game_over`: score 0, reset requested, food on the drawn cell, GameOver pending, game-over flag set, growth flag kept |
| Game.EndGame | src/main.rs:177-198 | `game_over`: the score becomes 0, a reset is requested, the food moves to the drawn cell, the pending state becomes GameOver and the game-over flag is set; nothing else changes, and the snake invariant is kept |
| Game.ApplyEvent | src/main.rs:146-173 | one event: Food sets growing, adds exactly 1 to the score, sets FoodEaten pending and puts the food in [0,23]² off the body, leaving the reset and game-over flags alone; Edges or Tail is `game_over` with the first draw |
| Game.ApplyEvents | src/main.rs:145-174 | the events folded front to back; an empty queue changes nothing, and after any event the food is in [0,23]² |
| Game.ApplyEventsFirst | src/main.rs:145-174 | the queue is read from the front: the first event's effect is applied first and the rest of the queue to its result |
| Game.HandleCollisionEvents | src/main.rs:138-175 | the body is untouched, the snake invariant is kept, and the snake's flags and the resources end as the events applied in queue order |
| Game.ScoreAfterEvents | src/main.rs:145-174 | the final score counts the foods eaten after the last Edges or Tail event, or, without such an event, adds every food eaten to the old score |
| Game.FlagsAfterEvents | src/main.rs:145-198 | the snake grows once any Food event came, and the reset and game-over flags are set once any Edges or Tail event came |
| Game.LastEventDecides | src/main.rs:145-174 | the last event sets the pending state; the food then lies in [0,23] on both axes, and off the body when that event was Food; an empty queue changes nothing |
| Game.FoodThenTail | src/main.rs:145-174 | Food followed by Tail ends with score 0, growing set, a reset requested and GameOver pending |
| Game.ReversalHitsNeck | src/snake.rs:143-161 | heading right from the seed cells with Up and Left held, the pass ends heading left and the next step puts the head on the neck, where the tail check reports Tail |
| Game.TailCollisionRestarts | src/snake.rs:100-123 | after a tail collision, the next step puts the snake on its seed cells heading right with score 0 and stays over; an accepted key then clears the game-over flag |
| Input.Keyboard | src/input.rs:14-51 | the heading after the same four guarded checks with held keys, and Playing requested exactly when the game was paused and some key was accepted; otherwise the pending state is untouched |
| Input.ResumesIff | src/input.rs:20-50 | a paused game is resumed exactly when some held key is not the reverse of the starting heading |

## Left out

- **Rendering and entity plumbing.** Not modelled: segment sprites, their
  despawn and respawn inside `update`, position translation, the camera, the
  window and `SCREEN_SIZE`. These are engine commands and floating-point
  screen transforms.
- **`src/hud.rs`.** Its drawing and layout are not modelled. Its second
  `Score` counter is not modelled either: it only repeats the increment and
  reset of `src/main.rs:151` and `src/main.rs:186`.
- **`src/audio.rs`.** Sound playback goes through a foreign audio library.
  Its one effect on state is that entering FoodEaten or GameOver sets the
  pending state back to Playing. That step belongs to the engine's state
  transitions and is not modelled.
- **`src/food.rs`.** Its first food position is drawn from floats and
  rounded. It becomes the parameter of the `World` constructor.
- **`src/utils.rs`.** It holds colours only.
- **Randomness.** The random number generator is replaced by streams of
  draws given as inputs. The rejection loop's termination is therefore the
  precondition that a food event's stream holds a draw off the body.
- **Scheduling.** Not modelled: the 200 ms timer gates, the engine's system
  ordering, the order in which the three checks fill the event queue, and
  the engine applying `NextState` to `State` between frames. The event
  queue and the current state are inputs.
- **Key queries.** The engine's key queries ("just pressed", "just released",
  "held") are plain booleans in `Keys`.
- **`GAME_OVER`.** Its unsafe global access is not modelled. It is an
  ordinary boolean.
- Game.HandleCollisionEvents: the score is an unbounded `nat`, so the
  overflow of the source's `usize` counter is not modelled.
- **Single food entity.** The engine's query for the food entity panics
  unless exactly one exists. The model has exactly one food position.
