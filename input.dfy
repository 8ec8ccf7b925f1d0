/**
 * The input pass: the same guarded overwrites of the heading as the snake's
 * own key handler, with every arrow key read as "held", and an accepted key
 * resuming a paused game.
 */
module Input {
  import opened Wrappers
  import opened Snake
  import opened Game

  /** The pending state after the pass: `Playing` when a paused game accepted a key. */
  function Resumed(keys: Keys, direction: Direction, state: GameState, nextState: Option<GameState>): Option<GameState> {
    if state == Paused && Steer(direction, keys).accepted then Some(Playing) else nextState
  }

  /**
   * `keyboard`: `keys` holds the four "held" queries, `state` is the current
   * game state and `nextState` the pending one. Every accepted key overwrites
   * the heading and, when the game is paused, asks for `Playing`.
   */
  method Keyboard(keys: Keys, direction: Direction, state: GameState, nextState: Option<GameState>)
    returns (newDirection: Direction, newNextState: Option<GameState>)
    ensures newDirection == Steer(direction, keys).direction
    ensures newNextState == Resumed(keys, direction, state, nextState)
  {
    newDirection, newNextState := direction, nextState;
    if keys.up && newDirection != Up.Opposite() {
      newDirection := Up;
      if state == Paused {
        newNextState := Some(Playing);
      }
    }
    if keys.down && newDirection != Down.Opposite() {
      newDirection := Down;
      if state == Paused {
        newNextState := Some(Playing);
      }
    }
    if keys.left && newDirection != Left.Opposite() {
      newDirection := Left;
      if state == Paused {
        newNextState := Some(Playing);
      }
    }
    if keys.right && newDirection != Right.Opposite() {
      newDirection := Right;
      if state == Paused {
        newNextState := Some(Playing);
      }
    }
  }

  /**
   * The pass resumes the game exactly when it is paused and some held key is
   * not the reverse of the heading; otherwise the pending state is untouched.
   */
  lemma ResumesIff(keys: Keys, direction: Direction, state: GameState, nextState: Option<GameState>)
    ensures var turned := exists w: Direction :: Pressed(keys, w) && w != direction.Opposite();
      Resumed(keys, direction, state, nextState) == if state == Paused && turned then Some(Playing) else nextState
  {
    SteerAcceptsIff(direction, keys);
  }
}
