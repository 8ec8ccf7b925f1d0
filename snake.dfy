/**
 * The snake: its heading, its body of grid cells (head first) and the timed
 * movement step, together with the arrow-key rule that steers it.
 *
 * Positions are Bevy `Vec2` values in the game, but every coordinate the game
 * ever produces is a whole number (the seed cells, unit steps and food drawn
 * from integer ranges), so a position is modelled as a pair of integers.
 */
module Snake {
  import opened Wrappers

  /** A grid position or a displacement; y grows downwards, as on screen. */
  datatype Vec2 = Vec2(x: int, y: int) {
    function Plus(v: Vec2): Vec2 {
      Vec2(x + v.x, y + v.y)
    }

    function Neg(): Vec2 {
      Vec2(-x, -y)
    }
  }

  /** Two cells that share a side. */
  predicate Adjacent(a: Vec2, b: Vec2) {
    (a.x == b.x && (a.y - b.y == 1 || b.y - a.y == 1)) ||
    (a.y == b.y && (a.x - b.x == 1 || b.x - a.x == 1))
  }

  /** Consecutive cells of the body touch: the body is one unbroken line. */
  predicate Chain(body: seq<Vec2>) {
    forall i :: 0 < i < |body| ==> Adjacent(body[i - 1], body[i])
  }

  datatype Direction = Up | Down | Right | Left {
    /** The one-cell step taken when moving this way. */
    function ToVec2(): (v: Vec2)
      ensures (v.x == 0) != (v.y == 0)
      ensures -1 <= v.x <= 1 && -1 <= v.y <= 1
      ensures Adjacent(Vec2(0, 0), v)
    {
      match this
      case Up => Vec2(0, -1)
      case Down => Vec2(0, 1)
      case Right => Vec2(1, 0)
      case Left => Vec2(-1, 0)
    }

    function Opposite(): (d: Direction)
      ensures d != this
    {
      match this
      case Up => Down
      case Down => Up
      case Right => Left
      case Left => Right
    }
  }

  /** Turning around twice is the identity, and the opposite is the only way back. */
  lemma OppositeInvolutive(d: Direction, e: Direction)
    ensures d.Opposite().Opposite() == d
    ensures e.Opposite() == d <==> e == d.Opposite()
  {
  }

  /** The opposite heading steps by the negated vector. */
  lemma OppositeStep(d: Direction)
    ensures d.Opposite().ToVec2() == d.ToVec2().Neg()
  {
  }

  /** Distinct directions step to distinct cells: a step vector names its direction. */
  lemma ToVec2Injective(d: Direction, e: Direction)
    ensures d.ToVec2() == e.ToVec2() <==> d == e
  {
  }

  /** The three cells every new or reset snake starts on, head first. */
  const SeedBody: seq<Vec2> := [Vec2(6, 9), Vec2(5, 9), Vec2(4, 9)]

  /** The heading installed at start-up and on every reset. */
  const InitialDirection: Direction := Right

  lemma SeedIsChain()
    ensures |SeedBody| == 3 && Chain(SeedBody)
    ensures SeedBody[0] == SeedBody[1].Plus(InitialDirection.ToVec2())
  {
  }

  /**
   * The body after one movement step: a new head one step along `dir` is put
   * in front; the old tail stays only while growing. An empty body stays
   * empty (there is no head to move and nothing to drop).
   */
  function Advance(body: seq<Vec2>, dir: Direction, growing: bool): (r: seq<Vec2>)
    ensures |body| == 0 ==> r == []
    ensures |body| > 0 ==> |r| == |body| + (if growing then 1 else 0)
    ensures |body| > 0 ==> r[0] == body[0].Plus(dir.ToVec2())
    ensures forall i :: 1 <= i < |r| ==> r[i] == body[i - 1]
  {
    if |body| == 0 then []
    else [body[0].Plus(dir.ToVec2())] + if growing then body else body[..|body| - 1]
  }

  /** A movement step keeps the body an unbroken line. */
  lemma AdvancePreservesChain(body: seq<Vec2>, dir: Direction, growing: bool)
    requires Chain(body)
    ensures Chain(Advance(body, dir, growing))
  {
  }

  /** After a step of two or more cells, the neck lies exactly one step behind the head. */
  lemma AdvanceHeading(body: seq<Vec2>, dir: Direction, growing: bool)
    requires |body| >= 2 || (|body| == 1 && growing)
    ensures var r := Advance(body, dir, growing);
      |r| >= 2 && r[0] == r[1].Plus(dir.ToVec2())
  {
  }

  /**
   * A heading that is not the reverse of the last step never puts the next
   * head on the neck. The key guard alone does not ensure this: it compares
   * each key with the heading left by the previous key of the same pass, so
   * one pass can end on the reverse of the last step.
   */
  lemma TurnAvoidsNeck(body: seq<Vec2>, moved: Direction, next: Direction)
    requires |body| >= 2 && body[0] == body[1].Plus(moved.ToVec2())
    requires next != moved.Opposite()
    ensures body[0].Plus(next.ToVec2()) != body[1]
  {
  }

  /** The two movement examples from the start position, heading right. */
  lemma SeedTicks()
    ensures Advance(SeedBody, Right, false) == [Vec2(7, 9), Vec2(6, 9), Vec2(5, 9)]
    ensures Advance(SeedBody, Right, true) == [Vec2(7, 9), Vec2(6, 9), Vec2(5, 9), Vec2(4, 9)]
  {
  }

  /** The snake resource: its body (head first) and the two one-shot flags. */
  class Snake {
    var body: seq<Vec2>
    var isGrowing: bool
    var shouldReset: bool

    /** A snake of at least three cells in one unbroken line. */
    ghost predicate Valid()
      reads this
    {
      |body| >= 3 && Chain(body)
    }

    constructor Default()
      ensures body == SeedBody && !isGrowing && !shouldReset
      ensures Valid()
    {
      body := SeedBody;
      isGrowing := false;
      shouldReset := false;
    }

    function Head(): (h: Option<Vec2>)
      reads this
      ensures h.Some? <==> |body| > 0
      ensures h.Some? ==> h.value == body[0]
    {
      if |body| == 0 then None else Some(body[0])
    }

    /**
     * The timed movement step. `direction` is the heading resource, returned
     * as `newDirection`; `gameOver` is the value of the global game-over flag.
     * A pending reset is applied first, even while the game is over; while it
     * is over nothing else happens; otherwise the snake advances one cell.
     */
    method Update(direction: Direction, gameOver: bool) returns (newDirection: Direction)
      modifies this
      ensures !shouldReset
      ensures newDirection == if old(shouldReset) then InitialDirection else direction
      ensures var start := if old(shouldReset) then SeedBody else old(body);
        if gameOver then body == start && isGrowing == old(isGrowing)
        else body == Advance(start, newDirection, old(isGrowing)) && !isGrowing
      ensures old(Valid()) || old(shouldReset) ==> Valid()
    {
      newDirection := direction;
      if shouldReset {
        body := SeedBody;
        newDirection := InitialDirection;
        shouldReset := false;
      }
      ghost var start := body;
      if gameOver {
        return;
      }
      var head := Head();
      if head.Some? {
        body := [head.value.Plus(newDirection.ToVec2())] + body;
      }
      if isGrowing {
        isGrowing := false;
      } else if |body| > 0 {
        body := body[..|body| - 1];
      }
      assert body == Advance(start, newDirection, old(isGrowing));
      if Chain(start) {
        AdvancePreservesChain(start, newDirection, old(isGrowing));
      }
    }
  }

  /**
   * A valid snake has a head, and its head is one step of some direction
   * ahead of its neck: the last step taken. A heading that is not the
   * reverse of that step keeps the next head off the neck.
   */
  lemma {:induction false} ValidHasLastStep(s: Snake, next: Direction)
    requires s.Valid()
    ensures s.Head().Some?
    ensures exists moved: Direction :: s.body[0] == s.body[1].Plus(moved.ToVec2())
    ensures forall moved: Direction :: s.body[0] == s.body[1].Plus(moved.ToVec2()) && next != moved.Opposite() ==>
      s.body[0].Plus(next.ToVec2()) != s.body[1]
  {
    var a, b := s.body[0], s.body[1];
    assert Adjacent(a, b);
    var moved :=
      if a.x == b.x && b.y - a.y == 1 then Up
      else if a.x == b.x then Down
      else if a.x - b.x == 1 then Right
      else Left;
    assert a == b.Plus(moved.ToVec2());
    forall m: Direction | a == b.Plus(m.ToVec2()) && next != m.Opposite()
      ensures a.Plus(next.ToVec2()) != b
    {
      TurnAvoidsNeck(s.body, m, next);
    }
  }

  /**
   * The four arrow-key queries, read in the order Up, Down, Left, Right.
   * Which query fills each field is up to the caller: `keyboard_input` asks
   * "just pressed" for Up, "just released" for Down and "held" for Left and
   * Right; the input pass asks "held" for all four.
   */
  datatype Keys = Keys(up: bool, down: bool, left: bool, right: bool)

  /** A heading in the middle of an input pass and whether any key was accepted so far. */
  datatype Steering = Steering(direction: Direction, accepted: bool)

  /** The guard every key passes: the request must not reverse the current heading. */
  predicate Accepts(current: Direction, requested: bool, want: Direction) {
    requested && current != want.Opposite()
  }

  /** One guarded overwrite of the heading. */
  function Check(s: Steering, requested: bool, want: Direction): (t: Steering)
    ensures t.direction != s.direction.Opposite()
    ensures Accepts(s.direction, requested, want) ==> t.direction == want
    ensures !Accepts(s.direction, requested, want) ==> t == s
    ensures t.accepted == (s.accepted || Accepts(s.direction, requested, want))
  {
    if Accepts(s.direction, requested, want) then Steering(want, true) else s
  }

  /**
   * The whole pass: Up, Down, Left, Right, each checked against the heading
   * left by the previous one. Once a key is accepted the pass ends on a
   * pressed key's heading; without one it keeps the starting heading.
   */
  function Steer(d: Direction, k: Keys): (s: Steering)
    ensures s.accepted ==> Pressed(k, s.direction)
    ensures !s.accepted ==> s.direction == d
  {
    var afterUp := Check(Steering(d, false), k.up, Up);
    var afterDown := Check(afterUp, k.down, Down);
    var afterLeft := Check(afterDown, k.left, Left);
    Check(afterLeft, k.right, Right)
  }

  predicate Pressed(k: Keys, d: Direction) {
    match d
    case Up => k.up
    case Down => k.down
    case Left => k.left
    case Right => k.right
  }

  /**
   * Some key is accepted exactly when some pressed key is not the reverse of
   * the heading the pass started from: the first such key in scan order is
   * checked while the heading is still the starting one.
   */
  lemma SteerAcceptsIff(d: Direction, k: Keys)
    ensures Steer(d, k).accepted <==>
      exists w: Direction :: Pressed(k, w) && w != d.Opposite()
  {
    var s := Steer(d, k);
    if s.accepted {
      var w :| Pressed(k, w) && w != d.Opposite() by {
        if k.up && d != Down { assert Pressed(k, Up); }
        else if k.down && d != Up { assert Pressed(k, Down); }
        else if k.left && d != Right { assert Pressed(k, Left); }
        else { assert Pressed(k, Right); }
      }
    } else {
      forall w: Direction | Pressed(k, w)
        ensures w == d.Opposite()
      {
        OppositeInvolutive(d, w);
      }
    }
  }

  /** With a single key pressed, the pass turns that way unless it would reverse. */
  lemma SteerSingleKey(d: Direction, w: Direction, k: Keys)
    requires Pressed(k, w)
    requires forall v: Direction :: Pressed(k, v) ==> v == w
    ensures Steer(d, k).accepted <==> w != d.Opposite()
    ensures Steer(d, k).direction == if w != d.Opposite() then w else d
  {
    assert k == Keys(w == Up, w == Down, w == Left, w == Right) by {
      assert Pressed(k, Up) ==> Up == w;
      assert Pressed(k, Down) ==> Down == w;
      assert Pressed(k, Left) ==> Left == w;
      assert Pressed(k, Right) ==> Right == w;
    }
  }

  /** Pressing the key of the current heading is accepted and keeps the heading. */
  lemma SteerCurrentKey(d: Direction)
    ensures var k := Keys(d == Up, d == Down, d == Left, d == Right);
      Steer(d, k) == Steering(d, true)
  {
  }

  /**
   * Each overwrite refuses a reversal, yet one pass can reverse the heading:
   * heading right with Up and Left held, Up is accepted and then Left is
   * checked against Up, so the pass ends heading left.
   */
  lemma SteerCanReverseInOnePass()
    ensures Steer(Right, Keys(true, false, true, false)) == Steering(Left, true)
    ensures Left == Right.Opposite()
  {
  }

  /**
   * `keyboard_input`: the guarded overwrites of the heading resource; every
   * accepted overwrite also clears the global game-over flag.
   */
  method KeyboardInput(keys: Keys, direction: Direction, gameOver: bool)
    returns (newDirection: Direction, newGameOver: bool)
    ensures newDirection == Steer(direction, keys).direction
    ensures newGameOver == (gameOver && !Steer(direction, keys).accepted)
  {
    newDirection, newGameOver := direction, gameOver;
    if keys.up && newDirection != Up.Opposite() {
      newDirection := Up;
      newGameOver := false;
    }
    if keys.down && newDirection != Down.Opposite() {
      newDirection := Down;
      newGameOver := false;
    }
    if keys.left && newDirection != Left.Opposite() {
      newDirection := Left;
      newGameOver := false;
    }
    if keys.right && newDirection != Right.Opposite() {
      newDirection := Right;
      newGameOver := false;
    }
  }
}
