/**
 * The game rules around the snake: the grid size, the three collision checks,
 * the game states, and the handler that turns queued collision events into
 * score, growth, food placement and game-over.
 *
 * The random number generator is not modelled. Each event that draws food
 * positions gets its own stream of draws, each a cell of the range the game
 * draws from; the rejection loop takes draws from its stream until one is off
 * the body.
 */
module Game {
  import opened Wrappers
  import opened Snake

  /** Cells per side of the board, walls included. */
  const CellCount: int := 25

  datatype CollisionEvent = Food | Edges | Tail

  datatype GameState = Playing | FoodEaten | GameOver | Paused

  /**
   * The cells food is drawn from: both coordinates in 0 .. CellCount - 2.
   * The coordinates -1 and CellCount - 1 are the walls around them.
   */
  predicate InPlayfield(c: Vec2) {
    0 <= c.x < CellCount - 1 && 0 <= c.y < CellCount - 1
  }

  /** A head coordinate that the edge check reports. */
  predicate OnWall(coord: int) {
    coord == CellCount - 1 || coord == -1
  }

  /** The food check: one `Food` event when the head is on the food. */
  function CheckFood(body: seq<Vec2>, food: Vec2): (events: seq<CollisionEvent>)
    ensures events == [] || events == [Food]
    ensures events == [Food] <==> |body| > 0 && body[0] == food
  {
    if |body| > 0 && body[0] == food then [Food] else []
  }

  /** The edge check: one `Edges` event per axis on which the head sits on a wall. */
  function CheckEdges(body: seq<Vec2>): (events: seq<CollisionEvent>)
    ensures forall i :: 0 <= i < |events| ==> events[i] == Edges
    ensures |body| == 0 ==> events == []
    ensures |body| > 0 ==>
      |events| == (if OnWall(body[0].x) then 1 else 0) + (if OnWall(body[0].y) then 1 else 0)
  {
    if |body| == 0 then []
    else
      (if OnWall(body[0].x) then [Edges] else []) +
      (if OnWall(body[0].y) then [Edges] else [])
  }

  /**
   * On the board and its walls, a head raises an edge event exactly when it
   * has left the playfield, and a corner raises two.
   */
  lemma EdgesOffPlayfield(body: seq<Vec2>)
    requires |body| > 0
    requires -1 <= body[0].x <= CellCount - 1 && -1 <= body[0].y <= CellCount - 1
    ensures CheckEdges(body) == [] <==> InPlayfield(body[0])
    ensures OnWall(body[0].x) && OnWall(body[0].y) ==> CheckEdges(body) == [Edges, Edges]
  {
  }

  /** The tail check: one `Tail` event when the head is also further down the body. */
  function CheckTail(body: seq<Vec2>): (events: seq<CollisionEvent>)
    ensures events == [] || events == [Tail]
    ensures events == [Tail] <==> exists i :: 1 <= i < |body| && body[i] == body[0]
  {
    if |body| == 0 then []
    else if body[0] in body[1..] then [Tail] else []
  }

  predicate Distinct(body: seq<Vec2>) {
    forall i, j :: 0 <= i < j < |body| ==> body[i] != body[j]
  }

  /** A body without repeated cells never raises a tail event. */
  lemma DistinctBodyHasNoTail(body: seq<Vec2>)
    requires Distinct(body)
    ensures CheckTail(body) == []
  {
  }

  predicate AllInPlayfield(draws: seq<Vec2>) {
    forall i :: 0 <= i < |draws| ==> InPlayfield(draws[i])
  }

  predicate HasFreeDraw(draws: seq<Vec2>, body: seq<Vec2>) {
    exists i :: 0 <= i < |draws| && draws[i] !in body
  }

  /** Where rejection sampling stops: the first draw that is off the body. */
  function FirstFreeIndex(draws: seq<Vec2>, body: seq<Vec2>): (i: nat)
    requires HasFreeDraw(draws, body)
    ensures i < |draws| && draws[i] !in body
    ensures forall j :: 0 <= j < i ==> draws[j] in body
    decreases |draws|
  {
    if draws[0] !in body then 0
    else
      var k :| 0 <= k < |draws| && draws[k] !in body;
      assert draws[1..][k - 1] == draws[k];
      1 + FirstFreeIndex(draws[1..], body)
  }

  /** The rejection-sampling loop of the food event. */
  method PlaceFood(body: seq<Vec2>, draws: seq<Vec2>) returns (food: Vec2)
    requires AllInPlayfield(draws) && HasFreeDraw(draws, body)
    ensures InPlayfield(food) && food !in body
    ensures food == draws[FirstFreeIndex(draws, body)]
  {
    var i := 0;
    food := draws[0];
    while food in body
      invariant i <= FirstFreeIndex(draws, body)
      invariant food == draws[i]
      decreases FirstFreeIndex(draws, body) - i
    {
      i := i + 1;
      food := draws[i];
    }
  }

  /** With a single free cell left, whatever the draws, the loop returns that cell. */
  lemma SingleFreeCellIsChosen(body: seq<Vec2>, draws: seq<Vec2>, free: Vec2)
    requires AllInPlayfield(draws) && HasFreeDraw(draws, body)
    requires InPlayfield(free) && free !in body
    requires forall c :: InPlayfield(c) && c != free ==> c in body
    ensures draws[FirstFreeIndex(draws, body)] == free
  {
  }

  /** With no free cell left, no stream of draws ever leaves the loop. */
  lemma FullBoardStarves(body: seq<Vec2>, draws: seq<Vec2>)
    requires forall c :: InPlayfield(c) ==> c in body
    requires AllInPlayfield(draws)
    ensures !HasFreeDraw(draws, body)
  {
  }

  /** The draws one event needs: at least one, and for food one that is off the body. */
  predicate DrawsFor(event: CollisionEvent, draws: seq<Vec2>, body: seq<Vec2>) {
    AllInPlayfield(draws) &&
    if event == Food then HasFreeDraw(draws, body) else |draws| > 0
  }

  predicate DrawsForAll(events: seq<CollisionEvent>, draws: seq<seq<Vec2>>, body: seq<Vec2>) {
    |draws| == |events| &&
    forall i :: 0 <= i < |events| ==> DrawsFor(events[i], draws[i], body)
  }

  /**
   * The resources the handler writes besides the snake: the score, the food
   * position, the pending next game state and the global game-over flag.
   */
  class World {
    var score: nat
    var food: Vec2
    var nextState: Option<GameState>
    var gameOver: bool

    /** Start-up: score 0, no pending state, not over; `food` is the first food position. */
    constructor (food: Vec2)
      ensures score == 0 && this.food == food && nextState == None && !gameOver
    {
      score := 0;
      this.food := food;
      nextState := None;
      gameOver := false;
    }
  }

  /** Everything the handler may change, as one value. */
  datatype Effects = Effects(
    isGrowing: bool,
    shouldReset: bool,
    score: nat,
    food: Vec2,
    nextState: Option<GameState>,
    gameOver: bool)

  function Snapshot(snake: Snake, world: World): Effects
    reads snake, world
  {
    Effects(snake.isGrowing, snake.shouldReset, world.score, world.food, world.nextState, world.gameOver)
  }

  /** What `game_over` does to the handler's state, with `draw` as the new food cell. */
  function GameOverEffects(e: Effects, draw: Vec2): (r: Effects)
    ensures r.score == 0 && r.shouldReset && r.gameOver && r.food == draw
    ensures r.nextState == Some(GameOver) && r.isGrowing == e.isGrowing
  {
    e.(score := 0, shouldReset := true, food := draw,
       nextState := Some(GameOver), gameOver := true)
  }

  /**
   * The effect of one event: a food event grows the snake, scores one and
   * moves the food off the body; a lethal event is `game_over`.
   */
  function ApplyEvent(e: Effects, event: CollisionEvent, draws: seq<Vec2>, body: seq<Vec2>): (r: Effects)
    requires DrawsFor(event, draws, body)
    ensures event == Food ==>
      && r.isGrowing && r.score == e.score + 1 && r.nextState == Some(FoodEaten)
      && r.food !in body && r.shouldReset == e.shouldReset && r.gameOver == e.gameOver
    ensures event != Food ==> r == GameOverEffects(e, draws[0])
    ensures InPlayfield(r.food)
  {
    match event
    case Food =>
      e.(isGrowing := true, score := e.score + 1,
         food := draws[FirstFreeIndex(draws, body)], nextState := Some(FoodEaten))
    case Edges => GameOverEffects(e, draws[0])
    case Tail => GameOverEffects(e, draws[0])
  }

  /** The effect of a queue of events, applied front to back. */
  function ApplyEvents(e: Effects, events: seq<CollisionEvent>, draws: seq<seq<Vec2>>, body: seq<Vec2>): (r: Effects)
    requires DrawsForAll(events, draws, body)
    ensures |events| == 0 ==> r == e
    ensures |events| > 0 ==> InPlayfield(r.food)
    decreases |events|
  {
    if |events| == 0 then e
    else
      var n := |events| - 1;
      ApplyEvent(ApplyEvents(e, events[..n], draws[..n], body), events[n], draws[n], body)
  }

  /**
   * `game_over`, named `EndGame` here because `GameOver` is a game state:
   * zero the score, ask for a reset, move the food and end the game.
   */
  method EndGame(snake: Snake, world: World, draw: Vec2)
    modifies snake`shouldReset, world
    ensures world.score == 0 && snake.shouldReset && world.food == draw
    ensures world.nextState == Some(GameOver) && world.gameOver
    ensures Snapshot(snake, world) == GameOverEffects(old(Snapshot(snake, world)), draw)
    ensures old(snake.Valid()) ==> snake.Valid()
  {
    world.score := 0;
    snake.shouldReset := true;
    world.food := draw;
    world.nextState := Some(GameOver);
    world.gameOver := true;
  }

  /**
   * `handle_collision_event`: the queued events in order. Food makes the snake
   * grow, scores one and moves the food off the body; Edges and Tail end the
   * game. The body itself is not touched.
   */
  method HandleCollisionEvents(snake: Snake, world: World, events: seq<CollisionEvent>, draws: seq<seq<Vec2>>)
    requires DrawsForAll(events, draws, snake.body)
    modifies snake`isGrowing, snake`shouldReset, world
    ensures snake.body == old(snake.body)
    ensures Snapshot(snake, world) == ApplyEvents(old(Snapshot(snake, world)), events, draws, snake.body)
    ensures old(snake.Valid()) ==> snake.Valid()
  {
    for i := 0 to |events|
      invariant Snapshot(snake, world) == ApplyEvents(old(Snapshot(snake, world)), events[..i], draws[..i], snake.body)
    {
      assert events[..i + 1][..i] == events[..i];
      assert draws[..i + 1][..i] == draws[..i];
      match events[i]
      case Food =>
        world.nextState := Some(FoodEaten);
        snake.isGrowing := true;
        world.score := world.score + 1;
        world.food := PlaceFood(snake.body, draws[i]);
      case Edges =>
        EndGame(snake, world, draws[i][0]);
      case Tail =>
        EndGame(snake, world, draws[i][0]);
    }
    assert events[..|events|] == events;
    assert draws[..|events|] == draws;
  }

  function CountFood(events: seq<CollisionEvent>): nat {
    if |events| == 0 then 0
    else CountFood(events[..|events| - 1]) + if events[|events| - 1] == Food then 1 else 0
  }

  /** The position of the last Edges or Tail event, or -1 when there is none. */
  function LastLethal(events: seq<CollisionEvent>): (k: int)
    ensures -1 <= k < |events|
    ensures k >= 0 ==> events[k] != Food
    ensures forall j :: k < j < |events| ==> events[j] == Food
  {
    if |events| == 0 then -1
    else if events[|events| - 1] != Food then |events| - 1
    else LastLethal(events[..|events| - 1])
  }

  /** A non-empty queue is its front part followed by its last event. */
  lemma ApplyEventsLast(e: Effects, events: seq<CollisionEvent>, draws: seq<seq<Vec2>>, body: seq<Vec2>)
    requires DrawsForAll(events, draws, body) && |events| > 0
    ensures var n := |events| - 1;
      && DrawsForAll(events[..n], draws[..n], body)
      && DrawsFor(events[n], draws[n], body)
      && ApplyEvents(e, events, draws, body) ==
           ApplyEvent(ApplyEvents(e, events[..n], draws[..n], body), events[n], draws[n], body)
  {
  }

  /**
   * The queue is read from the front: the first event's effect comes first,
   * then the rest of the queue.
   */
  lemma {:induction false} ApplyEventsFirst(e: Effects, ev: CollisionEvent, rest: seq<CollisionEvent>,
                                            d: seq<Vec2>, ds: seq<seq<Vec2>>, body: seq<Vec2>)
    requires DrawsFor(ev, d, body) && DrawsForAll(rest, ds, body)
    ensures DrawsForAll([ev] + rest, [d] + ds, body)
    ensures ApplyEvents(e, [ev] + rest, [d] + ds, body) ==
            ApplyEvents(ApplyEvent(e, ev, d, body), rest, ds, body)
    decreases |rest|
  {
    assert forall i :: 0 <= i < |rest| + 1 ==> ([ev] + rest)[i] == if i == 0 then ev else rest[i - 1];
    if |rest| == 0 {
      assert ([ev] + rest)[..0] == [];
      assert ([d] + ds)[..0] == [];
    } else {
      var n := |rest| - 1;
      ApplyEventsLast(e, [ev] + rest, [d] + ds, body);
      assert ([ev] + rest)[..n + 1] == [ev] + rest[..n];
      assert ([d] + ds)[..n + 1] == [d] + ds[..n];
      ApplyEventsLast(ApplyEvent(e, ev, d, body), rest, ds, body);
      ApplyEventsFirst(e, ev, rest[..n], d, ds[..n], body);
    }
  }

  /**
   * The score after a queue of events: the foods eaten since the last lethal
   * event, or, with no lethal event, the old score plus every food eaten.
   */
  lemma {:induction false} ScoreAfterEvents(e: Effects, events: seq<CollisionEvent>, draws: seq<seq<Vec2>>, body: seq<Vec2>)
    requires DrawsForAll(events, draws, body)
    ensures var k := LastLethal(events);
      ApplyEvents(e, events, draws, body).score ==
        if k < 0 then e.score + CountFood(events) else CountFood(events[k + 1..])
  {
    if |events| > 0 {
      var n := |events| - 1;
      var init := events[..n];
      ApplyEventsLast(e, events, draws, body);
      ScoreAfterEvents(e, init, draws[..n], body);
      var prev := ApplyEvents(e, init, draws[..n], body);
      var r := ApplyEvent(prev, events[n], draws[n], body);
      if events[n] == Food {
        assert r.score == prev.score + 1;
        assert CountFood(events) == CountFood(init) + 1;
        var k := LastLethal(events);
        assert k == LastLethal(init);
        if k >= 0 {
          assert events[k + 1..][..|events[k + 1..]| - 1] == init[k + 1..];
        }
      } else {
        assert r.score == 0;
        assert events[n + 1..] == [];
      }
    }
  }

  /**
   * The flags after a queue of events: growing once any food was eaten, reset
   * and game over once any lethal event came.
   */
  lemma {:induction false} FlagsAfterEvents(e: Effects, events: seq<CollisionEvent>, draws: seq<seq<Vec2>>, body: seq<Vec2>)
    requires DrawsForAll(events, draws, body)
    ensures var r := ApplyEvents(e, events, draws, body);
      && r.isGrowing == (e.isGrowing || Food in events)
      && r.shouldReset == (e.shouldReset || LastLethal(events) >= 0)
      && r.gameOver == (e.gameOver || LastLethal(events) >= 0)
  {
    if |events| > 0 {
      var n := |events| - 1;
      ApplyEventsLast(e, events, draws, body);
      FlagsAfterEvents(e, events[..n], draws[..n], body);
      assert events == events[..n] + [events[n]];
    }
  }

  /**
   * The last event decides the pending state and where the food ends up: a
   * food event leaves the food off the body, and any event leaves it in the
   * playfield. An empty queue changes nothing.
   */
  lemma LastEventDecides(e: Effects, events: seq<CollisionEvent>, draws: seq<seq<Vec2>>, body: seq<Vec2>)
    requires DrawsForAll(events, draws, body)
    ensures var r := ApplyEvents(e, events, draws, body);
      && (events == [] ==> r == e)
      && (events != [] ==>
            && r.nextState == Some(if events[|events| - 1] == Food then FoodEaten else GameOver)
            && InPlayfield(r.food)
            && (events[|events| - 1] == Food ==> r.food !in body))
  {
  }

  /** A food event followed by a tail event in one frame: the growth stays, the score does not. */
  lemma FoodThenTail(e: Effects, draws: seq<seq<Vec2>>, body: seq<Vec2>)
    requires DrawsForAll([Food, Tail], draws, body)
    ensures var r := ApplyEvents(e, [Food, Tail], draws, body);
      r.score == 0 && r.isGrowing && r.shouldReset && r.gameOver &&
      r.nextState == Some(GameOver)
  {
    assert [Food, Tail][..1] == [Food];
    assert [Food][..0] == [];
  }

  /**
   * The key guard does not keep the snake off its own neck: heading right
   * from the seed cells with Up and Left held, one pass ends heading left,
   * and the next step puts the head on the neck, which the tail check reports.
   */
  lemma ReversalHitsNeck()
    ensures var d := Steer(Right, Keys(true, false, true, false)).direction;
      var b := Advance(SeedBody, d, false);
      b[0] == SeedBody[1] && CheckTail(b) == [Tail]
  {
    assert Advance(SeedBody, Left, false)[2] == Vec2(5, 9);
  }

  /**
   * One frame of play after a tail collision: the handler ends the game, the
   * next movement step puts the snake back on its seed cells heading right and
   * then stays frozen, and an accepted arrow key clears the game-over flag.
   */
  method TailCollisionRestarts()
    returns (body: seq<Vec2>, heading: Direction, score: nat, over: bool, turned: Direction, stillOver: bool)
    ensures body == SeedBody && heading == InitialDirection
    ensures score == 0 && over
    ensures turned == Up && !stillOver
  {
    var snake := new Snake.Default();
    var world := new World(Vec2(10, 10));
    // a snake that has curled back onto its own tail
    snake.body := [Vec2(7, 9), Vec2(8, 9), Vec2(8, 10), Vec2(7, 10), Vec2(7, 9)];
    assert CheckTail(snake.body) == [Tail] by {
      assert snake.body[4] == snake.body[0];
    }
    HandleCollisionEvents(snake, world, [Tail], [[Vec2(3, 4)]]);
    assert [Tail][..0] == [];
    heading := snake.Update(Up, world.gameOver);
    body, score, over := snake.body, world.score, world.gameOver;
    var keys := Keys(true, false, false, false);
    turned, stillOver := KeyboardInput(keys, heading, over);
  }
}
