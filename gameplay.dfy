/** One play-through: the state the game loop keeps between ticks, how a new
    game starts, and what one tick does to it. */
module Gameplay {
  import opened Grid
  import opened Controls
  import opened Body
  import opened Food

  /** Points added for each food eaten. */
  const FoodScore: int := 10

  /** The starting head: the screen's centre, rounded down to the grid. */
  const StartCell: Cell :=
    Cell((ScreenWidth / 2 / BlockSize) * BlockSize, (ScreenHeight / 2 / BlockSize) * BlockSize)

  /** The start cell is the centre of the screen and a block of the grid. */
  lemma StartCellIsCentre()
    ensures StartCell == Cell(400, 300) && OnGrid(StartCell)
  {
  }

  /** What holds between ticks, over the values of a game's state: the
      velocity is the last accepted key's, the list holds `length` segments,
      or one fewer right after eating, its newest entry is the head, the
      score counts the food eaten, the food is an aligned block off the
      snake, and while the game goes on the whole snake is on the grid and
      no block holds two segments. */
  ghost predicate Consistent(lastKey: Key, dx: int, dy: int, head: Cell, segments: seq<Cell>,
                             length: int, score: int, food: Cell, over: bool)
  {
    IsArrow(lastKey) && (dx, dy) == Velocity(lastKey) &&
    1 <= length && length - 1 <= |segments| <= length &&
    (segments != [] ==> segments[|segments| - 1] == head) &&
    score == FoodScore * (length - 1) &&
    OnGrid(food) && food != head && food !in segments &&
    (!over ==> OnGrid(head) && (forall i :: 0 <= i < |segments| ==> OnGrid(segments[i])) &&
               Distinct(segments))
  }

  /** A losing tick keeps the invariant with the game over: the food stays
      where it was, off the new head and off the list. */
  lemma LosingTickConsistent(k0: Key, dx0: int, dy0: int, h0: Cell, segments: seq<Cell>,
                             length: int, score: int, food: Cell, key: Key, dx: int, dy: int,
                             m: Cell, grown: seq<Cell>)
    requires Consistent(k0, dx0, dy0, h0, segments, length, score, food, false)
    requires IsArrow(key) && (dx, dy) == Velocity(key) && m == Move(h0, (dx, dy))
    requires grown == AppendTrim(segments, m, length) && Collision(m, grown, length) != Ok
    ensures Consistent(key, dx, dy, m, grown, length, score, food, true)
  {
    CollisionSparesFood(segments, m, length, food);
  }

  /** A tick that lands on the food keeps the invariant with the length one
      longer, ten more points, and new food off the grown list. */
  lemma EatingTickConsistent(k0: Key, dx0: int, dy0: int, h0: Cell, segments: seq<Cell>,
                             length: int, score: int, food: Cell, key: Key, dx: int, dy: int,
                             m: Cell, grown: seq<Cell>, next: Cell)
    requires Consistent(k0, dx0, dy0, h0, segments, length, score, food, false)
    requires IsArrow(key) && (dx, dy) == Velocity(key) && m == Move(h0, (dx, dy)) && m == food
    requires grown == AppendTrim(segments, m, length) && Collision(m, grown, length) == Ok
    requires OnGrid(next) && next !in grown
    ensures Consistent(key, dx, dy, m, grown, length + 1, score + FoodScore, next, false)
  {
    MoveStaysAligned(h0, key);
    AppendTrimWindow(segments, m, length);
    SettledOnGrid(segments, m, length);
    SettledDistinct(segments, m, length);
  }

  /** A tick that neither loses nor eats keeps the invariant with the same
      length, score and food. */
  lemma PlainTickConsistent(k0: Key, dx0: int, dy0: int, h0: Cell, segments: seq<Cell>,
                            length: int, score: int, food: Cell, key: Key, dx: int, dy: int,
                            m: Cell, grown: seq<Cell>)
    requires Consistent(k0, dx0, dy0, h0, segments, length, score, food, false)
    requires IsArrow(key) && (dx, dy) == Velocity(key) && m == Move(h0, (dx, dy)) && m != food
    requires grown == AppendTrim(segments, m, length) && Collision(m, grown, length) == Ok
    ensures Consistent(key, dx, dy, m, grown, length, score, food, false)
  {
    MoveStaysAligned(h0, key);
    AppendTrimWindow(segments, m, length);
    SettledOnGrid(segments, m, length);
    SettledDistinct(segments, m, length);
    FoodStaysOff(segments, m, length, food);
  }

  /** One pass of the gameplay loop on the values it keeps: steer by the
      queued events, move the head, test the walls, append the head and drop
      the oldest segment if the list is too long, test for a self hit, stop
      on a collision, and otherwise eat the food if the head is on it. */
  method Advance(lastKey: Key, dx: int, dy: int, head: Cell, segments: seq<Cell>, length: int,
                 score: int, food: Cell, events: seq<Event>, draws: seq<Draw>)
    returns (key: Key, vx: int, vy: int, head': Cell, segments': seq<Cell>, length': int,
             score': int, food': Cell, outcome: Outcome, closed: bool)
    requires Consistent(lastKey, dx, dy, head, segments, length, score, food, false)
    requires Move(head, Velocity(Steer(lastKey, events))) == food ==>
      HasFreeDraw(draws, AppendTrim(segments, food, length))
    ensures Consistent(key, vx, vy, head', segments', length', score', food', outcome != Ok)
    ensures key == Steer(lastKey, events)
    ensures head' == Move(head, Velocity(key))
    ensures segments' == AppendTrim(segments, head', length)
    ensures outcome == Collision(head', segments', length)
    ensures closed <==> Close in events
    ensures outcome == Ok && head' == food ==>
      length' == length + 1 && score' == score + FoodScore &&
      food' == DrawCell(draws[FirstFree(draws, segments')])
    ensures !(outcome == Ok && head' == food) ==>
      length' == length && score' == score && food' == food
  {
    key, vx, vy, closed := PollPlaying(lastKey, dx, dy, events);
    head' := Cell(head.x + vx, head.y + vy);
    segments', outcome := Settle(segments, head', length);
    length', score', food' := length, score, food;
    if outcome != Ok {
      LosingTickConsistent(lastKey, dx, dy, head, segments, length, score, food, key, vx, vy, head', segments');
    } else if head' == food {
      var used;
      food', used := PlaceFood(draws, segments');
      EatingTickConsistent(lastKey, dx, dy, head, segments, length, score, food, key, vx, vy, head', segments', food');
      length', score' := length + 1, score + FoodScore;
    } else {
      PlainTickConsistent(lastKey, dx, dy, head, segments, length, score, food, key, vx, vy, head', segments');
    }
  }

  class Game {
    /** The head position. */
    var x: int
    var y: int
    /** The movement per tick. */
    var dx: int
    var dy: int
    /** The last arrow key accepted. */
    var lastKey: Key
    /** Positions the snake occupies, oldest first and head last. */
    var segments: seq<Cell>
    /** The number of segments the snake is allowed. */
    var length: int
    var score: int
    var food: Cell
    /** Set by the tick on which the snake hit a wall or itself. */
    var over: bool

    function Head(): Cell
      reads this
    {
      Cell(x, y)
    }

    /** The invariant between ticks. */
    ghost predicate Valid()
      reads this
    {
      Consistent(lastKey, dx, dy, Cell(x, y), segments, length, score, food, over)
    }

    /** The state of a game that has just begun. */
    ghost predicate Initial()
      reads this
    {
      Head() == StartCell && lastKey == Right && (dx, dy) == (BlockSize, 0) &&
      segments == [] && length == 1 && score == 0 && !over &&
      OnGrid(food) && food != StartCell
    }

    /** Where the head lands on the next tick if these events are queued. */
    ghost function Landing(events: seq<Event>): Cell
      reads this
      requires IsArrow(lastKey)
    {
      Move(Head(), Velocity(Steer(lastKey, events)))
    }

    /** Gameplay initialisation: the snake at the centre moving right, an
        empty segment list, length 1, score 0, and food drawn off the head. */
    constructor Start(draws: seq<Draw>)
      requires HasFreeDraw(draws, [StartCell])
      ensures Valid() && Initial()
      ensures food == DrawCell(draws[FirstFree(draws, [StartCell])])
    {
      x, y := StartCell.x, StartCell.y;
      dx, dy := BlockSize, 0;
      lastKey := Right;
      segments := [];
      length := 1;
      score := 0;
      var f, used := PlaceFood(draws, [StartCell]);
      food := f;
      over := false;
    }

    /** One pass of the gameplay loop, applied to the game's state. */
    method Tick(events: seq<Event>, draws: seq<Draw>) returns (outcome: Outcome, closed: bool)
      requires Valid() && !over
      requires Landing(events) == food ==> HasFreeDraw(draws, AppendTrim(segments, food, length))
      modifies this
      ensures Valid()
      ensures lastKey == Steer(old(lastKey), events)
      ensures Head() == Move(old(Head()), Velocity(lastKey))
      ensures segments == AppendTrim(old(segments), Head(), old(length))
      ensures outcome == Collision(Head(), segments, old(length))
      ensures over <==> outcome != Ok
      ensures closed <==> Close in events
      ensures outcome == Ok && Head() == old(food) ==>
        length == old(length) + 1 && score == old(score) + FoodScore &&
        food == DrawCell(draws[FirstFree(draws, segments)])
      ensures !(outcome == Ok && Head() == old(food)) ==>
        length == old(length) && score == old(score) && food == old(food)
    {
      var key, vx, vy, head, grown, len, points, f;
      key, vx, vy, head, grown, len, points, f, outcome, closed :=
        Advance(lastKey, dx, dy, Head(), segments, length, score, food, events, draws);
      lastKey, dx, dy, x, y, segments := key, vx, vy, head.x, head.y, grown;
      length, score, food, over := len, points, f, outcome != Ok;
    }
  }
}
