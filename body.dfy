/** The snake's body: the head moves one block per tick, the segment list
    (oldest first, head last) grows at the head and loses its oldest entry
    when it is longer than the snake, and the head may hit a wall or the
    body. */
module Body {
  import opened Grid
  import opened Controls

  /** How a tick ended in the game loop. The loop itself keeps one flag for
      both kinds of loss; the wall test comes first. */
  datatype Outcome = Ok | WallHit | SelfHit

  /** The head after one tick moving at velocity `v`. */
  function Move(head: Cell, v: (int, int)): Cell {
    Cell(head.x + v.0, head.y + v.1)
  }

  /** Every segment but the newest one (the list's `[:-1]`). */
  function Neck(segments: seq<Cell>): seq<Cell> {
    if segments == [] then [] else segments[..|segments| - 1]
  }

  /** No block is occupied twice. */
  predicate Distinct(cells: seq<Cell>) {
    forall i, j :: 0 <= i < j < |cells| ==> cells[i] != cells[j]
  }

  /** The segment list after appending the new head and, when it is then
      longer than the snake's length, deleting its oldest entry. */
  function AppendTrim(segments: seq<Cell>, head: Cell, length: int): (r: seq<Cell>)
    requires length >= 1
    ensures |r| > 0 && r[|r| - 1] == head
  {
    var grown := segments + [head];
    if |grown| > length then grown[1..] else grown
  }

  /** The older segments after the tick are the newest ones from before it:
      at most the oldest entry is gone. */
  lemma AppendTrimNeck(segments: seq<Cell>, head: Cell, length: int)
    requires length >= 1
    ensures var r := AppendTrim(segments, head, length);
      |r| - 1 <= |segments| && Neck(r) == segments[|segments| + 1 - |r|..]
  {
  }

  /** The collision test of one tick: the wall test on the new head, then,
      only for a snake longer than one block, a search of every segment but
      the newest. */
  function Collision(head: Cell, segments: seq<Cell>, length: int): Outcome {
    if OutOfBounds(head) then WallHit
    else if length > 1 && head in Neck(segments) then SelfHit
    else Ok
  }

  /** One tick moves the head exactly one block along one axis, in the
      direction of the key. */
  lemma MoveOneBlock(head: Cell, k: Key)
    requires IsArrow(k)
    ensures var m := Move(head, Velocity(k));
      (k == Left ==> m == Cell(head.x - BlockSize, head.y)) &&
      (k == Right ==> m == Cell(head.x + BlockSize, head.y)) &&
      (k == Up ==> m == Cell(head.x, head.y - BlockSize)) &&
      (k == Down ==> m == Cell(head.x, head.y + BlockSize))
  {
  }

  /** A move from an aligned position stays aligned, so only the wall test
      can take the head off the grid. */
  lemma MoveStaysAligned(head: Cell, k: Key)
    requires IsArrow(k) && OnGrid(head)
    ensures var m := Move(head, Velocity(k));
      m != head && (OnGrid(m) <==> !OutOfBounds(m))
  {
  }

  /** With the length before the tick, the list ends up exactly `length` long:
      it is the newest `length` entries of the old list followed by the head,
      so only the oldest entry was dropped and the rest keep their order. */
  lemma AppendTrimWindow(segments: seq<Cell>, head: Cell, length: int)
    requires 1 <= length && length - 1 <= |segments| <= length
    ensures var r := AppendTrim(segments, head, length);
      |r| == length && r == (segments + [head])[|segments| + 1 - length..]
  {
  }

  /** Every segment after the tick was a segment before it, or is the new head. */
  lemma AppendTrimFrom(segments: seq<Cell>, head: Cell, length: int, c: Cell)
    requires length >= 1
    requires c in AppendTrim(segments, head, length)
    ensures c in segments || c == head
  {
  }

  /** A wall hit is flagged exactly when the head left the screen, whatever
      the body holds. */
  lemma WallHitIff(head: Cell, segments: seq<Cell>, length: int)
    ensures Collision(head, segments, length) == WallHit <==> OutOfBounds(head)
  {
  }

  /** A self hit needs a snake longer than one block and a head on one of the
      older segments; a one-block snake never hits itself. */
  lemma SelfHitIff(head: Cell, segments: seq<Cell>, length: int)
    ensures Collision(head, segments, length) == SelfHit <==>
      !OutOfBounds(head) && length > 1 && head in Neck(segments)
  {
  }

  /** A snake of length two cannot hit itself, even when it reverses: the
      only older segment after the tick is the previous head, one block away. */
  lemma LengthTwoNeverSelfCollides(segments: seq<Cell>, head: Cell, k: Key, length: int)
    requires IsArrow(k) && 1 <= length <= 2
    requires length - 1 <= |segments| <= length
    requires segments != [] ==> segments[|segments| - 1] == head
    ensures var m := Move(head, Velocity(k));
      Collision(m, AppendTrim(segments, m, length), length) != SelfHit
  {
  }

  /** Food that is off the snake and not where the head lands stays off it
      after the tick. */
  lemma FoodStaysOff(segments: seq<Cell>, head: Cell, length: int, food: Cell)
    requires length >= 1
    requires food !in segments && food != head
    ensures food !in AppendTrim(segments, head, length)
  {
  }

  /** A losing tick leaves the food where it was, and it is neither under the
      new head nor under any segment: a head off the screen cannot be on the
      food, and a head on an older segment is on a block the food avoided. */
  lemma CollisionSparesFood(segments: seq<Cell>, head: Cell, length: int, food: Cell)
    requires length >= 1 && OnGrid(food) && food !in segments
    requires Collision(head, AppendTrim(segments, head, length), length) != Ok
    ensures food != head && food !in AppendTrim(segments, head, length)
  {
  }

  /** A tick without collision keeps every segment on the grid. */
  lemma SettledOnGrid(segments: seq<Cell>, head: Cell, length: int)
    requires length >= 1 && OnGrid(head)
    requires forall i :: 0 <= i < |segments| ==> OnGrid(segments[i])
    ensures var r := AppendTrim(segments, head, length);
      forall i :: 0 <= i < |r| ==> OnGrid(r[i])
  {
  }

  /** A tick without collision keeps a snake that does not overlap itself
      free of overlaps: the new head is not on any older segment, and those
      are a tail-trimmed part of the old list. */
  lemma SettledDistinct(segments: seq<Cell>, head: Cell, length: int)
    requires 1 <= length && length - 1 <= |segments| <= length && Distinct(segments)
    requires Collision(head, AppendTrim(segments, head, length), length) == Ok
    ensures Distinct(AppendTrim(segments, head, length))
  {
  }

  /** Two keys in one batch can drive the head into the neck: a snake of
      length 3 lying at (40,40), (60,40), (80,40) and moving right that reads
      Up then Left lands on (60,40) and hits itself. */
  lemma ReversalIntoNeck()
    ensures var segments := [Cell(40, 40), Cell(60, 40), Cell(80, 40)];
      var m := Move(Cell(80, 40), Velocity(Steer(Right, [KeyDown(Up), KeyDown(Left)])));
      m == Cell(60, 40) && Collision(m, AppendTrim(segments, m, 3), 3) == SelfHit
  {
    TwoKeysCanReverse();
    var segments := [Cell(40, 40), Cell(60, 40), Cell(80, 40)];
    var m := Cell(60, 40);
    var r := AppendTrim(segments, m, 3);
    assert r == [Cell(60, 40), Cell(80, 40), Cell(60, 40)];
    assert Neck(r) == r[..2] && r[..2][0] == m;
  }

  /** The middle of a tick, after the head has moved: the wall test, the
      append of the head with the trim of the oldest segment, and the search
      of the older segments for the head when the snake is longer than one. */
  method Settle(segments: seq<Cell>, head: Cell, length: int) returns (grown: seq<Cell>, outcome: Outcome)
    requires length >= 1
    ensures grown == AppendTrim(segments, head, length)
    ensures outcome == Collision(head, grown, length)
  {
    var hitWall := head.x >= ScreenWidth || head.x < 0 || head.y >= ScreenHeight || head.y < 0;
    grown := segments + [head];
    if |grown| > length {
      grown := grown[1..];
    }
    assert grown == AppendTrim(segments, head, length);
    var hitSelf := false;
    if length > 1 {
      var older := grown[..|grown| - 1];
      assert older == Neck(grown);
      hitSelf := Scan(older, head);
    }
    assert hitWall == OutOfBounds(head);
    assert hitSelf == (length > 1 && head in Neck(grown));
    outcome := if hitWall then WallHit else if hitSelf then SelfHit else Ok;
  }
}
