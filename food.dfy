/** Food placement by rejection sampling: draw a random block, and draw again
    while it lies on the snake. The random draws are supplied as a sequence. */
module Food {
  import opened Grid

  /** The draws are what the random generator can return, and one of them
      is off the snake, so that the retry loop ends. */
  predicate HasFreeDraw(draws: seq<Draw>, occupied: seq<Cell>) {
    (forall i :: 0 <= i < |draws| ==> ValidDraw(draws[i])) &&
    exists i :: 0 <= i < |draws| && DrawCell(draws[i]) !in occupied
  }

  /** The index of the first draw that lands off the snake: every draw before
      it lands on the snake. */
  function FirstFree(draws: seq<Draw>, occupied: seq<Cell>): (i: nat)
    requires HasFreeDraw(draws, occupied)
    ensures i < |draws| && DrawCell(draws[i]) !in occupied
    ensures forall j :: 0 <= j < i ==> DrawCell(draws[j]) in occupied
    decreases |draws|
  {
    if DrawCell(draws[0]) !in occupied then 0
    else
      var k :| 0 <= k < |draws| && DrawCell(draws[k]) !in occupied;
      assert draws[1..][k - 1] == draws[k];
      var rest := FirstFree(draws[1..], occupied);
      assert forall j :: 1 <= j < rest + 1 ==> draws[j] == draws[1..][j - 1];
      rest + 1
  }

  /** The placement loop: the first acceptable draw becomes the food, after
      `used` draws were taken from the generator. */
  method PlaceFood(draws: seq<Draw>, occupied: seq<Cell>) returns (food: Cell, used: nat)
    requires HasFreeDraw(draws, occupied)
    ensures used == FirstFree(draws, occupied) + 1
    ensures food == DrawCell(draws[used - 1])
    ensures OnGrid(food) && food !in occupied
  {
    ghost var k :| 0 <= k < |draws| && DrawCell(draws[k]) !in occupied;
    var i := 0;
    food := DrawCell(draws[0]);
    var taken := Scan(occupied, food);
    while taken
      invariant 0 <= i <= k
      invariant food == DrawCell(draws[i]) && (taken <==> food in occupied)
      invariant forall j :: 0 <= j < i ==> DrawCell(draws[j]) in occupied
      decreases k - i
    {
      i := i + 1;
      food := DrawCell(draws[i]);
      taken := Scan(occupied, food);
    }
    used := i + 1;
  }
}
