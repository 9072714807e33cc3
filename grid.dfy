/** The playing field: an 800 x 600 pixel screen divided into 20-pixel
    blocks. Positions are the pixel coordinates of a block's top-left
    corner, as the game keeps them. */
module Grid {
  const ScreenWidth: int := 800
  const ScreenHeight: int := 600
  const BlockSize: int := 20

  /** Number of block columns and rows that food is drawn from. */
  const Columns: int := ScreenWidth / BlockSize
  const Rows: int := ScreenHeight / BlockSize

  /** A block position in pixels; the game's `[x, y]` lists compare by value. */
  datatype Cell = Cell(x: int, y: int)

  /** The wall test of the game loop: the position lies outside [0,800) x [0,600). */
  predicate OutOfBounds(c: Cell) {
    c.x >= ScreenWidth || c.x < 0 || c.y >= ScreenHeight || c.y < 0
  }

  /** A position inside the screen and aligned to the block grid. */
  predicate OnGrid(c: Cell) {
    0 <= c.x < ScreenWidth && 0 <= c.y < ScreenHeight &&
    c.x % BlockSize == 0 && c.y % BlockSize == 0
  }

  /** One pair of random draws for a food position: a column index and a row index. */
  datatype Draw = Draw(col: int, row: int)

  /** What `randrange(0, Columns)` and `randrange(0, Rows)` can return. */
  predicate ValidDraw(d: Draw) {
    0 <= d.col < Columns && 0 <= d.row < Rows
  }

  /** The food position a draw denotes: column and row scaled by the block size. */
  function DrawCell(d: Draw): (c: Cell)
    requires ValidDraw(d)
    ensures OnGrid(c) && !OutOfBounds(c)
  {
    Cell(d.col * BlockSize, d.row * BlockSize)
  }

  /** Every aligned position on the screen is the image of exactly one draw,
      so the food can land on any block of the field and nowhere else. */
  lemma DrawsCoverGrid(c: Cell)
    ensures OnGrid(c) <==> exists d :: ValidDraw(d) && DrawCell(d) == c
    ensures forall d1, d2 :: ValidDraw(d1) && ValidDraw(d2) && DrawCell(d1) == c && DrawCell(d2) == c ==> d1 == d2
  {
    if OnGrid(c) {
      var d := Draw(c.x / BlockSize, c.y / BlockSize);
      assert ValidDraw(d) && DrawCell(d) == c;
    }
  }

  /** The linear search the game loop runs over its segment list, both for
      self-collision and for rejecting a food position on the snake. */
  method Scan(cells: seq<Cell>, c: Cell) returns (found: bool)
    ensures found <==> c in cells
  {
    found := false;
    var i := 0;
    while i < |cells|
      invariant 0 <= i <= |cells|
      invariant found <==> c in cells[..i]
    {
      if cells[i] == c {
        found := true;
      }
      assert cells[..i + 1] == cells[..i] + [cells[i]];
      i := i + 1;
    }
    assert cells[..i] == cells;
  }
}
