/** src/screen.rs: a character grid of `height` rows and `width` cells,
    reset to a filler and then painted with one sprite per object. The cell
    an object is drawn in is given directly, already converted from its
    position. */
module Screens {
  import opened Wrappers
  import opened Objects

  /** The grid cell of an object: column `x`, row `y`. */
  datatype Cell = Cell(x: nat, y: nat)

  /** `height` rows of `width` cells, every one `filler`. */
  function Filled(width: nat, height: nat, filler: string): (g: seq<seq<string>>)
    ensures |g| == height
    ensures forall r :: 0 <= r < height ==> |g[r]| == width
    ensures forall r, c :: 0 <= r < height && 0 <= c < width ==> g[r][c] == filler
  {
    seq(height, _ => seq(width, _ => filler))
  }

  predicate Rectangular(g: seq<seq<string>>, width: nat, height: nat) {
    |g| == height && forall r :: 0 <= r < height ==> |g[r]| == width
  }

  predicate CellsInRange(cells: seq<Cell>, width: nat, height: nat) {
    forall i :: 0 <= i < |cells| ==> cells[i].x < width && cells[i].y < height
  }

  /** `grid[cell.y][cell.x] = sprite`. */
  function Put(g: seq<seq<string>>, cell: Cell, sprite: string): seq<seq<string>>
    requires cell.y < |g| && cell.x < |g[cell.y]|
  {
    g[cell.y := g[cell.y][cell.x := sprite]]
  }

  /** The grid after drawing `objects` in list order, object `i` at `cells[i]`. */
  function Painted(g: seq<seq<string>>, width: nat, height: nat, objects: seq<Object>, cells: seq<Cell>): (r: seq<seq<string>>)
    requires Rectangular(g, width, height)
    requires |cells| == |objects| && CellsInRange(cells, width, height)
    ensures Rectangular(r, width, height)
    decreases |objects|
  {
    if |objects| == 0 then g
    else
      var n := |objects| - 1;
      Put(Painted(g, width, height, objects[..n], cells[..n]), cells[n], objects[n].sprite)
  }

  /** The sprite of the last object drawn at `(x, y)`, if any. */
  function LastSpriteAt(objects: seq<Object>, cells: seq<Cell>, x: nat, y: nat): (r: Option<string>)
    requires |cells| == |objects|
    ensures r.None? <==> forall i :: 0 <= i < |cells| ==> cells[i] != Cell(x, y)
    decreases |objects|
  {
    if |objects| == 0 then None
    else
      var n := |objects| - 1;
      if cells[n] == Cell(x, y) then Some(objects[n].sprite)
      else LastSpriteAt(objects[..n], cells[..n], x, y)
  }

  /** Every cell of a freshly reset and painted grid: the filler where no
      object is drawn, otherwise the sprite of the last object drawn there. */
  lemma {:induction false} PaintedCell(width: nat, height: nat, filler: string, objects: seq<Object>, cells: seq<Cell>, x: nat, y: nat)
    requires |cells| == |objects| && CellsInRange(cells, width, height)
    requires x < width && y < height
    ensures Painted(Filled(width, height, filler), width, height, objects, cells)[y][x] ==
            match LastSpriteAt(objects, cells, x, y)
            case None => filler
            case Some(s) => s
    decreases |objects|
  {
    if |objects| > 0 {
      var n := |objects| - 1;
      PaintedCell(width, height, filler, objects[..n], cells[..n], x, y);
    }
  }

  class Screen {
    var width: nat
    var height: nat
    var fillerStr: string
    var grid: seq<seq<string>>

    ghost predicate Valid()
      reads this
    {
      Rectangular(grid, width, height)
    }

    /** `Screen::new`: a blank `width` x `height` grid of " ". */
    constructor(width: nat, height: nat)
      ensures Valid()
      ensures this.width == width && this.height == height && fillerStr == " "
      ensures grid == Filled(width, height, " ")
    {
      this.width := width;
      this.height := height;
      fillerStr := " ";
      grid := Filled(width, height, " ");
    }

    /** Every cell back to the filler; the dimensions are kept. */
    method ResetGrid()
      modifies this
      ensures Valid()
      ensures width == old(width) && height == old(height) && fillerStr == old(fillerStr)
      ensures grid == Filled(width, height, fillerStr)
    {
      grid := Filled(width, height, fillerStr);
    }

    /** Resets the grid, then draws each object's sprite at its cell, in
        list order, so a later object covers an earlier one. */
    method UpdateGrid(objects: seq<Object>, cells: seq<Cell>)
      requires |cells| == |objects| && CellsInRange(cells, width, height)
      modifies this
      ensures Valid()
      ensures width == old(width) && height == old(height) && fillerStr == old(fillerStr)
      ensures grid == Painted(Filled(width, height, fillerStr), width, height, objects, cells)
    {
      ResetGrid();
      var i := 0;
      while i < |objects|
        invariant 0 <= i <= |objects|
        invariant width == old(width) && height == old(height) && fillerStr == old(fillerStr)
        invariant grid == Painted(Filled(width, height, fillerStr), width, height, objects[..i], cells[..i])
      {
        assert objects[..i + 1][..i] == objects[..i] && cells[..i + 1][..i] == cells[..i];
        grid := grid[cells[i].y := grid[cells[i].y][cells[i].x := objects[i].sprite]];
        i := i + 1;
      }
      assert objects[..i] == objects && cells[..i] == cells;
    }
  }
}
