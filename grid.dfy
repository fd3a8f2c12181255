/**
 * A stand-in for the grid the game draws on: a fixed rows x cols array of
 * cell states. Each cell's on/off flag lives directly in the array, so a
 * `Cell` is addressed by its coordinates; `Test` is the total, tolerant
 * probe and `TurnOn`/`TurnOff` change one cell.
 */
module Grid {
  import opened Life

  class GridCanvas {
    /** The cells, `cells[r, c]` for row r and column c; `true` is on. */
    const cells: array2<bool>

    /** The abstract value: the board the array holds. */
    ghost function Board(): (b: Board)
      reads cells
      ensures IsGrid(b, cells.Length0, cells.Length1)
      ensures forall r, c :: 0 <= r < cells.Length0 && 0 <= c < cells.Length1 ==> b[r][c] == cells[r, c]
    {
      seq(cells.Length0, r requires 0 <= r < cells.Length0 reads cells =>
        seq(cells.Length1, c requires 0 <= c < cells.Length1 reads cells => cells[r, c]))
    }

    /** A grid of the given size with every cell off. */
    constructor (rows: nat, cols: nat)
      ensures fresh(cells)
      ensures cells.Length0 == rows && cells.Length1 == cols
      ensures Board() == Blank(rows, cols)
    {
      cells := new bool[rows, cols]((r, c) => false);
      new;
      assert Board() == Blank(rows, cols) by {
        forall r | 0 <= r < rows ensures Board()[r] == Blank(rows, cols)[r] {
        }
      }
    }

    function NumRows(): (n: nat)
      reads cells
      ensures n == |Board()|
    {
      cells.Length0
    }

    function NumCols(): (n: nat)
      reads cells
      ensures forall r :: 0 <= r < |Board()| ==> n == |Board()[r]|
    {
      cells.Length1
    }

    /** The state of the cell at (r, c), which must be on the grid. */
    function GetCell(r: nat, c: nat): (on: bool)
      requires r < cells.Length0 && c < cells.Length1
      reads cells
      ensures on == Board()[r][c]
    {
      cells[r, c]
    }

    /** 1 for an on cell of the grid, 0 for an off cell and for every position off the grid. */
    function Test(r: int, c: int): (v: int)
      reads cells
      ensures v == Life.Test(Board(), r, c)
    {
      if 0 <= r < cells.Length0 && 0 <= c < cells.Length1 && cells[r, c] then 1 else 0
    }

    method TurnOn(r: nat, c: nat)
      requires r < cells.Length0 && c < cells.Length1
      modifies cells
      ensures Board() == SetCell(old(Board()), r, c, true)
    {
      cells[r, c] := true;
      assert Board() == SetCell(old(Board()), r, c, true) by {
        var b := SetCell(old(Board()), r, c, true);
        forall i | 0 <= i < cells.Length0 ensures Board()[i] == b[i] {
        }
      }
    }

    method TurnOff(r: nat, c: nat)
      requires r < cells.Length0 && c < cells.Length1
      modifies cells
      ensures Board() == SetCell(old(Board()), r, c, false)
    {
      cells[r, c] := false;
      assert Board() == SetCell(old(Board()), r, c, false) by {
        var b := SetCell(old(Board()), r, c, false);
        forall i | 0 <= i < cells.Length0 ensures Board()[i] == b[i] {
        }
      }
    }
  }
}
