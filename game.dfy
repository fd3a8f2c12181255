/**
 * The game object: a grid and the operations that advance it by one
 * generation. Neighbour counts for every cell are taken first, into a
 * separate array, and only then is every cell updated from its count, so the
 * new generation depends on the old one alone.
 */
module Game {
  import opened Life
  import opened Grid
  import opened Pattern
  import Blinkers
  import PlainText
  import Rle

  /** The decoder named by the second '.'-separated piece of the path. */
  datatype Format = CellsFile | RleFile | OtherFile

  /** The decoder the file's kind selects, as a value; other kinds leave the game without a grid. */
  function Parse(format: Format, lines: seq<string>): Parsed
  {
    match format
    case CellsFile => PlainText.Decode(lines)
    case RleFile => Rle.Decode(lines)
    case OtherFile => Absent
  }

  /** Opening a pattern file: a game, or the fault that stopped the program. */
  datatype Opened = Started(game: Conway) | Stopped(fault: Fault)

  class Conway {
    /** The grid; `null` when a pattern file gave none. */
    const grid: GridCanvas?

    /** The built-in start: a 5 x 10 grid with two Blinkers. */
    constructor ()
      ensures grid != null && fresh(grid.cells)
      ensures grid.Board() == Blinkers.Start()
    {
      var g := new GridCanvas(5, 10);
      g.TurnOn(2, 1);
      g.TurnOn(2, 2);
      g.TurnOn(2, 3);
      g.TurnOn(1, 7);
      g.TurnOn(2, 7);
      g.TurnOn(3, 7);
      Blinkers.StartFromBlank();
      grid := g;
    }

    /** A game on the grid a pattern file gave, or on none. */
    constructor Adopt(g: GridCanvas?)
      ensures grid == g
    {
      grid := g;
    }

    /**
     * The game's file constructor over the file's kind and lines: the
     * `.cells` or `.rle` decoder, or no grid for any other kind.
     */
    static method Open(format: Format, lines: seq<string>) returns (res: Opened)
      ensures res.Stopped? <==> Parse(format, lines).Failed?
      ensures res.Stopped? ==> res.fault == Parse(format, lines).fault
      ensures res.Started? ==> fresh(res.game)
      ensures res.Started? ==> (res.game.grid == null <==> Parse(format, lines).Absent?)
      ensures res.Started? && res.game.grid != null ==>
        fresh(res.game.grid.cells) && res.game.grid.Board() == Parse(format, lines).board
    {
      var d: Decoded := NoGrid;
      if format == CellsFile {
        d := PlainText.DecodeCells(lines);
      } else if format == RleFile {
        d := Rle.DecodeRle(lines);
      }
      if d.Crashed? {
        res := Stopped(d.fault);
      } else {
        var game := new Conway.Adopt(if d.Loaded? then d.grid else null);
        res := Started(game);
      }
    }

    /** The number of live neighbours of (r, c), read through the grid's tolerant probe. */
    function CountAlive(r: int, c: int): (n: int)
      requires grid != null
      reads grid.cells
      ensures n == Life.CountAlive(grid.Board(), r, c)
    {
      grid.Test(r - 1, c - 1) + grid.Test(r - 1, c) + grid.Test(r - 1, c + 1)
      + grid.Test(r, c - 1) + grid.Test(r, c + 1)
      + grid.Test(r + 1, c - 1) + grid.Test(r + 1, c) + grid.Test(r + 1, c + 1)
    }

    /** The rule applied to cell (r, c) of `g` given its neighbour count; no other cell changes. */
    static method UpdateCell(g: GridCanvas, r: nat, c: nat, count: int)
      requires r < g.NumRows() && c < g.NumCols()
      modifies g.cells
      ensures g.Board() == SetCell(old(g.Board()), r, c, NextState(old(g.Board())[r][c], count))
    {
      ghost var b := g.Board();
      if g.GetCell(r, c) {
        if count < 2 || count > 3 {
          g.TurnOff(r, c);
        } else {
          SetCellSame(b, r, c);
        }
      } else {
        if count == 3 {
          g.TurnOn(r, c);
        } else {
          SetCellSame(b, r, c);
        }
      }
    }

    /** The neighbour count of every cell, taken before anything changes. */
    method CountNeighbors() returns (counts: array2<int>)
      requires grid != null
      ensures fresh(counts)
      ensures counts.Length0 == grid.NumRows() && counts.Length1 == grid.NumCols()
      ensures forall r, c :: 0 <= r < counts.Length0 && 0 <= c < counts.Length1 ==>
        counts[r, c] == Life.CountAlive(grid.Board(), r, c)
    {
      var rows := grid.NumRows();
      var cols := grid.NumCols();
      ghost var b := grid.Board();
      counts := new int[rows, cols];
      for r := 0 to rows
        invariant grid.Board() == b
        invariant forall i, j :: 0 <= i < r && 0 <= j < cols ==> counts[i, j] == Life.CountAlive(b, i, j)
      {
        for c := 0 to cols
          invariant grid.Board() == b
          invariant forall i, j :: 0 <= i < rows && 0 <= j < cols && (i < r || (i == r && j < c)) ==>
            counts[i, j] == Life.CountAlive(b, i, j)
        {
          counts[r, c] := CountAlive(r, c);
        }
      }
    }

    /** Every cell updated from its own entry of `counts`. */
    method UpdateGrid(counts: array2<int>)
      requires grid != null
      requires counts.Length0 == grid.NumRows() && counts.Length1 == grid.NumCols()
      modifies grid.cells
      ensures IsGrid(grid.Board(), counts.Length0, counts.Length1)
      ensures forall r, c :: 0 <= r < counts.Length0 && 0 <= c < counts.Length1 ==>
        grid.Board()[r][c] == NextState(old(grid.Board())[r][c], counts[r, c])
    {
      var rows := grid.NumRows();
      var cols := grid.NumCols();
      for r := 0 to rows
        invariant forall i, j :: 0 <= i < rows && 0 <= j < cols ==>
          grid.cells[i, j] == if i < r then NextState(old(grid.cells[i, j]), counts[i, j]) else old(grid.cells[i, j])
      {
        for c := 0 to cols
          invariant forall i, j :: 0 <= i < rows && 0 <= j < cols ==>
            grid.cells[i, j] == if i < r || (i == r && j < c) then NextState(old(grid.cells[i, j]), counts[i, j]) else old(grid.cells[i, j])
        {
          UpdateCell(grid, r, c, counts[r, c]);
        }
      }
    }

    /** One generation: every cell gets the rule applied to the OLD board. */
    method Update()
      requires grid != null
      modifies grid.cells
      ensures grid.Board() == Next(old(grid.Board()))
    {
      var counts := CountNeighbors();
      UpdateGrid(counts);
      assert grid.Board() == Next(old(grid.Board())) by {
        var b := old(grid.Board());
        forall r | 0 <= r < |b| ensures grid.Board()[r] == Next(b)[r] {
        }
      }
    }
  }
}
