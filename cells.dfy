/**
 * The `.cells` (plaintext) decoder as the game's file constructor runs it.
 * The first line of the file is skipped whatever it says; every later line
 * is a pattern row. Each 'O' is recorded, in reading order, as a
 * (row, column) pair in a fixed buffer of 100 zero-initialised pairs; the
 * grid gets one row per pattern line and as many columns as the first
 * pattern line is long. Seeding then walks the whole buffer: a pair with a
 * zero coordinate (and so every unused slot) only turns on cell (0, 0), and
 * only when the first pattern line starts with an 'O'.
 */
module PlainText {
  import opened Life
  import opened Grid
  import opened Pattern

  /** The number of (row, column) pairs the coordinate buffer holds. */
  const Capacity: nat := 100

  /** The live-cell marks of one pattern line `s`, as (row, column) pairs in reading order. */
  function RowMarks(row: nat, s: string): seq<(int, int)>
  {
    if |s| == 0 then []
    else RowMarks(row, s[..|s| - 1]) + (if s[|s| - 1] == 'O' then [(row, |s| - 1)] else [])
  }

  /** The live-cell marks of the pattern lines `p`, in reading order. */
  function Marks(p: seq<string>): seq<(int, int)>
  {
    if |p| == 0 then [] else Marks(p[..|p| - 1]) + RowMarks(|p| - 1, p[|p| - 1])
  }

  /** The grid's column count: the length of the first pattern line. */
  function Width(p: seq<string>): nat
  {
    if |p| == 0 then 0 else |p[0]|
  }

  /** Whether the seeding loop turns on the cell a recorded pair names (both coordinates non-zero). */
  predicate Seeds(m: (int, int))
  {
    m.0 != 0 && m.1 != 0
  }

  /** The seeded board: a recorded pair off both edges, or (0, 0) itself when recorded. */
  function Seeded(p: seq<string>): (b: Board)
    ensures IsGrid(b, |p|, Width(p))
    ensures forall r, c :: InBounds(b, r, c) ==>
      (b[r][c] <==> (r, c) in Marks(p) && (Seeds((r, c)) || (r, c) == (0, 0)))
  {
    seq(|p|, r => seq(Width(p), c => (r, c) in Marks(p) && (Seeds((r, c)) || (r, c) == (0, 0))))
  }

  /**
   * The decoder as a value. An empty file fails on its first line; more than
   * `Capacity` marks overflow the buffer; a seeded mark at or past the width
   * indexes off the grid.
   */
  function Decode(lines: seq<string>): Parsed
  {
    if |lines| == 0 then Failed(NoFirstLine)
    else
      var p := lines[1..];
      if |Marks(p)| > Capacity then Failed(BufferFull)
      else if exists m :: m in Marks(p) && Seeds(m) && m.1 >= Width(p) then Failed(OffGrid)
      else Parsed(Seeded(p))
  }

  lemma {:induction false} RowMarksAre(row: nat, s: string, m: (int, int))
    ensures m in RowMarks(row, s) <==> m.0 == row && 0 <= m.1 < |s| && s[m.1] == 'O'
  {
    if |s| > 0 {
      RowMarksAre(row, s[..|s| - 1], m);
    }
  }

  /** A pair is recorded exactly when it names an 'O' of the pattern. */
  lemma {:induction false} MarksAre(p: seq<string>, m: (int, int))
    ensures m in Marks(p) <==> 0 <= m.0 < |p| && 0 <= m.1 < |p[m.0]| && p[m.0][m.1] == 'O'
  {
    if |p| > 0 {
      MarksAre(p[..|p| - 1], m);
      RowMarksAre(|p| - 1, p[|p| - 1], m);
    }
  }

  lemma {:induction false} RowMarksGrow(row: nat, s: string, i: nat)
    requires i <= |s|
    ensures |RowMarks(row, s[..i])| <= |RowMarks(row, s)|
  {
    if i == |s| {
      assert s[..i] == s;
    } else {
      assert s[..|s| - 1][..i] == s[..i];
      RowMarksGrow(row, s[..|s| - 1], i);
    }
  }

  lemma {:induction false} MarksGrow(p: seq<string>, k: nat)
    requires k <= |p|
    ensures |Marks(p[..k])| <= |Marks(p)|
  {
    if k == |p| {
      assert p[..k] == p;
    } else {
      assert p[..|p| - 1][..k] == p[..k];
      MarksGrow(p[..|p| - 1], k);
    }
  }

  /** The first line of the file never matters. */
  lemma FirstLineIgnored(first: string, other: string, rest: seq<string>)
    ensures Decode([first] + rest) == Decode([other] + rest)
  {
    assert ([first] + rest)[1..] == rest == ([other] + rest)[1..];
  }

  /** Sizing: one row per line after the first, as many columns as the first of them is long. */
  lemma DecodeSize(lines: seq<string>)
    requires Decode(lines).Parsed?
    ensures IsGrid(Decode(lines).board, |lines| - 1, if |lines| > 1 then |lines[1]| else 0)
  {
  }

  /** Off both edges, a cell is seeded exactly when its pattern line has an 'O' there. */
  lemma {:induction false} InteriorSeeded(lines: seq<string>, r: nat, c: nat)
    requires Decode(lines).Parsed?
    requires 0 < r < |lines| - 1 && 0 < c < Width(lines[1..])
    ensures Decode(lines).board[r][c] <==> c < |lines[r + 1]| && lines[r + 1][c] == 'O'
  {
    MarksAre(lines[1..], (r, c));
  }

  /** The origin is seeded exactly when the first pattern line starts with an 'O'. */
  lemma {:induction false} OriginSeeded(lines: seq<string>)
    requires Decode(lines).Parsed?
    requires |lines| > 1 && |lines[1]| > 0
    ensures Decode(lines).board[0][0] <==> lines[1][0] == 'O'
  {
    MarksAre(lines[1..], (0, 0));
  }

  /** Any other cell of row 0 or column 0 is never seeded, whatever the pattern says. */
  lemma EdgeNeverSeeded(lines: seq<string>, r: nat, c: nat)
    requires Decode(lines).Parsed?
    requires InBounds(Decode(lines).board, r, c)
    requires (r == 0) != (c == 0)
    ensures !Decode(lines).board[r][c]
  {
  }

  /** The decoder fails exactly on an empty file, an overflowing buffer or a seeded mark past the width. */
  lemma {:induction false} DecodeFails(lines: seq<string>)
    ensures Decode(lines).Failed? <==>
      |lines| == 0 || |Marks(lines[1..])| > Capacity ||
      exists r, c :: 0 < r < |lines| - 1 && 0 < c && Width(lines[1..]) <= c < |lines[1..][r]| && lines[1..][r][c] == 'O'
  {
    if |lines| > 0 {
      var p := lines[1..];
      if exists m :: m in Marks(p) && Seeds(m) && m.1 >= Width(p) {
        var m :| m in Marks(p) && Seeds(m) && m.1 >= Width(p);
        MarksAre(p, m);
        assert 0 < m.0 < |p| && 0 < m.1 && Width(p) <= m.1 < |p[m.0]| && p[m.0][m.1] == 'O';
      }
      if exists r, c :: 0 < r < |p| && 0 < c && Width(p) <= c < |p[r]| && p[r][c] == 'O' {
        var r, c :| 0 < r < |p| && 0 < c && Width(p) <= c < |p[r]| && p[r][c] == 'O';
        MarksAre(p, (r, c));
      }
    }
  }

  lemma RowMarksSnoc(row: nat, s: string, i: nat)
    requires i < |s|
    ensures RowMarks(row, s[..i + 1]) == RowMarks(row, s[..i]) + (if s[i] == 'O' then [(row, i)] else [])
  {
    assert s[..i + 1][..i] == s[..i] && s[..i + 1][i] == s[i];
  }

  /**
   * The source's inner scanning loop over one pattern line `data`, the
   * pattern's row `row`: each 'O' is appended to the buffer, and row 0 sets
   * the column count. `before` is what the buffer held; `full` reports the
   * mark that found no free slot.
   */
  method ScanRow(row: nat, data: string, list: array<(int, int)>, index0: nat, ghost before: seq<(int, int)>,
                 bandaid0: bool, col0: nat)
      returns (full: bool, index: nat, bandaid: bool, col: nat)
    requires list.Length == Capacity
    requires index0 == |before| <= Capacity && list[..index0] == before
    requires forall j :: index0 <= j < Capacity ==> list[j] == (0, 0)
    requires bandaid0 <==> (0, 0) in before
    modifies list
    ensures full <==> |before + RowMarks(row, data)| > Capacity
    ensures !full ==> index == |before + RowMarks(row, data)| && list[..index] == before + RowMarks(row, data)
    ensures !full ==> forall j :: index <= j < Capacity ==> list[j] == (0, 0)
    ensures !full ==> (bandaid <==> (0, 0) in before + RowMarks(row, data))
    ensures !full ==> col == if row == 0 && |data| > 0 then |data| else col0
  {
    index, bandaid, col := index0, bandaid0, col0;
    for i := 0 to |data|
      invariant index == |before + RowMarks(row, data[..i])| <= Capacity
      invariant list[..index] == before + RowMarks(row, data[..i])
      invariant forall j :: index <= j < Capacity ==> list[j] == (0, 0)
      invariant col == if row == 0 && i > 0 then |data| else col0
      invariant bandaid <==> (0, 0) in before + RowMarks(row, data[..i])
    {
      ghost var marks := before + RowMarks(row, data[..i]);
      RowMarksSnoc(row, data, i);
      assert before + RowMarks(row, data[..i + 1])
        == marks + (if data[i] == 'O' then [(row, i)] else []);
      if data[i] == 'O' {
        if row == 0 && i == 0 {
          bandaid := true;
        }
        if index == Capacity {
          // the buffer has no slot for this mark
          RowMarksGrow(row, data, i + 1);
          return true, index, bandaid, col;
        }
        list[index] := (row, i);
        assert list[..index + 1] == marks + [(row, i)];
        index := index + 1;
      }
      if row == 0 {
        col := |data|;
      }
    }
    assert data[..|data|] == data;
    full := false;
  }

  /**
   * The source's scanning loop over the pattern lines `p` (the file's lines
   * after the first). `list` is the coordinate buffer and `index` its fill
   * level; `row` and `col` end as the grid's size; `bandaid` records that
   * (0, 0) was seen. `full` reports the mark that found no free slot.
   */
  method ScanCells(p: seq<string>) returns (full: bool, list: array<(int, int)>, index: nat, row: nat, col: nat, bandaid: bool)
    ensures full <==> |Marks(p)| > Capacity
    ensures fresh(list) && list.Length == Capacity
    ensures !full ==> index == |Marks(p)| && list[..index] == Marks(p)
    ensures !full ==> forall j :: index <= j < Capacity ==> list[j] == (0, 0)
    ensures !full ==> row == |p| && col == Width(p) && (bandaid <==> (0, 0) in Marks(p))
  {
    row, col, index := 0, 0, 0;
    bandaid := false;
    list := new (int, int)[Capacity](_ => (0, 0));
    while row < |p|
      invariant row <= |p|
      invariant index == |Marks(p[..row])| <= Capacity
      invariant list[..index] == Marks(p[..row])
      invariant forall j :: index <= j < Capacity ==> list[j] == (0, 0)
      invariant col == Width(p[..row])
      invariant bandaid <==> (0, 0) in Marks(p[..row])
    {
      assert p[..row + 1][..row] == p[..row] && p[..row + 1][row] == p[row];
      assert Marks(p[..row + 1]) == Marks(p[..row]) + RowMarks(row, p[row]);
      full, index, bandaid, col := ScanRow(row, p[row], list, index, Marks(p[..row]), bandaid, col);
      if full {
        MarksGrow(p, row + 1);
        return;
      }
      row := row + 1;
    }
    assert p[..row] == p;
    full := false;
  }

  /**
   * A buffer of `Capacity` slots filled with `ms` and zeros after it holds
   * every pair of `ms`, and among pairs off both edges nothing else.
   */
  lemma BufferHolds(ms: seq<(int, int)>, s: seq<(int, int)>)
    requires |s| == Capacity && |ms| <= Capacity && s[..|ms|] == ms
    requires forall j :: |ms| <= j < Capacity ==> s[j] == (0, 0)
    ensures forall x :: x in ms ==> x in s
    ensures forall x :: Seeds(x) ==> (x in s <==> x in ms)
  {
    forall x | x in ms ensures x in s {
      var t :| 0 <= t < |ms| && ms[t] == x;
      assert s[t] == x;
    }
    forall x | Seeds(x) && x in s ensures x in ms {
      var t :| 0 <= t < |s| && s[t] == x;
      assert ms[t] == s[t];
    }
  }

  /**
   * One slot of the seeding loop: a pair off both edges turns its own cell
   * on, any other pair turns on (0, 0) when `bandaid` is set. (Off-board
   * positions are stopped by the loop before they get here.)
   */
  function Seed(b: Board, e: (int, int), bandaid: bool): (b': Board)
    ensures |b'| == |b| && forall i :: 0 <= i < |b| ==> |b'[i]| == |b[i]|
  {
    if Seeds(e) then
      if InBounds(b, e.0, e.1) then SetCell(b, e.0, e.1, true) else b
    else if bandaid && InBounds(b, 0, 0) then SetCell(b, 0, 0, true)
    else b
  }

  /** The seeding loop over the slots `s`, in order. */
  function SeedAll(b: Board, s: seq<(int, int)>, bandaid: bool): (b': Board)
    ensures |b'| == |b| && forall i :: 0 <= i < |b| ==> |b'[i]| == |b[i]|
  {
    if |s| == 0 then b else Seed(SeedAll(b, s[..|s| - 1], bandaid), s[|s| - 1], bandaid)
  }

  /**
   * After seeding, a cell is on when it was on before, when it is a slot's
   * pair off both edges, or when it is (0, 0), `bandaid` is set and some slot
   * has a zero coordinate.
   */
  lemma {:induction false} SeedAllCells(b: Board, s: seq<(int, int)>, bandaid: bool)
    ensures forall r, c :: InBounds(b, r, c) ==>
      (SeedAll(b, s, bandaid)[r][c] <==>
        b[r][c] || (Seeds((r, c)) && (r, c) in s) || ((r, c) == (0, 0) && bandaid && exists x :: x in s && !Seeds(x)))
  {
    if |s| > 0 {
      var s' := s[..|s| - 1];
      SeedAllCells(b, s', bandaid);
      assert s == s' + [s[|s| - 1]];
      assert forall x :: x in s <==> x in s' || x == s[|s| - 1];
    }
  }

  /**
   * Seeding a blank grid from a buffer holding the pattern's marks and zeros
   * after them gives the seeded board.
   */
  lemma SeedAllIsSeeded(p: seq<string>, s: seq<(int, int)>, bandaid: bool)
    requires |s| == Capacity && |Marks(p)| <= Capacity && s[..|Marks(p)|] == Marks(p)
    requires forall j :: |Marks(p)| <= j < Capacity ==> s[j] == (0, 0)
    requires bandaid <==> (0, 0) in Marks(p)
    ensures SeedAll(Blank(|p|, Width(p)), s, bandaid) == Seeded(p)
  {
    var b := Blank(|p|, Width(p));
    SeedAllCells(b, s, bandaid);
    BufferHolds(Marks(p), s);
    forall r | 0 <= r < |p| ensures SeedAll(b, s, bandaid)[r] == Seeded(p)[r] {
    }
  }

  /**
   * The source's seeding loop: walk all `Capacity` slots of the buffer and
   * turn on each recorded cell off both edges; a slot with a zero coordinate
   * turns on (0, 0) when `bandaid` is set. `offGrid` reports a cell past the
   * grid's last column.
   */
  method SeedCells(p: seq<string>, grid: GridCanvas, list: array<(int, int)>, index: nat, bandaid: bool)
      returns (offGrid: bool)
    requires |Marks(p)| <= Capacity && list.Length == Capacity
    requires index == |Marks(p)| && list[..index] == Marks(p)
    requires forall j :: index <= j < Capacity ==> list[j] == (0, 0)
    requires bandaid <==> (0, 0) in Marks(p)
    requires grid.cells.Length0 == |p| && grid.cells.Length1 == Width(p)
    requires grid.Board() == Blank(|p|, Width(p))
    modifies grid.cells
    ensures offGrid <==> exists m :: m in Marks(p) && Seeds(m) && m.1 >= Width(p)
    ensures !offGrid ==> grid.Board() == Seeded(p)
  {
    var row, col := |p|, Width(p);
    ghost var blank := grid.Board();
    for j := 0 to Capacity
      invariant grid.Board() == SeedAll(blank, list[..j], bandaid)
      invariant forall x :: x in list[..j] && Seeds(x) ==> x.1 < col
    {
      var e := list[j];
      assert list[..j + 1] == list[..j] + [e];
      if e.0 != 0 && e.1 != 0 {
        assert j < index && list[..index][j] == e;
        MarksAre(p, e);
        if e.1 >= col {
          // turning this cell on indexes past the grid's last column
          return true;
        }
        grid.TurnOn(e.0, e.1);
      } else if bandaid {
        MarksAre(p, (0, 0));
        grid.TurnOn(0, 0);
      }
    }
    assert list[..Capacity] == list[..];
    BufferHolds(Marks(p), list[..]);
    SeedAllIsSeeded(p, list[..], bandaid);
    offGrid := false;
  }

  /**
   * The `.cells` branch of the game's file constructor over the lines of
   * the file: skip the first line, scan, build the grid, seed it.
   */
  method DecodeCells(lines: seq<string>) returns (res: Decoded)
    ensures res.Crashed? <==> Decode(lines).Failed?
    ensures res.Crashed? ==> res.fault == Decode(lines).fault
    ensures !res.NoGrid?
    ensures res.Loaded? ==> fresh(res.grid.cells) && res.grid.Board() == Decode(lines).board
  {
    if |lines| == 0 {
      // reading the first line of an empty file fails
      return Crashed(NoFirstLine);
    }
    var full, list, index, row, col, bandaid := ScanCells(lines[1..]);
    if full {
      return Crashed(BufferFull);
    }
    var grid := new GridCanvas(row, col);
    var offGrid := SeedCells(lines[1..], grid, list, index, bandaid);
    if offGrid {
      return Crashed(OffGrid);
    }
    return Loaded(grid);
  }
}
