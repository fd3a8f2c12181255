/**
 * The pure part of Conway's Game of Life: a board is a rectangle of cell
 * states, `Test` reads it tolerantly, `CountAlive` sums the eight
 * neighbours, `NextState` is the transition rule and `Next` is one whole
 * generation computed from the old board alone.
 */
module Life {

  /** Row-major cell states; `true` is a live cell. */
  type Board = seq<seq<bool>>

  /** `b` has exactly `rows` rows of `cols` cells each. */
  predicate IsGrid(b: Board, rows: nat, cols: nat)
  {
    |b| == rows && forall r :: 0 <= r < rows ==> |b[r]| == cols
  }

  /** Whether (r, c) names a cell of `b` (any integers may be asked). */
  predicate InBounds(b: Board, r: int, c: int)
  {
    0 <= r < |b| && 0 <= c < |b[r]|
  }

  /** A board of the given size with every cell dead. */
  function Blank(rows: nat, cols: nat): (b: Board)
    ensures IsGrid(b, rows, cols)
    ensures forall r, c :: InBounds(b, r, c) ==> !b[r][c]
  {
    seq(rows, _ => seq(cols, _ => false))
  }

  /** The board with cell (r, c) set to `v` and every other cell kept. */
  function SetCell(b: Board, r: nat, c: nat, v: bool): (b': Board)
    requires InBounds(b, r, c)
    ensures |b'| == |b| && forall i :: 0 <= i < |b| ==> |b'[i]| == |b[i]|
    ensures b'[r][c] == v
    ensures forall i, j :: InBounds(b, i, j) && (i, j) != (r, c) ==> b'[i][j] == b[i][j]
  {
    b[r := b[r][c := v]]
  }

  /** Setting a cell to the state it has changes nothing. */
  lemma SetCellSame(b: Board, r: nat, c: nat)
    requires InBounds(b, r, c)
    ensures SetCell(b, r, c, b[r][c]) == b
  {
    assert b[r][c := b[r][c]] == b[r];
  }

  /**
   * The grid's tolerant probe: 1 for a live cell on the board, 0 for a
   * dead one and 0 for every coordinate off the board, negative ones included.
   */
  function Test(b: Board, r: int, c: int): (v: int)
    ensures v == 0 || v == 1
    ensures !InBounds(b, r, c) ==> v == 0
    ensures InBounds(b, r, c) ==> (v == 1 <==> b[r][c])
  {
    if InBounds(b, r, c) && b[r][c] then 1 else 0
  }

  /** Straight-line sum of `Test` over the eight neighbour offsets. */
  function CountAlive(b: Board, r: int, c: int): (n: int)
    ensures 0 <= n <= 8
  {
    Test(b, r - 1, c - 1) + Test(b, r - 1, c) + Test(b, r - 1, c + 1)
    + Test(b, r, c - 1) + Test(b, r, c + 1)
    + Test(b, r + 1, c - 1) + Test(b, r + 1, c) + Test(b, r + 1, c + 1)
  }

  /**
   * The live cells of the board in the 3 x 3 block centred on (r, c), the
   * centre itself excluded.
   */
  function LiveNeighbours(b: Board, r: int, c: int): set<(int, int)>
  {
    set i, j | r - 1 <= i <= r + 1 && c - 1 <= j <= c + 1 && (i, j) != (r, c)
                 && InBounds(b, i, j) && b[i][j] :: (i, j)
  }

  /** The eight neighbour positions of (r, c), in the order `CountAlive` adds them. */
  function Neighbours(r: int, c: int): (ps: seq<(int, int)>)
    ensures |ps| == 8
    ensures forall i, j :: 0 <= i < j < |ps| ==> ps[i] != ps[j]
  {
    [(r - 1, c - 1), (r - 1, c), (r - 1, c + 1), (r, c - 1), (r, c + 1),
     (r + 1, c - 1), (r + 1, c), (r + 1, c + 1)]
  }

  /** The sum of `Test` over a list of positions. */
  function SumTest(b: Board, ps: seq<(int, int)>): int
  {
    if ps == [] then 0 else Test(b, ps[0].0, ps[0].1) + SumTest(b, ps[1..])
  }

  /** The live on-board cells among a list of positions. */
  function LiveIn(b: Board, ps: seq<(int, int)>): set<(int, int)>
  {
    set p | p in ps && InBounds(b, p.0, p.1) && b[p.0][p.1]
  }

  /** Over distinct positions, summing `Test` counts the live cells among them. */
  lemma {:induction false} LiveInSize(b: Board, ps: seq<(int, int)>)
    requires forall i, j :: 0 <= i < j < |ps| ==> ps[i] != ps[j]
    ensures |LiveIn(b, ps)| == SumTest(b, ps)
  {
    if ps != [] {
      LiveInSize(b, ps[1..]);
      var p := ps[0];
      assert p !in ps[1..];
      if InBounds(b, p.0, p.1) && b[p.0][p.1] {
        assert LiveIn(b, ps) == {p} + LiveIn(b, ps[1..]);
      } else {
        assert LiveIn(b, ps) == LiveIn(b, ps[1..]);
      }
    }
  }

  lemma CountAliveIsSumTest(b: Board, r: int, c: int)
    ensures CountAlive(b, r, c) == SumTest(b, Neighbours(r, c))
  {
    var ns := Neighbours(r, c);
    assert SumTest(b, ns[8..]) == 0;
    assert SumTest(b, ns[7..]) == Test(b, r + 1, c + 1) by { assert ns[7..][1..] == ns[8..]; }
    assert SumTest(b, ns[6..]) == Test(b, r + 1, c) + SumTest(b, ns[7..]) by { assert ns[6..][1..] == ns[7..]; }
    assert SumTest(b, ns[5..]) == Test(b, r + 1, c - 1) + SumTest(b, ns[6..]) by { assert ns[5..][1..] == ns[6..]; }
    assert SumTest(b, ns[4..]) == Test(b, r, c + 1) + SumTest(b, ns[5..]) by { assert ns[4..][1..] == ns[5..]; }
    assert SumTest(b, ns[3..]) == Test(b, r, c - 1) + SumTest(b, ns[4..]) by { assert ns[3..][1..] == ns[4..]; }
    assert SumTest(b, ns[2..]) == Test(b, r - 1, c + 1) + SumTest(b, ns[3..]) by { assert ns[2..][1..] == ns[3..]; }
    assert SumTest(b, ns[1..]) == Test(b, r - 1, c) + SumTest(b, ns[2..]) by { assert ns[1..][1..] == ns[2..]; }
  }

  lemma LiveInNeighbours(b: Board, r: int, c: int)
    ensures LiveIn(b, Neighbours(r, c)) == LiveNeighbours(b, r, c)
  {
    var ns := Neighbours(r, c);
    forall p | p in LiveNeighbours(b, r, c) ensures p in ns {
      assert p.0 == r - 1 || p.0 == r || p.0 == r + 1;
      assert p.1 == c - 1 || p.1 == c || p.1 == c + 1;
    }
  }

  /**
   * `CountAlive` is the number of live on-board cells among the eight
   * neighbours: positions off the board contribute nothing.
   */
  lemma CountAliveIsLiveNeighbours(b: Board, r: int, c: int)
    ensures CountAlive(b, r, c) == |LiveNeighbours(b, r, c)|
    ensures forall p :: p in LiveNeighbours(b, r, c) ==> InBounds(b, p.0, p.1) && b[p.0][p.1]
  {
    CountAliveIsSumTest(b, r, c);
    LiveInSize(b, Neighbours(r, c));
    LiveInNeighbours(b, r, c);
  }

  /**
   * The transition rule as the source writes it: a live cell is turned off on
   * fewer than two or more than three live neighbours, a dead cell is turned
   * on on exactly three, and nothing else changes.
   */
  function NextState(alive: bool, count: int): (s: bool)
    ensures alive && (count < 2 || count > 3) ==> !s
    ensures alive && (count == 2 || count == 3) ==> s
    ensures !alive && count == 3 ==> s
    ensures !alive && count != 3 ==> !s
  {
    if alive then
      if count < 2 || count > 3 then false else alive
    else
      if count == 3 then true else alive
  }

  /**
   * One generation: the new state of every cell is the rule applied to its
   * old state and its neighbour count on the OLD board. The shape is kept.
   */
  function Next(b: Board): (n: Board)
    ensures |n| == |b| && forall r :: 0 <= r < |b| ==> |n[r]| == |b[r]|
    ensures forall r, c :: InBounds(b, r, c) ==> n[r][c] == NextState(b[r][c], CountAlive(b, r, c))
  {
    seq(|b|, r requires 0 <= r < |b| =>
      seq(|b[r]|, c requires 0 <= c < |b[r]| => NextState(b[r][c], CountAlive(b, r, c))))
  }

  /** Next keeps a rectangular board rectangular with the same size. */
  lemma NextKeepsSize(b: Board, rows: nat, cols: nat)
    requires IsGrid(b, rows, cols)
    ensures IsGrid(Next(b), rows, cols)
  {
  }

  /** An all-dead board is a fixed point of `Next`. */
  lemma AllDeadIsFixed(b: Board)
    requires forall r, c :: InBounds(b, r, c) ==> !b[r][c]
    ensures Next(b) == b
  {
    forall r | 0 <= r < |b| ensures Next(b)[r] == b[r] {
      forall c | 0 <= c < |b[r]| ensures Next(b)[r][c] == b[r][c] {
        assert CountAlive(b, r, c) == 0;
      }
    }
  }

  /** The board given by the set of its live cells. */
  function FromLive(rows: nat, cols: nat, live: set<(int, int)>): (b: Board)
    ensures IsGrid(b, rows, cols)
    ensures forall r, c :: InBounds(b, r, c) ==> (b[r][c] <==> (r, c) in live)
  {
    seq(rows, r => seq(cols, c => (r, c) in live))
  }

  /** The blank board has no live cells. */
  lemma BlankIsFromLive(rows: nat, cols: nat)
    ensures Blank(rows, cols) == FromLive(rows, cols, {})
  {
    forall r | 0 <= r < rows ensures Blank(rows, cols)[r] == FromLive(rows, cols, {})[r] {
    }
  }

  /** Turning a cell on adds it to the live cells. */
  lemma FromLiveAdd(rows: nat, cols: nat, live: set<(int, int)>, r: nat, c: nat)
    requires r < rows && c < cols
    ensures SetCell(FromLive(rows, cols, live), r, c, true) == FromLive(rows, cols, live + {(r, c)})
  {
    var a, b := SetCell(FromLive(rows, cols, live), r, c, true), FromLive(rows, cols, live + {(r, c)});
    forall i | 0 <= i < rows ensures a[i] == b[i] {
    }
  }
}
