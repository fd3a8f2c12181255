/**
 * The built-in start of the game: two period-2 Blinkers on a 5 x 10 board.
 * One generation swaps their orientations and a second one restores the
 * start exactly.
 */
module Blinkers {
  import opened Life

  /** The start: a horizontal Blinker at (2, 1..3) and a vertical one at (1..3, 7). */
  function Start(): (b: Board)
    ensures IsGrid(b, 5, 10)
  {
    FromLive(5, 10, {(2, 1), (2, 2), (2, 3), (1, 7), (2, 7), (3, 7)})
  }

  /** One generation later: a vertical Blinker at (1..3, 2) and a horizontal one at (2, 6..8). */
  function Flipped(): (b: Board)
    ensures IsGrid(b, 5, 10)
  {
    FromLive(5, 10, {(1, 2), (2, 2), (3, 2), (2, 6), (2, 7), (2, 8)})
  }

  /** The live cells of the two phases as arithmetic conditions on (r, c). */
  predicate PhaseLive(flipped: bool, r: int, c: int)
  {
    if flipped then (c == 2 && 1 <= r <= 3) || (r == 2 && 6 <= c <= 8)
    else (r == 2 && 1 <= c <= 3) || (c == 7 && 1 <= r <= 3)
  }

  /** What `Test` answers on the 5 x 10 board of a phase. */
  function Probe(flipped: bool, r: int, c: int): int
  {
    if 0 <= r < 5 && 0 <= c < 10 && PhaseLive(flipped, r, c) then 1 else 0
  }

  /** `b` is the 5 x 10 board of the given phase. */
  predicate Shows(b: Board, flipped: bool)
  {
    IsGrid(b, 5, 10) && forall r, c :: 0 <= r < 5 && 0 <= c < 10 ==> b[r][c] == PhaseLive(flipped, r, c)
  }

  lemma ProbeIsTest(b: Board, flipped: bool, r: int, c: int)
    requires Shows(b, flipped)
    ensures Test(b, r, c) == Probe(flipped, r, c)
  {
  }

  /** Cell by cell, the rule applied to one phase's counts gives the other phase. */
  lemma RuleSwapsPhase(flipped: bool, r: int, c: int)
    requires 0 <= r < 5 && 0 <= c < 10
    ensures NextState(PhaseLive(flipped, r, c),
      Probe(flipped, r - 1, c - 1) + Probe(flipped, r - 1, c) + Probe(flipped, r - 1, c + 1)
      + Probe(flipped, r, c - 1) + Probe(flipped, r, c + 1)
      + Probe(flipped, r + 1, c - 1) + Probe(flipped, r + 1, c) + Probe(flipped, r + 1, c + 1))
      == PhaseLive(!flipped, r, c)
  {
  }

  /** On the board of a phase, the rule gives each cell its state in the other phase. */
  lemma CellSwaps(b: Board, flipped: bool, r: int, c: int)
    requires Shows(b, flipped)
    requires 0 <= r < 5 && 0 <= c < 10
    ensures NextState(b[r][c], CountAlive(b, r, c)) == PhaseLive(!flipped, r, c)
  {
    ProbeIsTest(b, flipped, r - 1, c - 1);
    ProbeIsTest(b, flipped, r - 1, c);
    ProbeIsTest(b, flipped, r - 1, c + 1);
    ProbeIsTest(b, flipped, r, c - 1);
    ProbeIsTest(b, flipped, r, c + 1);
    ProbeIsTest(b, flipped, r + 1, c - 1);
    ProbeIsTest(b, flipped, r + 1, c);
    ProbeIsTest(b, flipped, r + 1, c + 1);
    RuleSwapsPhase(flipped, r, c);
  }

  /** One generation takes the board of a phase to the board of the other phase. */
  lemma {:induction false} StepSwapsPhase(b: Board, flipped: bool)
    requires Shows(b, flipped)
    ensures Shows(Next(b), !flipped)
  {
    forall r, c | 0 <= r < 5 && 0 <= c < 10 ensures Next(b)[r][c] == PhaseLive(!flipped, r, c) {
      CellSwaps(b, flipped, r, c);
    }
  }

  /** Turning on the six cells of the start, one after another, on a blank 5 x 10 board gives the start. */
  lemma StartFromBlank()
    ensures
      var b := Blank(5, 10);
      var b1 := SetCell(b, 2, 1, true);
      var b2 := SetCell(b1, 2, 2, true);
      var b3 := SetCell(b2, 2, 3, true);
      var b4 := SetCell(b3, 1, 7, true);
      var b5 := SetCell(b4, 2, 7, true);
      SetCell(b5, 3, 7, true) == Start()
  {
    var s0: set<(int, int)> := {};
    var s1 := s0 + {(2, 1)};
    var s2 := s1 + {(2, 2)};
    var s3 := s2 + {(2, 3)};
    var s4 := s3 + {(1, 7)};
    var s5 := s4 + {(2, 7)};
    var s6 := s5 + {(3, 7)};
    BlankIsFromLive(5, 10);
    FromLiveAdd(5, 10, s0, 2, 1);
    FromLiveAdd(5, 10, s1, 2, 2);
    FromLiveAdd(5, 10, s2, 2, 3);
    FromLiveAdd(5, 10, s3, 1, 7);
    FromLiveAdd(5, 10, s4, 2, 7);
    FromLiveAdd(5, 10, s5, 3, 7);
    StartCells();
  }

  lemma StartCells()
    ensures {} + {(2, 1)} + {(2, 2)} + {(2, 3)} + {(1, 7)} + {(2, 7)} + {(3, 7)}
      == {(2, 1), (2, 2), (2, 3), (1, 7), (2, 7), (3, 7)}
  {
  }

  /** Two boards showing the same phase are equal. */
  lemma OnePhaseOneBoard(a: Board, b: Board, flipped: bool)
    requires Shows(a, flipped) && Shows(b, flipped)
    ensures a == b
  {
    forall r | 0 <= r < 5 ensures a[r] == b[r] {
    }
  }

  /** The start shows the first phase and `Flipped` the second. */
  lemma PhasesShown()
    ensures Shows(Start(), false) && Shows(Flipped(), true)
  {
    assert Shows(Start(), false);
    assert Shows(Flipped(), true);
  }

  /**
   * The two Blinkers oscillate with period 2: one generation swaps their
   * orientations, a second restores the start exactly.
   */
  lemma BlinkersOscillate()
    ensures Next(Start()) == Flipped()
    ensures Next(Next(Start())) == Start()
  {
    var start, flipped := Start(), Flipped();
    PhasesShown();
    StepSwapsPhase(start, false);
    OnePhaseOneBoard(Next(start), flipped, true);
    StepSwapsPhase(flipped, true);
    OnePhaseOneBoard(Next(flipped), start, false);
  }
}
