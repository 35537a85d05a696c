/** Properties of the Game of Life engine: the seed/window round trip,
    the shape of the neighbourhood, and what one step does. */
module GameOfLifeProperties {
  import opened GameOfLife

  // ---------------------------------------------------------------------------
  // Seed loader and viewport reader

  /** A seed with every nonzero byte replaced by 1. */
  function Normalized(p: Pattern): (q: Pattern)
    requires IsPattern(p)
    ensures IsPattern(q)
  {
    seq(DisplayWidth, r requires 0 <= r < DisplayWidth =>
      seq<Byte>(DisplayWidth, c requires 0 <= c < DisplayWidth => if p[r][c] != 0 then 1 else 0))
  }

  /** Every byte of the pattern is 0 or 1. */
  predicate IsBitPattern(p: Pattern)
    requires IsPattern(p)
  {
    forall r, c :: 0 <= r < DisplayWidth && 0 <= c < DisplayWidth ==> p[r][c] == 0 || p[r][c] == 1
  }

  /** Reading back the window of a seeded grid gives the seed, with each
      nonzero byte as 1. */
  lemma SeedViewRoundTrip(p: Pattern)
    requires IsPattern(p)
    ensures Viewport(Seeded(p)) == Normalized(p)
  {
    var v, q := Viewport(Seeded(p)), Normalized(p);
    forall r, c | 0 <= r < DisplayWidth && 0 <= c < DisplayWidth ensures v[r][c] == q[r][c] {
      ViewportBits(Seeded(p), r, c);
      SeededCells(p, r + DisplayOffset, c + DisplayOffset);
      assert |q[r]| == DisplayWidth;
    }
    PatternsEqual(v, q);
  }

  /** For a 0/1 seed the round trip is exact. */
  lemma SeedViewRoundTripExact(p: Pattern)
    requires IsPattern(p) && IsBitPattern(p)
    ensures Viewport(Seeded(p)) == p
  {
    SeedViewRoundTrip(p);
    PatternsEqual(Normalized(p), p);
  }

  /** A seeded grid differs from the empty one only inside the window,
      rows and columns 50 to 54, where it holds the seed. */
  lemma SeededCells(p: Pattern, x: int, y: int)
    requires IsPattern(p) && InGrid(x, y)
    ensures !InWindow(x, y) ==> Seeded(p)[x][y] == EmptyBoard()[x][y] == Dead
    ensures InWindow(x, y) ==>
      (Seeded(p)[x][y] == Alive <==> p[x - DisplayOffset][y - DisplayOffset] != 0)
  {
    var s := Seeded(p);
    assert |s[x]| == SimWidth;
    assert s[x][y] == if InWindow(x, y) then ByteToCell(p[x - DisplayOffset][y - DisplayOffset]) else Dead;
  }

  /** Every byte of the window is 0 or 1, and it is 1 exactly for a live cell. */
  lemma ViewportBits(b: Board, r: int, c: int)
    requires IsBoard(b) && 0 <= r < DisplayWidth && 0 <= c < DisplayWidth
    ensures Viewport(b)[r][c] == 0 || Viewport(b)[r][c] == 1
    ensures Viewport(b)[r][c] == 1 <==> b[r + DisplayOffset][c + DisplayOffset] == Alive
  {
    var v := Viewport(b);
    assert |v[r]| == DisplayWidth;
    assert v[r][c] == CellToByte(b[r + DisplayOffset][c + DisplayOffset]);
  }

  /** Through the engine's own operations: displaying a game built from a
      seed returns the normalized seed. */
  method DisplayAfterFromGrid(p: Pattern) returns (view: Pattern)
    requires IsPattern(p)
    ensures view == Normalized(p)
    ensures IsBitPattern(p) ==> view == p
  {
    var game := Game.FromGrid(p);
    view := game.Display();
    SeedViewRoundTrip(p);
    if IsBitPattern(p) {
      SeedViewRoundTripExact(p);
    }
  }

  // ---------------------------------------------------------------------------
  // Neighbour enumeration

  /** The neighbour iterator yields exactly the in-grid cells at most one row
      and one column from (i, j), other than (i, j) itself. */
  lemma NeighborsExactly(i: int, j: int, p: (int, int))
    ensures p in Neighbors(i, j) <==> InGrid(p.0, p.1) && p != (i, j) && Near(p, i, j)
  {
    if InGrid(p.0, p.1) && p != (i, j) && Near(p, i, j) {
      NeighborsComplete(i, j, p);
    }
  }

  /** Number of rows (or columns) among i - 1, i, i + 1 that lie in the grid. */
  function Span(i: int): (n: int)
    requires 0 <= i < SimWidth
    ensures 2 <= n <= 3
    ensures n == 3 <==> 0 < i < SimWidth - 1
  {
    (if i > 0 then 1 else 0) + 1 + (if i < SimWidth - 1 then 1 else 0)
  }

  lemma CandidateRowLength(i: int, j: int, di: int)
    requires InGrid(i, j) && -1 <= di <= 1
    ensures |CandidateRow(i, j, di)| ==
      if !(0 <= i + di < SimWidth) then 0 else if di == 0 then Span(j) - 1 else Span(j)
  {
  }

  /** A cell has (rows in the grid) x (columns in the grid) - 1 neighbours. */
  lemma NeighborCount(i: int, j: int)
    requires InGrid(i, j)
    ensures |Neighbors(i, j)| == Span(i) * Span(j) - 1
  {
    CandidateRowLength(i, j, -1);
    CandidateRowLength(i, j, 0);
    CandidateRowLength(i, j, 1);
  }

  /** Corners have 3 neighbours, other edge cells 5, interior cells 8. */
  lemma NeighborCountByPosition(i: int, j: int)
    requires InGrid(i, j)
    ensures (i == 0 || i == SimWidth - 1) && (j == 0 || j == SimWidth - 1) ==> |Neighbors(i, j)| == 3
    ensures (i == 0 || i == SimWidth - 1) != (j == 0 || j == SimWidth - 1) ==> |Neighbors(i, j)| == 5
    ensures 0 < i < SimWidth - 1 && 0 < j < SimWidth - 1 ==> |Neighbors(i, j)| == 8
  {
    NeighborCount(i, j);
  }

  /** The top-left corner's neighbours, in the order the iterator yields them. */
  lemma CornerNeighbors()
    ensures Neighbors(0, 0) == [(0, 1), (1, 0), (1, 1)]
  {
    assert CandidateRow(0, 0, 1) == [(1, 0), (1, 1)];
  }

  // ---------------------------------------------------------------------------
  // Evolution step

  /** A cell is alive after a step exactly when it was alive with 2 or 3 live
      neighbours, or dead with exactly 3, the neighbours being counted by
      filtering the neighbour iterator on the old grid. */
  lemma StepCell(b: Board, i: int, j: int)
    requires IsBoard(b) && InGrid(i, j)
    ensures var n := LiveCount(b, Neighbors(i, j));
      Step(b)[i][j] == Alive <==> (b[i][j] == Alive && (n == 2 || n == 3)) || (b[i][j] == Dead && n == 3)
  {
    LiveCountNeighbors(b, i, j);
  }

  /** The next state of a cell depends only on the old states of the cells in
      its 3 x 3 block, never on any cell's new state. */
  lemma StepLocal(b1: Board, b2: Board, i: int, j: int)
    requires IsBoard(b1) && IsBoard(b2) && InGrid(i, j)
    requires forall x, y :: InGrid(x, y) && Near((x, y), i, j) ==> b1[x][y] == b2[x][y]
    ensures Step(b1)[i][j] == Step(b2)[i][j]
  {
    assert LiveNeighborSet(b1, i, j) == LiveNeighborSet(b2, i, j);
  }

  /** A cell with no live neighbour is dead after a step, whatever its state. */
  lemma IsolatedCellDies(b: Board, i: int, j: int)
    requires IsBoard(b) && InGrid(i, j)
    requires forall x, y :: InGrid(x, y) && Near((x, y), i, j) && (x, y) != (i, j) ==> b[x][y] == Dead
    ensures Step(b)[i][j] == Dead
  {
    assert LiveNeighborSet(b, i, j) == {};
  }

  /** The empty grid is a fixed point of the step. */
  lemma EmptyIsFixedPoint()
    ensures Step(EmptyBoard()) == EmptyBoard()
  {
    var e := EmptyBoard();
    forall x, y | InGrid(x, y) ensures Step(e)[x][y] == e[x][y] {
      IsolatedCellDies(e, x, y);
    }
    BoardsEqual(Step(e), e);
  }

  /** The grid after n steps. */
  function Generations(b: Board, n: nat): (r: Board)
    requires IsBoard(b)
    ensures IsBoard(r)
  {
    if n == 0 then b else Step(Generations(b, n - 1))
  }

  /** The empty grid stays empty for any number of steps, so its window stays all zeros. */
  lemma {:induction false} EmptyStaysEmpty(n: nat)
    ensures Generations(EmptyBoard(), n) == EmptyBoard()
    ensures forall r, c :: 0 <= r < DisplayWidth && 0 <= c < DisplayWidth ==>
      Viewport(Generations(EmptyBoard(), n))[r][c] == 0
  {
    if n > 0 {
      EmptyStaysEmpty(n - 1);
      EmptyIsFixedPoint();
    }
    forall r, c | 0 <= r < DisplayWidth && 0 <= c < DisplayWidth
      ensures Viewport(Generations(EmptyBoard(), n))[r][c] == 0
    {
      ViewportBits(EmptyBoard(), r, c);
    }
  }

  /** The grid whose only live cell is (i, j). */
  function Single(i: int, j: int): (b: Board)
    ensures IsBoard(b)
  {
    seq(SimWidth, x => seq(SimWidth, y => if (x, y) == (i, j) then Alive else Dead))
  }

  /** A lone live cell dies, and nothing is born around it: one step empties the grid.
      This holds at the corners too, where clipping leaves 3 neighbours. */
  lemma LoneCellDies(i: int, j: int)
    requires InGrid(i, j)
    ensures Step(Single(i, j)) == EmptyBoard()
  {
    var b := Single(i, j);
    forall x, y | InGrid(x, y) ensures Step(b)[x][y] == Dead {
      var s := LiveNeighborSet(b, x, y);
      assert s <= {(i, j)};
      if (i, j) in s {
        assert s == {(i, j)};
      } else {
        assert s == {};
      }
    }
    BoardsEqual(Step(b), EmptyBoard());
  }

  /** Through the engine's own operations: a new game, evolved any number of
      times, displays all zeros. */
  method EmptyGameStaysBlank(steps: nat) returns (view: Pattern)
    ensures IsPattern(view)
    ensures forall r, c :: 0 <= r < DisplayWidth && 0 <= c < DisplayWidth ==> view[r][c] == 0
  {
    var game := new Game();
    for k := 0 to steps
      invariant game.Valid()
      invariant game.Cells() == EmptyBoard()
    {
      game.Evolve();
      EmptyIsFixedPoint();
    }
    view := game.Display();
    EmptyStaysEmpty(0);
  }
}
