/** The Game of Life engine: a 100 x 100 grid of cells with clipped edges,
    a 5 x 5 viewable window, and the B3/S23 evolution step. */
module GameOfLife {

  /** Side of the square simulated grid. */
  const SimWidth: int := 100
  /** Side of the square viewable window. */
  const DisplayWidth: int := 5
  /** Row and column of the window's top-left cell. The engine uses
      SimWidth / 2 (= 50), not the centring value (SimWidth - DisplayWidth) / 2. */
  const DisplayOffset: int := SimWidth / 2

  /** An unsigned 8-bit value, as used by the seed and the window. */
  type Byte = x: int | 0 <= x < 256

  /** A cell is either dead or alive; it carries nothing else. */
  datatype Cell = Dead | Alive

  /** The value of a whole grid, row by row. */
  type Board = seq<seq<Cell>>

  /** A window-sized matrix of bytes: a seed or a snapshot of the window. */
  type Pattern = seq<seq<Byte>>

  predicate IsBoard(b: Board) {
    |b| == SimWidth && forall x :: 0 <= x < |b| ==> |b[x]| == SimWidth
  }

  predicate IsPattern(p: Pattern) {
    |p| == DisplayWidth && forall r :: 0 <= r < |p| ==> |p[r]| == DisplayWidth
  }

  predicate InGrid(x: int, y: int) {
    0 <= x < SimWidth && 0 <= y < SimWidth
  }

  predicate InWindow(x: int, y: int) {
    DisplayOffset <= x < DisplayOffset + DisplayWidth && DisplayOffset <= y < DisplayOffset + DisplayWidth
  }

  /** p lies in the 3 x 3 block around (i, j). */
  predicate Near(p: (int, int), i: int, j: int) {
    -1 <= p.0 - i <= 1 && -1 <= p.1 - j <= 1
  }

  predicate AllInGrid(ns: seq<(int, int)>) {
    forall p :: p in ns ==> InGrid(p.0, p.1)
  }

  /** Two boards are equal as soon as they agree cell by cell. */
  lemma BoardsEqual(a: Board, b: Board)
    requires IsBoard(a) && IsBoard(b)
    requires forall x, y :: InGrid(x, y) ==> a[x][y] == b[x][y]
    ensures a == b
  {
    forall x | 0 <= x < SimWidth ensures a[x] == b[x] {
      assert forall y :: 0 <= y < SimWidth ==> a[x][y] == b[x][y];
    }
  }

  /** Two patterns are equal as soon as they agree entry by entry. */
  lemma PatternsEqual(a: Pattern, b: Pattern)
    requires IsPattern(a) && IsPattern(b)
    requires forall r, c :: 0 <= r < DisplayWidth && 0 <= c < DisplayWidth ==> a[r][c] == b[r][c]
    ensures a == b
  {
    forall r | 0 <= r < DisplayWidth ensures a[r] == b[r] {
      assert forall c :: 0 <= c < DisplayWidth ==> a[r][c] == b[r][c];
    }
  }

  // ---------------------------------------------------------------------------
  // Grid store, seed loader and viewport reader, as values

  /** The grid of a new game. */
  function EmptyBoard(): (b: Board)
    ensures IsBoard(b)
    ensures forall x, y :: InGrid(x, y) ==> b[x][y] == Dead
  {
    seq(SimWidth, x => seq(SimWidth, y => Dead))
  }

  /** A seed byte becomes a cell: nonzero is alive. */
  function ByteToCell(v: Byte): (c: Cell)
    ensures c == Alive <==> v != 0
  {
    if v != 0 then Alive else Dead
  }

  /** A cell becomes a window byte: 1 for alive, 0 for dead. */
  function CellToByte(c: Cell): (v: Byte)
    ensures v == 0 || v == 1
  {
    match c
    case Dead => 0
    case Alive => 1
  }

  /** The grid coordinates that window position (row, col) maps to. */
  function DisplayCoords(row: nat, col: nat): (p: (int, int))
    ensures p.0 - DisplayOffset == row && p.1 - DisplayOffset == col
    ensures row < DisplayWidth && col < DisplayWidth ==> InGrid(p.0, p.1) && InWindow(p.0, p.1)
  {
    (row + SimWidth / 2, col + SimWidth / 2)
  }

  /** The grid a seed produces: the window holds the seed, every other cell is dead. */
  function Seeded(p: Pattern): (b: Board)
    requires IsPattern(p)
    ensures IsBoard(b)
  {
    seq(SimWidth, x =>
      seq(SimWidth, y =>
        if InWindow(x, y) then ByteToCell(p[x - DisplayOffset][y - DisplayOffset]) else Dead))
  }

  /** The window of a grid, as bytes. */
  function Viewport(b: Board): (v: Pattern)
    requires IsBoard(b)
    ensures IsPattern(v)
  {
    seq(DisplayWidth, r requires 0 <= r < DisplayWidth =>
      seq<Byte>(DisplayWidth, c requires 0 <= c < DisplayWidth => CellToByte(b[r + DisplayOffset][c + DisplayOffset])))
  }

  // ---------------------------------------------------------------------------
  // Neighbour enumeration

  /** What the inner filter_map yields for offset (di, dj): the shifted
      coordinates when the offset is not (0, 0) and they lie in the grid. */
  function Candidate(i: int, j: int, di: int, dj: int): (r: seq<(int, int)>)
    ensures forall p :: p in r ==> p == (i + di, j + dj) && InGrid(p.0, p.1) && p != (i, j)
  {
    if (di, dj) != (0, 0) && InGrid(i + di, j + dj) then [(i + di, j + dj)] else []
  }

  /** The inner iterator for row offset di: column offsets -1, 0, 1 in that order. */
  function CandidateRow(i: int, j: int, di: int): (r: seq<(int, int)>)
    ensures forall p :: p in r ==> p.0 == i + di && -1 <= p.1 - j <= 1 && InGrid(p.0, p.1) && p != (i, j)
  {
    Candidate(i, j, di, -1) + Candidate(i, j, di, 0) + Candidate(i, j, di, 1)
  }

  /** The in-grid neighbours of (i, j), in the order the source's iterator
      yields them: the outer flat_map over row offsets -1, 0, 1. */
  function Neighbors(i: int, j: int): (ns: seq<(int, int)>)
    ensures forall p :: p in ns ==> InGrid(p.0, p.1) && p != (i, j) && Near(p, i, j)
    ensures AllInGrid(ns)
  {
    CandidateRow(i, j, -1) + CandidateRow(i, j, 0) + CandidateRow(i, j, 1)
  }

  /** No coordinates occur twice in s. */
  predicate Distinct(s: seq<(int, int)>) {
    forall k, l :: 0 <= k < l < |s| ==> s[k] != s[l]
  }

  lemma DistinctConcat(a: seq<(int, int)>, c: seq<(int, int)>)
    requires Distinct(a) && Distinct(c)
    requires forall p :: p in a ==> p !in c
    ensures Distinct(a + c)
  {
    forall k, l | 0 <= k < l < |a + c| ensures (a + c)[k] != (a + c)[l] {
      if l < |a| {
      } else if k >= |a| {
        assert (a + c)[k] == c[k - |a|] && (a + c)[l] == c[l - |a|];
      } else {
        assert (a + c)[k] == a[k] && (a + c)[l] == c[l - |a|];
        assert c[l - |a|] in c;
      }
    }
  }

  lemma CandidateRowDistinct(i: int, j: int, di: int)
    ensures Distinct(CandidateRow(i, j, di))
    ensures forall p :: p in CandidateRow(i, j, di) ==> p.0 == i + di
  {
    DistinctConcat(Candidate(i, j, di, -1), Candidate(i, j, di, 0));
    DistinctConcat(Candidate(i, j, di, -1) + Candidate(i, j, di, 0), Candidate(i, j, di, 1));
  }

  /** The neighbour iterator never yields the same coordinates twice. */
  lemma NeighborsDistinct(i: int, j: int)
    ensures Distinct(Neighbors(i, j))
  {
    CandidateRowDistinct(i, j, -1);
    CandidateRowDistinct(i, j, 0);
    CandidateRowDistinct(i, j, 1);
    DistinctConcat(CandidateRow(i, j, -1), CandidateRow(i, j, 0));
    DistinctConcat(CandidateRow(i, j, -1) + CandidateRow(i, j, 0), CandidateRow(i, j, 1));
  }

  /** The neighbour iterator yields every in-grid cell adjacent to (i, j). */
  lemma NeighborsComplete(i: int, j: int, p: (int, int))
    requires InGrid(p.0, p.1) && p != (i, j) && Near(p, i, j)
    ensures p in Neighbors(i, j)
  {
    // Name the row iterator that yields p; the concatenation then holds it.
    if p.0 == i - 1 {
      assert p in CandidateRow(i, j, -1);
    } else if p.0 == i {
      assert p in CandidateRow(i, j, 0);
    } else {
      assert p in CandidateRow(i, j, 1);
    }
  }

  /** Number of alive cells of b among the coordinates ns (the filter-and-count). */
  function LiveCount(b: Board, ns: seq<(int, int)>): (n: nat)
    requires IsBoard(b) && AllInGrid(ns)
    ensures n <= |ns|
  {
    if ns == [] then 0
    else
      var last := ns[|ns| - 1];
      LiveCount(b, ns[..|ns| - 1]) + (if b[last.0][last.1] == Alive then 1 else 0)
  }

  /** The coordinates in ns whose cell of b is alive. */
  function LiveIn(b: Board, ns: seq<(int, int)>): set<(int, int)>
    requires IsBoard(b)
  {
    set p | p in ns && InGrid(p.0, p.1) && b[p.0][p.1] == Alive
  }

  /** Counting a list without repetitions counts the set of its live members. */
  lemma {:induction false} LiveCountDistinct(b: Board, ns: seq<(int, int)>)
    requires IsBoard(b) && AllInGrid(ns) && Distinct(ns)
    ensures LiveCount(b, ns) == |LiveIn(b, ns)|
  {
    if ns != [] {
      var init, last := ns[..|ns| - 1], ns[|ns| - 1];
      assert ns == init + [last];
      assert Distinct(init);
      assert last !in init by {
        forall k | 0 <= k < |init| ensures init[k] != last {
          assert init[k] == ns[k];
        }
      }
      LiveCountDistinct(b, init);
      if b[last.0][last.1] == Alive {
        assert LiveIn(b, ns) == LiveIn(b, init) + {last};
      } else {
        assert LiveIn(b, ns) == LiveIn(b, init);
      }
    }
  }

  /** The live cells adjacent to (i, j): in the grid, at most one row and one
      column away, and not (i, j) itself. Edges are clipped, not wrapped. */
  function LiveNeighborSet(b: Board, i: int, j: int): set<(int, int)>
    requires IsBoard(b)
  {
    set x, y | i - 1 <= x <= i + 1 && j - 1 <= y <= j + 1 && InGrid(x, y) && (x, y) != (i, j) && b[x][y] == Alive :: (x, y)
  }

  /** Filtering the neighbour iterator on b and counting gives exactly the
      number of live cells adjacent to (i, j). */
  lemma LiveCountNeighbors(b: Board, i: int, j: int)
    requires IsBoard(b)
    ensures LiveCount(b, Neighbors(i, j)) == |LiveNeighborSet(b, i, j)|
  {
    var ns := Neighbors(i, j);
    NeighborsDistinct(i, j);
    LiveCountDistinct(b, ns);
    forall p | p in LiveNeighborSet(b, i, j) ensures p in LiveIn(b, ns) {
      NeighborsComplete(i, j, p);
    }
    assert LiveIn(b, ns) == LiveNeighborSet(b, i, j);
  }

  // ---------------------------------------------------------------------------
  // Evolution step, as values

  /** The B3/S23 rule: a live cell survives with 2 or 3 live neighbours,
      a dead cell is born with exactly 3, every other cell is dead. */
  function Rule(c: Cell, n: nat): (next: Cell)
    ensures next == Alive <==> (c == Alive && n in {2, 3}) || (c == Dead && n == 3)
  {
    match (c, n)
    case (Alive, 2) => Alive
    case (Alive, 3) => Alive
    case (Dead, 3) => Alive
    case _ => Dead
  }

  /** The next state of cell (i, j), computed from b alone. */
  function NextCell(b: Board, i: int, j: int): Cell
    requires IsBoard(b) && InGrid(i, j)
  {
    Rule(b[i][j], |LiveNeighborSet(b, i, j)|)
  }

  /** The next generation: every cell by the rule, every count taken on b. */
  function Step(b: Board): (next: Board)
    requires IsBoard(b)
    ensures IsBoard(next)
  {
    seq(SimWidth, i requires 0 <= i < SimWidth =>
      seq(SimWidth, j requires 0 <= j < SimWidth => NextCell(b, i, j)))
  }

  // ---------------------------------------------------------------------------
  // The engine

  /** A simulated game: the full grid. The seed loader writes cells of a new
      game's grid in place; evolution swaps in a freshly built grid. */
  class Game {
    var grid: array2<Cell>

    ghost predicate Valid()
      reads this
    {
      grid.Length0 == SimWidth && grid.Length1 == SimWidth
    }

    /** The value of the grid. */
    ghost function Cells(): (b: Board)
      reads this, grid
      requires Valid()
      ensures IsBoard(b)
      ensures forall x, y :: InGrid(x, y) ==> b[x][y] == grid[x, y]
    {
      var g := grid;
      seq(SimWidth, x requires 0 <= x < SimWidth reads g =>
        seq(SimWidth, y requires 0 <= y < SimWidth reads g => g[x, y]))
    }

    /** A new game, where all cells are dead. */
    constructor ()
      ensures Valid() && fresh(grid)
      ensures forall x, y :: InGrid(x, y) ==> grid[x, y] == Dead
      ensures Cells() == EmptyBoard()
    {
      grid := new Cell[SimWidth, SimWidth]((x, y) => Dead);
      new;
      BoardsEqual(Cells(), EmptyBoard());
    }

    /** A new game whose window holds the seed: nonzero bytes alive, zero dead. */
    static method FromGrid(seed: Pattern) returns (game: Game)
      requires IsPattern(seed)
      ensures fresh(game) && fresh(game.grid) && game.Valid()
      ensures game.Cells() == Seeded(seed)
    {
      game := new Game();
      for r := 0 to DisplayWidth
        invariant fresh(game) && fresh(game.grid) && game.Valid()
        invariant forall x, y :: InGrid(x, y) ==>
          game.grid[x, y] == if InWindow(x, y) && x - DisplayOffset < r
                             then ByteToCell(seed[x - DisplayOffset][y - DisplayOffset]) else Dead
      {
        for c := 0 to DisplayWidth
          invariant fresh(game) && fresh(game.grid) && game.Valid()
          invariant forall x, y :: InGrid(x, y) ==>
            game.grid[x, y] == if InWindow(x, y) && (x - DisplayOffset < r || (x - DisplayOffset == r && y - DisplayOffset < c))
                               then ByteToCell(seed[x - DisplayOffset][y - DisplayOffset]) else Dead
        {
          game.SetDisplayCell(r, c, ByteToCell(seed[r][c]));
        }
      }
      BoardsEqual(game.Cells(), Seeded(seed));
    }

    /** The window of the current grid, as bytes. */
    method Display() returns (view: Pattern)
      requires Valid()
      ensures view == Viewport(Cells())
    {
      var output := new Byte[DisplayWidth, DisplayWidth]((r, c) => 0);
      for r := 0 to DisplayWidth
        invariant forall x, y :: 0 <= x < r && 0 <= y < DisplayWidth ==>
          output[x, y] == CellToByte(grid[x + DisplayOffset, y + DisplayOffset])
      {
        for c := 0 to DisplayWidth
          invariant forall x, y :: 0 <= x < r && 0 <= y < DisplayWidth ==>
            output[x, y] == CellToByte(grid[x + DisplayOffset, y + DisplayOffset])
          invariant forall y :: 0 <= y < c ==> output[r, y] == CellToByte(grid[r + DisplayOffset, y + DisplayOffset])
        {
          var cell := DisplayCell(r, c);
          output[r, c] := CellToByte(cell);
        }
      }
      view := seq(DisplayWidth, x requires 0 <= x < DisplayWidth reads output =>
        seq(DisplayWidth, y requires 0 <= y < DisplayWidth reads output => output[x, y]));
      PatternsEqual(view, Viewport(Cells()));
    }

    /** The cell at window position (row, col). */
    function DisplayCell(row: nat, col: nat): (cell: Cell)
      reads this, grid
      requires Valid() && row < DisplayWidth && col < DisplayWidth
      ensures cell == grid[row + DisplayOffset, col + DisplayOffset]
    {
      var p := DisplayCoords(row, col);
      grid[p.0, p.1]
    }

    /** Overwrite the cell at window position (row, col); nothing else changes. */
    method SetDisplayCell(row: nat, col: nat, cell: Cell)
      requires Valid() && row < DisplayWidth && col < DisplayWidth
      modifies grid
      ensures grid[row + DisplayOffset, col + DisplayOffset] == cell
      ensures forall x, y :: InGrid(x, y) && (x, y) != (row + DisplayOffset, col + DisplayOffset) ==>
        grid[x, y] == old(grid[x, y])
    {
      var p := DisplayCoords(row, col);
      grid[p.0, p.1] := cell;
    }

    /** Advance the game one generation; the grid is replaced wholesale. */
    method Evolve()
      requires Valid()
      modifies this
      ensures Valid() && fresh(grid)
      ensures Cells() == Step(old(Cells()))
    {
      var next := Transform();
      grid := next.grid;
      BoardsEqual(Cells(), next.Cells());
    }

    /** Number of coordinates in ns whose cell is alive: the neighbour iterator filtered on the grid, then counted. */
    method CountAlive(ns: seq<(int, int)>) returns (n: nat)
      requires Valid() && AllInGrid(ns)
      ensures n == LiveCount(Cells(), ns)
    {
      n := 0;
      for k := 0 to |ns|
        invariant n == LiveCount(Cells(), ns[..k])
      {
        assert ns[..k + 1][..k] == ns[..k];
        if grid[ns[k].0, ns[k].1] == Alive {
          n := n + 1;
        }
      }
      assert ns[..|ns|] == ns;
    }

    /** The next state of cell (i, j): the rule applied to its state and live-neighbour count. */
    method NextCellOf(i: int, j: int) returns (cell: Cell)
      requires Valid() && InGrid(i, j)
      ensures cell == NextCell(Cells(), i, j)
    {
      var n := CountAlive(Neighbors(i, j));
      LiveCountNeighbors(Cells(), i, j);
      cell := Rule(grid[i, j], n);
    }

    /** A fresh game holding the next generation; this game is only read.
        The outer loop runs over rows; FillRow is the inner loop over columns. */
    method Transform() returns (output: Game)
      requires Valid()
      ensures fresh(output) && fresh(output.grid) && output.Valid()
      ensures output.Cells() == Step(Cells())
    {
      output := new Game();
      for i := 0 to SimWidth
        invariant fresh(output) && fresh(output.grid) && output.Valid()
        invariant forall x, y :: 0 <= x < i && 0 <= y < SimWidth ==> output.grid[x, y] == NextCell(Cells(), x, y)
      {
        FillRow(output, i);
      }
      BoardsEqual(output.Cells(), Step(Cells()));
    }

    /** Write row i of the next generation into output; no other row changes. */
    method FillRow(output: Game, i: int)
      requires Valid() && output.Valid() && output.grid != grid && 0 <= i < SimWidth
      modifies output.grid
      ensures forall y :: 0 <= y < SimWidth ==> output.grid[i, y] == NextCell(Cells(), i, y)
      ensures forall x, y :: InGrid(x, y) && x != i ==> output.grid[x, y] == old(output.grid[x, y])
    {
      ghost var b := Cells();
      for j := 0 to SimWidth
        invariant Cells() == b
        invariant forall y :: 0 <= y < j ==> output.grid[i, y] == NextCell(b, i, y)
        invariant forall x, y :: InGrid(x, y) && x != i ==> output.grid[x, y] == old(output.grid[x, y])
      {
        var cell := NextCellOf(i, j);
        output.grid[i, j] := cell;
      }
    }
  }
}
