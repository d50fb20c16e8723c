/*
 * The board of the Minesweeper engine, as values: grid constants, cells,
 * the adjacency count of a cell over a set of mine cells, and the facts the
 * engine's in-place count pass and its flood fill rely on.
 */
module Field {

  /** A grid coordinate (row, column). */
  type Cell = (int, int)

  /** Side of the square grid (GRID_SIZE). */
  const GridSize: int := 10
  /** Number of mines placed by a new game (NUM_MINES). */
  const NumMines: int := 10
  /** Sentinel value that marks a mine in the hidden field. */
  const Mine: int := 100

  predicate InBounds(i: int, j: int) {
    0 <= i < GridSize && 0 <= j < GridSize
  }

  /** Every cell of the grid. */
  function AllCells(): (cells: set<Cell>)
    ensures forall i, j {:trigger (i, j) in cells} :: (i, j) in cells <==> InBounds(i, j)
  {
    set i, j | 0 <= i < GridSize && 0 <= j < GridSize :: (i, j)
  }

  /** The (up to 8) in-bounds cells adjacent to c, c itself excluded. */
  function Neighbours(c: Cell): (ns: set<Cell>)
    ensures ns <= AllCells()
    ensures c !in ns
    ensures forall i, j {:trigger (i, j) in ns} ::
      (i, j) in ns <==> InBounds(i, j) && (i, j) != c && c.0 - 1 <= i <= c.0 + 1 && c.1 - 1 <= j <= c.1 + 1
  {
    set d | d in AllCells() && d != c && c.0 - 1 <= d.0 <= c.0 + 1 && c.1 - 1 <= d.1 <= c.1 + 1
  }

  /** 1 when (i, j) is a grid cell holding a mine, 0 otherwise (off-grid cells never count). */
  function MineAt(mines: set<Cell>, i: int, j: int): (r: nat)
    ensures r <= 1
    ensures r == 1 <==> InBounds(i, j) && (i, j) in mines
  {
    if InBounds(i, j) && (i, j) in mines then 1 else 0
  }

  /** Mines on row i between columns lo (inclusive) and hi (exclusive). */
  function RowMines(mines: set<Cell>, i: int, lo: int, hi: int): (r: nat)
    requires lo <= hi
    ensures r <= hi - lo
    decreases hi - lo
  {
    if hi == lo then 0 else RowMines(mines, i, lo, hi - 1) + MineAt(mines, i, hi - 1)
  }

  /** Mines in rows ilo..ihi-1, each row clipped to columns jlo..jhi-1. */
  function BlockMines(mines: set<Cell>, ilo: int, ihi: int, jlo: int, jhi: int): (r: nat)
    requires ilo <= ihi && jlo <= jhi
    ensures r <= (ihi - ilo) * (jhi - jlo)
    decreases ihi - ilo
  {
    if ihi == ilo then 0
    else
      var rest := BlockMines(mines, ilo, ihi - 1, jlo, jhi);
      assert rest <= (ihi - 1 - ilo) * (jhi - jlo);
      rest + RowMines(mines, ihi - 1, jlo, jhi)
  }

  /**
   * The number of mines in the 3x3 block centred on (x, y), clipped to the
   * grid: what the engine stores in a non-mine cell.
   */
  function AdjacentMines(mines: set<Cell>, x: int, y: int): (r: nat)
    ensures r <= 9
  {
    BlockMines(mines, x - 1, x + 2, y - 1, y + 2)
  }

  /** The 3x3 count is the sum of the counts of its three rows. */
  lemma AdjacentMinesRows(mines: set<Cell>, x: int, y: int)
    ensures AdjacentMines(mines, x, y)
         == RowMines(mines, x - 1, y - 1, y + 2) + RowMines(mines, x, y - 1, y + 2) + RowMines(mines, x + 1, y - 1, y + 2)
  {
    assert BlockMines(mines, x - 1, x - 1, y - 1, y + 2) == 0;
    assert BlockMines(mines, x - 1, x, y - 1, y + 2) == RowMines(mines, x - 1, y - 1, y + 2);
    assert BlockMines(mines, x - 1, x + 1, y - 1, y + 2)
        == RowMines(mines, x - 1, y - 1, y + 2) + RowMines(mines, x, y - 1, y + 2);
  }

  /** Every cell (i, j) of the row range is mine-free exactly when the row count is 0. */
  lemma {:induction false} RowMinesZero(mines: set<Cell>, i: int, lo: int, hi: int)
    requires lo <= hi
    ensures RowMines(mines, i, lo, hi) == 0 <==> forall j :: lo <= j < hi ==> MineAt(mines, i, j) == 0
    decreases hi - lo
  {
    if hi > lo {
      RowMinesZero(mines, i, lo, hi - 1);
    }
  }

  /** A row whose column c holds no mine counts at most hi - lo - 1 mines. */
  lemma {:induction false} RowMinesGap(mines: set<Cell>, i: int, lo: int, hi: int, c: int)
    requires lo <= c < hi
    requires MineAt(mines, i, c) == 0
    ensures RowMines(mines, i, lo, hi) <= hi - lo - 1
    decreases hi - lo
  {
    if c < hi - 1 {
      RowMinesGap(mines, i, lo, hi - 1, c);
    }
  }

  /** The count of a non-mine cell is at most 8, so it never equals the mine sentinel. */
  lemma NonMineCountAtMostEight(mines: set<Cell>, x: int, y: int)
    requires !(InBounds(x, y) && (x, y) in mines)
    ensures AdjacentMines(mines, x, y) <= 8
    ensures AdjacentMines(mines, x, y) != Mine
  {
    RowMinesGap(mines, x, y - 1, y + 2, y);
    AdjacentMinesRows(mines, x, y);
  }

  /**
   * A cell's count is 0 exactly when no in-bounds cell of the 3x3 block centred
   * on it (the cell itself included) is a mine.
   */
  lemma AdjacentMinesZero(mines: set<Cell>, x: int, y: int)
    ensures AdjacentMines(mines, x, y) == 0 <==>
      forall i, j {:trigger (i, j) in mines} ::
        x - 1 <= i <= x + 1 && y - 1 <= j <= y + 1 && InBounds(i, j) ==> (i, j) !in mines
  {
    RowMinesZero(mines, x - 1, y - 1, y + 2);
    RowMinesZero(mines, x, y - 1, y + 2);
    RowMinesZero(mines, x + 1, y - 1, y + 2);
    AdjacentMinesRows(mines, x, y);
    if AdjacentMines(mines, x, y) == 0 {
      forall i, j | x - 1 <= i <= x + 1 && y - 1 <= j <= y + 1 && InBounds(i, j)
        ensures (i, j) !in mines
      {
        assert MineAt(mines, i, j) == 0;
      }
    }
  }

  /** A zero count means no neighbour of the cell is a mine. */
  lemma ZeroCountNeighboursSafe(mines: set<Cell>, c: Cell)
    requires AdjacentMines(mines, c.0, c.1) == 0
    ensures forall d :: d in Neighbours(c) ==> d !in mines
  {
    AdjacentMinesZero(mines, c.0, c.1);
    forall d | d in Neighbours(c) ensures d !in mines {
      assert InBounds(d.0, d.1) && c.0 - 1 <= d.0 <= c.0 + 1 && c.1 - 1 <= d.1 <= c.1 + 1;
    }
  }

  /** The mines of row i, columns lo..hi-1, as a set of cells. */
  function RowMineCells(mines: set<Cell>, i: int, lo: int, hi: int): set<Cell>
  {
    set c | c in mines && InBounds(c.0, c.1) && c.0 == i && lo <= c.1 < hi
  }

  /** The mines of rows ilo..ihi-1, columns jlo..jhi-1, as a set of cells. */
  function BlockMineCells(mines: set<Cell>, ilo: int, ihi: int, jlo: int, jhi: int): set<Cell>
  {
    set c | c in mines && InBounds(c.0, c.1) && ilo <= c.0 < ihi && jlo <= c.1 < jhi
  }

  /** The mines among the 3x3 block centred on (x, y), clipped to the grid. */
  function NeighbourhoodMines(mines: set<Cell>, x: int, y: int): set<Cell>
  {
    BlockMineCells(mines, x - 1, x + 2, y - 1, y + 2)
  }

  lemma {:induction false} RowMinesCard(mines: set<Cell>, i: int, lo: int, hi: int)
    requires lo <= hi
    ensures RowMines(mines, i, lo, hi) == |RowMineCells(mines, i, lo, hi)|
    decreases hi - lo
  {
    if hi > lo {
      RowMinesCard(mines, i, lo, hi - 1);
      var last := RowMineCells(mines, i, hi - 1, hi);
      assert RowMineCells(mines, i, lo, hi) == RowMineCells(mines, i, lo, hi - 1) + last;
      assert RowMineCells(mines, i, lo, hi - 1) !! last;
      if MineAt(mines, i, hi - 1) == 1 {
        assert last == {(i, hi - 1)};
      } else {
        assert last == {};
      }
    }
  }

  lemma {:induction false} BlockMinesCard(mines: set<Cell>, ilo: int, ihi: int, jlo: int, jhi: int)
    requires ilo <= ihi && jlo <= jhi
    ensures BlockMines(mines, ilo, ihi, jlo, jhi) == |BlockMineCells(mines, ilo, ihi, jlo, jhi)|
    decreases ihi - ilo
  {
    if ihi > ilo {
      BlockMinesCard(mines, ilo, ihi - 1, jlo, jhi);
      RowMinesCard(mines, ihi - 1, jlo, jhi);
      var row := RowMineCells(mines, ihi - 1, jlo, jhi);
      assert BlockMineCells(mines, ilo, ihi, jlo, jhi) == BlockMineCells(mines, ilo, ihi - 1, jlo, jhi) + row;
      assert BlockMineCells(mines, ilo, ihi - 1, jlo, jhi) !! row;
    }
  }

  /**
   * The recursive count agrees with the plain definition: the number of mine
   * cells within one step of (x, y) in each direction that lie on the grid.
   */
  lemma AdjacentMinesIsNeighbourhoodSize(mines: set<Cell>, x: int, y: int)
    ensures AdjacentMines(mines, x, y) == |NeighbourhoodMines(mines, x, y)|
  {
    BlockMinesCard(mines, x - 1, x + 2, y - 1, y + 2);
  }

  /**
   * Closure of a flood fill: every cell of added from which the fill expands
   * (one in expandable) has all its neighbours in covered.
   */
  ghost predicate Closed(added: set<Cell>, expandable: set<Cell>, covered: set<Cell>) {
    forall c :: c in added && c in expandable ==> Neighbours(c) <= covered
  }

  /** Closure is kept when the covered set grows and two added sets are joined. */
  lemma ClosedUnion(added1: set<Cell>, added2: set<Cell>, expandable: set<Cell>, covered1: set<Cell>, covered2: set<Cell>)
    requires Closed(added1, expandable, covered1) && Closed(added2, expandable, covered2) && covered1 <= covered2
    ensures Closed(added1 + added2, expandable, covered2)
  {
  }

  /**
   * One call of the fill inside a sweep, as sets: cells uncovered since start
   * stay closed when the call (uncovering after - before) is closed itself.
   */
  lemma ClosedStep(start: set<Cell>, before: set<Cell>, after: set<Cell>, expandable: set<Cell>)
    requires start <= before <= after
    requires Closed(before - start, expandable, before) && Closed(after - before, expandable, after)
    ensures Closed(after - start, expandable, after)
  {
    ClosedUnion(before - start, after - before, expandable, before, after);
    assert after - start == (before - start) + (after - before);
  }

  /** The same step for mine-freedom: a call that uncovers no mine keeps the sweep mine-free. */
  lemma SafeStep(start: set<Cell>, before: set<Cell>, after: set<Cell>, mines: set<Cell>)
    requires start <= before <= after
    requires (before - start) !! mines && (after - before) !! mines
    ensures (after - start) !! mines
  {
    assert after - start == (before - start) + (after - before);
  }

  /**
   * The same step for flags: a call that clears the flags of the numbered
   * cells it uncovers keeps the sweep doing so.
   */
  lemma FlagStep(start: set<Cell>, before: set<Cell>, after: set<Cell>, expandable: set<Cell>,
                 flags: set<Cell>, flagsBefore: set<Cell>, flagsAfter: set<Cell>)
    requires start <= before <= after
    requires flagsBefore == flags - (before - start - expandable)
    requires flagsAfter == flagsBefore - (after - before - expandable)
    ensures flagsAfter == flags - (after - start - expandable)
  {
    assert after - start - expandable == (before - start - expandable) + (after - before - expandable);
  }

  /** The neighbours of c on row i. */
  function NeighboursOnRow(c: Cell, i: int): (ns: set<Cell>)
    ensures ns <= Neighbours(c)
  {
    set d | d in Neighbours(c) && d.0 == i
  }

  /** The neighbours of c on row i, in the columns before j. */
  function NeighboursOnRowBefore(c: Cell, i: int, j: int): (ns: set<Cell>)
    ensures ns <= NeighboursOnRow(c, i)
  {
    set d | d in Neighbours(c) && d.0 == i && d.1 < j
  }

  lemma NeighboursOnRowBeforeNext(c: Cell, i: int, j: int)
    ensures NeighboursOnRowBefore(c, i, j + 1) <= NeighboursOnRowBefore(c, i, j) + {(i, j)}
    ensures (i, j) in NeighboursOnRowBefore(c, i, j + 1) ==> InBounds(i, j)
  {
  }

  lemma NeighboursOnRowBeforeAll(c: Cell, i: int)
    ensures NeighboursOnRowBefore(c, i, c.1 - 1) == {}
    ensures NeighboursOnRowBefore(c, i, c.1 + 2) == NeighboursOnRow(c, i)
  {
  }

  /** The neighbours of c on the rows before i. */
  function NeighboursBefore(c: Cell, i: int): (ns: set<Cell>)
    ensures ns <= Neighbours(c)
  {
    set d | d in Neighbours(c) && d.0 < i
  }

  lemma NeighboursBeforeNext(c: Cell, i: int)
    ensures NeighboursBefore(c, i + 1) == NeighboursBefore(c, i) + NeighboursOnRow(c, i)
  {
  }

  lemma NeighboursBeforeAll(c: Cell)
    ensures NeighboursBefore(c, c.0 - 1) == {}
    ensures NeighboursBefore(c, c.0 + 2) == Neighbours(c)
  {
  }

  /** The cells among the first k draws. */
  function Drawn(picks: seq<Cell>, k: nat): set<Cell>
    requires k <= |picks|
  {
    set c | c in picks[..k]
  }

  /** The drawn cells are cells of picks; after all draws, every cell of picks is one. */
  lemma DrawnFromPicks(picks: seq<Cell>, k: nat)
    requires k <= |picks|
    ensures forall c :: c in Drawn(picks, k) ==> c in picks
    ensures k == |picks| ==> forall n :: 0 <= n < |picks| ==> picks[n] in Drawn(picks, k)
  {
    assert picks[..|picks|] == picks;
  }

  /** One more draw adds exactly the drawn cell. */
  lemma DrawnNext(picks: seq<Cell>, k: nat)
    requires k < |picks|
    ensures Drawn(picks, k + 1) == Drawn(picks, k) + {picks[k]}
  {
    assert picks[..k + 1] == picks[..k] + [picks[k]];
  }

  /**
   * One draw of the placement loop, as sets: the mines are the initial ones
   * plus the cells drawn so far, and their number grows by one exactly when
   * the drawn cell was not yet a mine.
   */
  lemma PlacementStep(start: set<Cell>, before: set<Cell>, after: set<Cell>, picks: seq<Cell>, k: nat, placed: nat)
    requires k < |picks|
    requires before == start + Drawn(picks, k) && |before| == |start| + placed
    requires after == before + {picks[k]}
    ensures after == start + Drawn(picks, k + 1)
    ensures picks[k] !in before ==> |after| == |start| + placed + 1
    ensures picks[k] in before ==> after == before
  {
    DrawnNext(picks, k);
  }

  /** Flipping membership of one cell, as a right click flips a flag. */
  function Toggle(flags: set<Cell>, c: Cell): (r: set<Cell>)
    ensures c in r <==> c !in flags
    ensures forall d :: d != c ==> (d in r <==> d in flags)
  {
    if c in flags then flags - {c} else flags + {c}
  }

  /** Two toggles of the same cell restore the original flags. */
  lemma ToggleTwice(flags: set<Cell>, c: Cell)
    ensures Toggle(Toggle(flags, c), c) == flags
  {
  }
}
