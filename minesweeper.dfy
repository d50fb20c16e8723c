/*
 * The board engine of MineSweeperGUI: the hidden field (a mine sentinel or an
 * adjacency count per cell), the revealed flags, and the flag marks a right
 * click toggles, with the operations the click handlers run on them.
 */
module MineSweeper {
  import opened Field

  /** What a left click did, for the window to act on. */
  datatype ClickOutcome =
    | Ignored                           // the cell was already revealed
    | Played(hitMine: bool, won: bool)  // the cell was revealed; did it hold a mine, is the game won

  class MineSweeperGUI {
    /** Per cell: Mine, or the number of adjacent mines once the field is set up. */
    const fieldHidden: array2<int>
    /** Per cell: has it been uncovered. */
    const revealed: array2<bool>
    /** Per cell: does it carry the "F" mark (kept as button text by the window). */
    const flagged: array2<bool>

    ghost predicate Valid() {
      fieldHidden.Length0 == GridSize && fieldHidden.Length1 == GridSize &&
      revealed.Length0 == GridSize && revealed.Length1 == GridSize &&
      flagged.Length0 == GridSize && flagged.Length1 == GridSize &&
      flagged != revealed
    }

    /** The cells holding the mine sentinel. */
    ghost function MineSet(): (ms: set<Cell>)
      requires Valid()
      reads fieldHidden
      ensures ms <= AllCells()
      ensures forall i, j {:trigger (i, j) in ms} {:trigger fieldHidden[i, j]} :: 0 <= i < GridSize && 0 <= j < GridSize ==> ((i, j) in ms <==> fieldHidden[i, j] == Mine)
    {
      set c | c in AllCells() && fieldHidden[c.0, c.1] == Mine
    }

    /** The uncovered cells. */
    ghost function RevealedSet(): (rs: set<Cell>)
      requires Valid()
      reads revealed
      ensures rs <= AllCells()
      ensures forall i, j {:trigger (i, j) in rs} {:trigger revealed[i, j]} :: 0 <= i < GridSize && 0 <= j < GridSize ==> ((i, j) in rs <==> revealed[i, j])
    {
      set c | c in AllCells() && revealed[c.0, c.1]
    }

    /** The cells carrying a flag. */
    ghost function FlagSet(): (fs: set<Cell>)
      requires Valid()
      reads flagged
      ensures fs <= AllCells()
      ensures forall i, j {:trigger (i, j) in fs} {:trigger flagged[i, j]} :: 0 <= i < GridSize && 0 <= j < GridSize ==> ((i, j) in fs <==> flagged[i, j])
    {
      set c | c in AllCells() && flagged[c.0, c.1]
    }

    /** Each non-mine cell with the value it holds. */
    ghost function NonMineValues(): (vs: set<(int, int, int)>)
      requires Valid()
      reads fieldHidden
      ensures forall i, j, v {:trigger (i, j, v) in vs} :: (i, j, v) in vs <==>
        0 <= i < GridSize && 0 <= j < GridSize && fieldHidden[i, j] != Mine && v == fieldHidden[i, j]
    {
      set i, j | 0 <= i < GridSize && 0 <= j < GridSize && fieldHidden[i, j] != Mine :: (i, j, fieldHidden[i, j])
    }

    /** Still covered cells: the measure that bounds the flood fill. */
    ghost function Unrevealed(): set<Cell>
      requires Valid()
      reads revealed
    {
      AllCells() - RevealedSet()
    }

    /** The cells with no positive value: those the flood fill expands from. */
    ghost function Unnumbered(): (us: set<Cell>)
      requires Valid()
      reads fieldHidden
      ensures us <= AllCells()
      ensures forall i, j {:trigger (i, j) in us} :: 0 <= i < GridSize && 0 <= j < GridSize ==> ((i, j) in us <==> fieldHidden[i, j] <= 0)
    {
      set c | c in AllCells() && fieldHidden[c.0, c.1] <= 0
    }

    /** Every non-mine cell holds its adjacency count over the current mines. */
    ghost predicate Counted()
      requires Valid()
      reads fieldHidden
    {
      forall i, j :: 0 <= i < GridSize && 0 <= j < GridSize && fieldHidden[i, j] != Mine ==> fieldHidden[i, j] == AdjacentMines(MineSet(), i, j)
    }

    /** The win condition: every cell without a mine is uncovered. */
    ghost predicate AllSafeRevealed()
      requires Valid()
      reads fieldHidden, revealed
    {
      forall i, j :: 0 <= i < GridSize && 0 <= j < GridSize && fieldHidden[i, j] != Mine ==> revealed[i, j]
    }

    /**
     * A new game: all cells start at 0, covered and unflagged, then the field
     * is set up from the drawn cells picks.
     */
    constructor (picks: seq<Cell>)
      requires forall k :: 0 <= k < |picks| ==> InBounds(picks[k].0, picks[k].1)
      ensures Valid() && Counted()
      ensures fresh(fieldHidden) && fresh(revealed) && fresh(flagged)
      ensures |MineSet()| <= NumMines
      ensures forall c :: c in MineSet() ==> c in picks
      ensures |MineSet()| < NumMines ==> forall k :: 0 <= k < |picks| ==> picks[k] in MineSet()
      ensures RevealedSet() == {} && FlagSet() == {}
    {
      fieldHidden := new int[GridSize, GridSize]((i, j) => 0);
      revealed := new bool[GridSize, GridSize]((i, j) => false);
      flagged := new bool[GridSize, GridSize]((i, j) => false);
      new;
      assert MineSet() == {} && RevealedSet() == {} && FlagSet() == {};
      var placed;
      ghost var used;
      placed, used := SetupField(picks);
      DrawnFromPicks(picks, used);
    }

    /**
     * Sets up a new field: places mines on the cells the random source draws
     * (here the oracle picks, used in order), then writes every non-mine cell's
     * adjacency count in place. placed is how many mines were added.
     */
    method SetupField(picks: seq<Cell>) returns (placed: nat, ghost used: nat)
      requires Valid()
      requires forall k :: 0 <= k < |picks| ==> InBounds(picks[k].0, picks[k].1)
      modifies fieldHidden
      ensures placed <= NumMines && used <= |picks|
      ensures MineSet() == old(MineSet()) + Drawn(picks, used)
      ensures |MineSet()| == |old(MineSet())| + placed
      ensures placed < NumMines ==> used == |picks|
      ensures Counted()
    {
      placed, used := PlaceMines(picks);
      FillCounts();
    }

    /**
     * The placement loop: draws cells until NumMines new mines are placed,
     * skipping a drawn cell that already holds one; also stops when the
     * oracle runs out.
     */
    method PlaceMines(picks: seq<Cell>) returns (placed: nat, ghost used: nat)
      requires Valid()
      requires forall k :: 0 <= k < |picks| ==> InBounds(picks[k].0, picks[k].1)
      modifies fieldHidden
      ensures placed <= NumMines && used <= |picks|
      // the new mines are exactly the cells drawn so far
      ensures MineSet() == old(MineSet()) + Drawn(picks, used)
      ensures |MineSet()| == |old(MineSet())| + placed
      // drawing stops as soon as the last mine is placed, or when the draws run out
      ensures placed < NumMines ==> used == |picks|
      ensures placed == NumMines ==> 0 < used && picks[used - 1] !in old(MineSet()) + Drawn(picks, used - 1)
      // only the mine sentinel is written: a cell that is not a mine keeps its value
      ensures NonMineValues() <= old(NonMineValues())
    {
      ghost var start, values := MineSet(), NonMineValues();
      ghost var mines := start;
      placed := 0;
      var k := 0;
      while placed < NumMines && k < |picks|
        invariant 0 <= k <= |picks|
        invariant placed <= NumMines
        invariant MineSet() == mines && NonMineValues() <= values
        invariant mines == start + Drawn(picks, k)
        invariant |mines| == |start| + placed
        invariant placed == NumMines ==> 0 < k && picks[k - 1] !in start + Drawn(picks, k - 1)
      {
        var added := PlaceMine(picks[k]);
        PlacementStep(start, mines, mines + {picks[k]}, picks, k, placed);
        mines := mines + {picks[k]};
        if added {
          placed := placed + 1;
        }
        k := k + 1;
      }
      used := k;
    }

    /** One draw of the placement loop: a cell not yet holding a mine gets one. */
    method PlaceMine(c: Cell) returns (added: bool)
      requires Valid() && InBounds(c.0, c.1)
      modifies fieldHidden
      ensures added <==> c !in old(MineSet())
      ensures MineSet() == old(MineSet()) + {c}
      ensures NonMineValues() <= old(NonMineValues())
    {
      var (x, y) := c;
      added := fieldHidden[x, y] != Mine;
      if added {
        fieldHidden[x, y] := Mine;
        assert MineSet() == old(MineSet()) + {(x, y)};
      }
    }

    /**
     * The count pass: overwrites every non-mine cell, in place and in row
     * order, with its adjacency count. Counts never reach Mine, so the cells
     * still to be visited see the same mines.
     */
    method FillCounts()
      requires Valid()
      modifies fieldHidden
      ensures MineSet() == old(MineSet())
      ensures Counted()
    {
      ghost var mines := MineSet();
      for i := 0 to GridSize
        invariant MineSet() == mines
        invariant forall p, q :: 0 <= p < i && 0 <= q < GridSize && fieldHidden[p, q] != Mine ==>
          fieldHidden[p, q] == AdjacentMines(mines, p, q)
      {
        for j := 0 to GridSize
          invariant MineSet() == mines
          invariant forall p, q :: 0 <= p < i && 0 <= q < GridSize && fieldHidden[p, q] != Mine ==>
            fieldHidden[p, q] == AdjacentMines(mines, p, q)
          invariant forall q :: 0 <= q < j && fieldHidden[i, q] != Mine ==>
            fieldHidden[i, q] == AdjacentMines(mines, i, q)
        {
          if fieldHidden[i, j] != Mine {
            var count := CountAdjacentMines(i, j);
            NonMineCountAtMostEight(mines, i, j);
            fieldHidden[i, j] := count;
            assert MineSet() == mines;
          }
        }
      }
    }

    /** The number of mines in the 3x3 block around (x, y), cells off the grid skipped. */
    method CountAdjacentMines(x: int, y: int) returns (count: int)
      requires Valid()
      ensures count == AdjacentMines(MineSet(), x, y)
      ensures 0 <= count <= 9
      ensures !(InBounds(x, y) && fieldHidden[x, y] == Mine) ==> count <= 8
    {
      ghost var mines := MineSet();
      count := 0;
      var i := x - 1;
      while i <= x + 1
        invariant x - 1 <= i <= x + 2
        invariant count == BlockMines(mines, x - 1, i, y - 1, y + 2)
      {
        var j := y - 1;
        while j <= y + 1
          invariant y - 1 <= j <= y + 2
          invariant count == BlockMines(mines, x - 1, i, y - 1, y + 2) + RowMines(mines, i, y - 1, j)
        {
          if i >= 0 && i < GridSize && j >= 0 && j < GridSize && fieldHidden[i, j] == Mine {
            count := count + 1;
          }
          j := j + 1;
        }
        i := i + 1;
      }
      if !(InBounds(x, y) && fieldHidden[x, y] == Mine) {
        NonMineCountAtMostEight(mines, x, y);
      }
    }

    /**
     * The recursive flood fill. Off the grid or already revealed: nothing
     * changes. Otherwise it uncovers (x, y); a cell whose value is positive
     * (a number, or the mine sentinel) stops there, any other goes on to its
     * eight neighbours.
     */
    method RevealEmptyCells(x: int, y: int)
      requires Valid()
      modifies revealed, flagged
      decreases Unrevealed(), 0
      // no cell is ever covered again
      ensures old(RevealedSet()) <= RevealedSet()
      ensures !InBounds(x, y) || old(revealed[x, y]) ==> RevealedSet() == old(RevealedSet())
      ensures InBounds(x, y) ==> (x, y) in RevealedSet()
      // a numbered cell is uncovered alone
      ensures InBounds(x, y) && !old(revealed[x, y]) && fieldHidden[x, y] > 0 ==>
        RevealedSet() == old(RevealedSet()) + {(x, y)}
      // on a counted field the cascade uncovers no mine beyond the cell it was called on
      ensures Counted() ==> (RevealedSet() - old(RevealedSet()) - {(x, y)}) !! MineSet()
      // every newly uncovered cell without a positive value has all its neighbours uncovered
      ensures Closed(RevealedSet() - old(RevealedSet()), Unnumbered(), RevealedSet())
      // the flag mark of every newly uncovered numbered cell is replaced by its number
      ensures FlagSet() == old(FlagSet()) - (RevealedSet() - old(RevealedSet()) - Unnumbered())
    {
      if x < 0 || x >= GridSize || y < 0 || y >= GridSize || revealed[x, y] {
        return;
      }
      revealed[x, y] := true;
      assert RevealedSet() == old(RevealedSet()) + {(x, y)};
      if fieldHidden[x, y] > 0 {
        flagged[x, y] := false;
        assert FlagSet() == old(FlagSet()) - {(x, y)};
        return;
      }
      ghost var afterFirst := RevealedSet();
      assert (x, y) in Unnumbered();
      RevealNeighbours(x, y);
      ClosedUnion({(x, y)}, RevealedSet() - afterFirst, Unnumbered(), RevealedSet(), RevealedSet());
      assert RevealedSet() - old(RevealedSet()) == {(x, y)} + (RevealedSet() - afterFirst);
      FlagStep(old(RevealedSet()), afterFirst, RevealedSet(), Unnumbered(), old(FlagSet()), old(FlagSet()), FlagSet());
    }

    /**
     * The outer loop of the flood fill's neighbour sweep: visits the rows
     * x - 1 .. x + 1 around an uncovered cell that has no positive value.
     */
    method RevealNeighbours(x: int, y: int)
      requires Valid() && InBounds(x, y) && revealed[x, y] && fieldHidden[x, y] <= 0
      modifies revealed, flagged
      decreases Unrevealed(), 3
      ensures old(RevealedSet()) <= RevealedSet()
      ensures Neighbours((x, y)) <= RevealedSet()
      ensures Counted() ==> (RevealedSet() - old(RevealedSet())) !! MineSet()
      ensures Closed(RevealedSet() - old(RevealedSet()), Unnumbered(), RevealedSet())
      // the flag mark of every newly uncovered numbered cell is replaced by its number
      ensures FlagSet() == old(FlagSet()) - (RevealedSet() - old(RevealedSet()) - Unnumbered())
    {
      ghost var start, mines, expandable, counted := RevealedSet(), MineSet(), Unnumbered(), Counted();
      ghost var flags := FlagSet();
      NeighboursBeforeAll((x, y));
      var i := x - 1;
      while i <= x + 1
        invariant x - 1 <= i <= x + 2
        invariant start <= RevealedSet()
        invariant counted ==> (RevealedSet() - start) !! mines
        invariant Closed(RevealedSet() - start, expandable, RevealedSet())
        invariant FlagSet() == flags - (RevealedSet() - start - expandable)
        invariant NeighboursBefore((x, y), i) <= RevealedSet()
      {
        ghost var before, flagsBefore := RevealedSet(), FlagSet();
        RevealRow(x, y, i);
        ClosedStep(start, before, RevealedSet(), expandable);
        FlagStep(start, before, RevealedSet(), expandable, flags, flagsBefore, FlagSet());
        if counted {
          SafeStep(start, before, RevealedSet(), mines);
        }
        NeighboursBeforeNext((x, y), i);
        i := i + 1;
      }
    }

    /**
     * The inner loop of the neighbour sweep: visits the cells
     * (i, y - 1 .. y + 1) of one row around (x, y).
     */
    method RevealRow(x: int, y: int, i: int)
      requires Valid() && InBounds(x, y) && revealed[x, y] && fieldHidden[x, y] <= 0
      requires x - 1 <= i <= x + 1
      modifies revealed, flagged
      decreases Unrevealed(), 2
      ensures old(RevealedSet()) <= RevealedSet()
      ensures NeighboursOnRow((x, y), i) <= RevealedSet()
      ensures Counted() ==> (RevealedSet() - old(RevealedSet())) !! MineSet()
      ensures Closed(RevealedSet() - old(RevealedSet()), Unnumbered(), RevealedSet())
      // the flag mark of every newly uncovered numbered cell is replaced by its number
      ensures FlagSet() == old(FlagSet()) - (RevealedSet() - old(RevealedSet()) - Unnumbered())
    {
      ghost var start, mines, expandable, counted := RevealedSet(), MineSet(), Unnumbered(), Counted();
      ghost var flags := FlagSet();
      NeighboursOnRowBeforeAll((x, y), i);
      var j := y - 1;
      while j <= y + 1
        invariant y - 1 <= j <= y + 2
        invariant start <= RevealedSet()
        invariant counted ==> (RevealedSet() - start) !! mines
        invariant Closed(RevealedSet() - start, expandable, RevealedSet())
        invariant FlagSet() == flags - (RevealedSet() - start - expandable)
        invariant NeighboursOnRowBefore((x, y), i, j) <= RevealedSet()
      {
        ghost var before, flagsBefore := RevealedSet(), FlagSet();
        RevealNeighbour(x, y, i, j);
        ClosedStep(start, before, RevealedSet(), expandable);
        FlagStep(start, before, RevealedSet(), expandable, flags, flagsBefore, FlagSet());
        if counted {
          SafeStep(start, before, RevealedSet(), mines);
        }
        NeighboursOnRowBeforeNext((x, y), i, j);
        j := j + 1;
      }
    }

    /**
     * One step of the neighbour sweep around (x, y): the flood fill on (i, j),
     * skipped when (i, j) is (x, y) itself.
     */
    method RevealNeighbour(x: int, y: int, i: int, j: int)
      requires Valid() && InBounds(x, y) && revealed[x, y] && fieldHidden[x, y] <= 0
      requires x - 1 <= i <= x + 1 && y - 1 <= j <= y + 1
      modifies revealed, flagged
      decreases Unrevealed(), 1
      ensures old(RevealedSet()) <= RevealedSet()
      ensures InBounds(i, j) ==> (i, j) in RevealedSet()
      ensures Counted() ==> (RevealedSet() - old(RevealedSet())) !! MineSet()
      ensures Closed(RevealedSet() - old(RevealedSet()), Unnumbered(), RevealedSet())
      // the flag mark of every newly uncovered numbered cell is replaced by its number
      ensures FlagSet() == old(FlagSet()) - (RevealedSet() - old(RevealedSet()) - Unnumbered())
    {
      if i == x && j == y {
        return;
      }
      if Counted() {
        ZeroCountNeighboursSafe(MineSet(), (x, y));
        assert (i, j) !in MineSet() by {
          if InBounds(i, j) {
            assert (i, j) in Neighbours((x, y));
          }
        }
      }
      RevealEmptyCells(i, j);
    }

    /** True exactly when every cell that is not a mine has been revealed. */
    method CheckWin() returns (won: bool)
      requires Valid()
      ensures won == AllSafeRevealed()
    {
      for i := 0 to GridSize
        invariant forall p, q :: 0 <= p < i && 0 <= q < GridSize && fieldHidden[p, q] != Mine ==> revealed[p, q]
      {
        for j := 0 to GridSize
          invariant forall p, q :: 0 <= p < i && 0 <= q < GridSize && fieldHidden[p, q] != Mine ==> revealed[p, q]
          invariant forall q :: 0 <= q < j && fieldHidden[i, q] != Mine ==> revealed[i, q]
        {
          if !revealed[i, j] && fieldHidden[i, j] != Mine {
            return false;
          }
        }
      }
      return true;
    }

    /**
     * A left click as written: a revealed cell is ignored; otherwise the cell is
     * uncovered first, so the flood fill called on a zero cell returns at once
     * and only the clicked cell is uncovered. Flags do not protect a cell; a
     * numbered cell shows its number in place of the flag mark.
     */
    method HandleLeftClick(x: int, y: int) returns (outcome: ClickOutcome)
      requires Valid() && InBounds(x, y)
      modifies revealed, flagged
      ensures old(revealed[x, y]) ==> outcome == Ignored && RevealedSet() == old(RevealedSet()) && FlagSet() == old(FlagSet())
      ensures !old(revealed[x, y]) ==> RevealedSet() == old(RevealedSet()) + {(x, y)}
      ensures !old(revealed[x, y]) ==>
        FlagSet() == if fieldHidden[x, y] != Mine && fieldHidden[x, y] != 0 then old(FlagSet()) - {(x, y)} else old(FlagSet())
      ensures !old(revealed[x, y]) ==> outcome == Played(fieldHidden[x, y] == Mine, AllSafeRevealed())
    {
      if revealed[x, y] {
        return Ignored;
      }
      revealed[x, y] := true;
      var hitMine := false;
      if fieldHidden[x, y] == Mine {
        hitMine := true;
      } else if fieldHidden[x, y] == 0 {
        RevealEmptyCells(x, y);
      } else {
        flagged[x, y] := false;
        assert FlagSet() == old(FlagSet()) - {(x, y)};
      }
      var won := CheckWin();
      outcome := Played(hitMine, won);
    }

    /**
     * A left click as evidently intended: a non-mine cell is handed to the
     * flood fill while still covered, so a zero cell uncovers its neighbours.
     */
    method HandleLeftClickCascading(x: int, y: int) returns (outcome: ClickOutcome)
      requires Valid() && InBounds(x, y)
      modifies revealed, flagged
      ensures old(revealed[x, y]) ==> outcome == Ignored && RevealedSet() == old(RevealedSet())
      ensures old(revealed[x, y]) || fieldHidden[x, y] == Mine ==> FlagSet() == old(FlagSet())
      ensures !old(revealed[x, y]) && fieldHidden[x, y] != Mine ==>
        FlagSet() == old(FlagSet()) - (RevealedSet() - old(RevealedSet()) - Unnumbered())
      ensures !old(revealed[x, y]) ==> old(RevealedSet()) + {(x, y)} <= RevealedSet()
      ensures !old(revealed[x, y]) && fieldHidden[x, y] > 0 ==> RevealedSet() == old(RevealedSet()) + {(x, y)}
      ensures !old(revealed[x, y]) && fieldHidden[x, y] <= 0 ==> Neighbours((x, y)) <= RevealedSet()
      ensures Counted() ==> (RevealedSet() - old(RevealedSet()) - {(x, y)}) !! MineSet()
      ensures Closed(RevealedSet() - old(RevealedSet()), Unnumbered(), RevealedSet())
      ensures !old(revealed[x, y]) ==> outcome == Played(fieldHidden[x, y] == Mine, AllSafeRevealed())
    {
      if revealed[x, y] {
        return Ignored;
      }
      var hitMine := false;
      if fieldHidden[x, y] == Mine {
        revealed[x, y] := true;
        assert RevealedSet() == old(RevealedSet()) + {(x, y)};
        hitMine := true;
      } else {
        RevealEmptyCells(x, y);
        assert (x, y) in RevealedSet() - old(RevealedSet());
      }
      var won := CheckWin();
      outcome := Played(hitMine, won);
    }

    /** A right click: on a covered cell it toggles the flag; a revealed cell is left alone. */
    method HandleRightClick(x: int, y: int)
      requires Valid() && InBounds(x, y)
      modifies flagged
      ensures old(revealed[x, y]) ==> FlagSet() == old(FlagSet())
      ensures !old(revealed[x, y]) ==> FlagSet() == Toggle(old(FlagSet()), (x, y))
    {
      if revealed[x, y] {
        return;
      }
      flagged[x, y] := !flagged[x, y];
      assert FlagSet() == Toggle(old(FlagSet()), (x, y));
    }
  }

  /**
   * A fresh game with no mines, clicked on any cell (x, y), a zero cell, as the
   * click is written: only (x, y) is uncovered, none of its neighbours (there
   * is at least one) is, and the game is not won. The source always places 10
   * mines; the empty draw sequence gives the simplest board on which the click
   * shows, and HandleLeftClick's contract gives the same for every zero cell of
   * every board.
   */
  method ZeroClickAsWritten(x: int, y: int) returns (game: MineSweeperGUI, outcome: ClickOutcome)
    requires InBounds(x, y)
    ensures game.Valid() && game.Counted() && game.MineSet() == {}
    ensures game.fieldHidden[x, y] == 0
    ensures game.RevealedSet() == {(x, y)}
    ensures Neighbours((x, y)) != {} && Neighbours((x, y)) !! game.RevealedSet()
    ensures outcome == Played(false, false)
  {
    game := new MineSweeperGUI([]);
    assert game.MineSet() == {};
    AdjacentMinesZero({}, x, y);
    outcome := game.HandleLeftClick(x, y);
    var n := if x + 1 < GridSize then (x + 1, y) else (x - 1, y);
    assert n in Neighbours((x, y));
    assert !game.revealed[n.0, n.1];
  }

  /** The same game and click with the corrected click: every neighbour of (x, y) is uncovered. */
  method ZeroClickCascading(x: int, y: int) returns (game: MineSweeperGUI, outcome: ClickOutcome)
    requires InBounds(x, y)
    ensures game.Valid() && game.Counted() && game.MineSet() == {}
    ensures game.fieldHidden[x, y] == 0
    ensures Neighbours((x, y)) + {(x, y)} <= game.RevealedSet()
    ensures outcome.Played? && !outcome.hitMine
  {
    game := new MineSweeperGUI([]);
    assert game.MineSet() == {};
    AdjacentMinesZero({}, x, y);
    outcome := game.HandleLeftClickCascading(x, y);
  }
}
