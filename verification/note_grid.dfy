/** The note grid: for each action, the set of active columns of its row,
    with the two placement limits (efficiency per column, patience per row). */
module NoteGrid {
  import opened Actions

  /** Columns per loop (GRID_COLUMNS). */
  const Columns := 8

  /** Action id to its active columns; a missing key is an empty row. */
  type Grid = map<Action, set<int>>

  function Row(g: Grid, a: Action): set<int>
  {
    if a in g then g[a] else {}
  }

  // ---------------------------------------------------------------------
  // Runs of active cells in one row
  // ---------------------------------------------------------------------

  /** `[lo, hi)` is a non-empty block of columns that are all active in `row`
      (its first cell `lo` among them). */
  ghost predicate Block(row: set<int>, lo: int, hi: int)
  {
    0 <= lo < hi <= Columns && lo in row && forall i :: lo <= i < hi ==> i in row
  }

  /** Number of consecutive active cells directly left of column `c`. */
  function LeftRun(row: set<int>, c: int): (n: nat)
    ensures c >= 0 ==> n <= c
    decreases c
  {
    if c > 0 && c - 1 in row then 1 + LeftRun(row, c - 1) else 0
  }

  /** Number of consecutive active cells directly right of column `c`. */
  function RightRun(row: set<int>, c: int): (n: nat)
    ensures c < Columns ==> c + n < Columns
    decreases Columns - c
  {
    if c + 1 < Columns && c + 1 in row then 1 + RightRun(row, c + 1) else 0
  }

  /** Length of the run through `c` once `c` itself is active: the cells
      strictly between the first inactive cell (or edge) on each side. */
  function RunLength(row: set<int>, c: int): (n: nat)
    requires 0 <= c < Columns
    ensures 1 <= n <= Columns
  {
    LeftRun(row, c) + 1 + RightRun(row, c)
  }

  lemma {:induction false} LeftRunSpan(row: set<int>, c: int)
    requires c >= 0
    ensures forall i :: c - LeftRun(row, c) <= i < c ==> i in row
    ensures c - LeftRun(row, c) == 0 || c - LeftRun(row, c) - 1 !in row
    decreases c
  {
    if c > 0 && c - 1 in row {
      LeftRunSpan(row, c - 1);
    }
  }

  lemma {:induction false} RightRunSpan(row: set<int>, c: int)
    requires c < Columns
    ensures forall i :: c < i <= c + RightRun(row, c) ==> i in row
    ensures c + RightRun(row, c) == Columns - 1 || c + RightRun(row, c) + 1 !in row
    decreases Columns - c
  {
    if c + 1 < Columns && c + 1 in row {
      RightRunSpan(row, c + 1);
    }
  }

  /** RunLength is the length of the maximal block through `c` in the row
      with `c` activated: that block exists, and no block through `c` is longer. */
  lemma RunLengthIsMaximal(row: set<int>, c: int)
    requires 0 <= c < Columns
    ensures Block(row + {c}, c - LeftRun(row, c), c + 1 + RightRun(row, c))
    ensures forall lo, hi :: lo <= c < hi && Block(row + {c}, lo, hi) ==> hi - lo <= RunLength(row, c)
  {
    LeftRunSpan(row, c);
    RightRunSpan(row, c);
    forall lo, hi | lo <= c < hi && Block(row + {c}, lo, hi)
      ensures hi - lo <= RunLength(row, c)
    {
      BlockWithinRuns(row, c, lo, hi);
    }
  }

  /** A block through `c` starts no further left than the left run reaches
      and ends no further right than the right run reaches. */
  lemma BlockWithinRuns(row: set<int>, c: int, lo: int, hi: int)
    requires 0 <= c < Columns
    requires lo <= c < hi && Block(row + {c}, lo, hi)
    ensures c - LeftRun(row, c) <= lo && hi <= c + 1 + RightRun(row, c)
  {
    LeftRunSpan(row, c);
    RightRunSpan(row, c);
    var lo0, hi0 := c - LeftRun(row, c), c + 1 + RightRun(row, c);
    assert lo0 <= lo by {
      assert lo0 == 0 || lo0 - 1 !in row + {c};
      assert forall i :: lo <= i < hi ==> i in row + {c};
    }
    assert hi <= hi0 by {
      assert hi0 == Columns || hi0 !in row + {c};
      assert forall i :: lo <= i < hi ==> i in row + {c};
    }
  }

  /** The patience test of a placement: the cell is inactive and activating it
      would make its run longer than `patience`. */
  function PatienceExceeded(row: set<int>, c: int, patience: int): (exceeds: bool)
    requires 0 <= c < Columns
    ensures exceeds <==> c !in row
                         && exists lo, hi :: lo <= c < hi && Block(row + {c}, lo, hi) && hi - lo > patience
  {
    RunLengthIsMaximal(row, c);
    c !in row && RunLength(row, c) > patience
  }

  /** Imperative run check: scan left and right from `column` to the first
      inactive cell or the edge and compare `rightBound - leftBound - 1` with
      the patience limit. An already active cell never exceeds the limit. */
  method CheckPatienceLimit(row: set<int>, column: int, patience: int) returns (exceeds: bool)
    requires 0 <= column < Columns
    ensures exceeds <==> column !in row
                         && exists lo, hi :: lo <= column < hi && Block(row + {column}, lo, hi) && hi - lo > patience
    ensures exceeds == PatienceExceeded(row, column, patience)
  {
    if column in row {
      return false;
    }
    var leftBound := column - 1;
    while leftBound >= 0 && leftBound in row
      invariant -1 <= leftBound < column
      invariant forall i :: leftBound < i < column ==> i in row
      decreases leftBound + 1
    {
      leftBound := leftBound - 1;
    }
    var rightBound := column + 1;
    while rightBound < Columns && rightBound in row
      invariant column < rightBound <= Columns
      invariant forall i :: column < i < rightBound ==> i in row
      decreases Columns - rightBound
    {
      rightBound := rightBound + 1;
    }
    var length := rightBound - leftBound - 1;
    assert Block(row + {column}, leftBound + 1, rightBound);
    forall lo, hi | lo <= column < hi && Block(row + {column}, lo, hi)
      ensures hi - lo <= length
    {
    }
    exceeds := length > patience;
    RunLengthIsMaximal(row, column);
  }

  // ---------------------------------------------------------------------
  // Column occupancy
  // ---------------------------------------------------------------------

  /** The roster actions active in column `c`, in roster (row) order. */
  function ActiveIn(roster: seq<Action>, g: Grid, c: int): (r: seq<Action>)
    ensures forall a :: a in r <==> a in roster && c in Row(g, a)
    ensures |r| <= |roster|
    ensures Distinct(roster) ==> Distinct(r)
    decreases |roster|
  {
    if roster == [] then []
    else
      var last := roster[|roster| - 1];
      var prefix := ActiveIn(roster[..|roster| - 1], g, c);
      assert forall a :: a in roster <==> a in roster[..|roster| - 1] || a == last;
      if c in Row(g, last) then prefix + [last] else prefix
  }

  lemma {:induction false} ActiveInSameRows(roster: seq<Action>, g: Grid, g': Grid, c: int)
    requires forall a :: a in roster ==> (c in Row(g', a) <==> c in Row(g, a))
    ensures ActiveIn(roster, g', c) == ActiveIn(roster, g, c)
    decreases |roster|
  {
    if roster != [] {
      assert forall a :: a in roster[..|roster| - 1] ==> a in roster;
      ActiveInSameRows(roster[..|roster| - 1], g, g', c);
    }
  }

  /** Changing the row of one action moves each column count by at most one,
      and only in the direction of the change at that column. */
  lemma {:induction false} ActiveInOneRowChanged(roster: seq<Action>, g: Grid, g': Grid, a: Action, c: int)
    requires Distinct(roster)
    requires forall b :: b != a ==> Row(g', b) == Row(g, b)
    ensures |ActiveIn(roster, g', c)| <= |ActiveIn(roster, g, c)| + 1
    ensures c !in Row(g', a) ==> |ActiveIn(roster, g', c)| <= |ActiveIn(roster, g, c)|
    ensures (c in Row(g', a) <==> c in Row(g, a)) ==> |ActiveIn(roster, g', c)| == |ActiveIn(roster, g, c)|
    decreases |roster|
  {
    if roster != [] {
      var prefix := roster[..|roster| - 1];
      var last := roster[|roster| - 1];
      if last == a {
        assert a !in prefix;
        ActiveInSameRows(prefix, g, g', c);
      } else {
        ActiveInOneRowChanged(prefix, g, g', a, c);
      }
    }
  }

  // ---------------------------------------------------------------------
  // The two placement limits
  // ---------------------------------------------------------------------

  /** No column holds more active roster actions than `efficiency`. */
  ghost predicate WithinEfficiency(roster: seq<Action>, g: Grid, efficiency: int)
  {
    forall c :: 0 <= c < Columns ==> |ActiveIn(roster, g, c)| <= efficiency
  }

  /** A row uses only the grid's columns and has no block longer than `patience`. */
  ghost predicate RowWithin(row: set<int>, patience: int)
  {
    && (forall c :: c in row ==> 0 <= c < Columns)
    && (forall lo, hi :: Block(row, lo, hi) ==> hi - lo <= patience)
  }

  ghost predicate WithinPatience(g: Grid, patience: int)
  {
    forall a :: a in g ==> RowWithin(g[a], patience)
  }

  // ---------------------------------------------------------------------
  // Toggling a cell
  // ---------------------------------------------------------------------

  datatype ToggleOutcome = Activated | Deactivated | EfficiencyLimit | PatienceLimit

  datatype Toggled = Toggled(grid: Grid, outcome: ToggleOutcome)

  /** A click on cell (`a`, `c`). An active cell is always cleared. An
      inactive one is set only when its column holds fewer than `efficiency`
      active actions and the patience check passes; otherwise nothing changes. */
  function Toggle(roster: seq<Action>, g: Grid, efficiency: int, patience: int, a: Action, c: int): (r: Toggled)
    requires a in roster
    requires 0 <= c < Columns
    ensures r.outcome == Deactivated <==> c in Row(g, a)
    ensures r.outcome == EfficiencyLimit <==> c !in Row(g, a) && |ActiveIn(roster, g, c)| >= efficiency
    ensures r.outcome == PatienceLimit <==>
              && c !in Row(g, a) && |ActiveIn(roster, g, c)| < efficiency
              && exists lo, hi :: lo <= c < hi && Block(Row(g, a) + {c}, lo, hi) && hi - lo > patience
    ensures r.outcome in {EfficiencyLimit, PatienceLimit} ==> r.grid == g
    ensures forall b, d :: b != a || d != c ==> (d in Row(r.grid, b) <==> d in Row(g, b))
    ensures c in Row(r.grid, a) <==> r.outcome == Activated || (c in Row(g, a) && r.outcome != Deactivated)
  {
    var row := Row(g, a);
    RunLengthIsMaximal(row, c);
    if c in row then Toggled(g[a := row - {c}], Deactivated)
    else if |ActiveIn(roster, g, c)| >= efficiency then Toggled(g, EfficiencyLimit)
    else if PatienceExceeded(row, c, patience) then Toggled(g, PatienceLimit)
    else Toggled(g[a := row + {c}], Activated)
  }

  /** Every toggle keeps both placement limits. */
  lemma TogglePreservesLimits(roster: seq<Action>, g: Grid, efficiency: int, patience: int, a: Action, c: int)
    requires a in roster && Distinct(roster)
    requires 0 <= c < Columns
    requires WithinEfficiency(roster, g, efficiency)
    requires WithinPatience(g, patience)
    ensures WithinEfficiency(roster, Toggle(roster, g, efficiency, patience, a, c).grid, efficiency)
    ensures WithinPatience(Toggle(roster, g, efficiency, patience, a, c).grid, patience)
  {
    var r := Toggle(roster, g, efficiency, patience, a, c);
    var row := Row(g, a);
    var g' := r.grid;
    if r.outcome == Activated || r.outcome == Deactivated {
      assert g' == g[a := Row(g', a)];
      assert forall b :: b != a ==> Row(g', b) == Row(g, b);
      forall d | 0 <= d < Columns
        ensures |ActiveIn(roster, g', d)| <= efficiency
      {
        ActiveInOneRowChanged(roster, g, g', a, d);
      }
      assert RowWithin(Row(g', a), patience) by {
        if r.outcome == Activated {
          assert Row(g', a) == row + {c};
          RunLengthIsMaximal(row, c);
          assert !PatienceExceeded(row, c, patience);
          forall lo, hi | Block(row + {c}, lo, hi)
            ensures hi - lo <= patience
          {
            if !(lo <= c < hi) {
              assert Block(row, lo, hi) && lo in row;
              assert a in g && RowWithin(g[a], patience);
            }
          }
        } else {
          assert Row(g', a) == row - {c};
          forall lo, hi | Block(row - {c}, lo, hi)
            ensures hi - lo <= patience
          {
            assert Block(row, lo, hi) && lo in row;
            assert a in g && RowWithin(g[a], patience);
          }
        }
      }
    }
  }
}
