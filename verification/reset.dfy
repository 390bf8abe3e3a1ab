/** Restarting a game: default attributes, day 0, the three starter actions,
    the preset notes and zeroed trigger counts. */
module Reset {
  import opened Actions
  import opened Attributes
  import opened NoteGrid
  import opened Tally
  import opened Session
  import opened UnlockLadder

  /** The preset notes of the starter rows; every other row starts empty. */
  const PresetGrid: Grid := map[Work := {1, 2, 4, 5}, Eat := {3, 6}, Phone := {0, 7}]

  /** Every row that ever existed is cleared, the starters' rows get their
      presets, and the closing unlock check runs (and never fires: 0 knowledge
      is below the 10 needed for a fourth action). */
  function ResetGame(g: Game, draw: nat -> nat): (r: Game)
    ensures r.stats == Defaults && r.day == 0 && r.roster == Starters
    ensures r.grid.Keys == g.grid.Keys + {Work, Eat, Phone}
    ensures forall a :: Row(r.grid, a) == Row(PresetGrid, a)
    ensures Keys(r.counts) == Keys(g.counts) && forall a :: Times(r.counts, a) == 0
    ensures KeysDistinct(g.counts) ==> KeysDistinct(r.counts)
    ensures |r.counts| == |g.counts| && forall i :: 0 <= i < |g.counts| ==> r.counts[i].action == g.counts[i].action && r.counts[i].times == 0
  {
    var grid := map a | a in g.grid.Keys + PresetGrid.Keys :: Row(PresetGrid, a);
    var restarted := Game(Defaults, 0, Starters, grid, Zeroed(g.counts));
    assert KnowledgeRequirement(|restarted.roster|) == 10;
    UnlockAll(restarted, draw)
  }

  /** The presets respect the default limits: each column has at most one
      note and no row has a block longer than three. */
  lemma PresetLimits()
    ensures WithinPatience(PresetGrid, 3)
    ensures WithinEfficiency(Starters, PresetGrid, 1)
  {
    forall a | a in PresetGrid
      ensures RowWithin(PresetGrid[a], 3)
    {
      var row := PresetGrid[a];
      forall lo, hi | Block(row, lo, hi)
        ensures hi - lo <= 3
      {
        assert hi <= lo + 3 || (lo + 1 in row && lo + 2 in row && lo + 3 in row);
      }
    }
    forall c | 0 <= c < Columns
      ensures |ActiveIn(Starters, PresetGrid, c)| <= 1
    {
      assert Starters[..2] == [Work, Eat] && Starters[..2][..1] == [Work];
      assert [Work][..0] == [];
    }
  }

  /** A reset session is well formed whenever the trigger counts it keeps
      have no duplicate entries. */
  lemma ResetWellFormed(g: Game, draw: nat -> nat)
    requires KeysDistinct(g.counts)
    ensures WellFormed(ResetGame(g, draw))
  {
    PresetGameWellFormed(ResetGame(g, draw));
  }

  /** Any session with the default attributes, the starter roster and the
      preset rows is well formed. */
  lemma PresetGameWellFormed(r: Game)
    requires r.stats == Defaults && r.roster == Starters
    requires forall a :: Row(r.grid, a) == Row(PresetGrid, a)
    requires KeysDistinct(r.counts)
    ensures WellFormed(r)
  {
    PresetLimits();
    forall c | 0 <= c < Columns
      ensures |ActiveIn(r.roster, r.grid, c)| <= r.stats.efficiency
    {
      ActiveInSameRows(Starters, PresetGrid, r.grid, c);
    }
    forall a | a in r.grid
      ensures RowWithin(r.grid[a], r.stats.patience)
    {
      assert r.grid[a] == Row(r.grid, a) == Row(PresetGrid, a);
      if a in PresetGrid {
        assert RowWithin(PresetGrid[a], 3);
      }
    }
    assert forall a :: a in r.grid && a !in r.roster ==> Row(r.grid, a) == Row(PresetGrid, a) == {};
    assert RosterValid(r.roster);
  }

  /** Resetting twice is resetting once, whatever the unlock draws. */
  lemma ResetIdempotent(g: Game, draw: nat -> nat, draw': nat -> nat)
    ensures ResetGame(ResetGame(g, draw), draw') == ResetGame(g, draw)
  {
  }
}
