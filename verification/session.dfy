/** The whole session state of one play-through and its well-formedness
    invariant, plus the player's cell toggle on that state. */
module Session {
  import opened Actions
  import opened Attributes
  import opened NoteGrid
  import opened Tally

  /** Days in a full game (PLAY_LIMIT). */
  const PlayLimit := 60

  /** `day` is the play counter, `roster` the unlocked actions in unlock
      order, `grid` the note data and `counts` the trigger counts. */
  datatype Game = Game(stats: Stats, day: nat, roster: seq<Action>, grid: Grid, counts: seq<Count>)

  /** Unlocked actions come from the catalogue, each at most once. */
  ghost predicate RosterValid(roster: seq<Action>)
  {
    Distinct(roster) && forall a :: a in roster ==> a in Catalog
  }

  /** The invariant every reachable state keeps. */
  ghost predicate WellFormed(g: Game)
  {
    && RosterValid(g.roster)
    && g.stats.efficiency >= 1
    && g.stats.patience >= 1
    && (forall a :: a in g.grid && a !in g.roster ==> g.grid[a] == {})
    && WithinEfficiency(g.roster, g.grid, g.stats.efficiency)
    && WithinPatience(g.grid, g.stats.patience)
    && KeysDistinct(g.counts)
  }

  /** The player clicks cell (`a`, `c`) of a roster row; only the grid can change. */
  function ToggleNote(g: Game, a: Action, c: int): (r: (Game, ToggleOutcome))
    requires a in g.roster
    requires 0 <= c < Columns
    ensures r.0 == g.(grid := r.0.grid)
  {
    var t := Toggle(g.roster, g.grid, g.stats.efficiency, g.stats.patience, a, c);
    (g.(grid := t.grid), t.outcome)
  }

  /** Toggling keeps the session well formed: both limits hold afterwards. */
  lemma ToggleNotePreservesWellFormed(g: Game, a: Action, c: int)
    requires WellFormed(g)
    requires a in g.roster
    requires 0 <= c < Columns
    ensures WellFormed(ToggleNote(g, a, c).0)
  {
    TogglePreservesLimits(g.roster, g.grid, g.stats.efficiency, g.stats.patience, a, c);
    var g' := ToggleNote(g, a, c).0;
    forall b | b in g'.grid && b !in g'.roster
      ensures g'.grid[b] == {}
    {
      assert b != a;
      assert Row(g'.grid, b) == Row(g.grid, b);
    }
  }
}
