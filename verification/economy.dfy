/** What the playhead does to the session: triggering one column's notes,
    and the day boundary with its desire tax and terminal conditions. */
module Economy {
  import opened Actions
  import opened Attributes
  import opened NoteGrid
  import opened Tally
  import opened Session
  import opened UnlockLadder

  /** One triggered note: count it, apply the action's effects, then run the
      unlock check. */
  function TriggerOne(g: Game, a: Action, draw: nat -> nat, swing: real): (r: Game)
    ensures Times(r.counts, a) == Times(g.counts, a) + 1
    ensures forall b :: b != a ==> Times(r.counts, b) == Times(g.counts, b)
    ensures var s := ApplyAction(g.stats, a, swing);
            r.stats.money == s.money && r.stats.knowledge == s.knowledge && r.stats.desire == s.desire
    ensures r.day == g.day
    ensures |g.roster| <= |r.roster| && r.roster[..|g.roster|] == g.roster
    ensures forall b :: b in g.roster ==> Row(r.grid, b) == Row(g.grid, b)
    ensures r.stats.efficiency >= g.stats.efficiency && r.stats.patience >= g.stats.patience
    ensures WellFormed(g) ==> WellFormed(r)
    ensures g.stats.money >= 0 && -0.1 <= swing <= 0.1 ==> r.stats.money >= 0
  {
    var applied := g.(stats := ApplyAction(g.stats, a, swing), counts := Bump(g.counts, a));
    ApplyActionKeepsMoney(g.stats, a, swing);
    UnlockAllWellFormed(applied, draw);
    UnlockAll(applied, draw)
  }

  /** One entry of a column's snapshot: triggered only if its cell at `c` is
      still active when its turn comes. */
  function TriggerIfActive(g: Game, a: Action, c: int, draw: nat -> nat, swing: real): (r: Game)
    ensures forall b :: Times(r.counts, b) == Times(g.counts, b) + (if b == a && c in Row(g.grid, a) then 1 else 0)
    ensures r.day == g.day
    ensures |g.roster| <= |r.roster| && r.roster[..|g.roster|] == g.roster
    ensures forall b :: b in g.roster ==> b in r.roster && Row(r.grid, b) == Row(g.grid, b)
    ensures r.stats.efficiency >= g.stats.efficiency && r.stats.patience >= g.stats.patience
    ensures WellFormed(g) ==> WellFormed(r)
    ensures g.stats.money >= 0 && -0.1 <= swing <= 0.1 ==> r.stats.money >= 0
  {
    if c in Row(g.grid, a) then
      var r := TriggerOne(g, a, draw, swing);
      PrefixOfPrefix(g.roster, r.roster, r.roster);
      r
    else g
  }

  /** Handles the snapshot of active actions in order, skipping any whose cell
      at `c` is no longer active when its turn comes. */
  function TriggerEach(g: Game, todo: seq<Action>, c: int, draw: nat -> nat, swing: real): (r: Game)
    ensures r.day == g.day
    ensures |g.roster| <= |r.roster| && r.roster[..|g.roster|] == g.roster
    ensures forall b :: b in g.roster ==> Row(r.grid, b) == Row(g.grid, b)
    ensures r.stats.efficiency >= g.stats.efficiency && r.stats.patience >= g.stats.patience
    ensures WellFormed(g) ==> WellFormed(r)
    ensures g.stats.money >= 0 && -0.1 <= swing <= 0.1 ==> r.stats.money >= 0
    decreases |todo|
  {
    if todo == [] then g
    else
      var next := TriggerIfActive(g, todo[0], c, draw, swing);
      var r := TriggerEach(next, todo[1..], c, draw, swing);
      PrefixOfPrefix(g.roster, next.roster, r.roster);
      r
  }

  /** Each action of a duplicate-free snapshot taken from the roster is
      counted exactly once if its cell is active, and nothing else is counted. */
  lemma {:induction false} TriggerEachCounts(g: Game, todo: seq<Action>, c: int, draw: nat -> nat, swing: real)
    requires Distinct(todo)
    requires forall b :: b in todo ==> b in g.roster
    ensures forall b :: Times(TriggerEach(g, todo, c, draw, swing).counts, b)
                        == Times(g.counts, b) + (if b in todo && c in Row(g.grid, b) then 1 else 0)
    decreases |todo|
  {
    if todo != [] {
      var a, rest := todo[0], todo[1..];
      var next := TriggerIfActive(g, a, c, draw, swing);
      assert TriggerEach(g, todo, c, draw, swing) == TriggerEach(next, rest, c, draw, swing);
      assert forall b :: b in rest ==> b in g.roster;
      TriggerEachCounts(next, rest, c, draw, swing);
      assert a !in rest;
      forall b
        ensures Times(TriggerEach(next, rest, c, draw, swing).counts, b)
                == Times(g.counts, b) + (if b in todo && c in Row(g.grid, b) then 1 else 0)
      {
        assert b in todo <==> b == a || b in rest;
      }
    }
  }

  /** The playhead enters column `c`: every roster action active there, in
      row order, is triggered. `draw` supplies the unlock picks and `swing`
      the stock gamble's random fraction. */
  function TriggerColumn(g: Game, c: int, draw: nat -> nat, swing: real): (r: Game)
    ensures r.day == g.day
    ensures |g.roster| <= |r.roster| && r.roster[..|g.roster|] == g.roster
    ensures forall b :: b in g.roster ==> Row(r.grid, b) == Row(g.grid, b)
    ensures WellFormed(g) ==> WellFormed(r)
    ensures g.stats.money >= 0 && -0.1 <= swing <= 0.1 ==> r.stats.money >= 0
  {
    TriggerEach(g, ActiveIn(g.roster, g.grid, c), c, draw, swing)
  }

  /** A column trigger counts every roster action active in that column once
      and no other action. */
  lemma TriggerColumnCounts(g: Game, c: int, draw: nat -> nat, swing: real)
    requires Distinct(g.roster)
    ensures forall b :: Times(TriggerColumn(g, c, draw, swing).counts, b)
                        == Times(g.counts, b) + (if b in g.roster && c in Row(g.grid, b) then 1 else 0)
  {
    TriggerEachCounts(g, ActiveIn(g.roster, g.grid, c), c, draw, swing);
  }

  datatype DayEnd = Continuing | Bankrupt | Completed

  datatype DayResult = DayResult(game: Game, end: DayEnd)

  /** A full loop of the playhead: the day counter advances; positive desire
      is paid out of money and cleared; money pushed below zero is set to 0
      and ends the game in bankruptcy; otherwise the game completes once the
      counter reaches the play limit. */
  function DayStep(g: Game): (r: DayResult)
    ensures r.game.day == g.day + 1
    ensures r.game.roster == g.roster && r.game.grid == g.grid && r.game.counts == g.counts
    ensures r.game.stats.knowledge == g.stats.knowledge
    ensures r.game.stats.efficiency == g.stats.efficiency && r.game.stats.patience == g.stats.patience
    ensures g.stats.desire > 0 ==> r.game.stats.desire == 0
    ensures g.stats.desire <= 0 ==> r.game.stats == g.stats
    ensures r.end == Bankrupt <==> 0 <= g.stats.money < g.stats.desire || (g.stats.money < 0 && g.stats.desire > 0)
    ensures r.end == Bankrupt ==> r.game.stats.money == 0
    ensures r.end != Bankrupt && g.stats.desire > 0 ==> r.game.stats.money == g.stats.money - g.stats.desire >= 0
    ensures r.end == Completed <==> r.end != Bankrupt && g.day + 1 >= PlayLimit
  {
    var counted := g.(day := g.day + 1);
    if g.stats.desire > 0 then
      var taxed := counted.(stats := g.stats.(money := g.stats.money - g.stats.desire, desire := 0));
      if taxed.stats.money < 0 then DayResult(taxed.(stats := taxed.stats.(money := 0)), Bankrupt)
      else DayResult(taxed, if taxed.day >= PlayLimit then Completed else Continuing)
    else
      DayResult(counted, if counted.day >= PlayLimit then Completed else Continuing)
  }

  /** With non-negative money, a day leaves max(0, money - desire) when desire
      is positive, never goes below zero, and keeps the session well formed. */
  lemma DayStepKeepsMoney(g: Game)
    requires g.stats.money >= 0
    ensures var m := DayStep(g).game.stats.money;
            m >= 0 && (g.stats.desire > 0 ==> m == if g.stats.money >= g.stats.desire then g.stats.money - g.stats.desire else 0)
    ensures WellFormed(g) ==> WellFormed(DayStep(g).game)
  {
  }

  /** A game that keeps going completes on exactly its sixtieth day step. */
  lemma CompletesOnLastDay(g: Game)
    requires DayStep(g).end != Bankrupt
    ensures DayStep(g).end == Completed <==> g.day >= PlayLimit - 1
  {
  }

  /** Money 5 and desire 8 at the day boundary: bankrupt with money 0. */
  lemma BankruptcyExample(g: Game)
    requires g.stats.money == 5 && g.stats.desire == 8
    ensures DayStep(g).end == Bankrupt && DayStep(g).game.stats.money == 0
  {
  }

  /** Desire that went negative is not cleared by the day boundary. */
  lemma NegativeDesireSurvivesDay(g: Game)
    requires g.stats.desire < 0
    ensures DayStep(g).game.stats.desire == g.stats.desire
  {
  }
}
