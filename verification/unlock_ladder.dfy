/** The unlock ladder: knowledge thresholds, the choice of the next action,
    adding it to the roster with its efficiency/patience bonuses, and the
    chained unlock that runs until the threshold is no longer met. */
module UnlockLadder {
  import opened Actions
  import opened Attributes
  import opened NoteGrid
  import opened Session

  datatype Option<T> = None | Some(value: T)

  /** Knowledge needed to unlock when the roster holds `n` actions: the first
      three are free, then 10 plus 10*n for every action beyond the third. */
  function KnowledgeRequirement(n: nat): (r: nat)
    ensures r == 0 <==> n < 3
    ensures n >= 3 ==> r >= 10
  {
    if n < 3 then 0
    else
      ProductNonNegative(n - 3, 10 * n);
      10 + (n - 3) * (10 * n)
  }

  lemma ProductNonNegative(x: int, y: int)
    requires x >= 0 && y >= 0
    ensures x * y >= 0
  {
  }

  lemma KnowledgeRequirementStep(n: nat)
    ensures KnowledgeRequirement(n) <= KnowledgeRequirement(n + 1)
    ensures n >= 3 ==> KnowledgeRequirement(n + 1) == KnowledgeRequirement(n) + 20 * (n - 1)
  {
    if n >= 3 {
      calc {
        KnowledgeRequirement(n + 1);
        10 + (n - 2) * (10 * (n + 1));
        { assert (n - 2) * (n + 1) == (n - 3) * n + 2 * (n - 1); }
        10 + (n - 3) * (10 * n) + 20 * (n - 1);
      }
    }
  }

  /** The threshold never falls as the roster grows, and rises strictly once
      the three free actions are in. */
  lemma {:induction false} KnowledgeRequirementMonotone(m: nat, n: nat)
    requires m <= n
    ensures KnowledgeRequirement(m) <= KnowledgeRequirement(n)
    ensures 3 <= m < n ==> KnowledgeRequirement(m) < KnowledgeRequirement(n)
    decreases n - m
  {
    if m < n {
      KnowledgeRequirementStep(m);
      KnowledgeRequirementMonotone(m + 1, n);
    }
  }

  /** Whether reaching a roster of `count` actions raises efficiency: first
      at two actions, then at every third size after that. */
  function ShouldIncreaseEfficiency(count: int): (b: bool)
    ensures count < 5 ==> (b <==> count == 2)
    ensures count >= 5 ==> (b <==> ShouldIncreaseEfficiency(count - 3))
  {
    var unlocks := count - 2;
    unlocks >= 0 && unlocks % 3 == 0
  }

  /** Whether reaching a roster of `count` actions raises patience: first at
      seven actions, then at every fifth size after that. */
  function ShouldIncreasePatience(count: int): (b: bool)
    ensures count < 12 ==> (b <==> count == 7)
    ensures count >= 12 ==> (b <==> ShouldIncreasePatience(count - 5))
  {
    var unlocks := count - 2;
    unlocks > 0 && unlocks % 5 == 0
  }

  /** With the three starters, the bonuses fall on rosters of these sizes. */
  lemma BonusSchedule(n: int)
    requires 4 <= n <= 16
    ensures ShouldIncreaseEfficiency(n) <==> n in {5, 8, 11, 14}
    ensures ShouldIncreasePatience(n) <==> n in {7, 12}
  {
  }

  /** The catalogue actions not yet in the roster, in catalogue order. */
  function Remaining(candidates: seq<Action>, roster: seq<Action>): (r: seq<Action>)
    ensures forall a :: a in r <==> a in candidates && a !in roster
    ensures Distinct(candidates) ==> Distinct(r)
    decreases |candidates|
  {
    if candidates == [] then []
    else
      var rest := Remaining(candidates[1..], roster);
      assert forall a :: a in candidates <==> a == candidates[0] || a in candidates[1..];
      if candidates[0] in roster then rest else [candidates[0]] + rest
  }

  function Available(roster: seq<Action>): seq<Action>
  {
    Remaining(Catalog, roster)
  }

  /** The unlock pick: `draw` stands for the random number, reduced to an
      index into the available actions; None once nothing is left. */
  function NextUnlockable(roster: seq<Action>, draw: nat): (r: Option<Action>)
    ensures r.Some? ==> r.value in Catalog && r.value !in roster
    ensures r.None? <==> forall a :: a in Catalog ==> a in roster
  {
    var available := Available(roster);
    if |available| == 0 then None
    else
      assert available[0] in available;
      Some(available[draw % |available|])
  }

  /** Every action still available is the pick for some draw. */
  lemma NextUnlockableCoversAll(roster: seq<Action>, a: Action)
    requires a in Catalog && a !in roster
    ensures exists draw: nat :: NextUnlockable(roster, draw) == Some(a)
  {
    var available := Available(roster);
    assert a in available;
    var i :| 0 <= i < |available| && available[i] == a;
    SmallRemainder(i, |available|);
    assert NextUnlockable(roster, i) == Some(a);
  }

  lemma SmallRemainder(i: nat, n: nat)
    requires i < n
    ensures i % n == i
  {
  }

  /** The elements of a sequence as a set. */
  function Elements<T>(s: seq<T>): set<T>
  {
    set x | x in s
  }

  lemma {:induction false} DistinctElements<T>(s: seq<T>)
    requires Distinct(s)
    ensures |Elements(s)| == |s|
    decreases |s|
  {
    if s != [] {
      var init := s[..|s| - 1];
      DistinctElements(init);
      assert Elements(s) == Elements(init) + {s[|s| - 1]};
      assert s[|s| - 1] !in init;
    }
  }

  /** A valid roster has at most as many actions as the catalogue, and while
      it is shorter some catalogue action is still missing from it. */
  lemma RosterBound(roster: seq<Action>)
    ensures RosterValid(roster) ==> |roster| <= |Catalog|
    ensures RosterValid(roster) && |roster| < |Catalog| ==> exists a :: a in Catalog && a !in roster
  {
    if !RosterValid(roster) {
      return;
    }
    CatalogShape();
    DistinctElements(roster);
    DistinctElements(Catalog);
    SubsetCardinality(Elements(roster), Elements(Catalog));
    if forall a :: a in Catalog ==> a in roster {
      SubsetCardinality(Elements(Catalog), Elements(roster));
    }
  }

  lemma {:induction false} SubsetCardinality<T>(a: set<T>, b: set<T>)
    requires a <= b
    ensures |a| <= |b|
    decreases |a|
  {
    if a != {} {
      var x :| x in a;
      SubsetCardinality(a - {x}, b - {x});
    }
  }

  /** Appends a newly unlocked action with an empty row; the bonuses are
      judged on the roster length after the append. */
  function AddAction(g: Game, a: Action): (r: Game)
    ensures r.roster == g.roster + [a]
    ensures Row(r.grid, a) == {} && forall b :: b != a ==> Row(r.grid, b) == Row(g.grid, b)
    ensures r.stats.money == g.stats.money && r.stats.knowledge == g.stats.knowledge && r.stats.desire == g.stats.desire
    ensures r.day == g.day && r.counts == g.counts
  {
    var roster := g.roster + [a];
    var efficiency := if ShouldIncreaseEfficiency(|roster|) then g.stats.efficiency + 1 else g.stats.efficiency;
    var patience := if ShouldIncreasePatience(|roster|) then g.stats.patience + 1 else g.stats.patience;
    g.(roster := roster,
       stats := g.stats.(efficiency := efficiency, patience := patience),
       grid := g.grid[a := {}])
  }

  /** Efficiency and patience each rise by one exactly when their bonus
      predicate holds for the new roster size, and never fall. */
  lemma AddActionBonuses(g: Game, a: Action)
    ensures var r := AddAction(g, a);
            && r.stats.efficiency == g.stats.efficiency + (if ShouldIncreaseEfficiency(|g.roster| + 1) then 1 else 0)
            && r.stats.patience == g.stats.patience + (if ShouldIncreasePatience(|g.roster| + 1) then 1 else 0)
  {
  }

  /** Adding an action that is in the catalogue and not yet unlocked keeps the
      session well formed. */
  lemma AddActionPreservesWellFormed(g: Game, a: Action)
    requires a in Catalog && a !in g.roster
    ensures WellFormed(g) ==> WellFormed(AddAction(g, a))
  {
    if !WellFormed(g) {
      return;
    }
    var r := AddAction(g, a);
    assert RosterValid(r.roster);
    AddActionKeepsEfficiency(g, a);
    AddActionKeepsPatience(g, a);
  }

  lemma AddActionKeepsEfficiency(g: Game, a: Action)
    requires a !in g.roster
    requires WithinEfficiency(g.roster, g.grid, g.stats.efficiency)
    ensures WithinEfficiency(AddAction(g, a).roster, AddAction(g, a).grid, AddAction(g, a).stats.efficiency)
  {
    var r := AddAction(g, a);
    forall c | 0 <= c < Columns
      ensures |ActiveIn(r.roster, r.grid, c)| <= r.stats.efficiency
    {
      assert r.roster[..|r.roster| - 1] == g.roster;
      ActiveInSameRows(g.roster, g.grid, r.grid, c);
    }
  }

  lemma AddActionKeepsPatience(g: Game, a: Action)
    requires WithinPatience(g.grid, g.stats.patience)
    ensures WithinPatience(AddAction(g, a).grid, AddAction(g, a).stats.patience)
  {
    var r := AddAction(g, a);
    forall b | b in r.grid
      ensures RowWithin(r.grid[b], r.stats.patience)
    {
      if b != a {
        assert b in g.grid && r.grid[b] == g.grid[b];
        assert RowWithin(g.grid[b], g.stats.patience);
      }
    }
  }

  /** The unlock check, repeated while actions remain and knowledge reaches
      the threshold for the current roster size. Knowledge is not spent. */
  function UnlockAll(g: Game, draw: nat -> nat): (r: Game)
    ensures r.stats.money == g.stats.money && r.stats.knowledge == g.stats.knowledge
    ensures r.stats.desire == g.stats.desire
    ensures r.day == g.day && r.counts == g.counts
    ensures |g.roster| <= |r.roster| && r.roster[..|g.roster|] == g.roster
    ensures forall b :: b in g.roster ==> Row(r.grid, b) == Row(g.grid, b)
    ensures forall b :: b in r.roster && b !in g.roster ==> Row(r.grid, b) == {}
    ensures r.stats.efficiency >= g.stats.efficiency && r.stats.patience >= g.stats.patience
    decreases |Catalog| - |g.roster|
  {
    if |g.roster| >= |Catalog| then g
    else if g.stats.knowledge >= KnowledgeRequirement(|g.roster|) then
      match NextUnlockable(g.roster, draw(|g.roster|))
      case None => g
      case Some(a) =>
        var next := AddAction(g, a);
        var r := UnlockAll(next, draw);
        PrefixOfPrefix(g.roster, next.roster, r.roster);
        r
    else g
  }

  /** The chained unlock keeps the session well formed, and it stops only
      when every action is unlocked or knowledge is below the requirement for
      the next one. */
  lemma {:induction false} UnlockAllWellFormed(g: Game, draw: nat -> nat)
    ensures WellFormed(g) ==> WellFormed(UnlockAll(g, draw))
    ensures WellFormed(g) ==> var r := UnlockAll(g, draw);
              |r.roster| == |Catalog| || r.stats.knowledge < KnowledgeRequirement(|r.roster|)
    decreases |Catalog| - |g.roster|
  {
    if !WellFormed(g) {
      return;
    }
    RosterBound(g.roster);
    if |g.roster| < |Catalog| && g.stats.knowledge >= KnowledgeRequirement(|g.roster|) {
      match NextUnlockable(g.roster, draw(|g.roster|))
      case None =>
      case Some(a) =>
        AddActionPreservesWellFormed(g, a);
        UnlockAllWellFormed(AddAction(g, a), draw);
    }
  }

  /** A prefix of a prefix is a prefix, and its elements are elements of the whole. */
  lemma PrefixOfPrefix<T>(s: seq<T>, t: seq<T>, u: seq<T>)
    requires |s| <= |t| <= |u| && t[..|s|] == s && u[..|t|] == t
    ensures u[..|s|] == s
    ensures forall x :: x in s ==> x in t
  {
  }

  /** Running the unlock check again right after it changes nothing, so the
      repeated calls the unlock makes of itself collapse into one chain. */
  lemma UnlockAllIdempotent(g: Game, draw: nat -> nat)
    requires WellFormed(g)
    ensures UnlockAll(UnlockAll(g, draw), draw) == UnlockAll(g, draw)
  {
    UnlockAllWellFormed(g, draw);
  }
}
