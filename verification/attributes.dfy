/** The player's attribute record and how one triggered action changes it. */
module Attributes {
  import opened Actions

  /** money, knowledge and desire drive the economy; efficiency bounds how many
      actions share a column and patience how long a run in one row may be. */
  datatype Stats = Stats(money: int, knowledge: int, desire: int, efficiency: int, patience: int)

  /** The values a new or reset game starts from. */
  const Defaults: Stats := Stats(0, 0, 0, 1, 3)

  function Get(s: Stats, st: Stat): int
  {
    match st
    case Money => s.money
    case Knowledge => s.knowledge
    case Desire => s.desire
  }

  function Set(s: Stats, st: Stat, v: int): (r: Stats)
    ensures Get(r, st) == v
    ensures forall other :: other != st ==> Get(r, other) == Get(s, other)
    ensures r.efficiency == s.efficiency && r.patience == s.patience
  {
    match st
    case Money => s.(money := v)
    case Knowledge => s.(knowledge := v)
    case Desire => s.(desire := v)
  }

  /** One attribute change: a negative delta leaves an attribute that is
      exactly zero alone; every other delta is added, so a positive attribute
      can still drop below zero. */
  function Adjusted(v: int, delta: int): (r: int)
    ensures v != 0 || delta >= 0 ==> r == v + delta
    ensures v == 0 && delta < 0 ==> r == 0
    ensures v == 0 ==> r >= 0
    ensures v >= 0 && delta >= -1 ==> r >= 0
  {
    if delta < 0 && v == 0 then v else v + delta
  }

  /** Applies an effect list entry by entry, in order. */
  function ApplyEffects(s: Stats, es: seq<Effect>): (r: Stats)
    ensures r.efficiency == s.efficiency && r.patience == s.patience
    ensures StatsDistinct(es) ==> forall st :: Get(r, st) == Adjusted(Get(s, st), DeltaOf(es, st))
    decreases |es|
  {
    if es == [] then s
    else ApplyEffects(Set(s, es[0].stat, Adjusted(Get(s, es[0].stat), es[0].delta)), es[1..])
  }

  /** The money change of a stock gamble: Math.round(money * swing), where
      Math.round rounds halves towards positive infinity. */
  function StockChange(money: int, swing: real): (r: int)
    ensures money as real * swing - 0.5 < r as real <= money as real * swing + 0.5
  {
    (money as real * swing + 0.5).Floor
  }

  /** The attribute update of one triggered action. `swing` is the random
      fraction in [-0.1, 0.1) drawn for a stock gamble, which only moves money
      that is positive after the table effects. */
  function ApplyAction(s: Stats, a: Action, swing: real): (r: Stats)
    ensures r.efficiency == s.efficiency && r.patience == s.patience
    ensures r.knowledge == Adjusted(s.knowledge, DeltaOf(Effects(a), Knowledge))
    ensures r.desire == Adjusted(s.desire, DeltaOf(Effects(a), Desire))
    ensures a != Stocks ==> r.money == Adjusted(s.money, DeltaOf(Effects(a), Money))
    ensures a == Stocks ==> r.money == (if s.money > 0 then s.money + StockChange(s.money, swing) else s.money)
  {
    var t := ApplyEffects(s, Effects(a));
    assert Get(t, Money) == t.money;
    if a == Stocks && t.money > 0 then t.(money := t.money + StockChange(t.money, swing)) else t
  }

  /** A gamble with a swing of at most ten percent loses at most the money it
      is applied to. */
  lemma StockChangeBounded(money: int, swing: real)
    requires money > 0
    requires -0.1 <= swing <= 0.1
    ensures -money <= StockChange(money, swing) <= money
    ensures StockChange(money, -0.1) <= StockChange(money, swing) <= StockChange(money, 0.1)
  {
    var m := money as real;
    NonNegativeProduct(m, swing + 0.1);
    NonNegativeProduct(m, 0.1 - swing);
    assert m * (swing + 0.1) == m * swing + m * 0.1;
    assert m * (0.1 - swing) == m * 0.1 - m * swing;
  }

  lemma NonNegativeProduct(x: real, y: real)
    requires x >= 0.0 && y >= 0.0
    ensures x * y >= 0.0
  {
  }

  /** Money never becomes negative through an action: its only negative
      delta is -1, which is skipped at 0, and a gamble loses at most the
      money at stake. */
  lemma ApplyActionKeepsMoney(s: Stats, a: Action, swing: real)
    ensures s.money >= 0 && -0.1 <= swing <= 0.1 ==> ApplyAction(s, a, swing).money >= 0
  {
    if a == Stocks && s.money > 0 && -0.1 <= swing <= 0.1 {
      StockChangeBounded(s.money, swing);
    }
  }

  /** An attribute that is zero never goes below zero, whatever the action. */
  lemma ZeroNeverGoesNegative(s: Stats, a: Action, swing: real, st: Stat)
    requires Get(s, st) == 0
    ensures Get(ApplyAction(s, a, swing), st) >= 0
  {
  }

  /** A positive attribute can still end below zero: desire 1 after 睡觉. */
  lemma SleepCanMakeDesireNegative()
    ensures ApplyAction(Stats(0, 0, 1, 1, 3), Sleep, 0.0).desire == -1
  {
    assert Effects(Sleep) == [Effect(Desire, -2)];
    assert DeltaOf(Effects(Sleep), Desire) == -2;
  }
}
