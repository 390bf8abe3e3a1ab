/** Per-action trigger counts, kept in first-trigger order like the keys of
    a plain object, and the choice of the most triggered action. */
module Tally {
  import opened Actions

  datatype Count = Count(action: Action, times: nat)

  /** The actions that have an entry. */
  function Keys(cs: seq<Count>): set<Action>
    decreases |cs|
  {
    if cs == [] then {} else {cs[0].action} + Keys(cs[1..])
  }

  /** No action has two entries. */
  ghost predicate KeysDistinct(cs: seq<Count>)
    decreases |cs|
  {
    cs != [] ==> cs[0].action !in Keys(cs[1..]) && KeysDistinct(cs[1..])
  }

  /** How often `a` was triggered; 0 when it has no entry. */
  function Times(cs: seq<Count>, a: Action): nat
  {
    if cs == [] then 0
    else if cs[0].action == a then cs[0].times
    else Times(cs[1..], a)
  }

  /** Counts one more trigger of `a`: its entry grows in place, or a new entry
      with count 1 is appended. */
  function Bump(cs: seq<Count>, a: Action): (r: seq<Count>)
    ensures Times(r, a) == Times(cs, a) + 1
    ensures forall b :: b != a ==> Times(r, b) == Times(cs, b)
    ensures Keys(r) == Keys(cs) + {a}
    ensures KeysDistinct(cs) ==> KeysDistinct(r)
    ensures |cs| <= |r| && forall i :: 0 <= i < |cs| ==> r[i].action == cs[i].action
    decreases |cs|
  {
    if cs == [] then [Count(a, 1)]
    else if cs[0].action == a then
      assert ([Count(a, cs[0].times + 1)] + cs[1..])[1..] == cs[1..];
      [Count(a, cs[0].times + 1)] + cs[1..]
    else
      var rest := Bump(cs[1..], a);
      assert ([cs[0]] + rest)[1..] == rest;
      [cs[0]] + rest
  }

  /** Every entry kept, every count back at zero. */
  function Zeroed(cs: seq<Count>): (r: seq<Count>)
    ensures Keys(r) == Keys(cs)
    ensures forall a :: Times(r, a) == 0
    ensures KeysDistinct(cs) ==> KeysDistinct(r)
    ensures |r| == |cs| && forall i :: 0 <= i < |cs| ==> r[i].action == cs[i].action && r[i].times == 0
    decreases |cs|
  {
    if cs == [] then []
    else
      var rest := Zeroed(cs[1..]);
      assert ([Count(cs[0].action, 0)] + rest)[1..] == rest;
      [Count(cs[0].action, 0)] + rest
  }

  /** Entry `k` has the highest count, and every earlier entry a smaller one. */
  ghost predicate FirstMaximum(cs: seq<Count>, k: int)
  {
    && 0 <= k < |cs|
    && (forall j :: 0 <= j < |cs| ==> cs[j].times <= cs[k].times)
    && (forall j :: 0 <= j < k ==> cs[j].times < cs[k].times)
  }

  /** Position of the entry for `a`, or `|cs|` when it has none. */
  function IndexOf(cs: seq<Count>, a: Action): (i: nat)
    ensures i <= |cs|
    ensures i < |cs| <==> a in Keys(cs)
    ensures i < |cs| ==> cs[i].action == a && Times(cs, a) == cs[i].times
    decreases |cs|
  {
    if cs == [] then 0
    else if cs[0].action == a then 0
    else 1 + IndexOf(cs[1..], a)
  }

  /** With distinct keys, the entry at position `k` is the one for its action. */
  lemma {:induction false} IndexOfEntry(cs: seq<Count>, k: int)
    requires KeysDistinct(cs)
    requires 0 <= k < |cs|
    ensures IndexOf(cs, cs[k].action) == k
    decreases |cs|
  {
    if k > 0 {
      KeysContainEntries(cs[1..], k - 1);
      IndexOfEntry(cs[1..], k - 1);
    }
  }

  lemma {:induction false} KeysContainEntries(cs: seq<Count>, k: int)
    requires 0 <= k < |cs|
    ensures cs[k].action in Keys(cs)
    decreases |cs|
  {
    if k > 0 {
      KeysContainEntries(cs[1..], k - 1);
    }
  }

  /** The action with the highest positive count, the first in entry order on
      a tie; the first catalogue action when nothing has been triggered. */
  method MostTriggered(cs: seq<Count>) returns (a: Action)
    requires KeysDistinct(cs)
    ensures (forall i :: 0 <= i < |cs| ==> cs[i].times == 0) ==> a == Catalog[0]
    ensures (exists i :: 0 <= i < |cs| && cs[i].times > 0) ==>
              FirstMaximum(cs, IndexOf(cs, a)) && Times(cs, a) > 0
  {
    var maxCount := 0;
    var found := false;
    var best := Catalog[0];
    ghost var k := 0;
    var i := 0;
    while i < |cs|
      invariant 0 <= i <= |cs|
      invariant forall j :: 0 <= j < i ==> cs[j].times <= maxCount
      invariant !found ==> maxCount == 0 && best == Catalog[0]
      invariant found ==> 0 <= k < i && cs[k].action == best && cs[k].times == maxCount && maxCount > 0
      invariant found ==> forall j :: 0 <= j < k ==> cs[j].times < maxCount
    {
      if cs[i].times > maxCount {
        maxCount := cs[i].times;
        best := cs[i].action;
        found := true;
        k := i;
      }
      i := i + 1;
    }
    a := best;
    if found {
      IndexOfEntry(cs, k);
      assert FirstMaximum(cs, k);
    }
  }
}
