/** doubleKnapsack of src/algorithm.worker.ts (and its copy in algorithm.js):
    solve once for the two containers taken together, then divide the chosen
    units by solving again, by weight, for the smaller container; whatever
    is left goes into the other one. */
module Orchestrator {
  import opened Types
  import opened Ordering
  import opened Solver

  /** What doubleKnapsack resolves to, without its timings: the counts of the
      first stage, the counts of each container in the order the capacities
      were given, and the value of the first stage's counts. */
  datatype Split = Split(counts: seq<int>, transporterCounts: seq<seq<int>>, value: int)

  /** capacities.indexOf(Math.min(...capacities)): the first position holding
      a smallest capacity. */
  function SmallIndex(capacities: seq<int>): (k: nat)
    requires |capacities| > 0
    ensures k < |capacities|
    ensures forall i :: 0 <= i < |capacities| ==> capacities[k] <= capacities[i]
    ensures forall i :: 0 <= i < k ==> capacities[i] > capacities[k]
  {
    if |capacities| == 1 then 0
    else
      var k := SmallIndex(capacities[..|capacities| - 1]);
      if capacities[|capacities| - 1] < capacities[k] then |capacities| - 1 else k
  }

  /** The first stage: knapsack over the first two capacities added up, with
      no deviation; its counts are what resolveCounts is handed. */
  function FirstStage(variant: Variant, items: seq<Item>, capacities: seq<int>): (s: Selection)
    requires ValidItems(items) && |capacities| >= 2
    ensures |s.counts| == |items|
    ensures forall i :: 0 <= i < |items| ==> 0 <= s.counts[i] <= items[i].count
    ensures Dot(s.counts, Weights(items)) == capacities[0] + capacities[1] - s.empty
  {
    Solve(variant, items, capacities[0] + capacities[1], 0)
  }

  /** The second stage's sort keys: each item type's chosen total weight,
      `item.weight * counts[i]`. */
  function LoadKeys(items: seq<Item>, counts: seq<int>): (keys: seq<Ratio>)
    requires |counts| == |items|
    ensures |keys| == |items| && ValidKeys(keys)
  {
    seq(|items|, i requires 0 <= i < |items| => Ratio(items[i].weight * counts[i], 1))
  }

  /** sIndexes: the input indices by descending chosen total weight, ties in
      input order. */
  function LoadOrder(items: seq<Item>, counts: seq<int>): (order: seq<nat>)
    requires |counts| == |items|
    ensures |order| == |items|
    ensures forall t :: 0 <= t < |items| ==> order[t] < |items|
    ensures forall i :: 0 <= i < |items| ==> i in order
  {
    SortIsPermutation(LoadKeys(items, counts), |items|);
    SortDesc(LoadKeys(items, counts), |items|)
  }

  /** The second stage visits each item type once, heavier chosen loads
      first, and equal loads in input order. */
  lemma LoadOrderSorted(items: seq<Item>, counts: seq<int>)
    requires |counts| == |items|
    ensures var order := LoadOrder(items, counts);
      && IsPermutation(order, |items|)
      && forall t :: 0 <= t < |items| - 1 ==>
           var a, b := order[t], order[t + 1];
           && items[a].weight * counts[a] >= items[b].weight * counts[b]
           && (items[a].weight * counts[a] == items[b].weight * counts[b] ==> a < b)
  {
    var keys := LoadKeys(items, counts);
    SortIsPermutation(keys, |items|);
    SortIsSortedStable(keys, |items|);
  }

  /** The item types of the second stage, in load order: each is worth its
      weight and is stocked with what the first stage chose of it. */
  function SplitItems(items: seq<Item>, counts: seq<int>, order: seq<nat>): (sItems: seq<Item>)
    requires ValidItems(items) && |counts| == |items|
    requires forall i :: 0 <= i < |counts| ==> counts[i] >= 0
    requires forall t :: 0 <= t < |order| ==> order[t] < |items|
    ensures |sItems| == |order| && ValidItems(sItems)
    ensures Weights(sItems) == Pick(Weights(items), order)
    ensures forall t :: 0 <= t < |order| ==>
      sItems[t].value == sItems[t].weight && sItems[t].count == counts[order[t]]
  {
    seq(|order|, t requires 0 <= t < |order| =>
      items[order[t]].(value := items[order[t]].weight, count := counts[order[t]]))
  }

  /** The second stage: knapsack of the split items on the smallest capacity,
      stopping as soon as it leaves at most the first stage's unused capacity
      free. Its counts are in load order. */
  function SecondStage(variant: Variant, items: seq<Item>, capacities: seq<int>): (s: Selection)
    requires ValidItems(items) && |capacities| >= 2
    ensures |s.counts| == |items|
    ensures Dot(s.counts, Pick(Weights(items), LoadOrder(items, FirstStage(variant, items, capacities).counts)))
         == capacities[SmallIndex(capacities)] - s.empty
  {
    var first := FirstStage(variant, items, capacities);
    var order := LoadOrder(items, first.counts);
    Solve(variant, SplitItems(items, first.counts, order), capacities[SmallIndex(capacities)], first.empty)
  }

  /** `c[i] - d[i]` at every index. */
  function Difference(c: seq<int>, d: seq<int>): (r: seq<int>)
    requires |c| == |d|
    ensures |r| == |c| && forall i :: 0 <= i < |c| ==> r[i] == c[i] - d[i]
  {
    seq(|c|, i requires 0 <= i < |c| => c[i] - d[i])
  }

  /** The end of doubleKnapsack, given both stages: a failure when the
      second stage leaves more capacity free than the first did, otherwise
      the second stage's counts back in input order for the container at
      `small` and the rest for the other, and the value of the first stage's
      counts; summing that value over no item types at all is a TypeError of
      reduce. */
  function Divide(items: seq<Item>, small: nat, first: Selection, order: seq<nat>, second: Selection): (r: Result<Split>)
    requires |first.counts| == |items| && |second.counts| == |order| == |items|
    requires forall i :: 0 <= i < |order| ==> i in order
    ensures r == Failure(InfeasibleSplit) <==> second.empty > first.empty
    ensures r == Failure(NothingToSum) <==> second.empty <= first.empty && |items| == 0
    ensures r.Success? ==>
      var tc := r.value.transporterCounts;
      && r.value.counts == first.counts
      && |tc| == 2 && |tc[0]| == |items| && |tc[1]| == |items|
      && forall i :: 0 <= i < |items| ==> tc[0][i] + tc[1][i] == first.counts[i]
  {
    if second.empty > first.empty then Failure(InfeasibleSplit)
    else
      var counts0 := Restore(second.counts, order);
      var counts1 := Difference(first.counts, counts0);
      if |items| == 0 then Failure(NothingToSum)
      else Success(Split(first.counts,
                         if small == 0 then [counts0, counts1] else [counts1, counts0],
                         Dot(first.counts, Values(items))))
  }

  /** doubleKnapsack: the first stage, the load order, the second stage for
      the first container with the smallest capacity, and the division. */
  function DoubleKnapsack(variant: Variant, items: seq<Item>, capacities: seq<int>): (r: Result<Split>)
    requires ValidItems(items) && |capacities| >= 2
    ensures r.Failure? ==> r.error == InfeasibleSplit || r.error == NothingToSum
    ensures r.Success? ==>
      var tc := r.value.transporterCounts;
      && |r.value.counts| == |items|
      && |tc| == 2 && |tc[0]| == |items| && |tc[1]| == |items|
      && forall i :: 0 <= i < |items| ==> tc[0][i] + tc[1][i] == r.value.counts[i]
  {
    var first := FirstStage(variant, items, capacities);
    Divide(items, SmallIndex(capacities), first, LoadOrder(items, first.counts), SecondStage(variant, items, capacities))
  }

  /** doubleKnapsack fails exactly when the second stage leaves more free than
      the first, or, failing that, when there are no item types to sum:
      neither knapsack run throws. */
  lemma DoubleKnapsackFails(variant: Variant, items: seq<Item>, capacities: seq<int>)
    requires ValidItems(items) && |capacities| >= 2
    ensures var r := DoubleKnapsack(variant, items, capacities);
      var tooLoose := SecondStage(variant, items, capacities).empty > FirstStage(variant, items, capacities).empty;
      && (r == Failure(InfeasibleSplit) <==> tooLoose)
      && (r == Failure(NothingToSum) <==> !tooLoose && |items| == 0)
      && (r.Success? <==> !tooLoose && |items| > 0)
  {
  }

  /** Σ (c[i] - d[i]) * a[i] is Σ c[i] * a[i] - Σ d[i] * a[i]. */
  lemma {:induction false} DotDifference(c: seq<int>, d: seq<int>, a: seq<int>)
    requires |c| == |d| == |a|
    ensures Dot(Difference(c, d), a) == Dot(c, a) - Dot(d, a)
    decreases |c|
  {
    if c != [] {
      var n := |c|;
      DotDifference(c[..n - 1], d[..n - 1], a[..n - 1]);
      assert Difference(c, d)[..n - 1] == Difference(c[..n - 1], d[..n - 1]);
    }
  }

  /** What the second stage relies on and provides, in load order. */
  predicate Stages(items: seq<Item>, first: Selection, order: seq<nat>, second: Selection)
  {
    && |first.counts| == |items| && |second.counts| == |items| && |order| == |items|
    && (forall t :: 0 <= t < |items| ==> order[t] < |items|)
    && (forall i :: 0 <= i < |items| ==> i in order)
    && (forall i :: 0 <= i < |items| ==> 0 <= first.counts[i] <= items[i].count)
    && (forall t :: 0 <= t < |items| ==> 0 <= second.counts[t] <= first.counts[order[t]])
  }

  /** The division splits the first stage's counts exactly: two count lists,
      neither negative, adding up index by index to the first stage's counts
      and so to no more than the stock. */
  lemma DivideShares(items: seq<Item>, small: nat, first: Selection, order: seq<nat>, second: Selection)
    requires Stages(items, first, order, second)
    ensures var r := Divide(items, small, first, order, second);
      r.Success? ==>
        var tc := r.value.transporterCounts;
        && r.value.counts == first.counts
        && |tc| == 2 && |tc[0]| == |items| && |tc[1]| == |items|
        && forall i :: 0 <= i < |items| ==>
             && 0 <= tc[0][i] && 0 <= tc[1][i]
             && tc[0][i] + tc[1][i] == first.counts[i] <= items[i].count
  {
    var counts0 := Restore(second.counts, order);
    forall i | 0 <= i < |items| ensures 0 <= counts0[i] <= first.counts[i] {
      var t := IndexOf(order, i);
      assert counts0[i] == second.counts[t];
    }
  }

  /** The container at `small` gets what the second stage packed into its
      capacity; the other one the rest of the first stage's load, which the
      failure check keeps within what the first stage's capacity had beyond
      the smaller one. */
  lemma DivideWeighs(items: seq<Item>, small: nat, first: Selection, order: seq<nat>, second: Selection, total: int, smallCap: int)
    requires |first.counts| == |items| && |second.counts| == |items| && IsPermutation(order, |items|)
    requires Dot(first.counts, Weights(items)) == total - first.empty
    requires Dot(second.counts, Pick(Weights(items), order)) == smallCap - second.empty
    ensures var r := Divide(items, small, first, order, second);
      r.Success? ==>
        var tc := r.value.transporterCounts;
        && |tc| == 2 && |tc[0]| == |items| && |tc[1]| == |items|
        && Dot(tc[if small == 0 then 0 else 1], Weights(items)) == smallCap - second.empty
        && Dot(tc[if small == 0 then 1 else 0], Weights(items)) <= total - smallCap
  {
    if second.empty <= first.empty {
      var counts0 := Restore(second.counts, order);
      var counts1 := Difference(first.counts, counts0);
      DotRestore(second.counts, order, Weights(items));
      DotDifference(first.counts, counts0, Weights(items));
      assert Dot(counts1, Weights(items)) <= total - smallCap;
    }
  }

  /** The value reported is what the two count lists carry between them. */
  lemma DivideValue(items: seq<Item>, small: nat, first: Selection, order: seq<nat>, second: Selection)
    requires |first.counts| == |items| && |second.counts| == |order| == |items|
    requires forall i :: 0 <= i < |order| ==> i in order
    ensures var r := Divide(items, small, first, order, second);
      r.Success? ==>
        var tc := r.value.transporterCounts;
        && |tc| == 2 && |tc[0]| == |items| && |tc[1]| == |items|
        && r.value.value == Dot(tc[0], Values(items)) + Dot(tc[1], Values(items))
  {
    var counts0 := Restore(second.counts, order);
    DotDifference(first.counts, counts0, Values(items));
  }

  /** Both knapsack runs of doubleKnapsack deliver what the division relies
      on. */
  lemma StagesHold(variant: Variant, items: seq<Item>, capacities: seq<int>)
    requires ValidItems(items) && |capacities| >= 2
    ensures var first := FirstStage(variant, items, capacities);
      var order := LoadOrder(items, first.counts);
      var second := SecondStage(variant, items, capacities);
      && Stages(items, first, order, second)
      && IsPermutation(order, |items|)
      && Dot(first.counts, Weights(items)) == capacities[0] + capacities[1] - first.empty
      && Dot(second.counts, Pick(Weights(items), order)) == capacities[SmallIndex(capacities)] - second.empty
      && (capacities[SmallIndex(capacities)] >= 0 ==> second.empty >= 0)
  {
    var first := FirstStage(variant, items, capacities);
    var order := LoadOrder(items, first.counts);
    var sItems := SplitItems(items, first.counts, order);
    var second := Solve(variant, sItems, capacities[SmallIndex(capacities)], first.empty);
    assert SecondStage(variant, items, capacities) == second;
    LoadOrderSorted(items, first.counts);
    forall t | 0 <= t < |items| ensures second.counts[t] <= first.counts[order[t]] {
      assert sItems[t].count == first.counts[order[t]];
    }
  }

  /** What doubleKnapsack divides it divides exactly: two count lists, one
      per container, neither negative, adding up index by index to the first
      stage's counts and so to no more than the stock. */
  lemma DoubleKnapsackDivides(variant: Variant, items: seq<Item>, capacities: seq<int>)
    requires ValidItems(items) && |capacities| >= 2
    ensures var r := DoubleKnapsack(variant, items, capacities);
      r.Success? ==>
        var tc := r.value.transporterCounts;
        && r.value.counts == FirstStage(variant, items, capacities).counts
        && |tc| == 2 && |tc[0]| == |items| && |tc[1]| == |items|
        && forall i :: 0 <= i < |items| ==>
             && 0 <= tc[0][i] && 0 <= tc[1][i]
             && tc[0][i] + tc[1][i] == r.value.counts[i] <= items[i].count
  {
    var first := FirstStage(variant, items, capacities);
    StagesHold(variant, items, capacities);
    DivideShares(items, SmallIndex(capacities), first, LoadOrder(items, first.counts), SecondStage(variant, items, capacities));
  }

  /** With two containers of non-negative capacity, each gets no more than
      it holds. */
  lemma DoubleKnapsackFits(variant: Variant, items: seq<Item>, capacities: seq<int>)
    requires ValidItems(items) && |capacities| == 2
    requires capacities[0] >= 0 && capacities[1] >= 0
    ensures var r := DoubleKnapsack(variant, items, capacities);
      r.Success? ==>
        var tc := r.value.transporterCounts;
        && |tc| == 2 && |tc[0]| == |items| && |tc[1]| == |items|
        && Dot(tc[0], Weights(items)) <= capacities[0]
        && Dot(tc[1], Weights(items)) <= capacities[1]
  {
    var first := FirstStage(variant, items, capacities);
    var small := SmallIndex(capacities);
    StagesHold(variant, items, capacities);
    DivideWeighs(items, small, first, LoadOrder(items, first.counts), SecondStage(variant, items, capacities),
                 capacities[0] + capacities[1], capacities[small]);
  }

  /** The value doubleKnapsack reports is what the two containers carry
      between them. */
  lemma DoubleKnapsackValue(variant: Variant, items: seq<Item>, capacities: seq<int>)
    requires ValidItems(items) && |capacities| >= 2
    ensures var r := DoubleKnapsack(variant, items, capacities);
      r.Success? ==>
        var tc := r.value.transporterCounts;
        && |tc| == 2 && |tc[0]| == |items| && |tc[1]| == |items|
        && r.value.value == Dot(tc[0], Values(items)) + Dot(tc[1], Values(items))
  {
    var first := FirstStage(variant, items, capacities);
    DivideValue(items, SmallIndex(capacities), first, LoadOrder(items, first.counts), SecondStage(variant, items, capacities));
  }
}
