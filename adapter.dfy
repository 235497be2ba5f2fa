/** multipleKnapsack of src/global/app.ts: the console entry point in front
    of doubleKnapsack. It checks the hardware and transporter arrays in a
    fixed order, builds the item types, takes each driver's weight off the
    capacity of the transporter and runs the two-container split. */
module Adapter {
  import opened Types
  import opened Ordering
  import opened Solver
  import opened Orchestrator

  datatype Option<T> = None | Some(value: T)

  /** The digit character of `d`. */
  function Digit(d: nat): (c: char)
    requires d < 10
    ensures '0' <= c <= '9' && c as int - '0' as int == d
  {
    "0123456789"[d]
  }

  /** `n` written in decimal, as JavaScript turns a non-negative integer
      into a string. */
  function Decimal(n: nat): (s: string)
    ensures |s| > 0 && forall k :: 0 <= k < |s| ==> '0' <= s[k] <= '9'
    ensures s[0] == '0' <==> n == 0
  {
    if n < 10 then [Digit(n)] else Decimal(n / 10) + [Digit(n % 10)]
  }

  /** The number a string of decimal digits stands for. */
  function DigitsValue(s: string): nat
    requires forall k :: 0 <= k < |s| ==> '0' <= s[k] <= '9'
  {
    if s == [] then 0 else DigitsValue(s[..|s| - 1]) * 10 + (s[|s| - 1] as int - '0' as int)
  }

  /** Reading the decimal form back gives the number: `Decimal` is `String(n)`
      for a natural number and loses nothing. */
  lemma {:induction false} DecimalRoundTrip(n: nat)
    ensures DigitsValue(Decimal(n)) == n
  {
    if n >= 10 {
      DecimalRoundTrip(n / 10);
      var s := Decimal(n);
      assert s[..|s| - 1] == Decimal(n / 10);
    }
  }

  /** The name of the item type at index `i`: `(i + 1) + "."`. */
  function Name(i: nat): string
  {
    Decimal(i + 1) + "."
  }

  /** The item types built from the three hardware arrays. */
  function Items(counts: seq<int>, weights: seq<int>, values: seq<int>): (items: seq<Item>)
    requires |counts| == |weights| == |values|
    ensures |items| == |counts|
    ensures Weights(items) == weights && Values(items) == values
    ensures forall i :: 0 <= i < |items| ==> items[i].count == counts[i] && items[i].name == Name(i)
  {
    seq(|counts|, i requires 0 <= i < |counts| => Item(Name(i), counts[i], weights[i], values[i]))
  }

  /** Some entry of `a` is not positive. */
  predicate SomeNotPositive(a: seq<int>)
  {
    exists i :: 0 <= i < |a| && a[i] <= 0
  }

  /** Some driver is heavier than the capacity of the transporter. */
  predicate SomeOverweight(capacities: seq<int>, drivers: seq<int>)
    requires |capacities| == |drivers|
  {
    exists i :: 0 <= i < |capacities| && capacities[i] - drivers[i] < 0
  }

  /** The driver weights given, or 0 for every transporter when there are
      none. */
  function Drivers(capacities: seq<int>, driverWeights: Option<seq<int>>): (drivers: seq<int>)
    ensures driverWeights.None? ==> |drivers| == |capacities| && forall i :: 0 <= i < |capacities| ==> drivers[i] == 0
    ensures driverWeights.Some? ==> drivers == driverWeights.value
  {
    match driverWeights
    case None => seq(|capacities|, _ => 0)
    case Some(d) => d
  }

  /** The checks of multipleKnapsack as written, in their order: on success,
      the usable capacity of each transporter. */
  function Check(counts: seq<int>, weights: seq<int>, values: seq<int>, capacities: seq<int>, drivers: seq<int>): (r: Result<seq<int>>)
    ensures r.Success? ==> |counts| == |weights| == |values| > 0 && |capacities| == |drivers|
    ensures r.Success? ==> |r.value| == |capacities| && forall i :: 0 <= i < |capacities| ==> r.value[i] >= 0
  {
    if |counts| != |weights| || |counts| != |values| then Failure(HardwareArrayLengths)
    else if |counts| == 0 then Failure(NoHardwareTypes)
    else if SomeNotPositive(counts) || SomeNotPositive(weights) || SomeNotPositive(values) then Failure(InvalidValues)
    else if |capacities| != |drivers| then Failure(TransporterArrayLengths)
    else if SomeOverweight(capacities, drivers) then Failure(InvalidTransporter)
    else Success(seq(|capacities|, i requires 0 <= i < |capacities| => capacities[i] - drivers[i]))
  }

  /** The checks accept exactly the inputs with three hardware arrays of one
      non-zero length holding only positive numbers, and transporter arrays of
      one length whose drivers all fit; what they hand on is each
      transporter's capacity less its driver, none of it negative. */
  lemma CheckAccepts(counts: seq<int>, weights: seq<int>, values: seq<int>, capacities: seq<int>, drivers: seq<int>)
    ensures var r := Check(counts, weights, values, capacities, drivers);
      && (r.Success? <==>
            && |counts| == |weights| == |values| > 0
            && (forall i :: 0 <= i < |counts| ==> counts[i] > 0 && weights[i] > 0 && values[i] > 0)
            && |capacities| == |drivers|
            && (forall i :: 0 <= i < |capacities| ==> capacities[i] >= drivers[i]))
      && (r.Success? ==>
            && |r.value| == |capacities|
            && forall i :: 0 <= i < |capacities| ==> r.value[i] == capacities[i] - drivers[i] >= 0)
  {
  }

  /** The first failing check decides the error. */
  lemma CheckOrder(counts: seq<int>, weights: seq<int>, values: seq<int>, capacities: seq<int>, drivers: seq<int>)
    ensures var r := Check(counts, weights, values, capacities, drivers);
      var lengthsMatch := |counts| == |weights| == |values|;
      var positive := !SomeNotPositive(counts) && !SomeNotPositive(weights) && !SomeNotPositive(values);
      && (r == Failure(HardwareArrayLengths) <==> !lengthsMatch)
      && (r == Failure(NoHardwareTypes) <==> lengthsMatch && |counts| == 0)
      && (r == Failure(InvalidValues) <==> lengthsMatch && |counts| > 0 && !positive)
      && (r == Failure(TransporterArrayLengths) <==> lengthsMatch && |counts| > 0 && positive && |capacities| != |drivers|)
      && (r == Failure(InvalidTransporter) <==>
            lengthsMatch && |counts| > 0 && positive && |capacities| == |drivers| && SomeOverweight(capacities, drivers))
  {
  }

  /** The checks let a single transporter through, although doubleKnapsack
      adds up the capacities of two. */
  lemma CheckPassesOneTransporter()
    ensures Check([1], [1], [1], [5], [0]) == Success([5])
  {
    var one, caps, drivers := [1], [5], [0];
    assert !SomeNotPositive(one) by { assert forall i :: 0 <= i < |one| ==> one[i] == 1; }
    assert !SomeOverweight(caps, drivers) by { assert forall i :: 0 <= i < |caps| ==> caps[i] - drivers[i] == 5; }
    var r := Check(one, one, one, caps, drivers);
    assert r.Success?;
    assert |r.value| == 1 && r.value[0] == 5;
    assert r.value == [5];
  }

  /** multipleKnapsack with a check for exactly two transporters after the
      checks as written; the split runs on the pruned knapsack of
      src/algorithm.worker.ts. */
  function MultipleKnapsack(counts: seq<int>, weights: seq<int>, values: seq<int>, capacities: seq<int>,
                            driverWeights: Option<seq<int>>): (r: Result<Split>)
    ensures r.Success? ==>
      var tc := r.value.transporterCounts;
      && |capacities| == 2 && |r.value.counts| == |counts|
      && |tc| == 2 && |tc[0]| == |counts| && |tc[1]| == |counts|
      && forall i :: 0 <= i < |counts| ==> tc[0][i] + tc[1][i] == r.value.counts[i]
  {
    match Check(counts, weights, values, capacities, Drivers(capacities, driverWeights))
    case Failure(err) => Failure(err)
    case Success(usable) =>
      if |usable| != 2 then Failure(TransporterCount)
      else
        CheckAccepts(counts, weights, values, capacities, Drivers(capacities, driverWeights));
        DoubleKnapsack(Pruned, Items(counts, weights, values), usable)
  }

  /** Leaving the driver weights out is giving 0 for each transporter. */
  lemma DriversDefault(counts: seq<int>, weights: seq<int>, values: seq<int>, capacities: seq<int>)
    ensures MultipleKnapsack(counts, weights, values, capacities, None)
         == MultipleKnapsack(counts, weights, values, capacities, Some(seq(|capacities|, _ => 0)))
  {
    assert Drivers(capacities, None) == Drivers(capacities, Some(seq(|capacities|, _ => 0)));
  }

  /** The two-container split of the item types built from the hardware
      arrays, stated on those arrays. */
  lemma SplitLoads(counts: seq<int>, weights: seq<int>, values: seq<int>, usable: seq<int>)
    requires |counts| == |weights| == |values|
    requires forall i :: 0 <= i < |counts| ==> counts[i] > 0 && weights[i] > 0
    requires |usable| == 2 && usable[0] >= 0 && usable[1] >= 0
    ensures var r := DoubleKnapsack(Pruned, Items(counts, weights, values), usable);
      r.Success? ==>
        var tc := r.value.transporterCounts;
        && |tc| == 2 && |tc[0]| == |counts| && |tc[1]| == |counts|
        && (forall i :: 0 <= i < |counts| ==> 0 <= tc[0][i] && 0 <= tc[1][i] && tc[0][i] + tc[1][i] <= counts[i])
        && Dot(tc[0], weights) <= usable[0]
        && Dot(tc[1], weights) <= usable[1]
        && r.value.value == Dot(tc[0], values) + Dot(tc[1], values)
  {
    var items := Items(counts, weights, values);
    assert ValidItems(items);
    DoubleKnapsackDivides(Pruned, items, usable);
    DoubleKnapsackFits(Pruned, items, usable);
    DoubleKnapsackValue(Pruned, items, usable);
  }

  /** Whatever multipleKnapsack returns loads each of the two transporters
      with no more than its capacity less its driver, takes no more of an
      item type than there is and never a negative number, and reports the
      value both loads carry together. */
  lemma MultipleKnapsackLoads(counts: seq<int>, weights: seq<int>, values: seq<int>, capacities: seq<int>,
                              driverWeights: Option<seq<int>>)
    ensures var r := MultipleKnapsack(counts, weights, values, capacities, driverWeights);
      var drivers := Drivers(capacities, driverWeights);
      r.Success? ==>
        var tc := r.value.transporterCounts;
        && |counts| == |weights| == |values| && |capacities| == |drivers| == 2
        && |tc| == 2 && |tc[0]| == |counts| && |tc[1]| == |counts|
        && (forall i :: 0 <= i < |counts| ==> 0 <= tc[0][i] && 0 <= tc[1][i] && tc[0][i] + tc[1][i] <= counts[i])
        && Dot(tc[0], weights) <= capacities[0] - drivers[0]
        && Dot(tc[1], weights) <= capacities[1] - drivers[1]
        && r.value.value == Dot(tc[0], values) + Dot(tc[1], values)
  {
    var drivers := Drivers(capacities, driverWeights);
    var checked := Check(counts, weights, values, capacities, drivers);
    CheckAccepts(counts, weights, values, capacities, drivers);
    if checked.Success? && |checked.value| == 2 {
      var usable := checked.value;
      assert MultipleKnapsack(counts, weights, values, capacities, driverWeights)
          == DoubleKnapsack(Pruned, Items(counts, weights, values), usable);
      SplitLoads(counts, weights, values, usable);
    }
  }
}
