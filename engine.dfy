/** knapsack as the source runs it: a row object that every stage rebuilds
    and then scans in place, the stored rows, and the walk back through them
    with getValue. Each method is proved to compute what the functions of
    module Solver describe. */
module Engine {
  import opened Types
  import opened Frontier
  import opened Ordering
  import opened Solver

  /** The scan of one stage over the row object (src/algorithm.worker.ts:134-146):
      an entry with no unit left is skipped, the scan stops at the first entry
      one more unit would push past `capacity`, and every other entry takes a
      step. */
  method ScanStage(variant: Variant, row: Row, it: Item, capacity: int)
    requires WellFormed(row.entries, capacity) && ValidItem(it)
    modifies row
    ensures row.entries == Scan(variant, old(row.entries), 0, it, capacity)
  {
    var j := 0;
    while j < |row.entries|
      invariant WellFormed(row.entries, capacity) && j <= |row.entries|
      invariant Scan(variant, row.entries, j, it, capacity) == Scan(variant, old(row.entries), 0, it, capacity)
      decreases Bound(capacity) + 1 - j
    {
      RowLength(row.entries, capacity);
      var stop := ScanAt(variant, row, j, it, capacity);
      if stop {
        break;
      }
      j := j + 1;
    }
  }

  /** The scan's work at index `j` (src/algorithm.worker.ts:135-145): skip an
      entry with no unit left, stop at an entry one more unit would push past
      `capacity`, and otherwise take a step; the scan from `j` on is then the
      row itself or the scan from `j + 1` on of the new row. */
  method ScanAt(variant: Variant, row: Row, j: nat, it: Item, capacity: int) returns (stop: bool)
    requires WellFormed(row.entries, capacity) && j < |row.entries| && ValidItem(it)
    modifies row
    ensures WellFormed(row.entries, capacity) && j < |row.entries|
    ensures stop ==> row.entries == old(row.entries) == Scan(variant, old(row.entries), j, it, capacity)
    ensures !stop ==> Scan(variant, row.entries, j + 1, it, capacity) == Scan(variant, old(row.entries), j, it, capacity)
  {
    var entry := row.entries[j];
    if entry.rem == 0 {
      ScanSkips(variant, row.entries, j, it, capacity);
      return false;
    }
    if entry.cap + it.weight > capacity {
      ScanStops(variant, row.entries, j, it, capacity);
      return true;
    }
    StepWellFormed(variant, row.entries, j, it, capacity);
    ScanSteps(variant, row.entries, j, it, capacity);
    StepAt(variant, row, j, it, capacity);
    return false;
  }

  /** One step of the scan at index `j` (src/algorithm.worker.ts:141-145):
      the entry one unit heavier than entry `j` is stored when worthIt,
      searching after `j`, says it beats what the row already reaches. */
  method StepAt(variant: Variant, row: Row, j: nat, it: Item, capacity: int)
    requires WellFormed(row.entries, capacity) && j < |row.entries| && ValidItem(it)
    requires row.entries[j].rem != 0 && row.entries[j].cap + it.weight <= capacity
    modifies row
    ensures row.entries == Step(variant, old(row.entries), j, it, capacity)
  {
    var entry := row.entries[j];
    var nextCapacity := entry.cap + it.weight;
    var nextValue := entry.val + it.value;
    var before := row.entries;
    StepPrecondition(before, j, capacity, nextCapacity);
    var worth := WorthIt(before, nextCapacity, nextValue, j + 1);
    if worth {
      StepPlaces(variant, before, j, it, capacity);
      var e := Entry(nextCapacity, nextValue, entry.rem - 1);
      assert e == Extension(before, j, it);
      if variant == Pruned {
        row.SetValue(e, j + 1);
      } else {
        row.SetValueUnpruned(e, j + 1);
      }
    } else {
      StepKeeps(variant, before, j, it, capacity);
    }
  }

  /** An entry with no unit left is skipped. */
  lemma ScanSkips(variant: Variant, row: seq<Entry>, j: nat, it: Item, capacity: int)
    requires WellFormed(row, capacity) && j < |row| && ValidItem(it)
    requires row[j].rem == 0
    ensures Scan(variant, row, j, it, capacity) == Scan(variant, row, j + 1, it, capacity)
  {
  }

  /** The scan ends at the first entry one more unit would push past the
      capacity. */
  lemma {:induction false} ScanStops(variant: Variant, row: seq<Entry>, j: nat, it: Item, capacity: int)
    requires WellFormed(row, capacity) && j < |row| && ValidItem(it)
    requires row[j].rem != 0 && row[j].cap + it.weight > capacity
    ensures Scan(variant, row, j, it, capacity) == row
  {
  }

  /** Any other entry takes a step, and the scan goes on after it. */
  lemma ScanSteps(variant: Variant, row: seq<Entry>, j: nat, it: Item, capacity: int)
    requires WellFormed(row, capacity) && j < |row| && ValidItem(it)
    requires row[j].rem != 0 && row[j].cap + it.weight <= capacity
    requires WellFormed(Step(variant, row, j, it, capacity), capacity) && j < |Step(variant, row, j, it, capacity)|
    ensures Scan(variant, row, j, it, capacity) == Scan(variant, Step(variant, row, j, it, capacity), j + 1, it, capacity)
  {
    assert Scan(variant, row, j, it, capacity) == StepThenScan(variant, row, j, it, capacity);
  }

  /** What worthIt and setValue ask of the scan at `j`: the entries up to `j`
      are lighter than the candidate. */
  lemma StepPrecondition(row: seq<Entry>, j: nat, capacity: int, c: int)
    requires WellFormed(row, capacity) && j < |row| && row[j].cap < c
    ensures row[0].cap <= c
    ensures forall i :: 0 <= i < j + 1 ==> row[i].cap < c
  {
    assert row[0].cap <= row[j].cap;
  }

  /** One stage of knapsack (src/algorithm.worker.ts:127-146): a fresh row
      object holding the previous row with the whole stock of `it` unused,
      scanned in place. */
  method Stage(variant: Variant, prev: seq<Entry>, it: Item, capacity: int) returns (row: Row)
    requires WellFormed(prev, capacity) && ValidItem(it)
    ensures fresh(row)
    ensures row.entries == NextRow(variant, prev, it, capacity)
  {
    ResetWellFormed(prev, it.count, capacity);
    row := new Row(Reset(prev, it.count));
    ScanStage(variant, row, it, capacity);
  }

  /** The stages of knapsack (src/algorithm.worker.ts:121-153): each item
      type in turn gets its stage, whose row is stored; the stages stop once
      the heaviest entry leaves at most `deviation` of `capacity` unused.
      `last` is the row in use at the end. */
  method Stages(variant: Variant, sItems: seq<Item>, capacity: int, deviation: int) returns (rows: seq<seq<Entry>>, last: seq<Entry>)
    requires ValidItems(sItems)
    ensures rows == Grow(variant, sItems, capacity, deviation, 0, Initial)
    ensures |last| > 0 && last == FinalRow(rows)
  {
    ghost var all := Grow(variant, sItems, capacity, deviation, 0, Initial);
    rows := [];
    last := Initial;
    var i := 0;
    while i < |sItems|
      invariant i <= |sItems| && |rows| == i && WellFormed(last, capacity)
      invariant rows + Grow(variant, sItems, capacity, deviation, i, last) == all
      invariant forall s :: 0 <= s < |rows| ==> |rows[s]| > 0
      invariant last == FinalRow(rows)
    {
      var row := Stage(variant, last, sItems[i], capacity);
      var next := row.entries;
      GrowNext(variant, sItems, capacity, deviation, i, last, rows, all);
      rows := rows + [next];
      last := next;
      if capacity - Last(last).cap <= deviation {
        assert rows == all;
        break;
      }
      i := i + 1;
    }
    if i == |sItems| {
      GrowDone(variant, sItems, capacity, deviation, last, rows, all);
    }
  }

  /** The stage at `i` stores the next row and, unless it is close enough to
      `capacity`, goes on from it. */
  lemma GrowNext(variant: Variant, sItems: seq<Item>, capacity: int, deviation: int, i: nat, prev: seq<Entry>,
                 rows: seq<seq<Entry>>, all: seq<seq<Entry>>)
    requires ValidItems(sItems) && i < |sItems| && WellFormed(prev, capacity)
    requires rows + Grow(variant, sItems, capacity, deviation, i, prev) == all
    ensures var next := NextRow(variant, prev, sItems[i], capacity);
      && (capacity - Last(next).cap <= deviation ==> rows + [next] == all)
      && (capacity - Last(next).cap > deviation ==>
            (rows + [next]) + Grow(variant, sItems, capacity, deviation, i + 1, next) == all)
  {
    var next := NextRow(variant, prev, sItems[i], capacity);
    if capacity - Last(next).cap > deviation {
      assert rows + ([next] + Grow(variant, sItems, capacity, deviation, i + 1, next))
        == (rows + [next]) + Grow(variant, sItems, capacity, deviation, i + 1, next);
    }
  }

  /** Once the stages have run out of item types, every row is stored. */
  lemma GrowDone(variant: Variant, sItems: seq<Item>, capacity: int, deviation: int, prev: seq<Entry>,
                 rows: seq<seq<Entry>>, all: seq<seq<Entry>>)
    requires ValidItems(sItems) && WellFormed(prev, capacity)
    requires rows + Grow(variant, sItems, capacity, deviation, |sItems|, prev) == all
    ensures rows == all
  {
    assert rows + [] == rows;
  }

  /** Walking back one row further continues the walk already made. */
  function Resume(r: Result<Unwound>, counts: seq<int>): Result<Unwound>
  {
    match r
    case Failure(err) => Failure(err)
    case Success(u) => Success(Unwound(u.counts + counts, u.residual))
  }

  lemma ResumeTwice(r: Result<Unwound>, c1: seq<int>, c2: seq<int>)
    ensures Resume(Resume(r, c1), c2) == Resume(r, c1 + c2)
  {
    if r.Success? {
      assert (r.value.counts + c1) + c2 == r.value.counts + (c1 + c2);
    }
  }

  lemma ResumeNothing(r: Result<Unwound>)
    ensures Resume(r, []) == r
  {
    if r.Success? {
      assert r.value.counts + [] == r.value.counts;
    }
  }

  /** One row of the walk back: the units used at `weight` go in front of the
      counts already found, and their weight comes off. */
  lemma UnwindResume(rows: seq<seq<Entry>>, sItems: seq<Item>, k: nat, weight: int, counts: seq<int>)
    requires 0 < k <= |rows| <= |sItems|
    requires forall s :: 0 <= s < |rows| ==> |rows[s]| > 0
    requires rows[k - 1][0].cap <= weight
    ensures var n := UsedAt(rows[k - 1], sItems[k - 1], weight);
      Resume(Unwind(rows, sItems, k, weight), counts)
        == Resume(Unwind(rows, sItems, k - 1, weight - n * sItems[k - 1].weight), [n] + counts)
  {
    var n := UsedAt(rows[k - 1], sItems[k - 1], weight);
    ResumeTwice(Unwind(rows, sItems, k - 1, weight - n * sItems[k - 1].weight), [n], counts);
  }

  /** The walk back of src/algorithm.worker.ts:155-163: from the last stored
      row to the first, getValue finds the entry reached at the tracked
      weight, the units of that row's item type it used are put in front of
      the counts, and their weight is taken off. A weight below the first
      entry of a row is where getValue would read outside the row. */
  method WalkBack(rows: seq<seq<Entry>>, sItems: seq<Item>, top: int) returns (r: Result<Unwound>)
    requires |rows| <= |sItems|
    requires forall s :: 0 <= s < |rows| ==> |rows[s]| > 0 && Ascending(rows[s])
    ensures r == Unwind(rows, sItems, |rows|, top)
  {
    var counts: seq<int> := [];
    var weight := top;
    var k := |rows|;
    ResumeNothing(Unwind(rows, sItems, k, weight));
    while k > 0
      invariant 0 <= k <= |rows|
      invariant Resume(Unwind(rows, sItems, k, weight), counts) == Unwind(rows, sItems, |rows|, top)
    {
      if weight < rows[k - 1][0].cap {
        return Failure(LookupBelowFrontier);
      }
      var entry := GetValue(rows[k - 1], weight, 0);
      var n := sItems[k - 1].count - entry.rem;
      UnwindResume(rows, sItems, k, weight, counts);
      counts := [n] + counts;
      weight := weight - n * sItems[k - 1].weight;
      k := k - 1;
    }
    assert [] + counts == counts;
    r := Success(Unwound(counts, weight));
  }

  /** The map that restores the input order through reversedIndexes is
      Restore. */
  lemma {:induction false} RestoreThrough(c: seq<int>, order: seq<nat>, reversedIndexes: seq<nat>)
    requires |c| == |order| && forall i :: 0 <= i < |order| ==> i in order
    requires |reversedIndexes| == |order|
    requires forall i :: 0 <= i < |order| ==> reversedIndexes[i] == IndexOf(order, i)
    ensures forall i :: 0 <= i < |order| ==> reversedIndexes[i] < |c|
    ensures seq(|order|, i requires 0 <= i < |order| && reversedIndexes[i] < |c| => c[reversedIndexes[i]]) == Restore(c, order)
  {
  }

  /** knapsack (src/algorithm.worker.ts:113-174 as variant Pruned, and
      algorithm.js:130-206 as variant Unpruned): sort the item types by value
      per weight, run the stages, walk back, fail on weight left over, pad
      with zeros and restore the input order. */
  method Knapsack(variant: Variant, items: seq<Item>, capacity: int, deviation: int) returns (res: Result<Selection>)
    requires ValidItems(items)
    ensures res == KnapsackFn(variant, items, capacity, deviation)
  {
    var order := RatioOrder(items);
    var sItems := SortedItems(items);
    var reversedIndexes := ReversedIndexes(order);
    var rows, walked, top := Tabulate(variant, sItems, capacity, deviation);
    KnapsackFnIs(variant, items, capacity, deviation, rows, walked, top);
    res := Finish(walked, order, reversedIndexes, capacity - top);
  }

  /** For each input index, where the sorted order puts it
      (src/algorithm.worker.ts:116). */
  method ReversedIndexes(order: seq<nat>) returns (r: seq<nat>)
    requires forall i :: 0 <= i < |order| ==> i in order
    ensures |r| == |order|
    ensures forall i :: 0 <= i < |order| ==> r[i] == IndexOf(order, i)
  {
    r := seq(|order|, i requires 0 <= i < |order| => IndexOf(order, i));
  }

  /** knapsack's result is fixed by the rows, the walk back and the heaviest
      entry. */
  lemma KnapsackFnIs(variant: Variant, items: seq<Item>, capacity: int, deviation: int,
                     rows: seq<seq<Entry>>, walked: Result<Unwound>, top: int)
    requires ValidItems(items)
    requires rows == Grow(variant, SortedItems(items), capacity, deviation, 0, Initial)
    requires top == Last(FinalRow(rows)).cap
    requires walked == Unwind(rows, SortedItems(items), |rows|, top)
    ensures walked.Success? ==> |walked.value.counts| <= |RatioOrder(items)|
    ensures KnapsackFn(variant, items, capacity, deviation) == Conclude(walked, RatioOrder(items), capacity - top)
  {
  }

  /** The stages of knapsack, then the walk back from the heaviest entry of
      the last row (src/algorithm.worker.ts:121-163). */
  method Tabulate(variant: Variant, sItems: seq<Item>, capacity: int, deviation: int)
    returns (rows: seq<seq<Entry>>, walked: Result<Unwound>, top: int)
    requires ValidItems(sItems)
    ensures rows == Grow(variant, sItems, capacity, deviation, 0, Initial)
    ensures top == Last(FinalRow(rows)).cap
    ensures walked == Unwind(rows, sItems, |rows|, top)
  {
    var last;
    rows, last := Stages(variant, sItems, capacity, deviation);
    top := Last(last).cap;
    walked := WalkBack(rows, sItems, top);
  }

  /** The end of knapsack (src/algorithm.worker.ts:164-173): a weight left
      over throws, the counts are padded with zeros and put back in the input
      order through reversedIndexes. */
  method Finish(walked: Result<Unwound>, order: seq<nat>, reversedIndexes: seq<nat>, empty: int) returns (res: Result<Selection>)
    requires forall i :: 0 <= i < |order| ==> i in order
    requires walked.Success? ==> |walked.value.counts| <= |order|
    requires |reversedIndexes| == |order|
    requires forall i :: 0 <= i < |order| ==> reversedIndexes[i] == IndexOf(order, i)
    ensures res == Conclude(walked, order, empty)
  {
    if walked.Failure? {
      return Failure(walked.error);
    }
    if walked.value.residual != 0 {
      return Failure(ResidualWeight);
    }
    var padded := walked.value.counts + Zeros(|order| - |walked.value.counts|);
    RestoreThrough(padded, order, reversedIndexes);
    var restored := seq(|order|, i requires 0 <= i < |order| && reversedIndexes[i] < |padded| => padded[reversedIndexes[i]]);
    res := Success(Selection(restored, empty));
  }
}
