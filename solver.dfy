/** What knapsack computes, stage by stage, as functions: the scan that grows
    one stage's row, the stored rows, the walk back through them, and the
    whole solver; then what can be proved about them: the rows stay sorted
    and bounded, every entry goes back to an entry of the previous stage, and
    therefore the reconstruction never fails and its counts add up. */
module Solver {
  import opened Types
  import opened Frontier
  import opened Ordering

  /** The row knapsack starts from: capacity 0 reaches value 0. */
  const Initial: seq<Entry> := [Entry(0, 0, 0)]

  /** No entry of a row gets heavier than `capacity` (or 0 when that is
      negative, for the first entry). */
  function Bound(capacity: int): nat
  {
    if capacity < 0 then 0 else capacity
  }

  /** A row as knapsack keeps it: it starts at capacity 0, its capacities
      ascend, and none exceeds the bound. */
  predicate WellFormed(row: seq<Entry>, capacity: int)
  {
    && |row| > 0 && row[0].cap == 0 && Ascending(row)
    && forall i :: 0 <= i < |row| ==> row[i].cap <= Bound(capacity)
  }

  /** In a row that starts at 0 with ascending integer capacities the entry at
      index `i` weighs at least `i`. */
  lemma {:induction false} CapAtLeastIndex(row: seq<Entry>, i: nat)
    requires |row| > 0 && row[0].cap == 0 && Ascending(row) && i < |row|
    ensures row[i].cap >= i
  {
    if i > 0 {
      CapAtLeastIndex(row, i - 1);
    }
  }

  /** A well-formed row has at most one entry per capacity 0 .. Bound, which
      is why the scan over a growing row ends. */
  lemma RowLength(row: seq<Entry>, capacity: int)
    requires WellFormed(row, capacity)
    ensures |row| <= Bound(capacity) + 1
  {
    CapAtLeastIndex(row, |row| - 1);
    assert row[|row| - 1] in row;
  }

  /** One setValue during a scan at index `j` keeps the row well formed and
      lands after `j`. */
  lemma PlaceWellFormed(variant: Variant, row: seq<Entry>, j: nat, e: Entry, capacity: int)
    requires WellFormed(row, capacity) && j < |row|
    requires row[j].cap < e.cap <= capacity
    ensures j < PlaceIndex(row, e.cap)
    ensures WellFormed(Place(variant, row, e), capacity)
    ensures j + 1 < |Place(variant, row, e)|
  {
    PlaceFacts(variant, row, e);
    var k := FloorIndex(row, e.cap);
    FloorIsGreatest(row, e.cap, j);
    var r := Place(variant, row, e);
    assert r[0] == row[0];
    forall i | 0 <= i < |r| ensures r[i].cap <= Bound(capacity) {
      assert r[i] in r;
      if r[i] != e {
        var t :| 0 <= t < |row| && row[t] == r[i];
      }
    }
  }

  /** The start of a stage: every entry of the previous row, with the whole
      stock of the new item type still unused. */
  function Reset(row: seq<Entry>, count: int): seq<Entry>
  {
    seq(|row|, i requires 0 <= i < |row| => Entry(row[i].cap, row[i].val, count))
  }

  lemma ResetWellFormed(row: seq<Entry>, count: int, capacity: int)
    requires WellFormed(row, capacity)
    ensures WellFormed(Reset(row, count), capacity)
  {
  }

  /** The entry a step at `j` may place. */
  function Extension(row: seq<Entry>, j: nat, it: Item): Entry
    requires j < |row|
  {
    Entry(row[j].cap + it.weight, row[j].val + it.value, row[j].rem - 1)
  }

  /** One step of the scan at index `j`, for an entry with a unit left whose
      extension fits: the entry one unit heavier is placed when worthIt says
      it beats what the row already reaches. */
  function Step(variant: Variant, row: seq<Entry>, j: nat, it: Item, capacity: int): (r: seq<Entry>)
    requires WellFormed(row, capacity) && j < |row| && it.weight > 0
    requires row[j].rem != 0 && row[j].cap + it.weight <= capacity
  {
    assert row[0].cap <= row[j].cap;
    if Probe(row, row[j].cap + it.weight, row[j].val + it.value, j + 1, |row| - 1) then
      Place(variant, row, Extension(row, j, it))
    else row
  }

  /** A step keeps the row well formed and entry `j` in it. */
  lemma StepWellFormed(variant: Variant, row: seq<Entry>, j: nat, it: Item, capacity: int)
    requires WellFormed(row, capacity) && j < |row| && it.weight > 0
    requires row[j].rem != 0 && row[j].cap + it.weight <= capacity
    ensures WellFormed(Step(variant, row, j, it, capacity), capacity)
    ensures j < |Step(variant, row, j, it, capacity)|
  {
    PlaceWellFormed(variant, row, j, Extension(row, j, it), capacity);
  }

  /** The scan of one stage from index `j` (src/algorithm.worker.ts:134-146):
      entries with no unit left are skipped, the scan ends at the first entry
      one more unit would push past `capacity`, and every other entry takes
      a Step. */
  function Scan(variant: Variant, row: seq<Entry>, j: nat, it: Item, capacity: int): (r: seq<Entry>)
    requires WellFormed(row, capacity) && j <= |row| && it.weight > 0
    ensures WellFormed(r, capacity)
    decreases Bound(capacity) + 1 - j, 1
  {
    RowLength(row, capacity);
    if j == |row| then row
    else if row[j].rem == 0 then Scan(variant, row, j + 1, it, capacity)
    else if row[j].cap + it.weight > capacity then row
    else StepThenScan(variant, row, j, it, capacity)
  }

  /** The scan from an entry that takes a step: the step at `j`, then the
      scan from `j + 1`. */
  function StepThenScan(variant: Variant, row: seq<Entry>, j: nat, it: Item, capacity: int): (r: seq<Entry>)
    requires WellFormed(row, capacity) && j < |row| && it.weight > 0
    requires row[j].rem != 0 && row[j].cap + it.weight <= capacity
    ensures WellFormed(r, capacity)
    decreases Bound(capacity) + 1 - j, 0
  {
    RowLength(row, capacity);
    StepWellFormed(variant, row, j, it, capacity);
    Scan(variant, Step(variant, row, j, it, capacity), j + 1, it, capacity)
  }

  /** The last entry of a row: the heaviest one. */
  function Last(row: seq<Entry>): Entry
    requires |row| > 0
  {
    row[|row| - 1]
  }

  /** One whole stage for item type `it`: reset the stock, then scan. */
  function NextRow(variant: Variant, row: seq<Entry>, it: Item, capacity: int): (r: seq<Entry>)
    requires WellFormed(row, capacity) && ValidItem(it)
    ensures WellFormed(r, capacity)
  {
    ResetWellFormed(row, it.count, capacity);
    Scan(variant, Reset(row, it.count), 0, it, capacity)
  }

  /** The rows stored from stage `i` on, given the row left by the stage
      before (src/algorithm.worker.ts:124-153): each stage resets the stock,
      scans, is stored, and the stages stop once the heaviest entry leaves at
      most `deviation` of `capacity` unused. */
  function Grow(variant: Variant, sItems: seq<Item>, capacity: int, deviation: int, i: nat, row: seq<Entry>): (rows: seq<seq<Entry>>)
    requires ValidItems(sItems) && i <= |sItems| && WellFormed(row, capacity)
    ensures |rows| <= |sItems| - i
    ensures forall s :: 0 <= s < |rows| ==> WellFormed(rows[s], capacity)
    decreases |sItems| - i
  {
    if i == |sItems| then []
    else
      var next := NextRow(variant, row, sItems[i], capacity);
      if capacity - Last(next).cap <= deviation then [next]
      else [next] + Grow(variant, sItems, capacity, deviation, i + 1, next)
  }

  /** The row in use after the stages: the last stored one, or the initial
      row when there was no item type. */
  function FinalRow(rows: seq<seq<Entry>>): (r: seq<Entry>)
    requires forall s :: 0 <= s < |rows| ==> |rows[s]| > 0
    ensures |r| > 0
  {
    if rows == [] then Initial else rows[|rows| - 1]
  }

  /** The result of walking back through the first `i` rows: the count of
      each of the first `i` item types, and the weight left over. */
  datatype Unwound = Unwound(counts: seq<int>, residual: int)

  /** The units of `it` used by the entry getValue finds for `weight`. */
  function UsedAt(row: seq<Entry>, it: Item, weight: int): int
    requires |row| > 0 && row[0].cap <= weight
  {
    Used(it, row[FloorIndex(row, weight)])
  }

  /** The reconstruction of src/algorithm.worker.ts:156-163, for the rows
      below `i`: take the floor entry at the tracked weight, count the units
      it used, take their weight off. A weight below the first entry is the
      point where getValue reads outside the row. */
  function Unwind(rows: seq<seq<Entry>>, sItems: seq<Item>, i: nat, weight: int): (u: Result<Unwound>)
    requires i <= |rows| <= |sItems|
    requires forall s :: 0 <= s < |rows| ==> |rows[s]| > 0
    ensures u.Success? ==> |u.value.counts| == i
  {
    if i == 0 then Success(Unwound([], weight))
    else
      var row := rows[i - 1];
      if weight < row[0].cap then Failure(LookupBelowFrontier)
      else
        var n := UsedAt(row, sItems[i - 1], weight);
        match Unwind(rows, sItems, i - 1, weight - n * sItems[i - 1].weight)
        case Failure(err) => Failure(err)
        case Success(u) => Success(Unwound(u.counts + [n], u.residual))
  }

  /** The sort keys of knapsack: value per weight. */
  function RatioKeys(items: seq<Item>): (keys: seq<Ratio>)
    requires ValidItems(items)
    ensures |keys| == |items| && ValidKeys(keys)
  {
    seq(|items|, i requires 0 <= i < |items| => Ratio(items[i].value, items[i].weight))
  }

  /** The input indices in the order knapsack visits the item types. */
  function RatioOrder(items: seq<Item>): (order: seq<nat>)
    requires ValidItems(items)
    ensures |order| == |items|
    ensures forall t :: 0 <= t < |items| ==> order[t] < |items|
    ensures forall i :: 0 <= i < |items| ==> i in order
  {
    SortIsPermutation(RatioKeys(items), |items|);
    SortDesc(RatioKeys(items), |items|)
  }

  /** The order knapsack visits the item types in lists each of them once. */
  lemma RatioOrderIsPermutation(items: seq<Item>)
    requires ValidItems(items)
    ensures IsPermutation(RatioOrder(items), |items|)
  {
    SortIsPermutation(RatioKeys(items), |items|);
  }

  function Weights(items: seq<Item>): (w: seq<int>)
    ensures |w| == |items|
  {
    seq(|items|, i requires 0 <= i < |items| => items[i].weight)
  }

  function Values(items: seq<Item>): (v: seq<int>)
    ensures |v| == |items|
  {
    seq(|items|, i requires 0 <= i < |items| => items[i].value)
  }

  lemma PickValid(items: seq<Item>, order: seq<nat>)
    requires ValidItems(items) && IsPermutation(order, |items|)
    ensures ValidItems(Pick(items, order))
  {
  }

  /** The item types in the order knapsack visits them. */
  function SortedItems(items: seq<Item>): (sItems: seq<Item>)
    requires ValidItems(items)
    ensures |sItems| == |items| && ValidItems(sItems)
  {
    RatioOrderIsPermutation(items);
    PickValid(items, RatioOrder(items));
    Pick(items, RatioOrder(items))
  }

  /** The rows knapsack stores. */
  function Rows(variant: Variant, items: seq<Item>, capacity: int, deviation: int): (rows: seq<seq<Entry>>)
    requires ValidItems(items)
    ensures |rows| <= |items|
    ensures forall s :: 0 <= s < |rows| ==> WellFormed(rows[s], capacity)
  {
    Grow(variant, SortedItems(items), capacity, deviation, 0, Initial)
  }

  /** knapsack of src/algorithm.worker.ts (variant Pruned) and of algorithm.js
      (variant Unpruned): sort, grow the rows, walk back, fail on a weight left
      over, pad with zeros, restore the input order, and report the capacity
      the heaviest entry leaves unused. */
  function KnapsackFn(variant: Variant, items: seq<Item>, capacity: int, deviation: int): Result<Selection>
    requires ValidItems(items)
  {
    var order := RatioOrder(items);
    var sItems := SortedItems(items);
    var rows := Rows(variant, items, capacity, deviation);
    var top := Last(FinalRow(rows));
    Conclude(Unwind(rows, sItems, |rows|, top.cap), order, capacity - top.cap)
  }

  /** The end of knapsack once the walk back is done: its error, or the
      error for a weight left over, or the counts found padded with zeros
      for the item types no stage reached, put back in the input order, with
      the capacity left unused. */
  function Conclude(walked: Result<Unwound>, order: seq<nat>, empty: int): Result<Selection>
    requires forall i :: 0 <= i < |order| ==> i in order
    requires walked.Success? ==> |walked.value.counts| <= |order|
  {
    match walked
    case Failure(err) => Failure(err)
    case Success(u) =>
      if u.residual != 0 then Failure(ResidualWeight)
      else Success(Selection(Restore(u.counts + Zeros(|order| - |u.counts|), order), empty))
  }

  // ---------------------------------------------------------------------
  // Every entry goes back to an entry of the previous stage.

  /** Some entry of `row` has exactly this capacity and value. */
  function HasPoint(row: seq<Entry>, cap: int, val: int): bool
    decreases |row|
  {
    row != [] && ((Last(row).cap == cap && Last(row).val == val) || HasPoint(row[..|row| - 1], cap, val))
  }

  lemma {:induction false} HasPointOfMember(row: seq<Entry>, x: Entry)
    requires x in row
    ensures HasPoint(row, x.cap, x.val)
    decreases |row|
  {
    if Last(row) != x {
      var k :| 0 <= k < |row| && row[k] == x;
      assert row[..|row| - 1][k] == x;
      HasPointOfMember(row[..|row| - 1], x);
    }
  }

  lemma {:induction false} HasPointWitness(row: seq<Entry>, cap: int, val: int) returns (x: Entry)
    requires HasPoint(row, cap, val)
    ensures x in row && x.cap == cap && x.val == val
    decreases |row|
  {
    if Last(row).cap == cap && Last(row).val == val {
      x := Last(row);
    } else {
      x := HasPointWitness(row[..|row| - 1], cap, val);
      assert x in row[..|row| - 1];
    }
  }

  /** The units of the stage's item type an entry has used. */
  function Used(it: Item, e: Entry): int
  {
    it.count - e.rem
  }

  /** The capacity and value `e` had before the units of `it` it used. */
  function RootCap(it: Item, e: Entry): int
  {
    e.cap - Used(it, e) * it.weight
  }

  function RootVal(it: Item, e: Entry): int
  {
    e.val - Used(it, e) * it.value
  }

  /** `e` has used between 0 and all units of `it`, and taking those units
      off lands on an entry of `prev`. */
  predicate RootedEntry(e: Entry, prev: seq<Entry>, it: Item)
  {
    && 0 <= e.rem <= it.count
    && HasPoint(prev, RootCap(it, e), RootVal(it, e))
  }

  /** Every entry of `row` goes back to an entry of `prev`. */
  predicate Rooted(row: seq<Entry>, prev: seq<Entry>, it: Item)
  {
    forall e :: e in row ==> RootedEntry(e, prev, it)
  }

  lemma RootedMember(row: seq<Entry>, prev: seq<Entry>, it: Item, x: Entry)
    requires Rooted(row, prev, it) && x in row
    ensures RootedEntry(x, prev, it)
  {
  }

  /** At the start of a stage every entry is its own root. */
  lemma ResetRooted(row: seq<Entry>, it: Item)
    requires it.count >= 0
    ensures Rooted(Reset(row, it.count), row, it)
  {
    var r := Reset(row, it.count);
    forall e | e in r ensures RootedEntry(e, row, it) {
      var i :| 0 <= i < |r| && r[i] == e;
      HasPointOfMember(row, row[i]);
    }
  }

  /** One unit more of the stage's item type on a rooted entry has the same
      root. */
  lemma ExtendRooted(x: Entry, prev: seq<Entry>, it: Item)
    requires RootedEntry(x, prev, it) && x.rem != 0
    ensures RootedEntry(Entry(x.cap + it.weight, x.val + it.value, x.rem - 1), prev, it)
  {
    var e := Entry(x.cap + it.weight, x.val + it.value, x.rem - 1);
    assert Used(it, e) == Used(it, x) + 1;
    assert Used(it, e) * it.weight == Used(it, x) * it.weight + it.weight;
    assert Used(it, e) * it.value == Used(it, x) * it.value + it.value;
    assert RootCap(it, e) == RootCap(it, x) && RootVal(it, e) == RootVal(it, x);
  }

  /** Placing a rooted entry into a rooted row keeps it rooted. */
  lemma PlaceRooted(variant: Variant, row: seq<Entry>, e: Entry, prev: seq<Entry>, it: Item)
    requires Ascending(row) && |row| > 0 && row[0].cap <= e.cap
    requires Rooted(row, prev, it) && RootedEntry(e, prev, it)
    ensures Rooted(Place(variant, row, e), prev, it)
  {
    PlaceFacts(variant, row, e);
  }

  /** A step leaves the row alone or places the extension of entry `j`. */
  lemma StepCases(variant: Variant, row: seq<Entry>, j: nat, it: Item, capacity: int)
    requires WellFormed(row, capacity) && j < |row| && it.weight > 0
    requires row[j].rem != 0 && row[j].cap + it.weight <= capacity
    ensures row[0].cap <= Extension(row, j, it).cap
    ensures Step(variant, row, j, it, capacity) == row
      || Step(variant, row, j, it, capacity) == Place(variant, row, Extension(row, j, it))
  {
    assert row[0].cap <= row[j].cap;
  }

  /** A step that worthIt approves places the extension of entry `j`. */
  lemma {:induction false} StepPlaces(variant: Variant, row: seq<Entry>, j: nat, it: Item, capacity: int)
    requires WellFormed(row, capacity) && j < |row| && it.weight > 0
    requires row[j].rem != 0 && row[j].cap + it.weight <= capacity
    requires Probe(row, row[j].cap + it.weight, row[j].val + it.value, j + 1, |row| - 1)
    ensures row[0].cap <= Extension(row, j, it).cap
    ensures Step(variant, row, j, it, capacity) == Place(variant, row, Extension(row, j, it))
  {
    assert row[0].cap <= row[j].cap;
  }

  /** A step that worthIt turns down leaves the row alone. */
  lemma {:induction false} StepKeeps(variant: Variant, row: seq<Entry>, j: nat, it: Item, capacity: int)
    requires WellFormed(row, capacity) && j < |row| && it.weight > 0
    requires row[j].rem != 0 && row[j].cap + it.weight <= capacity
    requires !Probe(row, row[j].cap + it.weight, row[j].val + it.value, j + 1, |row| - 1)
    ensures Step(variant, row, j, it, capacity) == row
  {
  }

  /** A step adds only an entry one unit heavier than a rooted entry, so
      every entry stays rooted and no stock goes below zero. */
  lemma StepRooted(variant: Variant, row: seq<Entry>, j: nat, it: Item, capacity: int, prev: seq<Entry>)
    requires WellFormed(row, capacity) && j < |row| && it.weight > 0
    requires row[j].rem != 0 && row[j].cap + it.weight <= capacity
    requires Rooted(row, prev, it)
    ensures Rooted(Step(variant, row, j, it, capacity), prev, it)
  {
    StepCases(variant, row, j, it, capacity);
    assert row[j] in row;
    ExtendRooted(row[j], prev, it);
    PlaceRooted(variant, row, Extension(row, j, it), prev, it);
  }

  /** The whole scan keeps every entry rooted. */
  lemma {:induction false} ScanRooted(variant: Variant, row: seq<Entry>, j: nat, it: Item, capacity: int, prev: seq<Entry>)
    requires WellFormed(row, capacity) && j <= |row| && it.weight > 0
    requires Rooted(row, prev, it)
    ensures Rooted(Scan(variant, row, j, it, capacity), prev, it)
    decreases Bound(capacity) + 1 - j
  {
    RowLength(row, capacity);
    if j < |row| {
      if row[j].rem == 0 {
        ScanRooted(variant, row, j + 1, it, capacity, prev);
      } else if row[j].cap + it.weight <= capacity {
        StepRooted(variant, row, j, it, capacity, prev);
        StepWellFormed(variant, row, j, it, capacity);
        ScanRooted(variant, Step(variant, row, j, it, capacity), j + 1, it, capacity, prev);
        assert Scan(variant, row, j, it, capacity) == StepThenScan(variant, row, j, it, capacity);
      }
    }
  }

  /** A whole stage keeps every entry rooted in the row before it. */
  lemma NextRooted(variant: Variant, row: seq<Entry>, it: Item, capacity: int)
    requires WellFormed(row, capacity) && ValidItem(it)
    ensures Rooted(NextRow(variant, row, it, capacity), row, it)
  {
    ResetWellFormed(row, it.count, capacity);
    ResetRooted(row, it);
    ScanRooted(variant, Reset(row, it.count), 0, it, capacity, row);
  }

  /** Each of `rows` is rooted in the one before it, the first in `prev`;
      row `s` was grown with item type `i + s`. */
  predicate ChainedFrom(rows: seq<seq<Entry>>, prev: seq<Entry>, sItems: seq<Item>, i: nat)
    requires i + |rows| <= |sItems|
    decreases |rows|
  {
    rows == [] || (Rooted(rows[0], prev, sItems[i]) && ChainedFrom(rows[1..], rows[0], sItems, i + 1))
  }

  lemma {:induction false} ChainedAt(rows: seq<seq<Entry>>, prev: seq<Entry>, sItems: seq<Item>, i: nat, s: nat)
    requires i + |rows| <= |sItems| && ChainedFrom(rows, prev, sItems, i) && s < |rows|
    ensures Rooted(rows[s], if s == 0 then prev else rows[s - 1], sItems[i + s])
    decreases s
  {
    if s > 0 {
      ChainedAt(rows[1..], rows[0], sItems, i + 1, s - 1);
      assert rows[1..][s - 1] == rows[s];
      if s > 1 {
        assert rows[1..][s - 2] == rows[s - 1];
      }
    }
  }

  /** Each stored row is rooted in the row before it (the first in `row`). */
  lemma {:induction false} GrowRooted(variant: Variant, sItems: seq<Item>, capacity: int, deviation: int, i: nat, row: seq<Entry>)
    requires ValidItems(sItems) && i <= |sItems| && WellFormed(row, capacity)
    ensures ChainedFrom(Grow(variant, sItems, capacity, deviation, i, row), row, sItems, i)
    decreases |sItems| - i
  {
    if i < |sItems| {
      var next := NextRow(variant, row, sItems[i], capacity);
      NextRooted(variant, row, sItems[i], capacity);
      var rows := Grow(variant, sItems, capacity, deviation, i, row);
      if capacity - Last(next).cap > deviation {
        GrowRooted(variant, sItems, capacity, deviation, i + 1, next);
        assert rows[1..] == Grow(variant, sItems, capacity, deviation, i + 1, next);
      } else {
        assert rows[1..] == [];
      }
    }
  }

  /** The stored rows, well formed, each rooted in the one before and the
      first in the initial row. */
  predicate Chained(rows: seq<seq<Entry>>, sItems: seq<Item>, capacity: int)
  {
    && |rows| <= |sItems|
    && (forall s :: 0 <= s < |rows| ==> WellFormed(rows[s], capacity))
    && ChainedFrom(rows, Initial, sItems, 0)
  }

  lemma RowsChained(variant: Variant, items: seq<Item>, capacity: int, deviation: int)
    requires ValidItems(items)
    ensures Chained(Rows(variant, items, capacity, deviation), SortedItems(items), capacity)
  {
    GrowRooted(variant, SortedItems(items), capacity, deviation, 0, Initial);
  }

  /** Every entry up to the scan index `j` is lighter than the extension of
      entry `j`, which is where worthIt starts its search. */
  lemma {:induction false} ExtensionAboveScanned(row: seq<Entry>, j: nat, it: Item, capacity: int)
    requires WellFormed(row, capacity) && j < |row| && it.weight > 0
    ensures forall i :: 0 <= i < j + 1 ==> row[i].cap <= Extension(row, j, it).cap
  {
    forall i | 0 <= i < j + 1 ensures row[i].cap <= Extension(row, j, it).cap {
      assert row[i].cap <= row[j].cap;
    }
  }

  /** With pruning, a step whose row has its values in order asks worthIt
      exactly whether the floor entry of the extension is worth less than it,
      and places the extension with setValue only then. */
  lemma {:induction false} PrunedStepDecidesByFloor(row: seq<Entry>, j: nat, it: Item, capacity: int)
    requires WellFormed(row, capacity) && j < |row| && it.weight > 0
    requires row[j].rem != 0 && row[j].cap + it.weight <= capacity
    requires ValuesNonDecreasing(row)
    ensures var e := Extension(row, j, it);
      && row[0].cap <= e.cap
      && (row[FloorIndex(row, e.cap)].val < e.val ==> Step(Pruned, row, j, it, capacity) == UpsertPruned(row, e))
      && (row[FloorIndex(row, e.cap)].val >= e.val ==> Step(Pruned, row, j, it, capacity) == row)
  {
    var e := Extension(row, j, it);
    ProbeAtStep(row, j, it, capacity);
    if row[FloorIndex(row, e.cap)].val < e.val {
      StepPlaces(Pruned, row, j, it, capacity);
    } else {
      StepKeeps(Pruned, row, j, it, capacity);
    }
  }

  /** On a row whose values are in order, the worthIt of a step at `j`
      answers whether the floor entry of the extension is worth less. */
  lemma {:induction false} ProbeAtStep(row: seq<Entry>, j: nat, it: Item, capacity: int)
    requires WellFormed(row, capacity) && j < |row| && it.weight > 0
    requires row[j].cap + it.weight <= capacity
    requires ValuesNonDecreasing(row)
    ensures var e := Extension(row, j, it);
      && row[0].cap <= e.cap
      && (Probe(row, row[j].cap + it.weight, row[j].val + it.value, j + 1, |row| - 1) <==>
          row[FloorIndex(row, e.cap)].val < e.val)
  {
    var e := Extension(row, j, it);
    assert row[0].cap <= row[j].cap;
    ExtensionAboveScanned(row, j, it, capacity);
    ProbeOnOrderedValues(row, e.cap, e.val, j + 1);
  }

  /** With pruning, a step keeps the values of the row in order: worthIt lets
      through only an entry worth more than its floor entry, and setValue
      with pruning keeps the values in order after such an entry. */
  lemma {:induction false} StepKeepsValuesOrdered(row: seq<Entry>, j: nat, it: Item, capacity: int)
    requires WellFormed(row, capacity) && j < |row| && it.weight > 0
    requires row[j].rem != 0 && row[j].cap + it.weight <= capacity
    requires ValuesNonDecreasing(row)
    ensures ValuesNonDecreasing(Step(Pruned, row, j, it, capacity))
  {
    var e := Extension(row, j, it);
    PrunedStepDecidesByFloor(row, j, it, capacity);
    if row[FloorIndex(row, e.cap)].val < e.val {
      PrunedKeepsValuesOrdered(row, e);
    }
  }

  /** With pruning, the whole scan of a stage keeps the values in order. */
  lemma {:induction false} ScanKeepsValuesOrdered(row: seq<Entry>, j: nat, it: Item, capacity: int)
    requires WellFormed(row, capacity) && j <= |row| && it.weight > 0
    requires ValuesNonDecreasing(row)
    ensures ValuesNonDecreasing(Scan(Pruned, row, j, it, capacity))
    decreases Bound(capacity) + 1 - j
  {
    RowLength(row, capacity);
    if j < |row| {
      if row[j].rem == 0 {
        ScanKeepsValuesOrdered(row, j + 1, it, capacity);
      } else if row[j].cap + it.weight <= capacity {
        StepKeepsValuesOrdered(row, j, it, capacity);
        StepWellFormed(Pruned, row, j, it, capacity);
        ScanKeepsValuesOrdered(Step(Pruned, row, j, it, capacity), j + 1, it, capacity);
        assert Scan(Pruned, row, j, it, capacity) == StepThenScan(Pruned, row, j, it, capacity);
      }
    }
  }

  /** With pruning, a whole stage keeps the values in order. */
  lemma {:induction false} NextRowKeepsValuesOrdered(row: seq<Entry>, it: Item, capacity: int)
    requires WellFormed(row, capacity) && ValidItem(it)
    requires ValuesNonDecreasing(row)
    ensures ValuesNonDecreasing(NextRow(Pruned, row, it, capacity))
  {
    ResetWellFormed(row, it.count, capacity);
    ScanKeepsValuesOrdered(Reset(row, it.count), 0, it, capacity);
  }

  /** Every row of `rows` has its values in order. */
  predicate ValuesOrderedRows(rows: seq<seq<Entry>>)
  {
    forall s :: 0 <= s < |rows| ==> ValuesNonDecreasing(rows[s])
  }

  /** With pruning, every row the stages store has its values in order when
      the row they start from has. */
  lemma {:induction false} GrowKeepsValuesOrdered(sItems: seq<Item>, capacity: int, deviation: int, i: nat, row: seq<Entry>)
    requires ValidItems(sItems) && i <= |sItems| && WellFormed(row, capacity)
    requires ValuesNonDecreasing(row)
    ensures ValuesOrderedRows(Grow(Pruned, sItems, capacity, deviation, i, row))
    decreases |sItems| - i
  {
    if i < |sItems| {
      var next := NextRow(Pruned, row, sItems[i], capacity);
      NextRowKeepsValuesOrdered(row, sItems[i], capacity);
      var rows := Grow(Pruned, sItems, capacity, deviation, i, row);
      if capacity - Last(next).cap > deviation {
        var rest := Grow(Pruned, sItems, capacity, deviation, i + 1, next);
        GrowKeepsValuesOrdered(sItems, capacity, deviation, i + 1, next);
        assert rows == [next] + rest;
        forall s | 0 <= s < |rows| ensures ValuesNonDecreasing(rows[s]) {
          if s > 0 {
            assert rows[s] == rest[s - 1];
          } else {
            assert rows[s] == next;
          }
        }
      } else {
        assert rows == [next];
      }
    }
  }

  /** With pruning, every row knapsack stores has its values in order. */
  lemma {:induction false} RowsValuesOrdered(items: seq<Item>, capacity: int, deviation: int)
    requires ValidItems(items)
    ensures ValuesOrderedRows(Rows(Pruned, items, capacity, deviation))
  {
    GrowKeepsValuesOrdered(SortedItems(items), capacity, deviation, 0, Initial);
  }

  /** With pruning, on every row knapsack stores, worthIt answers exactly
      whether the floor entry of `c` is worth less than `v1`. */
  lemma {:induction false} RowsWorthItIsFloorTest(items: seq<Item>, capacity: int, deviation: int, s: nat, c: int, v1: int, a: nat)
    requires ValidItems(items)
    requires s < |Rows(Pruned, items, capacity, deviation)|
    requires c >= 0 && a <= |Rows(Pruned, items, capacity, deviation)[s]|
    requires forall i :: 0 <= i < a ==> Rows(Pruned, items, capacity, deviation)[s][i].cap <= c
    ensures var row := Rows(Pruned, items, capacity, deviation)[s];
      Probe(row, c, v1, a, |row| - 1) <==> row[FloorIndex(row, c)].val < v1
  {
    var row := Rows(Pruned, items, capacity, deviation)[s];
    RowsValuesOrdered(items, capacity, deviation);
    ProbeOnOrderedValues(row, c, v1, a);
  }

  /** An entry of a well-formed row is its own floor. */
  lemma FloorOfMember(row: seq<Entry>, capacity: int, x: Entry)
    requires WellFormed(row, capacity) && x in row
    ensures row[0].cap <= x.cap && row[FloorIndex(row, x.cap)] == x
  {
    var k :| 0 <= k < |row| && row[k] == x;
    FloorIsGreatest(row, x.cap, k);
  }

  /** One step of the walk back, from the weight of an entry `x` of row
      `i - 1`: the walk counts the units `x` used. */
  lemma {:induction false} UnwindStep(rows: seq<seq<Entry>>, sItems: seq<Item>, capacity: int, i: nat, x: Entry)
    requires Chained(rows, sItems, capacity) && 0 < i <= |rows|
    requires x in rows[i - 1]
    ensures var u := Unwind(rows, sItems, i - 1, RootCap(sItems[i - 1], x));
      u.Success? ==> Unwind(rows, sItems, i, x.cap) == Success(Unwound(u.value.counts + [Used(sItems[i - 1], x)], u.value.residual))
  {
    FloorOfMember(rows[i - 1], capacity, x);
  }

  /** The row below stage `i`: the initial row, or the row stage `i - 1`
      stored. */
  function Below(rows: seq<seq<Entry>>, i: nat): seq<Entry>
    requires i <= |rows|
  {
    if i == 0 then Initial else rows[i - 1]
  }

  /** Each stored row is rooted in the row below it. */
  lemma ChainedBelow(rows: seq<seq<Entry>>, sItems: seq<Item>, capacity: int, s: nat)
    requires Chained(rows, sItems, capacity) && s < |rows|
    ensures Rooted(rows[s], Below(rows, s), sItems[s])
  {
    ChainedAt(rows, Initial, sItems, 0, s);
  }

  /** A point of row `i - 1` is an entry of it whose units of item type
      `i - 1` go back to a point of the row below. */
  lemma PointRoot(rows: seq<seq<Entry>>, sItems: seq<Item>, capacity: int, i: nat, weight: int, val: int) returns (x: Entry)
    requires Chained(rows, sItems, capacity) && 0 < i <= |rows|
    requires HasPoint(rows[i - 1], weight, val)
    ensures x in rows[i - 1] && x.cap == weight && x.val == val
    ensures 0 <= Used(sItems[i - 1], x) <= sItems[i - 1].count
    ensures HasPoint(Below(rows, i - 1), RootCap(sItems[i - 1], x), RootVal(sItems[i - 1], x))
  {
    ChainedBelow(rows, sItems, capacity, i - 1);
    x := HasPointWitness(rows[i - 1], weight, val);
    RootedMember(rows[i - 1], Below(rows, i - 1), sItems[i - 1], x);
  }

  /** Σ c[s] * sItems[s].weight over the counts given. */
  function Weigh(c: seq<int>, sItems: seq<Item>): int
    requires |c| <= |sItems|
  {
    if c == [] then 0 else Weigh(c[..|c| - 1], sItems) + c[|c| - 1] * sItems[|c| - 1].weight
  }

  /** Σ c[s] * sItems[s].value over the counts given. */
  function Worth(c: seq<int>, sItems: seq<Item>): int
    requires |c| <= |sItems|
  {
    if c == [] then 0 else Worth(c[..|c| - 1], sItems) + c[|c| - 1] * sItems[|c| - 1].value
  }

  /** A walk back that succeeded and left no weight over, whose counts are
      within the stock of the first item types and add up to `weight` and
      `val`. */
  predicate Accounts(u: Result<Unwound>, sItems: seq<Item>, weight: int, val: int)
  {
    && u.Success? && u.value.residual == 0 && |u.value.counts| <= |sItems|
    && (forall s :: 0 <= s < |u.value.counts| ==> 0 <= u.value.counts[s] <= sItems[s].count)
    && Weigh(u.value.counts, sItems) == weight
    && Worth(u.value.counts, sItems) == val
  }

  /** One more count on an accounted walk accounts for one more item type. */
  lemma AccountsSnoc(u: Unwound, sItems: seq<Item>, n: int, weight: int, val: int)
    requires |u.counts| < |sItems| && 0 <= n <= sItems[|u.counts|].count
    requires Accounts(Success(u), sItems, weight - n * sItems[|u.counts|].weight, val - n * sItems[|u.counts|].value)
    ensures Accounts(Success(Unwound(u.counts + [n], u.residual)), sItems, weight, val)
  {
    var c := u.counts + [n];
    assert c[..|c| - 1] == u.counts;
  }

  /** The walk back from an entry `x` of row `i - 1` accounts for `x` when the
      walk from its root accounts for the root. */
  lemma {:induction false} UnwindCons(rows: seq<seq<Entry>>, sItems: seq<Item>, capacity: int, i: nat, x: Entry)
    requires Chained(rows, sItems, capacity) && 0 < i <= |rows|
    requires x in rows[i - 1] && 0 <= Used(sItems[i - 1], x) <= sItems[i - 1].count
    requires Accounts(Unwind(rows, sItems, i - 1, RootCap(sItems[i - 1], x)), sItems,
      RootCap(sItems[i - 1], x), RootVal(sItems[i - 1], x))
    ensures Accounts(Unwind(rows, sItems, i, x.cap), sItems, x.cap, x.val)
  {
    var n := Used(sItems[i - 1], x);
    var u := Unwind(rows, sItems, i - 1, RootCap(sItems[i - 1], x));
    UnwindStep(rows, sItems, capacity, i, x);
    AccountsSnoc(u.value, sItems, n, x.cap, x.val);
  }

  /** The walk back through no rows accounts for the initial row's point. */
  lemma {:induction false} UnwindBase(rows: seq<seq<Entry>>, sItems: seq<Item>, weight: int, val: int)
    requires |rows| <= |sItems| && (forall s :: 0 <= s < |rows| ==> |rows[s]| > 0)
    requires HasPoint(Initial, weight, val)
    ensures Accounts(Unwind(rows, sItems, 0, weight), sItems, weight, val)
  {
    var x := HasPointWitness(Initial, weight, val);
  }

  /** Walking back from a point of row `i - 1` never fails and ends at
      weight 0; the counts stay within stock and add up to the point's
      capacity and value. */
  lemma {:induction false} UnwindSound(rows: seq<seq<Entry>>, sItems: seq<Item>, capacity: int, i: nat, weight: int, val: int)
    requires Chained(rows, sItems, capacity) && i <= |rows|
    requires HasPoint(Below(rows, i), weight, val)
    ensures Accounts(Unwind(rows, sItems, i, weight), sItems, weight, val)
  {
    if i == 0 {
      UnwindBase(rows, sItems, weight, val);
    } else {
      var it := sItems[i - 1];
      var x := PointRoot(rows, sItems, capacity, i, weight, val);
      UnwindSound(rows, sItems, capacity, i - 1, RootCap(it, x), RootVal(it, x));
      UnwindCons(rows, sItems, capacity, i, x);
    }
  }

  /** The sums over the counts are the weighted sums of the columns they
      cover. */
  lemma {:induction false} WeighIsDot(c: seq<int>, sItems: seq<Item>)
    requires |c| <= |sItems|
    ensures Weigh(c, sItems) == Dot(c, Weights(sItems)[..|c|])
    ensures Worth(c, sItems) == Dot(c, Values(sItems)[..|c|])
    decreases |c|
  {
    if c != [] {
      var n := |c|;
      WeighIsDot(c[..n - 1], sItems);
      assert Weights(sItems)[..n][..n - 1] == Weights(sItems)[..n - 1];
      assert Values(sItems)[..n][..n - 1] == Values(sItems)[..n - 1];
    }
  }

  /** Padding counts that are within stock with zeros keeps them within
      stock. */
  lemma PaddedWithinStock(c: seq<int>, sItems: seq<Item>)
    requires ValidItems(sItems) && |c| <= |sItems|
    requires forall s :: 0 <= s < |c| ==> 0 <= c[s] <= sItems[s].count
    ensures var p := c + Zeros(|sItems| - |c|);
      forall s :: 0 <= s < |sItems| ==> 0 <= p[s] <= sItems[s].count
  {
  }

  /** Counts within the stock of the sorted item types, restored to the input
      order, are within the stock of the input item types. */
  lemma RestoreWithinStock(c: seq<int>, items: seq<Item>, order: seq<nat>)
    requires |c| == |items| && IsPermutation(order, |items|)
    requires forall t :: 0 <= t < |c| ==> 0 <= c[t] <= Pick(items, order)[t].count
    ensures forall i :: 0 <= i < |items| ==> 0 <= Restore(c, order)[i] <= items[i].count
  {
    RestoreInverts(c, order);
    forall i | 0 <= i < |items| ensures 0 <= Restore(c, order)[i] <= items[i].count {
      assert i in order;
      var t :| 0 <= t < |order| && order[t] == i;
      assert Restore(c, order)[i] == c[t];
    }
  }

  /** The heaviest entry of the last row is within a non-negative capacity. */
  lemma TopWithinBound(rows: seq<seq<Entry>>, capacity: int)
    requires forall s :: 0 <= s < |rows| ==> |rows[s]| > 0
    requires forall s :: 0 <= s < |rows| ==> WellFormed(rows[s], capacity)
    ensures capacity >= 0 ==> Last(FinalRow(rows)).cap <= capacity
  {
    if rows != [] {
      assert Last(FinalRow(rows)) in rows[|rows| - 1];
    }
  }

  /** Counts accounted for in the sorted order, padded with zeros and put
      back in the input order, weigh the same. */
  lemma {:induction false} RestoredWeight(items: seq<Item>, order: seq<nat>, c: seq<int>)
    requires IsPermutation(order, |items|) && |c| <= |items|
    ensures Dot(Restore(c + Zeros(|items| - |c|), order), Weights(items)) == Weigh(c, Pick(items, order))
  {
    WeighIsDot(c, Pick(items, order));
    PickColumns(items, order);
    DotRestorePadded(c, order, Weights(items));
  }

  /** ... and are worth the same. */
  lemma {:induction false} RestoredValue(items: seq<Item>, order: seq<nat>, c: seq<int>)
    requires IsPermutation(order, |items|) && |c| <= |items|
    ensures Dot(Restore(c + Zeros(|items| - |c|), order), Values(items)) == Worth(c, Pick(items, order))
  {
    WeighIsDot(c, Pick(items, order));
    PickColumns(items, order);
    DotRestorePadded(c, order, Values(items));
  }

  /** Reordering the item types reorders their weights and values. */
  lemma PickColumns(items: seq<Item>, order: seq<nat>)
    requires IsPermutation(order, |items|)
    ensures Pick(Weights(items), order) == Weights(Pick(items, order))
    ensures Pick(Values(items), order) == Values(Pick(items, order))
  {
  }

  /** Counts accounted for in the sorted order, padded with zeros and put
      back in the input order, are within the stock of the input item types
      and weigh and are worth the same. */
  lemma RestoredSelection(items: seq<Item>, order: seq<nat>, c: seq<int>, weight: int, val: int)
    requires ValidItems(items) && IsPermutation(order, |items|)
    requires Accounts(Success(Unwound(c, 0)), Pick(items, order), weight, val)
    ensures var counts := Restore(c + Zeros(|items| - |c|), order);
      && |counts| == |items|
      && (forall i :: 0 <= i < |items| ==> 0 <= counts[i] <= items[i].count)
      && Dot(counts, Weights(items)) == weight
      && Dot(counts, Values(items)) == val
  {
    var sItems := Pick(items, order);
    PickValid(items, order);
    PaddedWithinStock(c, sItems);
    RestoreWithinStock(c + Zeros(|items| - |c|), items, order);
    RestoredWeight(items, order, c);
    RestoredValue(items, order, c);
  }

  /** knapsack never throws: the walk back neither reads outside a row nor
      leaves weight over. The counts it returns are within stock, weigh
      `capacity - empty` together, and are worth what the table recorded for
      the heaviest entry. */
  lemma KnapsackSucceeds(variant: Variant, items: seq<Item>, capacity: int, deviation: int)
    requires ValidItems(items)
    ensures var res := KnapsackFn(variant, items, capacity, deviation);
      && res.Success?
      && |res.value.counts| == |items|
      && (forall i :: 0 <= i < |items| ==> 0 <= res.value.counts[i] <= items[i].count)
      && Dot(res.value.counts, Weights(items)) == capacity - res.value.empty
      && Dot(res.value.counts, Values(items)) == Last(FinalRow(Rows(variant, items, capacity, deviation))).val
      && (capacity >= 0 ==> res.value.empty >= 0)
  {
    var sItems := SortedItems(items);
    var rows := Rows(variant, items, capacity, deviation);
    var top := Last(FinalRow(rows));
    RatioOrderIsPermutation(items);
    RowsChained(variant, items, capacity, deviation);
    HasPointOfMember(FinalRow(rows), top);
    UnwindSound(rows, sItems, capacity, |rows|, top.cap, top.val);
    var u := Unwind(rows, sItems, |rows|, top.cap).value;
    RestoredSelection(items, RatioOrder(items), u.counts, top.cap, top.val);
    TopWithinBound(rows, capacity);
  }

  /** The selection knapsack returns, which it always does: counts within
      stock that weigh `capacity - empty` together. */
  function Solve(variant: Variant, items: seq<Item>, capacity: int, deviation: int): (s: Selection)
    requires ValidItems(items)
    ensures |s.counts| == |items|
    ensures forall i :: 0 <= i < |items| ==> 0 <= s.counts[i] <= items[i].count
    ensures Dot(s.counts, Weights(items)) == capacity - s.empty
    ensures capacity >= 0 ==> s.empty >= 0
  {
    KnapsackSucceeds(variant, items, capacity, deviation);
    KnapsackFn(variant, items, capacity, deviation).value
  }
}
