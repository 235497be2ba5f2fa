# Knapsack engine of CodeForBWI, in Dafny

CodeForBWI loads counted hardware types (each with a stock, a unit weight
and a unit value) into two transporters. Everything is computed by one
bounded-knapsack engine. This project models that engine and proves what
it guarantees:

- **The frontier** (`frontier.dfy`, module `Frontier`). A knapsack stage
  keeps a row of `[capacity, value, remaining]` entries in increasing
  capacity order. `setValue`, `getValue` and `worthIt` find their place in
  the row by binary search. The row is the class `Frontier.Row`, whose
  `entries` the two copies of `setValue` change in place:
  - `SetValue` is the copy in `src/algorithm.worker.ts`. It removes the
    entries right after the new one that are worth less.
  - `SetValueUnpruned` is the copy in `algorithm.js`, which does not.

  The searches are methods with loops, each proved against a function
  (`FloorIndex`, `Probe`, `PlaceIndex`, `Upsert`, `UpsertPruned`).
- **The sort orders** (`ordering.dfy`, module `Ordering`). Item types are
  visited in a stable descending sort by value per weight, compared exactly
  by cross-multiplication. Afterwards the counts are put back in input order
  (`reversedIndexes`), and sums are shown not to depend on the order.
- **knapsack as functions** (`solver.dfy`, module `Solver`). These cover
  the scan of one stage, the rows the stages store, the early stop on
  `deviation`, the walk back through the stored rows, and the result
  (`KnapsackFn`). What is proved:
  - every row stays sorted and within the capacity;
  - every entry goes back to an entry of the row before it, with its
    remaining stock between 0 and the stock;
  - so the walk back never reads outside a row and never leaves weight
    over, and `knapsack` never throws;
  - the counts are within stock and weigh exactly `capacity - empty`.
- **knapsack as the source runs it** (`engine.dfy`, module `Engine`). A row
  object is scanned in place while it grows, the rows are stored, and the
  walk back uses `getValue`. Each method is proved to compute what the
  functions of `Solver` describe. `Engine.Knapsack` is proved equal to
  `Solver.KnapsackFn`.
- **doubleKnapsack** (`orchestrator.dfy`, module `Orchestrator`). It
  solves once on the two capacities together, then solves again, by
  weight, for the smaller container, and the other container gets the
  rest. The model proves the following:
  - it fails exactly when the second run leaves more room free than the
    first;
  - the two count lists add up to the first run's counts;
  - each container gets no more than its capacity;
  - the reported value is what the two loads carry.
- **The console entry point `multipleKnapsack`** (`adapter.dfy`, module
  `Adapter`). Its checks are modelled in the source's order. Then come the
  item names `(i + 1) + "."`, each transporter's capacity less its driver,
  and the call of the split.

The two source copies share one model. `Types.Variant` selects the copy:
`Pruned` is `src/algorithm.worker.ts`, and `Unpruned` is `algorithm.js`,
whose `setValue` lacks the "(NEU)" pruning. algorithm.js:72-90 (getValue),
97-118 (worthIt), 130-206 (knapsack) and 216-255 (doubleKnapsack) are the
same code as src/algorithm.worker.ts:55-72, 79-98, 113-174 and 184-222. The
same members model them, with `Unpruned` passed down to `setValue`.

Numbers are Dafny's unbounded integers. The source's numbers are
JavaScript doubles: the form reads counts, weights, values and capacities
with `parseFloat`, and the console entry point takes any `number[]`. The
model covers whole-number inputs only.

Five functions only compute and carry no contract of their own. The table
names the lemmas that state what each computes:
- `Solver.KnapsackFn` (knapsack): `Solver.KnapsackSucceeds` and `Solver.Solve`;
- `Solver.Step` (one pass of the inner loop): `Solver.StepPlaces`,
  `Solver.StepKeeps`, `Solver.StepWellFormed` and `Solver.PrunedStepDecidesByFloor`;
- `Frontier.Probe` (worthIt): `Frontier.ProbeMeaning`,
  `Frontier.ProbeOnOrderedValues` and `Solver.RowsWorthItIsFloorTest`;
- `Frontier.Upsert` (setValue of algorithm.js): `Frontier.UpsertIndex`,
  `Frontier.UpsertLength`, `Frontier.UpsertAscending` and `Frontier.UpsertMembers`;
- `Frontier.UpsertPruned` (setValue of src/algorithm.worker.ts):
  `Frontier.PrunedMembers`, `Frontier.PrunedAscending` and
  `Frontier.PrunedKeepsValuesOrdered`.

## Model

| member | source | states |
|---|---|---|
| Frontier.FloorIndex | src/algorithm.worker.ts:52-72 | the index getValue looks for: an entry whose capacity is at most `c`, with every later entry heavier than `c` |
| Frontier.FloorIsGreatest | src/algorithm.worker.ts:52-72 | in an ascending row, every entry not heavier than `c` sits at or before the floor entry, so the floor entry is the heaviest such entry |
| Frontier.LessPrefix | src/algorithm.worker.ts:31 | the length of the leading run of entries worth less than `v`: all entries before it are worth less, and the entry that ends it is not |
| Frontier.LessPrefixIs | src/algorithm.worker.ts:31 | any stopping point with those two properties is that length |
| Frontier.DropAfterIndex | src/algorithm.worker.ts:30-31 | the removal loop keeps every entry up to `p` and removes exactly the run after `p` worth less than `v`; the entry that follows `p` afterwards is worth at least `v` |
| Frontier.UpsertIndex | algorithm.js:44-67 | setValue without pruning puts the entry at its place and keeps the entries before it; the entries after it shift by one exactly when no entry of that capacity existed |
| Frontier.UpsertAscending | algorithm.js:44-67 | setValue without pruning keeps the capacities strictly increasing |
| Frontier.UpsertLength | algorithm.js:44-67 | the row keeps its length if and only if an entry of the same capacity was there (and is overwritten); otherwise it grows by exactly one |
| Frontier.UpsertMembers | algorithm.js:44-67 | after setValue without pruning the row holds the new entry, every entry is the new one or an old one, and every old entry of another capacity is still there |
| Frontier.DropAfterAscending | src/algorithm.worker.ts:36-49 | removing the run after the new entry keeps the capacities strictly increasing |
| Frontier.DropAfterOrdersValues | src/algorithm.worker.ts:36-49 | when the values are in order before and after the new entry, the pruning leaves the values of the whole row in order |
| Frontier.PrunedAscending | src/algorithm.worker.ts:18-50 | setValue with pruning keeps the capacities strictly increasing |
| Frontier.DropAfterMembers | src/algorithm.worker.ts:31 | the pruning only removes entries and adds none |
| Frontier.PrunedMembers | src/algorithm.worker.ts:18-50 | setValue with pruning puts the new entry at its place, leaves every entry before it unchanged, and adds nothing but the new entry |
| Frontier.PrunedKeepsValuesOrdered | src/algorithm.worker.ts:30-49 | when the new entry beats its floor entry (which worthIt checks before every insertion; `Solver.PrunedStepDecidesByFloor` proves it), setValue with pruning keeps the row's values non-decreasing; `Solver.RowsValuesOrdered` lifts this to every stored row |
| Frontier.PlaceFacts | src/algorithm.worker.ts:18-50 | for both copies of setValue: capacities stay ascending, the new entry lands at its place, the entries before it stay, and nothing else is added |
| Frontier.UnprunedBreaksValueOrder | algorithm.js:61-66 | on a concrete row, the unpruned setValue inserts an entry worth more than the heavier entry after it, so the values fall; the pruned copy keeps them in order |
| Frontier.ProbeMeaning | src/algorithm.worker.ts:79-98 | worthIt answers true only when the floor entry is worth less than `v1`; when it answers false although the floor entry is worth less, a lighter entry after the lower bound is worth more than `v1` |
| Frontier.ProbeOnOrderedValues | src/algorithm.worker.ts:79-98 | on a row whose values never fall, worthIt answers true if and only if the floor entry is worth less than `v1` |
| Frontier.ProbeExitsEarlyOnUnorderedValues | algorithm.js:97-118 | on a concrete row with falling values, the early exit of worthIt answers false although the floor entry is worth less than `v1` |
| Frontier.GetValue | src/algorithm.worker.ts:55-72 | getValue returns the floor entry: an entry of the row, not heavier than the query, and at least as heavy as every other entry not heavier than the query |
| Frontier.WorthIt | src/algorithm.worker.ts:79-98 | the binary search with early exit returns what `Probe` answers for the same row, capacity, value and lower bound |
| Frontier.Locate | src/algorithm.worker.ts:19-46 | setValue's search finds the place of capacity `c` and whether an entry of that capacity is there; when there is none, every entry before the place is lighter and every entry from it on is heavier |
| Frontier.Row.DropWorseAfter | src/algorithm.worker.ts:31 | the splice loop leaves the row as `DropAfter` of the old row |
| Frontier.Row.SetValue | src/algorithm.worker.ts:18-50 | setValue with pruning changes the row in place into `UpsertPruned` of the old row: it removes the following entries whose value is strictly smaller, and an entry of equal value stays (src/algorithm.worker.ts:31, 38, 43, 48) |
| Frontier.Row.SetValueUnpruned | algorithm.js:44-67 | the unpruned setValue changes the row in place into `Upsert` of the old row |
| Ordering.GreaterTransitive | src/algorithm.worker.ts:115 | comparing value per weight by cross-multiplication is transitive |
| Ordering.AtLeastTransitive | src/algorithm.worker.ts:115 | "not smaller" by cross-multiplication is transitive |
| Ordering.InsertPos | src/algorithm.worker.ts:115 | one insertion step of the stable sort places an index after every index whose key is at least its own and before the first one with a smaller key |
| Ordering.SortIsPermutation | src/algorithm.worker.ts:115 | the sort lists every index exactly once |
| Ordering.SortIsSortedStable | src/algorithm.worker.ts:115 | neighbouring indices of the sort have non-increasing keys, and equal keys keep their input order |
| Ordering.SortedStableGlobal | src/algorithm.worker.ts:115 | in the sorted order, an earlier index never has a smaller key than a later one |
| Ordering.IndexOf | src/algorithm.worker.ts:116 | indexOf finds the first position holding `x` |
| Ordering.IndexOfPermutation | src/algorithm.worker.ts:116 | on a permutation, `indexOf(order[t])` is `t` |
| Ordering.RestoreInverts | src/algorithm.worker.ts:170 | restoring through reversedIndexes puts the count found at sorted position `t` back at input index `order[t]` |
| Ordering.SumReindex | src/algorithm.worker.ts:170 | summing in a permuted order gives the same total |
| Ordering.DotRestore | src/algorithm.worker.ts:170 | counts in sorted order, once restored, weigh against the input columns what they weighed against the sorted columns |
| Ordering.DotRestorePadded | src/algorithm.worker.ts:168-170 | counts padded with zeros and restored weigh what the unpadded counts weighed against the first sorted columns |
| Solver.RowLength | src/algorithm.worker.ts:134-139 | a row starting at capacity 0 with strictly increasing integer capacities up to the bound holds at most bound + 1 entries, which is why the scan over the growing row ends |
| Solver.PlaceWellFormed | src/algorithm.worker.ts:138-145 | placing an entry heavier than entry `j` and within the capacity keeps the row starting at 0, ascending and within the capacity; it lands after `j` |
| Solver.StepWellFormed | src/algorithm.worker.ts:138-145 | one step of the scan keeps the row well formed and entry `j` in it |
| Solver.Scan | src/algorithm.worker.ts:134-146 | the scan of a stage ends and leaves a well-formed row |
| Solver.NextRow | src/algorithm.worker.ts:127-146 | a whole stage (reset the stock, then scan) leaves a well-formed row |
| Solver.Grow | src/algorithm.worker.ts:124-153 | the stages store at most one row per item type, each well formed |
| Solver.Unwind | src/algorithm.worker.ts:156-163 | the walk back through `i` rows yields one count per row |
| Solver.RatioOrder | src/algorithm.worker.ts:115 | the sorted order has one position per item type, and each holds an input index |
| Solver.RatioOrderIsPermutation | src/algorithm.worker.ts:115-116 | the order in which knapsack visits the item types lists each exactly once |
| Solver.SortedItems | src/algorithm.worker.ts:115 | sorting keeps the number of item types and their validity |
| Solver.Rows | src/algorithm.worker.ts:119-153 | knapsack stores at most one row per item type, each well formed |
| Solver.ResetRooted | src/algorithm.worker.ts:127 | at the start of a stage, every entry has its whole stock unused and goes back to itself in the previous row |
| Solver.ExtendRooted | src/algorithm.worker.ts:138-145 | one more unit on an entry with a unit left keeps its remaining stock within 0 and the stock, and keeps its root in the previous row |
| Solver.StepRooted | src/algorithm.worker.ts:136-145 | a step keeps every entry rooted in the previous row with its remaining stock within 0 and the stock |
| Solver.ScanRooted | src/algorithm.worker.ts:134-146 | the whole scan keeps every entry rooted |
| Solver.NextRooted | src/algorithm.worker.ts:127-146 | after a stage, every entry's remaining stock lies in [0, count]; taking off the units it used lands exactly on an entry of the row before |
| Solver.GrowRooted | src/algorithm.worker.ts:124-153 | each stored row is rooted in the one before it, the first in the initial row |
| Solver.RowsChained | src/algorithm.worker.ts:119-153 | the stored rows are well formed and chained, each rooted in the one before |
| Solver.ProbeAtStep | src/algorithm.worker.ts:141-144 | with pruning, on a row whose values never fall, the worthIt of a step at `j` (searching from `j + 1`) answers true if and only if the floor entry of the extension is worth less than the extension |
| Solver.PrunedStepDecidesByFloor | src/algorithm.worker.ts:141-145 | with pruning, on a row whose values never fall, a step is setValue with pruning of the extension when its floor entry is worth less, and leaves the row unchanged otherwise |
| Solver.StepKeepsValuesOrdered | src/algorithm.worker.ts:138-145 | with pruning, a step keeps the values of the row non-decreasing |
| Solver.ScanKeepsValuesOrdered | src/algorithm.worker.ts:134-146 | with pruning, the whole scan of a stage keeps the values non-decreasing |
| Solver.NextRowKeepsValuesOrdered | src/algorithm.worker.ts:127-146 | with pruning, a stage (reset the stock, then scan) keeps the values non-decreasing |
| Solver.GrowKeepsValuesOrdered | src/algorithm.worker.ts:124-153 | with pruning, every row the stages store has non-decreasing values when the row they start from has |
| Solver.RowsValuesOrdered | src/algorithm.worker.ts:119-153 | with pruning, every row knapsack stores has non-decreasing values |
| Solver.RowsWorthItIsFloorTest | src/algorithm.worker.ts:79-98 | with pruning, on every row knapsack stores, worthIt answers true if and only if the floor entry of `c` is worth less than `v1`, so its early exit never changes the answer there |
| Solver.FloorOfMember | src/algorithm.worker.ts:160 | getValue at the capacity of an entry of a well-formed row finds that very entry |
| Solver.PointRoot | src/algorithm.worker.ts:159-162 | an entry of row `i - 1` used between 0 and all units of its item type, and its root is an entry of the row below |
| Solver.UnwindSound | src/algorithm.worker.ts:156-164 | walking back from an entry of a stored row never reads outside a row and ends with no weight left over; the counts are within stock and weigh and are worth exactly the entry's capacity and value |
| Solver.TopWithinBound | src/algorithm.worker.ts:152-173 | for a non-negative capacity the heaviest entry of the last row is within it, so `empty` is not negative |
| Solver.RestoreWithinStock | src/algorithm.worker.ts:170 | counts within the stock of the sorted item types are, once restored, within the stock of the input item types |
| Solver.RestoredSelection | src/algorithm.worker.ts:168-170 | accounted counts, padded with zeros and restored, are within stock and weigh and are worth the same as before |
| Solver.KnapsackSucceeds | src/algorithm.worker.ts:113-174 | knapsack never throws; its counts are within stock, weigh `capacity - empty`, and are worth the value of the heaviest entry of the last row; `empty >= 0` for a non-negative capacity |
| Solver.Solve | src/algorithm.worker.ts:113-174 | the selection knapsack returns: counts within stock that weigh `capacity - empty`, with `empty >= 0` for a non-negative capacity |
| Engine.ScanStage | src/algorithm.worker.ts:134-146 | the in-place scan over the growing row object leaves the row `Scan` describes |
| Engine.StepAt | src/algorithm.worker.ts:135-145 | one iteration (worthIt, then setValue of the pruned or unpruned copy) leaves the row `Step` describes |
| Engine.ScanAt | src/algorithm.worker.ts:135-145 | one pass of the inner loop on the row object: when it stops there, the row is already what `Scan` from this index gives; otherwise it skips or takes a step, and `Scan` of the new row from the next index is `Scan` of the old row from this index |
| Engine.ScanSkips | src/algorithm.worker.ts:136 | proof step for the loop: an entry with no unit left is skipped |
| Engine.ScanStops | src/algorithm.worker.ts:139 | proof step for the loop: the scan ends at the first entry one more unit would push past the capacity |
| Engine.ScanSteps | src/algorithm.worker.ts:138-145 | proof step for the loop: any other entry takes a step, and the scan goes on from the next index of the new row |
| Solver.StepPlaces | src/algorithm.worker.ts:144-145 | `Step`, when worthIt approves the extension of entry `j`, is setValue of that extension (one more unit: capacity plus the weight, value plus the value, one unit less left) |
| Solver.StepKeeps | src/algorithm.worker.ts:144 | `Step`, when worthIt turns the extension down, leaves the row as it was |
| Engine.Stage | src/algorithm.worker.ts:127-146 | a fresh row object holding the previous row with the whole stock unused, once scanned, is `NextRow` of the previous row |
| Engine.Stages | src/algorithm.worker.ts:119-153 | the stage loop stores exactly the rows of `Grow`, stopping on `deviation`; the row in use at the end is the last stored row, or the initial one |
| Engine.GrowNext | src/algorithm.worker.ts:147-152 | each stage stores its row, and the stages continue from it only while the unused capacity exceeds `deviation` |
| Engine.UnwindResume | src/algorithm.worker.ts:159-162 | one row of the walk back puts its count in front and takes its weight off |
| Engine.WalkBack | src/algorithm.worker.ts:155-163 | the backwards loop with getValue yields what `Unwind` describes, including the read below the first entry |
| Engine.RestoreThrough | src/algorithm.worker.ts:170 | mapping through reversedIndexes is `Restore` |
| Engine.ReversedIndexes | src/algorithm.worker.ts:116 | for each input index, its position in the sorted order |
| Engine.KnapsackFnIs | src/algorithm.worker.ts:113-174 | proof step for the loop: knapsack's result is decided by the stored rows, the walk back and the heaviest entry |
| Engine.Tabulate | src/algorithm.worker.ts:121-163 | the stages and the walk back produce the rows of `Grow` and the walk of `Unwind` from the heaviest entry |
| Engine.Finish | src/algorithm.worker.ts:164-173 | it throws on weight left over; otherwise it pads with zeros, restores through reversedIndexes and reports `capacity - heaviest`, as `Conclude` does |
| Engine.Knapsack | src/algorithm.worker.ts:113-174 | the imperative knapsack returns `KnapsackFn`, about which `Solver.KnapsackSucceeds` proves success, stock bounds and weight |
| Orchestrator.SmallIndex | src/algorithm.worker.ts:200 | `indexOf(min)`: a position of a smallest capacity, with every earlier capacity strictly larger |
| Orchestrator.LoadKeys | src/algorithm.worker.ts:194 | the keys of the second sort, one per item type, are valid sort keys |
| Orchestrator.LoadOrder | src/algorithm.worker.ts:194-195 | sIndexes has one position per item type, each holding an input index, and lists every input index |
| Orchestrator.LoadOrderSorted | src/algorithm.worker.ts:194 | sIndexes lists each item type once, by non-increasing chosen total weight `weight * counts[i]`, with ties in input order |
| Orchestrator.SplitItems | src/algorithm.worker.ts:196 | the second stage's item types are the input item types in load order, each worth its own weight (`value: weight`) and stocked with the first run's count of it (`count: counts[i]`); they are valid, and their weights are the input weights in load order |
| Orchestrator.FirstStage | src/algorithm.worker.ts:187 | the first run, on the two capacities added up: one count per item type, each between 0 and its stock, weighing `capacities[0] + capacities[1] - empty` |
| Orchestrator.SecondStage | src/algorithm.worker.ts:194-201 | the second run, by weight on the smallest capacity, over the first run's counts in load order: one count per item type, weighing `capacities[smallIndex] - empty0` against the weights in load order |
| Orchestrator.Divide | src/algorithm.worker.ts:205-219 | the end of doubleKnapsack fails with the split error if and only if `empty0 > empty`, and with the sum error if and only if it does not and there are no item types; on success `counts` is the first run's and the two transporter lists add up to it index by index |
| Orchestrator.DoubleKnapsack | src/algorithm.worker.ts:184-222 | doubleKnapsack fails only with the split error or the sum error; on success it returns one count per item type and two transporter lists of that length that add up to the counts index by index |
| Orchestrator.DoubleKnapsackFails | src/algorithm.worker.ts:184-222 | doubleKnapsack fails with the split error if and only if the second run leaves more room free than the first; failing that, it fails exactly when there are no item types for `reduce`; otherwise it succeeds |
| Orchestrator.DivideShares | src/algorithm.worker.ts:209-217 | the two count lists, one per container, are never negative and add up index by index to the first run's counts, which are within stock |
| Orchestrator.DivideWeighs | src/algorithm.worker.ts:198-217 | the container at `smallIndex` carries exactly what the second run packed; the other carries the rest, which the failure check keeps within the rest of the combined capacity |
| Orchestrator.DivideValue | src/algorithm.worker.ts:212-219 | the value reported is what the two count lists carry together |
| Orchestrator.StagesHold | src/algorithm.worker.ts:187-201 | both runs deliver what the division relies on: the first run's counts within stock and weighing `c0 + c1 - empty`; the second run's counts within the first run's and weighing `capacities[smallIndex] - empty0`; the load order a permutation |
| Orchestrator.DoubleKnapsackDivides | src/algorithm.worker.ts:184-222 | on success, `counts` is the first run's selection, and the two transporter count lists are non-negative and add up to it index by index, within stock |
| Orchestrator.DoubleKnapsackFits | src/algorithm.worker.ts:184-222 | with two non-negative capacities, each container's load weighs no more than its capacity |
| Orchestrator.DoubleKnapsackValue | src/algorithm.worker.ts:212-219 | the reported value is what the two loads carry together |
| Adapter.Decimal | src/global/app.ts:16 | `String(n)` for a natural number: digits only, with a leading zero exactly for 0 |
| Adapter.DecimalRoundTrip | src/global/app.ts:16 | reading the decimal form back gives the number: `String(n)` for a natural number loses nothing |
| Adapter.Items | src/global/app.ts:16 | the item types built from the three arrays carry the given counts, weights and values, and are named `(i + 1) + "."` |
| Adapter.Drivers | src/global/app.ts:7 | omitted driver weights are 0 for every transporter; given ones are used as they are |
| Adapter.DriversDefault | src/global/app.ts:7 | omitting the driver weights is the same as giving 0 for every transporter |
| Adapter.Check | src/global/app.ts:9-16 | when the checks pass, the three hardware arrays have one non-zero length, the transporter arrays have one length, and the usable capacities handed on are one per transporter, none negative |
| Adapter.MultipleKnapsack | src/global/app.ts:6-18 | multipleKnapsack succeeds only with exactly two transporters, and then returns one count per hardware type and two transporter lists that add up to it index by index |
| Adapter.CheckAccepts | src/global/app.ts:9-16 | the checks pass if and only if the three hardware arrays have one non-zero length and hold only positive numbers, the transporter arrays have one length, and no driver outweighs its capacity; what is handed on is each capacity less its driver, never negative |
| Adapter.CheckOrder | src/global/app.ts:9-13 | each error is raised exactly when its check fails and every earlier check passed |
| Adapter.CheckPassesOneTransporter | src/global/app.ts:12-16 | the checks as written accept a single transporter |
| Adapter.SplitLoads | src/global/app.ts:16 | the split of the item types built from the arrays, stated on the arrays: non-negative counts within stock, each load within its usable capacity, the value of both loads |
| Adapter.MultipleKnapsackLoads | src/global/app.ts:6-18 | whatever multipleKnapsack returns has two transporters; each is loaded with non-negative counts, within stock together, weighing no more than its capacity less its driver; and the reported value is what both loads carry |

## Left out

- Timing (`new Date()`), the `countsTime`, `transporterTime` and `time` fields, the Web Worker, `async`, the console output and the `window` hook: I/O only, with no effect on the result.
- The `resolveCounts` callback: it receives the first run's counts, which `Orchestrator.FirstStage` models. Calling it is I/O.
- Orchestrator.DoubleKnapsack: requires at least two capacities. With fewer, the source adds `undefined` and computes on NaN. Floating point is not modelled, and see Findings. With more than two, the model follows the source: the first two capacities are summed and the smallest of all is used.
- Solver.KnapsackSucceeds: the optimality claimed at src/algorithm.worker.ts:100 is not proved, and it does not hold in general. Example: item types A (weight 10, value 20), D (weight 20, value 22) and Y (weight 10, value 11), one unit each, capacity 20. With deviation 0, the stages stop once the row is full after D, so knapsack returns value 22. A and Y fit together and are worth 31.
- Solver.RatioOrder: the source sorts by the floating-point quotient `value / weight`. The model compares the exact rationals by cross-multiplication, stably. It differs only where two quotients round to the same double.
- Types.Item: `name` is carried through but plays no part in the algorithm. The rest of `src/types.ts` is not part of this model.
- Adapter.MultipleKnapsack: adds the check for exactly two transporters, which the source lacks (see Findings). On every input the source accepts with two transporters, it behaves as written.
- The UI components (`app-main`, `app-random`, `app-import`) and the demo code at the top of `algorithm.js` are not part of this model.
- Frontier.GetValue: requires the first entry to be no heavier than the query. Below it, the source reads `list[-1]`. That case is `LookupBelowFrontier` in `Solver.Unwind`, which `Solver.KnapsackSucceeds` proves never happens.
- Non-integer inputs: in the source, fractional counts, weights, values and capacities reach the algorithm (the form's `parseFloat` and its guard against NaN and non-positive values let 2.5 through, and `multipleKnapsack` takes any `number[]`). The model's numbers are integers, so those inputs are not modelled.
- Integer width: the source's numbers are doubles that hold exact integers up to 2^53. The model uses unbounded integers and does not model loss of precision beyond that.

## Findings

| source | as written | input that shows it | evidently intended | confidence | as-written member | corrected member |
|---|---|---|---|---|---|---|
| src/global/app.ts:12-16 | the transporter checks only compare the lengths of the capacity and driver arrays, so a single transporter passes; doubleKnapsack then adds `capacities[0] + capacities[1]` with `capacities[1]` undefined and runs on NaN | counts `[1]`, weights `[1]`, values `[1]`, capacities `[5]`, no driver weights | reject any number of transporters other than two, since doubleKnapsack divides between exactly two | not executed | Adapter.CheckPassesOneTransporter | Adapter.MultipleKnapsackLoads |
