/** The data model shared by the knapsack engine: hardware item types, the
    entries of a frontier row, the engine's failures and a result wrapper. */
module Types {

  /** One hardware type: `name` is passed through untouched, `count` is the
      stock, `weight` and `value` are per unit. */
  datatype Item = Item(name: string, count: int, weight: int, value: int)

  /** An entry of a frontier row: the capacity used, the best value reached
      with it, and how many units of the item type of the current stage are
      still unused on the way to this entry. */
  datatype Entry = Entry(cap: int, val: int, rem: int)

  /** Which copy of setValue a solver runs: `Pruned` is the one of
      src/algorithm.worker.ts, `Unpruned` the one of algorithm.js. */
  datatype Variant = Pruned | Unpruned

  /** Everything the engine and its console adapter throw. */
  datatype Error =
    | ResidualWeight           // reconstruction ended with weight left over
    | LookupBelowFrontier      // getValue asked below the first entry (a TypeError in the source)
    | InfeasibleSplit          // the chosen items could not be divided between the two containers
    | NothingToSum             // reduce over no item types at all (a TypeError in the source)
    | HardwareArrayLengths     // counts, weights and values differ in length
    | NoHardwareTypes          // no item types at all
    | InvalidValues            // a count, weight or value is not positive
    | TransporterArrayLengths  // capacities and driver weights differ in length
    | InvalidTransporter       // a driver is heavier than the container's capacity
    | TransporterCount         // the two-container split was handed another number of containers

  datatype Result<T> = Success(value: T) | Failure(error: Error)

  /** What knapsack returns: how many units of each item type to load, in
      input order, and the capacity left unused. */
  datatype Selection = Selection(counts: seq<int>, empty: int)

  /** What every item handed to the solver satisfies: the stock is not
      negative and a unit weighs something. */
  predicate ValidItem(it: Item)
  {
    it.count >= 0 && it.weight > 0
  }

  predicate ValidItems(items: seq<Item>)
  {
    forall i :: 0 <= i < |items| ==> ValidItem(items[i])
  }
}
