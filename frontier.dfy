/** The frontier: a row of entries kept in increasing capacity order, with
    the three binary searches of the source (setValue, getValue, worthIt).
    The two copies of setValue differ: the one of src/algorithm.worker.ts
    also removes the entries right after the new one that are worth less. */
module Frontier {
  import opened Types

  /** Capacities strictly increase along the row. */
  predicate Ascending(row: seq<Entry>)
  {
    forall i, k :: 0 <= i < k < |row| ==> row[i].cap < row[k].cap
  }

  /** Values never decrease along the row. */
  predicate ValuesNonDecreasing(row: seq<Entry>)
  {
    forall i, k :: 0 <= i < k < |row| ==> row[i].val <= row[k].val
  }

  /** The last index below `n` whose capacity is at most `c`. */
  function FloorBelow(row: seq<Entry>, c: int, n: nat): (k: nat)
    requires 0 < n <= |row| && row[0].cap <= c
    ensures k < n && row[k].cap <= c
    ensures forall i :: k < i < n ==> row[i].cap > c
  {
    if row[n - 1].cap <= c then n - 1 else FloorBelow(row, c, n - 1)
  }

  /** The floor entry for `c`: the last entry whose capacity is at most `c`. */
  function FloorIndex(row: seq<Entry>, c: int): (k: nat)
    requires |row| > 0 && row[0].cap <= c
    ensures k < |row| && row[k].cap <= c
    ensures forall i :: k < i < |row| ==> row[i].cap > c
  {
    FloorBelow(row, c, |row|)
  }

  /** In an ascending row the floor entry is the heaviest entry not above `c`. */
  lemma FloorIsGreatest(row: seq<Entry>, c: int, i: int)
    requires Ascending(row) && |row| > 0 && row[0].cap <= c
    requires 0 <= i < |row| && row[i].cap <= c
    ensures i <= FloorIndex(row, c) && row[i].cap <= row[FloorIndex(row, c)].cap
  {
  }

  /** Where an entry of capacity `c` lands: on the entry of equal capacity if
      there is one, otherwise just after the floor entry. */
  function PlaceIndex(row: seq<Entry>, c: int): nat
    requires |row| > 0 && row[0].cap <= c
  {
    var k := FloorIndex(row, c);
    if row[k].cap == c then k else k + 1
  }

  /** The row after setValue of algorithm.js. */
  function Upsert(row: seq<Entry>, e: Entry): (r: seq<Entry>)
    requires |row| > 0 && row[0].cap <= e.cap
  {
    var k := FloorIndex(row, e.cap);
    if row[k].cap == e.cap then row[k := e] else row[..k + 1] + [e] + row[k + 1..]
  }

  /** The number of leading entries of `s` worth less than `v`. */
  function LessPrefix(s: seq<Entry>, v: int): (d: nat)
    ensures d <= |s|
    ensures forall i :: 0 <= i < d ==> s[i].val < v
    ensures d < |s| ==> s[d].val >= v
  {
    if s != [] && s[0].val < v then 1 + LessPrefix(s[1..], v) else 0
  }

  /** The leading run of entries worth less than `v` is determined by where it
      stops. */
  lemma {:induction false} LessPrefixIs(s: seq<Entry>, v: int, d: nat)
    requires d <= |s|
    requires forall i :: 0 <= i < d ==> s[i].val < v
    requires d < |s| ==> s[d].val >= v
    ensures LessPrefix(s, v) == d
    decreases d
  {
    if d > 0 {
      LessPrefixIs(s[1..], v, d - 1);
    }
  }

  /** The row after setValue of src/algorithm.worker.ts: the upsert, then the
      entries right after the new one that are worth less than it go. */
  function UpsertPruned(row: seq<Entry>, e: Entry): (r: seq<Entry>)
    requires |row| > 0 && row[0].cap <= e.cap
  {
    UpsertIndex(row, e);
    DropAfter(Upsert(row, e), PlaceIndex(row, e.cap), e.val)
  }

  /** The "(NEU)" loop of src/algorithm.worker.ts: the entries right after
      index `p` go while they are worth less than `v`. */
  function DropAfter(u: seq<Entry>, p: nat, v: int): seq<Entry>
    requires p < |u|
  {
    u[..p + 1] + u[p + 1 + LessPrefix(u[p + 1..], v)..]
  }

  /** What DropAfter keeps: everything up to `p`, then everything from the
      first entry after `p` worth at least `v`. */
  lemma {:induction false} DropAfterIndex(u: seq<Entry>, p: nat, v: int)
    requires p < |u|
    ensures var d := LessPrefix(u[p + 1..], v);
      var r := DropAfter(u, p, v);
      && p + 1 + d <= |u| && |r| == |u| - d
      && (forall i :: 0 <= i <= p ==> r[i] == u[i])
      && (forall i :: p < i < |r| ==> r[i] == u[i + d])
      && (forall i :: p < i <= p + d ==> u[i].val < v)
      && (p + 1 < |r| ==> r[p + 1].val >= v)
  {
    var s := u[p + 1..];
    var d := LessPrefix(s, v);
    forall i | p < i <= p + d ensures u[i].val < v {
      assert u[i] == s[i - p - 1];
    }
    if p + 1 < |DropAfter(u, p, v)| {
      assert DropAfter(u, p, v)[p + 1] == s[d];
    }
  }

  /** The row after the setValue of the given copy. */
  function Place(variant: Variant, row: seq<Entry>, e: Entry): seq<Entry>
    requires |row| > 0 && row[0].cap <= e.cap
  {
    if variant == Pruned then UpsertPruned(row, e) else Upsert(row, e)
  }

  /** Where Upsert puts things: `e` at the landing place, the entries before it
      unchanged, the entries after it shifted by one when `e` was inserted. */
  lemma UpsertIndex(row: seq<Entry>, e: Entry)
    requires |row| > 0 && row[0].cap <= e.cap
    ensures var p := PlaceIndex(row, e.cap);
      var u := Upsert(row, e);
      var shift := |u| - |row|;
      && (shift == 0 || shift == 1)
      && (shift == 0 <==> row[FloorIndex(row, e.cap)].cap == e.cap)
      && p < |u| && u[p] == e
      && (forall i :: 0 <= i < p ==> u[i] == row[i])
      && (forall i :: p < i < |u| ==> u[i] == row[i - shift])
  {
  }

  /** algorithm.js's setValue keeps the capacities of the row ascending. */
  lemma UpsertAscending(row: seq<Entry>, e: Entry)
    requires Ascending(row) && |row| > 0 && row[0].cap <= e.cap
    ensures Ascending(Upsert(row, e))
  {
    var k := FloorIndex(row, e.cap);
    var p := PlaceIndex(row, e.cap);
    var u := Upsert(row, e);
    UpsertIndex(row, e);
    var shift := |u| - |row|;
    forall i, j | 0 <= i < j < |u| ensures u[i].cap < u[j].cap {
      if j < p {
        assert u[i] == row[i] && u[j] == row[j];
      } else if j == p {
        assert u[i] == row[i];
        if shift == 0 { assert i < k; }
      } else if i == p {
        assert u[j] == row[j - shift] && j - shift > k;
      } else if i < p {
        assert u[i] == row[i] && u[j] == row[j - shift];
      } else {
        assert u[i] == row[i - shift] && u[j] == row[j - shift];
      }
    }
  }

  /** algorithm.js's setValue overwrites only an entry of the same capacity
      and otherwise inserts, so the row grows by at most one. */
  lemma UpsertLength(row: seq<Entry>, e: Entry)
    requires Ascending(row) && |row| > 0 && row[0].cap <= e.cap
    ensures (exists i :: 0 <= i < |row| && row[i].cap == e.cap) <==> |Upsert(row, e)| == |row|
    ensures |Upsert(row, e)| <= |row| + 1
  {
    UpsertIndex(row, e);
    if exists i :: 0 <= i < |row| && row[i].cap == e.cap {
      var i :| 0 <= i < |row| && row[i].cap == e.cap;
      FloorIsGreatest(row, e.cap, i);
    }
  }

  /** Every entry after algorithm.js's setValue is the new one or an old one,
      and every old entry of another capacity is still there. */
  lemma UpsertMembers(row: seq<Entry>, e: Entry)
    requires |row| > 0 && row[0].cap <= e.cap
    ensures e in Upsert(row, e)
    ensures forall x :: x in Upsert(row, e) ==> x == e || x in row
    ensures forall i :: 0 <= i < |row| && row[i].cap != e.cap ==> row[i] in Upsert(row, e)
  {
    var p := PlaceIndex(row, e.cap);
    var u := Upsert(row, e);
    UpsertIndex(row, e);
    var shift := |u| - |row|;
    forall x | x in u ensures x == e || x in row {
      var i :| 0 <= i < |u| && u[i] == x;
      if i < p { assert x == row[i]; } else if i > p { assert x == row[i - shift]; }
    }
    forall i | 0 <= i < |row| && row[i].cap != e.cap ensures row[i] in u {
      var x := row[i];
      if i < p { assert u[i] == x; }
      else if shift == 0 { assert i != p; assert u[i] == x; }
      else { assert u[i + 1] == x; }
    }
  }

  /** Dropping a run of entries keeps the capacities ascending. */
  lemma DropAfterAscending(u: seq<Entry>, p: nat, v: int)
    requires p < |u| && Ascending(u)
    ensures Ascending(DropAfter(u, p, v))
  {
    DropAfterIndex(u, p, v);
    var r := DropAfter(u, p, v);
    var d := LessPrefix(u[p + 1..], v);
    forall i, k | 0 <= i < k < |r| ensures r[i].cap < r[k].cap {
      if k <= p {
        assert r[i] == u[i] && r[k] == u[k];
      } else if i <= p {
        assert r[i] == u[i] && r[k] == u[k + d];
      } else {
        assert r[i] == u[i + d] && r[k] == u[k + d];
      }
    }
  }

  /** Values never decrease between positions `lo` and `hi` (exclusive). */
  predicate ValuesOrderedOn(u: seq<Entry>, lo: int, hi: int)
    requires 0 <= lo <= hi <= |u|
  {
    forall i, j :: lo <= i < j < hi ==> u[i].val <= u[j].val
  }

  /** When the values are in order up to `p` and in order after it, dropping
      the entries after `p` worth less than `v` = the value at `p` leaves the
      values of the whole row in order. */
  lemma DropAfterOrdersValues(u: seq<Entry>, p: nat)
    requires p < |u|
    requires ValuesOrderedOn(u, 0, p + 1) && ValuesOrderedOn(u, p + 1, |u|)
    ensures ValuesNonDecreasing(DropAfter(u, p, u[p].val))
  {
    DropAfterKeepsPrefix(u, p);
    DropAfterOrdersSuffix(u, p);
    OrderedJoin(DropAfter(u, p, u[p].val), p);
  }

  lemma DropAfterKeepsPrefix(u: seq<Entry>, p: nat)
    requires p < |u| && ValuesOrderedOn(u, 0, p + 1)
    ensures p < |DropAfter(u, p, u[p].val)|
    ensures ValuesOrderedOn(DropAfter(u, p, u[p].val), 0, p + 1)
  {
    var r := DropAfter(u, p, u[p].val);
    DropAfterIndex(u, p, u[p].val);
    forall i, j | 0 <= i < j < p + 1 ensures r[i].val <= r[j].val {
      assert r[i] == u[i] && r[j] == u[j];
    }
  }

  lemma DropAfterOrdersSuffix(u: seq<Entry>, p: nat)
    requires p < |u| && ValuesOrderedOn(u, p + 1, |u|)
    ensures p < |DropAfter(u, p, u[p].val)|
    ensures ValuesOrderedOn(DropAfter(u, p, u[p].val), p, |DropAfter(u, p, u[p].val)|)
  {
    DropAfterIndex(u, p, u[p].val);
    ShiftedSuffixOrdered(u, DropAfter(u, p, u[p].val), p, LessPrefix(u[p + 1..], u[p].val));
  }

  /** A row that keeps entry `p` of `u` and then continues with `u` from
      `p + 1 + d` on, starting at a value no less than entry `p`'s, has its
      values in order from `p` on when `u`'s are in order after `p`. */
  lemma ShiftedSuffixOrdered(u: seq<Entry>, r: seq<Entry>, p: nat, d: nat)
    requires p < |r| && p + 1 + d <= |u| && |r| == |u| - d
    requires ValuesOrderedOn(u, p + 1, |u|)
    requires r[p] == u[p]
    requires forall i :: p < i < |r| ==> r[i] == u[i + d]
    requires p + 1 < |r| ==> r[p + 1].val >= u[p].val
    ensures ValuesOrderedOn(r, p, |r|)
  {
    forall i, j | p < i < j < |r| ensures r[i].val <= r[j].val {
      assert r[i] == u[i + d] && r[j] == u[j + d];
    }
    forall j | p < j < |r| ensures r[p].val <= r[j].val {
      if j > p + 1 {
        assert r[p + 1].val <= r[j].val;
      }
    }
  }

  /** Values in order up to `p` and from `p` on are in order throughout. */
  lemma OrderedJoin(r: seq<Entry>, p: nat)
    requires p < |r|
    requires ValuesOrderedOn(r, 0, p + 1) && ValuesOrderedOn(r, p, |r|)
    ensures ValuesNonDecreasing(r)
  {
    forall i, j | 0 <= i < j < |r| ensures r[i].val <= r[j].val {
      if i < p < j {
        assert r[i].val <= r[p].val;
      }
    }
  }

  /** src/algorithm.worker.ts's setValue keeps the capacities ascending. */
  lemma PrunedAscending(row: seq<Entry>, e: Entry)
    requires Ascending(row) && |row| > 0 && row[0].cap <= e.cap
    ensures Ascending(UpsertPruned(row, e))
  {
    UpsertIndex(row, e);
    UpsertAscending(row, e);
    DropAfterAscending(Upsert(row, e), PlaceIndex(row, e.cap), e.val);
  }

  /** Dropping a run of entries adds nothing. */
  lemma DropAfterMembers(u: seq<Entry>, p: nat, v: int)
    requires p < |u|
    ensures forall x :: x in DropAfter(u, p, v) ==> x in u
  {
    var d := LessPrefix(u[p + 1..], v);
    var front, back := u[..p + 1], u[p + 1 + d..];
    assert DropAfter(u, p, v) == front + back;
    forall x | x in front + back ensures x in u {
      if x in front {
        var i :| 0 <= i < |front| && front[i] == x;
        assert u[i] == x;
      } else {
        var i :| 0 <= i < |back| && back[i] == x;
        assert u[p + 1 + d + i] == x;
      }
    }
  }

  /** src/algorithm.worker.ts's setValue puts the new entry at its place and
      leaves every entry before it alone; every entry after it is an old one. */
  lemma PrunedMembers(row: seq<Entry>, e: Entry)
    requires |row| > 0 && row[0].cap <= e.cap
    ensures var p := PlaceIndex(row, e.cap);
      var r := UpsertPruned(row, e);
      && p < |r| && r[p] == e
      && (forall i :: 0 <= i < p ==> r[i] == row[i])
      && (forall x :: x in r ==> x == e || x in row)
  {
    var p := PlaceIndex(row, e.cap);
    var u := Upsert(row, e);
    UpsertIndex(row, e);
    UpsertMembers(row, e);
    DropAfterIndex(u, p, e.val);
    DropAfterMembers(u, p, e.val);
  }

  /** Pruning keeps the values of the row in order when the new entry beats its
      floor entry, which is all that knapsack ever inserts. */
  lemma PrunedKeepsValuesOrdered(row: seq<Entry>, e: Entry)
    requires Ascending(row) && ValuesNonDecreasing(row)
    requires |row| > 0 && row[0].cap <= e.cap
    requires row[FloorIndex(row, e.cap)].val < e.val
    ensures ValuesNonDecreasing(UpsertPruned(row, e))
  {
    var p := PlaceIndex(row, e.cap);
    var u := Upsert(row, e);
    UpsertIndex(row, e);
    UpsertValuesBefore(row, e);
    UpsertValuesAfter(row, e);
    DropAfterOrdersValues(u, p);
  }

  /** Up to the new entry the values of algorithm.js's setValue's row are in
      order when the new entry beats its floor entry. */
  lemma UpsertValuesBefore(row: seq<Entry>, e: Entry)
    requires Ascending(row) && ValuesNonDecreasing(row)
    requires |row| > 0 && row[0].cap <= e.cap
    requires row[FloorIndex(row, e.cap)].val < e.val
    ensures PlaceIndex(row, e.cap) < |Upsert(row, e)|
    ensures ValuesOrderedOn(Upsert(row, e), 0, PlaceIndex(row, e.cap) + 1)
  {
    var k := FloorIndex(row, e.cap);
    var p := PlaceIndex(row, e.cap);
    var u := Upsert(row, e);
    UpsertIndex(row, e);
    forall i, j | 0 <= i < j < p + 1 ensures u[i].val <= u[j].val {
      assert u[i] == row[i] && i <= k;
      if j < p { assert u[j] == row[j]; }
    }
  }

  /** After the new entry the values of algorithm.js's setValue's row are in
      order. */
  lemma UpsertValuesAfter(row: seq<Entry>, e: Entry)
    requires ValuesNonDecreasing(row)
    requires |row| > 0 && row[0].cap <= e.cap
    ensures PlaceIndex(row, e.cap) < |Upsert(row, e)|
    ensures ValuesOrderedOn(Upsert(row, e), PlaceIndex(row, e.cap) + 1, |Upsert(row, e)|)
  {
    var p := PlaceIndex(row, e.cap);
    var u := Upsert(row, e);
    UpsertIndex(row, e);
    var shift := |u| - |row|;
    forall i, j | p + 1 <= i < j < |u| ensures u[i].val <= u[j].val {
      assert u[i] == row[i - shift] && u[j] == row[j - shift];
    }
  }

  /** What both copies of setValue guarantee: capacities stay ascending, the
      new entry lands at its place, the entries before it stay, and nothing
      but the new entry is added. */
  lemma PlaceFacts(variant: Variant, row: seq<Entry>, e: Entry)
    requires Ascending(row) && |row| > 0 && row[0].cap <= e.cap
    ensures var r := Place(variant, row, e);
      var p := PlaceIndex(row, e.cap);
      && Ascending(r)
      && p < |r| && r[p] == e
      && (forall i :: 0 <= i < p ==> r[i] == row[i])
      && (forall x :: x in r ==> x == e || x in row)
  {
    if variant == Pruned {
      PrunedAscending(row, e);
      PrunedMembers(row, e);
    } else {
      UpsertAscending(row, e);
      UpsertIndex(row, e);
      UpsertMembers(row, e);
    }
  }

  /** Without pruning the values can fall: algorithm.js's setValue inserts an
      entry that is worth more than the heavier entry after it and keeps both. */
  lemma UnprunedBreaksValueOrder()
    ensures var row := [Entry(0, 0, 1), Entry(5, 10, 1)];
      var e := Entry(3, 12, 0);
      && row[FloorIndex(row, e.cap)].val < e.val
      && ValuesNonDecreasing(row)
      && !ValuesNonDecreasing(Upsert(row, e))
      && ValuesNonDecreasing(UpsertPruned(row, e))
  {
    var row := [Entry(0, 0, 1), Entry(5, 10, 1)];
    var e := Entry(3, 12, 0);
    assert FloorIndex(row, 3) == 0;
    assert Upsert(row, e) == [Entry(0, 0, 1), Entry(3, 12, 0), Entry(5, 10, 1)];
    assert Upsert(row, e)[1].val > Upsert(row, e)[2].val;
    PrunedKeepsValuesOrdered(row, e);
  }

  /** The search of worthIt, step by step: `a` and `b` close in on the floor
      entry; a probe lighter than `c` that is already worth more than `v1`
      ends the search with false. */
  function Probe(list: seq<Entry>, c: int, v1: int, a: int, b: int): (r: bool)
    requires 0 <= b < |list| && 0 <= a <= b + 1 && list[0].cap <= c
    decreases b - a
  {
    if a < b then
      var m := (a + b) / 2;
      if list[m].cap < c then
        if list[m].val > v1 then false else Probe(list, c, v1, m + 1, b)
      else if list[m].cap > c then Probe(list, c, v1, a, m - 1)
      else list[m].val < v1
    else if list[b].cap > c then list[b - 1].val < v1
    else list[b].val < v1
  }

  /** What the search of worthIt answers: true only when the floor entry is
      worth less than `v1`; false otherwise, or because a lighter entry it
      probed is already worth more than `v1`. */
  lemma {:induction false} ProbeMeaning(list: seq<Entry>, c: int, v1: int, a: int, b: int)
    requires Ascending(list) && |list| > 0 && list[0].cap <= c
    requires 0 <= b < |list| && 0 <= a <= b + 1
    requires forall i :: 0 <= i < a ==> list[i].cap <= c
    requires forall i :: b < i < |list| ==> list[i].cap > c
    ensures var k := FloorIndex(list, c);
      && (Probe(list, c, v1, a, b) ==> list[k].val < v1)
      && (!Probe(list, c, v1, a, b) && list[k].val < v1 ==>
            exists i :: a <= i < k && list[i].val > v1)
    decreases b - a
  {
    var k := FloorIndex(list, c);
    if a < b {
      var m := (a + b) / 2;
      if list[m].cap < c {
        if list[m].val <= v1 {
          ProbeMeaning(list, c, v1, m + 1, b);
        } else {
          FloorIsGreatest(list, c, m);
          if list[k].val < v1 { assert m != k; }
        }
      } else if list[m].cap > c {
        ProbeMeaning(list, c, v1, a, m - 1);
      } else {
        FloorIsGreatest(list, c, m);
      }
    } else if list[b].cap > c {
      FloorIsGreatest(list, c, b - 1);
    } else {
      FloorIsGreatest(list, c, b);
    }
  }

  /** On a row whose values never fall, the early exit of worthIt never
      changes its answer: it says whether the floor entry is worth less. */
  lemma ProbeOnOrderedValues(list: seq<Entry>, c: int, v1: int, a: int)
    requires Ascending(list) && ValuesNonDecreasing(list) && |list| > 0 && list[0].cap <= c
    requires 0 <= a <= |list|
    requires forall i :: 0 <= i < a ==> list[i].cap <= c
    ensures Probe(list, c, v1, a, |list| - 1) <==> list[FloorIndex(list, c)].val < v1
  {
    ProbeMeaning(list, c, v1, a, |list| - 1);
  }

  /** On a row whose values fall, worthIt can answer false although the floor
      entry is worth less than `v1`: the probe at index 1 exits early. */
  lemma ProbeExitsEarlyOnUnorderedValues()
    ensures var list := [Entry(0, 0, 1), Entry(3, 12, 0), Entry(5, 10, 1)];
      && list[FloorIndex(list, 6)].val < 11
      && !Probe(list, 6, 11, 1, 2)
  {
    var list := [Entry(0, 0, 1), Entry(3, 12, 0), Entry(5, 10, 1)];
    assert FloorIndex(list, 6) == 2;
  }

  /** getValue: the entry with the greatest capacity not above `capacity`;
      indices below `a0` are known not to be above it. */
  method GetValue(list: seq<Entry>, capacity: int, a0: int) returns (e: Entry)
    requires Ascending(list) && |list| > 0 && list[0].cap <= capacity
    requires 0 <= a0 <= |list|
    requires forall i :: 0 <= i < a0 ==> list[i].cap <= capacity
    ensures e == list[FloorIndex(list, capacity)]
    ensures e in list && e.cap <= capacity
    ensures forall i :: 0 <= i < |list| && list[i].cap <= capacity ==> list[i].cap <= e.cap
  {
    var a, b := a0, |list| - 1;
    while a < b
      invariant 0 <= a <= b + 1 && 0 <= b < |list|
      invariant forall i :: 0 <= i < a ==> list[i].cap <= capacity
      invariant forall i :: b < i < |list| ==> list[i].cap > capacity
    {
      var m := (a + b) / 2;
      if list[m].cap < capacity {
        a := m + 1;
      } else if list[m].cap > capacity {
        b := m - 1;
      } else {
        return list[m];
      }
    }
    if list[b].cap > capacity {
      e := list[b - 1];
    } else {
      e := list[b];
    }
  }

  /** worthIt: whether an entry (`c`, `v1`) would beat what the row already
      reaches with capacity `c` or less. */
  method WorthIt(list: seq<Entry>, c: int, v1: int, a0: int) returns (r: bool)
    requires Ascending(list) && |list| > 0 && list[0].cap <= c
    requires 0 <= a0 <= |list|
    requires forall i :: 0 <= i < a0 ==> list[i].cap <= c
    ensures r == Probe(list, c, v1, a0, |list| - 1)
  {
    var a, b := a0, |list| - 1;
    while a < b
      invariant 0 <= a <= b + 1 && 0 <= b < |list|
      invariant Probe(list, c, v1, a, b) == Probe(list, c, v1, a0, |list| - 1)
    {
      var m := (a + b) / 2;
      if list[m].cap < c {
        if list[m].val > v1 {
          return false;
        }
        a := m + 1;
      } else if list[m].cap > c {
        b := m - 1;
      } else {
        return list[m].val < v1;
      }
    }
    if list[b].cap > c {
      r := list[b - 1].val < v1;
    } else {
      r := list[b].val < v1;
    }
  }

  /** The binary search of setValue (both copies): the place of an entry of
      capacity `c`, and whether an entry of that capacity is already there.
      The entries below the lower bound `a0` are lighter than `c`. */
  method Locate(list: seq<Entry>, c: int, a0: int) returns (p: nat, found: bool)
    requires Ascending(list) && |list| > 0 && list[0].cap <= c
    requires 0 <= a0 <= |list|
    requires forall i :: 0 <= i < a0 ==> list[i].cap < c
    ensures p == PlaceIndex(list, c)
    ensures found ==> p < |list| && list[p].cap == c
    ensures !found ==>
      && p <= |list|
      && (forall i :: 0 <= i < p ==> list[i].cap < c)
      && (forall i :: p <= i < |list| ==> list[i].cap > c)
  {
    var a, b := a0, |list| - 1;
    while a < b
      invariant 0 <= a <= b + 1 && 0 <= b < |list|
      invariant forall i :: 0 <= i < a ==> list[i].cap < c
      invariant forall i :: b < i < |list| ==> list[i].cap > c
    {
      var m := (a + b) / 2;
      if list[m].cap < c {
        a := m + 1;
      } else if list[m].cap > c {
        b := m - 1;
      } else {
        FloorIsGreatest(list, c, m);
        assert FloorIndex(list, c) == m;
        return m, true;
      }
    }
    var k := FloorIndex(list, c);
    if list[b].cap <= c {
      FloorIsGreatest(list, c, b);
      assert k == b;
    } else {
      FloorIsGreatest(list, c, b - 1);
      assert k == b - 1;
    }
    if list[b].cap == c {
      p, found := b, true;
    } else if list[b].cap > c {
      p, found := b, false;
    } else {
      p, found := b + 1, false;
    }
  }

  /** A frontier row that knapsack grows in place. */
  class Row {
    var entries: seq<Entry>

    constructor (entries: seq<Entry>)
      ensures this.entries == entries
    {
      this.entries := entries;
    }

    /** The "(NEU)" loop: removes the entries right after index `p` while
        they are worth less than `v`. */
    method DropWorseAfter(p: nat, v: int)
      requires p < |entries|
      modifies this
      ensures entries == DropAfter(old(entries), p, v)
    {
      ghost var u := entries;
      ghost var d := 0;
      while p + 1 < |entries| && entries[p + 1].val < v
        invariant 0 <= d <= |u| - p - 1
        invariant entries == u[..p + 1] + u[p + 1 + d..]
        invariant forall i :: p + 1 <= i < p + 1 + d ==> u[i].val < v
        decreases |entries|
      {
        assert entries[p + 1] == u[p + 1 + d];
        assert entries[p + 2..] == u[p + 2 + d..];
        entries := entries[..p + 1] + entries[p + 2..];
        d := d + 1;
      }
      LessPrefixIs(u[p + 1..], v, d);
    }

    /** setValue of src/algorithm.worker.ts. */
    method SetValue(e: Entry, a0: int)
      requires Ascending(entries) && |entries| > 0 && entries[0].cap <= e.cap
      requires 0 <= a0 <= |entries|
      requires forall i :: 0 <= i < a0 ==> entries[i].cap < e.cap
      modifies this
      ensures entries == UpsertPruned(old(entries), e)
    {
      var p, found := Locate(entries, e.cap, a0);
      UpsertIndex(entries, e);
      ghost var u := Upsert(entries, e);
      if found {
        entries := entries[p := e];
      } else {
        entries := entries[..p] + [e] + entries[p..];
      }
      assert entries == u;
      DropWorseAfter(p, e.val);
    }

    /** setValue of algorithm.js. */
    method SetValueUnpruned(e: Entry, a0: int)
      requires Ascending(entries) && |entries| > 0 && entries[0].cap <= e.cap
      requires 0 <= a0 <= |entries|
      requires forall i :: 0 <= i < a0 ==> entries[i].cap < e.cap
      modifies this
      ensures entries == Upsert(old(entries), e)
    {
      var p, found := Locate(entries, e.cap, a0);
      if found {
        entries := entries[p := e];
      } else {
        entries := entries[..p] + [e] + entries[p..];
      }
    }
  }
}
