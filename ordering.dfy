/** The orderings the engine uses: the stable descending sort that both
    knapsack (by value per weight) and doubleKnapsack (by total weight) apply
    to item types, indexOf on the sorted order, putting results back into
    input order, and sums that do not care about that reordering. */
module Ordering {

  /** A sort key `num / den` with a positive denominator, compared exactly. */
  datatype Ratio = Ratio(num: int, den: int)

  predicate ValidKeys(keys: seq<Ratio>)
  {
    forall i :: 0 <= i < |keys| ==> keys[i].den > 0
  }

  /** `k1` is strictly greater than `k2`, by cross-multiplication. */
  predicate Greater(k1: Ratio, k2: Ratio)
  {
    k1.num * k2.den > k2.num * k1.den
  }

  /** The comparison is transitive over positive denominators. */
  lemma GreaterTransitive(x: Ratio, y: Ratio, z: Ratio)
    requires x.den > 0 && y.den > 0 && z.den > 0
    requires Greater(x, y) && Greater(y, z)
    ensures Greater(x, z)
  {
    assert x.num * y.den * z.den > y.num * x.den * z.den by {
      MultiplyBoth(x.num * y.den, y.num * x.den, z.den);
    }
    assert y.num * z.den * x.den > z.num * y.den * x.den by {
      MultiplyBoth(y.num * z.den, z.num * y.den, x.den);
    }
    assert x.num * z.den * y.den > z.num * x.den * y.den;
    if x.num * z.den <= z.num * x.den {
      MultiplyBothWeak(x.num * z.den, z.num * x.den, y.den);
    }
  }

  /** Not being smaller is transitive too. */
  lemma AtLeastTransitive(x: Ratio, y: Ratio, z: Ratio)
    requires x.den > 0 && y.den > 0 && z.den > 0
    requires !Greater(y, x) && !Greater(z, y)
    ensures !Greater(z, x)
  {
    if Greater(z, x) {
      if Greater(y, z) {
        GreaterTransitive(y, z, x);
      } else {
        assert z.num * y.den == y.num * z.den;
        assert z.num * x.den * y.den > x.num * z.den * y.den by {
          MultiplyBoth(z.num * x.den, x.num * z.den, y.den);
        }
        assert y.num * x.den * z.den <= x.num * y.den * z.den by {
          MultiplyBothWeak(y.num * x.den, x.num * y.den, z.den);
        }
      }
    }
  }

  lemma MultiplyBoth(a: int, b: int, c: int)
    requires a > b && c > 0
    ensures a * c > b * c
  {
  }

  lemma MultiplyBothWeak(a: int, b: int, c: int)
    requires a <= b && c > 0
    ensures a * c <= b * c
  {
  }

  /** `order` lists each of 0 .. n-1 exactly once. */
  predicate IsPermutation(order: seq<nat>, n: nat)
  {
    && |order| == n
    && (forall t :: 0 <= t < n ==> order[t] < n)
    && (forall s, t :: 0 <= s < t < n ==> order[s] != order[t])
    && (forall i :: 0 <= i < n ==> i in order)
  }

  /** Where the stable sort puts index `x`: after every index whose key is at
      least `x`'s, so that among equal keys the earlier index stays first. */
  function InsertPos(keys: seq<Ratio>, order: seq<nat>, x: nat): (p: nat)
    requires forall t :: 0 <= t < |order| ==> order[t] < |keys|
    requires x < |keys|
    ensures p <= |order|
    ensures forall t :: 0 <= t < p ==> !Greater(keys[x], keys[order[t]])
    ensures p < |order| ==> Greater(keys[x], keys[order[p]])
  {
    if order == [] || Greater(keys[x], keys[order[0]]) then 0
    else 1 + InsertPos(keys, order[1..], x)
  }

  function Insert(keys: seq<Ratio>, order: seq<nat>, x: nat): seq<nat>
    requires forall t :: 0 <= t < |order| ==> order[t] < |keys|
    requires x < |keys|
  {
    var p := InsertPos(keys, order, x);
    order[..p] + [x] + order[p..]
  }

  /** The indices 0 .. n-1 in the order of a stable sort by descending key,
      as Array.prototype.sort with the comparator `key(b) - key(a)` leaves
      them. */
  function SortDesc(keys: seq<Ratio>, n: nat): (order: seq<nat>)
    requires n <= |keys|
    ensures |order| == n
    ensures forall t :: 0 <= t < n ==> order[t] < n
  {
    if n == 0 then [] else
      var rest := SortDesc(keys, n - 1);
      var p := InsertPos(keys, rest, n - 1);
      var order := Insert(keys, rest, n - 1);
      assert forall t :: 0 <= t < n ==> order[t] == (if t < p then rest[t] else if t == p then n - 1 else rest[t - 1]);
      order
  }

  /** How one insertion step of the sort moves the earlier indices. */
  lemma SortStep(keys: seq<Ratio>, n: nat)
    requires 0 < n <= |keys|
    ensures var rest := SortDesc(keys, n - 1);
      var p := InsertPos(keys, rest, n - 1);
      var order := SortDesc(keys, n);
      && p < n && order[p] == n - 1
      && (forall t :: 0 <= t < p ==> order[t] == rest[t])
      && (forall t :: p < t < n ==> order[t] == rest[t - 1])
  {
  }

  /** The sort neither loses nor repeats an index. */
  lemma {:induction false} SortIsPermutation(keys: seq<Ratio>, n: nat)
    requires n <= |keys|
    ensures IsPermutation(SortDesc(keys, n), n)
  {
    if n > 0 {
      SortIsPermutation(keys, n - 1);
      SortStep(keys, n);
      var rest := SortDesc(keys, n - 1);
      var p := InsertPos(keys, rest, n - 1);
      var order := SortDesc(keys, n);
      forall s, t | 0 <= s < t < n ensures order[s] != order[t] {
        var s' := if s < p then s else s - 1;
        var t' := if t < p then t else t - 1;
        if s != p && t != p {
          assert order[s] == rest[s'] && order[t] == rest[t'] && s' < t';
        }
      }
      forall i | 0 <= i < n ensures i in order {
        if i == n - 1 {
          assert order[p] == i;
        } else {
          assert i in rest;
          var k :| 0 <= k < n - 1 && rest[k] == i;
          if k < p { assert order[k] == i; } else { assert order[k + 1] == i; }
        }
      }
    }
  }

  /** Neighbours in the sorted order: the first key is at least the second,
      and on equal keys the earlier input index comes first. */
  predicate SortedPair(keys: seq<Ratio>, i: nat, j: nat)
    requires i < |keys| && j < |keys|
  {
    !Greater(keys[j], keys[i]) && (!Greater(keys[i], keys[j]) ==> i < j)
  }

  predicate SortedStable(keys: seq<Ratio>, order: seq<nat>)
    requires forall t :: 0 <= t < |order| ==> order[t] < |keys|
  {
    forall t :: 0 <= t < |order| - 1 ==> SortedPair(keys, order[t], order[t + 1])
  }

  /** Each index of the sorted order has a key at least that of the next one,
      and equal keys keep their input order. */
  lemma {:induction false} SortIsSortedStable(keys: seq<Ratio>, n: nat)
    requires n <= |keys|
    ensures SortedStable(keys, SortDesc(keys, n))
  {
    if n > 0 {
      SortIsSortedStable(keys, n - 1);
      var rest := SortDesc(keys, n - 1);
      var p := InsertPos(keys, rest, n - 1);
      var order := SortDesc(keys, n);
      assert order == rest[..p] + [n - 1] + rest[p..];
      forall t | 0 <= t < n - 1 ensures SortedPair(keys, order[t], order[t + 1]) {
        if t + 1 < p {
          assert order[t] == rest[t] && order[t + 1] == rest[t + 1];
        } else if t + 1 == p {
          assert order[t] == rest[t] && order[t + 1] == n - 1;
        } else if t == p {
          assert order[t + 1] == rest[t];
        } else {
          assert order[t] == rest[t - 1] && order[t + 1] == rest[t];
        }
      }
    }
  }

  /** Neighbour by neighbour ordering carries over to any two positions: an
      earlier index in the sorted order never has a smaller key. */
  lemma {:induction false} SortedStableGlobal(keys: seq<Ratio>, order: seq<nat>, s: nat, t: nat)
    requires ValidKeys(keys)
    requires forall k :: 0 <= k < |order| ==> order[k] < |keys|
    requires SortedStable(keys, order)
    requires s < t < |order|
    ensures !Greater(keys[order[t]], keys[order[s]])
    decreases t - s
  {
    assert SortedPair(keys, order[t - 1], order[t]);
    if s < t - 1 {
      SortedStableGlobal(keys, order, s, t - 1);
      AtLeastTransitive(keys[order[s]], keys[order[t - 1]], keys[order[t]]);
    }
  }

  /** The position of the first occurrence of `x`, as indexOf finds it. */
  function IndexOf(s: seq<nat>, x: nat): (k: nat)
    requires x in s
    ensures k < |s| && s[k] == x
    ensures forall t :: 0 <= t < k ==> s[t] != x
  {
    if s[0] == x then 0 else 1 + IndexOf(s[1..], x)
  }

  /** On a permutation indexOf undoes the lookup. */
  lemma {:induction false} IndexOfPermutation(order: seq<nat>, n: nat, t: nat)
    requires IsPermutation(order, n) && t < n
    ensures IndexOf(order, order[t]) == t
  {
  }

  /** `c` is given in the order `order`; the result gives the entry of each
      input index, as `counts.map((_, i) => counts[reversedIndexes[i]])`. */
  function Restore(c: seq<int>, order: seq<nat>): (r: seq<int>)
    requires |c| == |order|
    requires forall i :: 0 <= i < |order| ==> i in order
    ensures |r| == |c|
  {
    seq(|order|, i requires 0 <= i < |order| => c[IndexOf(order, i)])
  }

  /** Restoring puts the value found at sorted position `t` at input index
      `order[t]`. */
  lemma RestoreInverts(c: seq<int>, order: seq<nat>)
    requires |c| == |order| && IsPermutation(order, |order|)
    ensures forall t :: 0 <= t < |order| ==> Restore(c, order)[order[t]] == c[t]
  {
    forall t | 0 <= t < |order| ensures Restore(c, order)[order[t]] == c[t] {
      IndexOfPermutation(order, |order|, t);
    }
  }

  /** The entries of `a` in the order `order`: `sIndexes.map(i => a[i])`. */
  function Pick<T>(a: seq<T>, order: seq<nat>): (r: seq<T>)
    requires forall t :: 0 <= t < |order| ==> order[t] < |a|
    ensures |r| == |order|
  {
    seq(|order|, t requires 0 <= t < |order| => a[order[t]])
  }

  function Sum(s: seq<int>): int
  {
    if s == [] then 0 else Sum(s[..|s| - 1]) + s[|s| - 1]
  }

  lemma {:induction false} SumAppend(a: seq<int>, b: seq<int>)
    ensures Sum(a + b) == Sum(a) + Sum(b)
    decreases |b|
  {
    if b == [] {
      assert a + b == a;
    } else {
      var b' := b[..|b| - 1];
      assert (a + b)[..|a + b| - 1] == a + b';
      assert (a + b)[|a + b| - 1] == b[|b| - 1];
      SumAppend(a, b');
    }
  }

  /** Taking the largest index out of a permutation leaves a permutation. */
  lemma RemoveLargest(order: seq<nat>, n: nat, k: nat)
    requires n > 0 && IsPermutation(order, n) && k < n && order[k] == n - 1
    ensures IsPermutation(order[..k] + order[k + 1..], n - 1)
  {
    var order' := order[..k] + order[k + 1..];
    assert forall t :: 0 <= t < n - 1 ==> order'[t] == (if t < k then order[t] else order[t + 1]);
    forall i | 0 <= i < n - 1 ensures i in order' {
      assert i in order;
      var t :| 0 <= t < n && order[t] == i;
      if t < k { assert order'[t] == i; } else { assert t != k; assert order'[t - 1] == i; }
    }
  }

  /** Picking along a permutation, split around the position of the largest
      index. */
  lemma PickSplit(f: seq<int>, order: seq<nat>, k: nat)
    requires |f| > 0 && IsPermutation(order, |f|) && k < |f| && order[k] == |f| - 1
    ensures var f' := f[..|f| - 1];
      && (forall t :: 0 <= t < |order| && t != k ==> order[t] < |f'|)
      && Pick(f, order) == Pick(f', order[..k]) + [f[|f| - 1]] + Pick(f', order[k + 1..])
      && Pick(f', order[..k] + order[k + 1..]) == Pick(f', order[..k]) + Pick(f', order[k + 1..])
  {
  }

  /** Summing in another order gives the same total. */
  lemma {:induction false} SumReindex(f: seq<int>, order: seq<nat>)
    requires IsPermutation(order, |f|)
    ensures Sum(Pick(f, order)) == Sum(f)
    decreases |f|
  {
    var n := |f|;
    if n > 0 {
      var k := IndexOf(order, n - 1);
      RemoveLargest(order, n, k);
      PickSplit(f, order, k);
      var f' := f[..n - 1];
      var left := Pick(f', order[..k]);
      var right := Pick(f', order[k + 1..]);
      SumReindex(f', order[..k] + order[k + 1..]);
      SumAppend(left + [f[n - 1]], right);
      SumAppend(left, [f[n - 1]]);
      SumAppend(left, right);
      assert [f[n - 1]][..0] == [];
    }
  }

  /** Σ c[i] * a[i]. */
  function Dot(c: seq<int>, a: seq<int>): int
    requires |c| == |a|
  {
    if c == [] then 0 else Dot(c[..|c| - 1], a[..|a| - 1]) + c[|c| - 1] * a[|a| - 1]
  }

  /** The products of two sequences, index by index. */
  function Products(c: seq<int>, a: seq<int>): (p: seq<int>)
    requires |c| == |a|
    ensures |p| == |c| && forall i :: 0 <= i < |c| ==> p[i] == c[i] * a[i]
  {
    seq(|c|, i requires 0 <= i < |c| => c[i] * a[i])
  }

  /** The weighted sum is the sum of the products. */
  lemma {:induction false} DotIsSum(c: seq<int>, a: seq<int>)
    requires |c| == |a|
    ensures Dot(c, a) == Sum(Products(c, a))
    decreases |c|
  {
    if c != [] {
      var n := |c|;
      DotIsSum(c[..n - 1], a[..n - 1]);
      assert Products(c, a)[..n - 1] == Products(c[..n - 1], a[..n - 1]);
    }
  }

  /** Appending one term adds its product. */
  lemma {:induction false} DotSnoc(c: seq<int>, a: seq<int>, x: int, y: int)
    requires |c| == |a|
    ensures Dot(c + [x], a + [y]) == Dot(c, a) + x * y
  {
    assert (c + [x])[..|c|] == c;
    assert (a + [y])[..|a|] == a;
  }

  /** A weighted sum of values given in sorted order equals the weighted sum of
      the restored values in input order. */
  lemma {:induction false} DotRestore(c: seq<int>, order: seq<nat>, a: seq<int>)
    requires |c| == |order| == |a| && IsPermutation(order, |order|)
    ensures Dot(Restore(c, order), a) == Dot(c, Pick(a, order))
  {
    var r := Restore(c, order);
    RestoreInverts(c, order);
    var f := Products(r, a);
    SumReindex(f, order);
    assert Pick(f, order) == Products(c, Pick(a, order));
    DotIsSum(r, a);
    DotIsSum(c, Pick(a, order));
  }

  /** Σ over a sequence padded with zeros is unchanged. */
  lemma {:induction false} DotPadded(c: seq<int>, a: seq<int>, m: nat)
    requires |c| + m == |a|
    ensures Dot(c + Zeros(m), a) == Dot(c, a[..|c|])
    decreases m
  {
    if m == 0 {
      assert c + Zeros(0) == c;
      assert a[..|c|] == a;
    } else {
      var n := |a|;
      DotPadded(c, a[..n - 1], m - 1);
      assert (c + Zeros(m))[..n - 1] == c + Zeros(m - 1);
      assert a[..n - 1][..|c|] == a[..|c|];
    }
  }

  /** Counts for the first |c| positions of a reordering, padded with zeros
      and restored, weigh the column as they weighed its reordering. */
  lemma {:induction false} DotRestorePadded(c: seq<int>, order: seq<nat>, a: seq<int>)
    requires |c| <= |a| == |order| && IsPermutation(order, |order|)
    ensures Dot(Restore(c + Zeros(|a| - |c|), order), a) == Dot(c, Pick(a, order)[..|c|])
  {
    DotRestore(c + Zeros(|a| - |c|), order, a);
    DotPadded(c, Pick(a, order), |a| - |c|);
  }

  function Zeros(m: nat): (z: seq<int>)
    ensures |z| == m && forall i :: 0 <= i < m ==> z[i] == 0
  {
    seq(m, _ => 0)
  }
}
