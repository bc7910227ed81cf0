/** Stable ordering of enumeration positions by a numeric key, top-k
    selection, and the presentation shuffle.

    A stable sort by key puts position p before position q exactly when
    p's key is smaller, or the keys are equal and p was enumerated first.
    The model therefore sorts positions by the pair (key, position); that
    order is strict and total, so the sorted list is unique (OrderedUnique). */
module Ranking {

  /** Position `p` comes before position `q` in a stable sort by `keys`. */
  predicate Before(keys: seq<nat>, p: nat, q: nat)
  {
    p < |keys| && q < |keys| && (keys[p] < keys[q] || (keys[p] == keys[q] && p < q))
  }

  /** `order` lists positions of `keys`, each strictly before the next. */
  predicate Ordered(keys: seq<nat>, order: seq<nat>)
  {
    && (forall i :: 0 <= i < |order| ==> order[i] < |keys|)
    && (forall i, j :: 0 <= i < j < |order| ==> Before(keys, order[i], order[j]))
  }

  /** Insert position `x` into an ordered list of other positions. */
  function Insert(keys: seq<nat>, x: nat, order: seq<nat>): (r: seq<nat>)
    requires x < |keys| && Ordered(keys, order) && x !in order
    ensures Ordered(keys, r)
    ensures |r| == |order| + 1
    ensures forall p :: p in r <==> p == x || p in order
    decreases |order|
  {
    if |order| == 0 || Before(keys, x, order[0]) then [x] + order
    else
      var rest := Insert(keys, x, order[1..]);
      assert forall p :: p in rest ==> Before(keys, order[0], p) by {
        forall p | p in rest ensures Before(keys, order[0], p) {
          if p != x {
            OrderedTail(keys, order, p);
          }
        }
      }
      [order[0]] + rest
  }

  /** Positions 0 .. n-1 of `keys` in stable order (insertion sort). */
  function StableOrder(keys: seq<nat>, n: nat): (r: seq<nat>)
    requires n <= |keys|
    ensures Ordered(keys, r)
    ensures |r| == n
    ensures forall p: nat :: p in r <==> p < n
  {
    if n == 0 then [] else Insert(keys, n - 1, StableOrder(keys, n - 1))
  }

  /** Two ordered lists of the same positions are equal: the stable order is unique. */
  lemma {:induction false} OrderedUnique(keys: seq<nat>, a: seq<nat>, b: seq<nat>)
    requires Ordered(keys, a) && Ordered(keys, b)
    requires forall p :: p in a <==> p in b
    ensures a == b
    decreases |a|
  {
    assert |a| == 0 <==> |b| == 0 by {
      if |a| > 0 { assert a[0] in a; }
      if |b| > 0 { assert b[0] in b; }
    }
    if |a| > 0 {
      assert a[0] in b && b[0] in a;
      OrderedHeadFirst(keys, a, b[0]);
      OrderedHeadFirst(keys, b, a[0]);
      assert a[0] == b[0];
      forall p ensures p in a[1..] <==> p in b[1..] {
        OrderedTail(keys, a, p);
        OrderedTail(keys, b, p);
      }
      OrderedTail(keys, a, 0);
      OrderedTail(keys, b, 0);
      OrderedUnique(keys, a[1..], b[1..]);
      assert a == [a[0]] + a[1..] && b == [b[0]] + b[1..];
    }
  }

  /** The head of an ordered list comes before every other position in it. */
  lemma OrderedHeadFirst(keys: seq<nat>, a: seq<nat>, p: nat)
    requires Ordered(keys, a) && |a| > 0 && p in a
    ensures p == a[0] || Before(keys, a[0], p)
  {
    var m :| 0 <= m < |a| && a[m] == p;
    if m > 0 {
      assert Before(keys, a[0], a[m]);
    }
  }

  /** The tail of an ordered list holds exactly its positions other than the head. */
  lemma OrderedTail(keys: seq<nat>, a: seq<nat>, p: nat)
    requires Ordered(keys, a) && |a| > 0
    ensures Ordered(keys, a[1..])
    ensures p in a[1..] <==> p in a && p != a[0]
  {
    if p in a[1..] {
      var m :| 0 <= m < |a[1..]| && a[1..][m] == p;
      assert a[m + 1] == p;
      assert Before(keys, a[0], a[m + 1]);
    }
    if p in a && p != a[0] {
      var m :| 0 <= m < |a| && a[m] == p;
      assert a[1..][m - 1] == p;
    }
  }

  /** In an ordered list, everything among the first k comes before everything after them. */
  lemma KeptBeforeDropped(keys: seq<nat>, order: seq<nat>, k: nat, p: nat, q: nat)
    requires Ordered(keys, order) && k <= |order|
    requires p in order[..k] && q in order[k..]
    ensures Before(keys, p, q)
    ensures keys[p] <= keys[q]
    ensures keys[p] == keys[q] ==> p < q
  {
    var i :| 0 <= i < k && order[..k][i] == p;
    var j :| 0 <= j < |order| - k && order[k..][j] == q;
    assert order[i] == p && order[k + j] == q;
  }

  /** `perm` rearranges the positions 0 .. n-1: each occurs exactly once. */
  predicate IsPermutation(perm: seq<nat>, n: nat)
  {
    && |perm| == n
    && (forall i :: 0 <= i < n ==> perm[i] < n)
    && (forall i, j :: 0 <= i < j < n ==> perm[i] != perm[j])
    && (forall p: nat :: p < n ==> p in perm)
  }

  /** The list `xs` rearranged by `perm`: entry i of the result is entry perm[i] of `xs`. */
  function Permute<T>(xs: seq<T>, perm: seq<nat>): (r: seq<T>)
    requires IsPermutation(perm, |xs|)
    ensures |r| == |xs|
  {
    seq(|xs|, i requires 0 <= i < |xs| => xs[perm[i]])
  }

  /** A rearrangement keeps exactly the same elements, and keeps them distinct. */
  lemma PermuteSameElements<T>(xs: seq<T>, perm: seq<nat>)
    requires IsPermutation(perm, |xs|)
    ensures forall x :: x in Permute(xs, perm) ==> x in xs
    ensures forall i :: 0 <= i < |xs| ==> xs[i] in Permute(xs, perm)
    ensures (forall i, j :: 0 <= i < j < |xs| ==> xs[i] != xs[j]) ==>
            (forall i, j :: 0 <= i < j < |xs| ==> Permute(xs, perm)[i] != Permute(xs, perm)[j])
  {
    var r := Permute(xs, perm);
    forall i | 0 <= i < |xs| ensures xs[i] in r {
      assert i in perm;
      var m :| 0 <= m < |perm| && perm[m] == i;
      assert r[m] == xs[i];
    }
    if forall i, j :: 0 <= i < j < |xs| ==> xs[i] != xs[j] {
      forall i, j | 0 <= i < j < |xs| ensures r[i] != r[j] {
        if perm[i] < perm[j] {
          assert xs[perm[i]] != xs[perm[j]];
        } else {
          assert xs[perm[j]] != xs[perm[i]];
        }
      }
    }
  }
}
