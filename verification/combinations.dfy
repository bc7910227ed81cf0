/** Enumeration of k-element subsequences in the order `itertools.combinations`
    yields them, and the complement `[x for x in s if x not in c]` that pairs
    each chosen group with the rest. */
module Subsets {

  /** No element occurs twice. */
  predicate Distinct<T(==)>(s: seq<T>)
  {
    forall i, j :: 0 <= i < j < |s| ==> s[i] != s[j]
  }

  /** `c` is obtained from `s` by deleting elements and keeping the rest in order. */
  predicate IsSubsequence<T(==)>(c: seq<T>, s: seq<T>)
    decreases |s|
  {
    |c| <= |s| &&
    (|c| == 0 ||
     (c[0] == s[0] && IsSubsequence(c[1..], s[1..])) ||
     IsSubsequence(c, s[1..]))
  }

  /** The binomial coefficient, by Pascal's rule. */
  function Binomial(n: nat, k: nat): nat
  {
    if k == 0 then 1
    else if n == 0 then 0
    else Binomial(n - 1, k - 1) + Binomial(n - 1, k)
  }

  /** One application of Pascal's rule with the two entries above known. */
  lemma PascalStep(n: nat, k: nat, a: nat, b: nat)
    requires n > 0 && k > 0
    requires Binomial(n - 1, k - 1) == a && Binomial(n - 1, k) == b
    ensures Binomial(n, k) == a + b
  {
  }

  /** No k-element subsequences exist when k exceeds the length. */
  lemma {:induction false} BinomialAbove(n: nat, k: nat)
    requires k > n
    ensures Binomial(n, k) == 0
    decreases n
  {
    if n > 0 {
      BinomialAbove(n - 1, k - 1);
      BinomialAbove(n - 1, k);
    }
  }

  /** C(10, 5) = 252, computed entry by entry along Pascal's triangle. */
  lemma BinomialTenFive()
    ensures Binomial(10, 5) == 252
  {
    BinomialAbove(0, 1);
    PascalStep(1, 1, 1, 0);
    PascalStep(2, 1, 1, 1);
    BinomialAbove(1, 2);
    PascalStep(2, 2, 1, 0);
    PascalStep(3, 1, 1, 2);
    PascalStep(3, 2, 2, 1);
    BinomialAbove(2, 3);
    PascalStep(3, 3, 1, 0);
    PascalStep(4, 1, 1, 3);
    PascalStep(4, 2, 3, 3);
    PascalStep(4, 3, 3, 1);
    BinomialAbove(3, 4);
    PascalStep(4, 4, 1, 0);
    PascalStep(5, 1, 1, 4);
    PascalStep(5, 2, 4, 6);
    PascalStep(5, 3, 6, 4);
    PascalStep(5, 4, 4, 1);
    BinomialAbove(4, 5);
    PascalStep(5, 5, 1, 0);
    PascalStep(6, 1, 1, 5);
    PascalStep(6, 2, 5, 10);
    PascalStep(6, 3, 10, 10);
    PascalStep(6, 4, 10, 5);
    PascalStep(6, 5, 5, 1);
    PascalStep(7, 2, 6, 15);
    PascalStep(7, 3, 15, 20);
    PascalStep(7, 4, 20, 15);
    PascalStep(7, 5, 15, 6);
    PascalStep(8, 3, 21, 35);
    PascalStep(8, 4, 35, 35);
    PascalStep(8, 5, 35, 21);
    PascalStep(9, 4, 56, 70);
    PascalStep(9, 5, 70, 56);
    PascalStep(10, 5, 126, 126);
  }

  /** Every k-element subsequence of `s`: first those that keep `s[0]`
      (extending the (k-1)-subsequences of the tail), then those of the tail.
      This is the lexicographic order of chosen positions. */
  function Combinations<T>(s: seq<T>, k: nat): (r: seq<seq<T>>)
    ensures forall i :: 0 <= i < |r| ==> |r[i]| == k
    decreases |s|
  {
    if k == 0 then [[]]
    else if |s| == 0 then []
    else
      var keep := Combinations(s[1..], k - 1);
      var skip := Combinations(s[1..], k);
      seq(|keep|, i requires 0 <= i < |keep| => [s[0]] + keep[i]) + skip
  }

  /** There are C(|s|, k) of them. */
  lemma {:induction false} CombinationsCount<T>(s: seq<T>, k: nat)
    ensures |Combinations(s, k)| == Binomial(|s|, k)
    decreases |s|
  {
    if k > 0 && |s| > 0 {
      CombinationsCount(s[1..], k - 1);
      CombinationsCount(s[1..], k);
    }
  }

  /** The elements of `s` that do not occur in `c`, in the order of `s`. */
  function Complement<T(==)>(s: seq<T>, c: seq<T>): (r: seq<T>)
    ensures IsSubsequence(r, s)
    ensures forall x :: x in r ==> x in s && x !in c
    ensures forall x :: x in s && x !in c ==> x in r
    decreases |s|
  {
    if |s| == 0 then []
    else if s[0] in c then Complement(s[1..], c)
    else [s[0]] + Complement(s[1..], c)
  }

  /** In a list without repeats the head does not recur in the tail. */
  lemma HeadNotInTail<T>(s: seq<T>)
    requires Distinct(s) && |s| > 0
    ensures s[0] !in s[1..] && Distinct(s[1..])
  {
    forall m | 0 <= m < |s[1..]| ensures s[1..][m] != s[0] {
      assert s[1..][m] == s[m + 1];
    }
  }

  /** A subsequence takes its elements from the list. */
  lemma {:induction false} SubsequenceMembers<T>(c: seq<T>, s: seq<T>)
    requires IsSubsequence(c, s)
    ensures forall x :: x in c ==> x in s
    decreases |s|
  {
    if |c| == 0 {
    } else if c[0] == s[0] && IsSubsequence(c[1..], s[1..]) {
      SubsequenceMembers(c[1..], s[1..]);
      assert c == [c[0]] + c[1..];
      assert s == [s[0]] + s[1..];
    } else {
      SubsequenceMembers(c, s[1..]);
      assert s == [s[0]] + s[1..];
    }
  }

  /** A subsequence of a list without repeats has none either. */
  lemma {:induction false} SubsequenceDistinct<T>(c: seq<T>, s: seq<T>)
    requires IsSubsequence(c, s) && Distinct(s)
    ensures Distinct(c)
    decreases |s|
  {
    if |c| == 0 {
    } else if c[0] == s[0] && IsSubsequence(c[1..], s[1..]) {
      SubsequenceDistinct(c[1..], s[1..]);
      SubsequenceMembers(c[1..], s[1..]);
      forall i, j | 0 <= i < j < |c| ensures c[i] != c[j] {
        if i == 0 {
          assert c[j] == c[1..][j - 1];
          assert c[j] in s[1..];
          var m :| 0 <= m < |s[1..]| && s[1..][m] == c[j];
          assert s[m + 1] == c[j];
        } else {
          assert c[i] == c[1..][i - 1] && c[j] == c[1..][j - 1];
        }
      }
    } else {
      SubsequenceDistinct(c, s[1..]);
    }
  }

  /** A subsequence is no longer than the list. */
  lemma {:induction false} SubsequenceLength<T>(c: seq<T>, s: seq<T>)
    requires IsSubsequence(c, s)
    ensures |c| <= |s|
    decreases |s|
  {
    if |c| > 0 {
      if c[0] == s[0] && IsSubsequence(c[1..], s[1..]) {
        SubsequenceLength(c[1..], s[1..]);
      } else {
        SubsequenceLength(c, s[1..]);
      }
    }
  }

  /** Dropping one entry leaves a subsequence. */
  lemma {:induction false} DropOneIsSubsequence<T>(s: seq<T>, i: nat)
    requires i < |s|
    ensures IsSubsequence(s[..i] + s[i + 1..], s)
    decreases i
  {
    if i == 0 {
      assert s[..i] + s[i + 1..] == s[1..];
      SubsequenceOfTail(s);
    } else {
      DropOneIsSubsequence(s[1..], i - 1);
      var d := s[..i] + s[i + 1..];
      assert d[0] == s[0];
      assert d[1..] == s[1..][..i - 1] + s[1..][i..];
    }
  }

  /** The tail of a list is a subsequence of it. */
  lemma SubsequenceOfTail<T>(s: seq<T>)
    requires |s| > 0
    ensures IsSubsequence(s[1..], s)
  {
    SubsequenceReflexive(s[1..]);
  }

  lemma {:induction false} SubsequenceReflexive<T>(s: seq<T>)
    ensures IsSubsequence(s, s)
    decreases |s|
  {
    if |s| > 0 {
      SubsequenceReflexive(s[1..]);
    }
  }

  /** Every enumerated combination is a subsequence of the input. */
  lemma {:induction false} CombinationsAreSubsequences<T>(s: seq<T>, k: nat, i: nat)
    requires i < |Combinations(s, k)|
    ensures IsSubsequence(Combinations(s, k)[i], s)
    decreases |s|
  {
    var c := Combinations(s, k)[i];
    if k == 0 {
      assert c == [];
    } else {
      var keep := Combinations(s[1..], k - 1);
      if i < |keep| {
        CombinationsAreSubsequences(s[1..], k - 1, i);
        assert c == [s[0]] + keep[i];
        assert c[1..] == keep[i];
      } else {
        CombinationsAreSubsequences(s[1..], k, i - |keep|);
        assert c == Combinations(s[1..], k)[i - |keep|];
      }
    }
  }

  /** Position `j` of the first block is the tail's `j`-th (k-1)-combination with `s[0]` in front. */
  lemma CombinationsKeepAt<T>(s: seq<T>, k: nat, j: nat)
    requires k > 0 && |s| > 0 && j < |Combinations(s[1..], k - 1)|
    ensures j < |Combinations(s, k)|
    ensures Combinations(s, k)[j] == [s[0]] + Combinations(s[1..], k - 1)[j]
  {
  }

  /** After the first block come the tail's k-combinations, in their own order. */
  lemma CombinationsSkipAt<T>(s: seq<T>, k: nat, j: nat)
    requires k > 0 && |s| > 0 && j < |Combinations(s[1..], k)|
    ensures |Combinations(s[1..], k - 1)| + j < |Combinations(s, k)|
    ensures Combinations(s, k)[|Combinations(s[1..], k - 1)| + j] == Combinations(s[1..], k)[j]
  {
  }

  /** Every k-element subsequence of the input is enumerated. */
  lemma {:induction false} CombinationsComplete<T>(s: seq<T>, c: seq<T>)
    requires IsSubsequence(c, s)
    ensures c in Combinations(s, |c|)
    decreases |s|
  {
    var k := |c|;
    if k == 0 {
      assert Combinations(s, 0)[0] == c;
    } else if c[0] == s[0] && IsSubsequence(c[1..], s[1..]) {
      CombinationsComplete(s[1..], c[1..]);
      var keep := Combinations(s[1..], k - 1);
      var j :| 0 <= j < |keep| && keep[j] == c[1..];
      CombinationsKeepAt(s, k, j);
      assert [s[0]] + c[1..] == c;
      assert Combinations(s, k)[j] == c;
    } else {
      assert IsSubsequence(c, s[1..]);
      CombinationsComplete(s[1..], c);
      var skip := Combinations(s[1..], k);
      var j :| 0 <= j < |skip| && skip[j] == c;
      CombinationsSkipAt(s, k, j);
      assert Combinations(s, k)[|Combinations(s[1..], k - 1)| + j] == c;
    }
  }

  /** Over input without repeats, no combination is enumerated twice. */
  lemma {:induction false} CombinationsDistinct<T>(s: seq<T>, k: nat)
    requires Distinct(s)
    ensures Distinct(Combinations(s, k))
    decreases |s|
  {
    if k == 0 || |s| == 0 {
    } else {
      var r := Combinations(s, k);
      var keep := Combinations(s[1..], k - 1);
      var skip := Combinations(s[1..], k);
      assert Distinct(s[1..]);
      CombinationsDistinct(s[1..], k - 1);
      CombinationsDistinct(s[1..], k);
      forall i, j | 0 <= i < j < |r| ensures r[i] != r[j] {
        if j < |keep| {
          assert r[i] == [s[0]] + keep[i] && r[j] == [s[0]] + keep[j];
          assert r[i][1..] == keep[i] && r[j][1..] == keep[j];
        } else if i < |keep| {
          assert r[i] == [s[0]] + keep[i];
          assert s[0] in r[i];
          assert r[j] == skip[j - |keep|];
          CombinationsAreSubsequences(s[1..], k, j - |keep|);
          SubsequenceMembers(r[j], s[1..]);
          HeadNotInTail(s);
        } else {
          assert r[i] == skip[i - |keep|] && r[j] == skip[j - |keep|];
        }
      }
    }
  }

  /** Where `x` first occurs in `s`; `|s|` when it does not occur. */
  function Position<T(==)>(s: seq<T>, x: T): (p: nat)
    ensures p <= |s|
    ensures p < |s| <==> x in s
    ensures p < |s| ==> s[p] == x
    ensures forall m :: 0 <= m < p ==> s[m] != x
    decreases |s|
  {
    if |s| == 0 then 0
    else if s[0] == x then 0
    else 1 + Position(s[1..], x)
  }

  /** `a` comes before `b` in the lexicographic order of positions in `s`:
      at the first place where they differ, `a` holds the element that occurs
      earlier in `s`. */
  predicate LexBefore<T(==)>(s: seq<T>, a: seq<T>, b: seq<T>)
    decreases |a|
  {
    && |a| > 0 && |b| > 0
    && (Position(s, a[0]) < Position(s, b[0]) || (a[0] == b[0] && LexBefore(s, a[1..], b[1..])))
  }

  /** Past a head that neither list holds, the order in the tail carries over
      to the whole list. */
  lemma {:induction false} LexBeforeTail<T>(s: seq<T>, a: seq<T>, b: seq<T>)
    requires |s| > 0 && s[0] !in a && s[0] !in b
    requires LexBefore(s[1..], a, b)
    ensures LexBefore(s, a, b)
    decreases |a|
  {
    assert a[0] in a && b[0] in b;
    if Position(s[1..], a[0]) >= Position(s[1..], b[0]) {
      assert forall x :: x in a[1..] ==> x in a;
      assert forall x :: x in b[1..] ==> x in b;
      LexBeforeTail(s, a[1..], b[1..]);
    }
  }

  /** The enumeration is in lexicographic order of positions, as
      `itertools.combinations` yields it: of two enumerated subsets, the
      earlier one holds the earlier element of `s` where they first differ. */
  lemma {:induction false} CombinationsOrdered<T>(s: seq<T>, k: nat, i: nat, j: nat)
    requires Distinct(s) && i < j < |Combinations(s, k)|
    ensures LexBefore(s, Combinations(s, k)[i], Combinations(s, k)[j])
    decreases |s|
  {
    assert k > 0 && |s| > 0;
    var keep := Combinations(s[1..], k - 1);
    HeadNotInTail(s);
    if j < |keep| {
      CombinationsOrdered(s[1..], k - 1, i, j);
      OrderedWithinKeep(s, k, i, j);
    } else if i < |keep| {
      OrderedAcrossBlocks(s, k, i, j - |keep|);
    } else {
      CombinationsOrdered(s[1..], k, i - |keep|, j - |keep|);
      OrderedWithinSkip(s, k, i - |keep|, j - |keep|);
    }
  }

  /** Two subsets that both keep the head are ordered as their tails are. */
  lemma OrderedWithinKeep<T>(s: seq<T>, k: nat, i: nat, j: nat)
    requires k > 0 && |s| > 0 && s[0] !in s[1..]
    requires i < j < |Combinations(s[1..], k - 1)|
    requires LexBefore(s[1..], Combinations(s[1..], k - 1)[i], Combinations(s[1..], k - 1)[j])
    ensures LexBefore(s, Combinations(s, k)[i], Combinations(s, k)[j])
  {
    var keep := Combinations(s[1..], k - 1);
    CombinationsAreSubsequences(s[1..], k - 1, i);
    CombinationsAreSubsequences(s[1..], k - 1, j);
    SubsequenceMembers(keep[i], s[1..]);
    SubsequenceMembers(keep[j], s[1..]);
    LexBeforeTail(s, keep[i], keep[j]);
    CombinationsKeepAt(s, k, i);
    CombinationsKeepAt(s, k, j);
    var a, b := Combinations(s, k)[i], Combinations(s, k)[j];
    assert a[0] == b[0] && a[1..] == keep[i] && b[1..] == keep[j];
  }

  /** Two subsets that both skip the head are ordered as in the tail. */
  lemma OrderedWithinSkip<T>(s: seq<T>, k: nat, i: nat, j: nat)
    requires k > 0 && |s| > 0 && s[0] !in s[1..]
    requires i < j < |Combinations(s[1..], k)|
    requires LexBefore(s[1..], Combinations(s[1..], k)[i], Combinations(s[1..], k)[j])
    ensures |Combinations(s[1..], k - 1)| + j < |Combinations(s, k)|
    ensures LexBefore(s, Combinations(s, k)[|Combinations(s[1..], k - 1)| + i],
                         Combinations(s, k)[|Combinations(s[1..], k - 1)| + j])
  {
    var skip := Combinations(s[1..], k);
    CombinationsAreSubsequences(s[1..], k, i);
    CombinationsAreSubsequences(s[1..], k, j);
    SubsequenceMembers(skip[i], s[1..]);
    SubsequenceMembers(skip[j], s[1..]);
    LexBeforeTail(s, skip[i], skip[j]);
    CombinationsSkipAt(s, k, i);
    CombinationsSkipAt(s, k, j);
  }

  /** A subset that keeps the head comes before one that skips it. */
  lemma OrderedAcrossBlocks<T>(s: seq<T>, k: nat, i: nat, j: nat)
    requires k > 0 && |s| > 0 && s[0] !in s[1..]
    requires i < |Combinations(s[1..], k - 1)| && j < |Combinations(s[1..], k)|
    ensures |Combinations(s[1..], k - 1)| + j < |Combinations(s, k)|
    ensures LexBefore(s, Combinations(s, k)[i], Combinations(s, k)[|Combinations(s[1..], k - 1)| + j])
  {
    var skip := Combinations(s[1..], k);
    CombinationsKeepAt(s, k, i);
    CombinationsSkipAt(s, k, j);
    var b := skip[j];
    CombinationsAreSubsequences(s[1..], k, j);
    SubsequenceMembers(b, s[1..]);
    assert b[0] in b;
    assert Position(s, Combinations(s, k)[i][0]) < Position(s, b[0]);
  }

  /** The complement does not depend on elements of `c` that are absent from `s`. */
  lemma {:induction false} ComplementCongruent<T>(s: seq<T>, a: seq<T>, b: seq<T>)
    requires forall x :: x in s ==> (x in a <==> x in b)
    ensures Complement(s, a) == Complement(s, b)
    decreases |s|
  {
    if |s| > 0 {
      assert s[0] in s;
      ComplementCongruent(s[1..], a, b);
    }
  }

  /** Removing a subsequence of a repeat-free list leaves exactly the other
      elements: the chosen group and its complement split the list. */
  lemma {:induction false} ComplementSplits<T>(s: seq<T>, c: seq<T>)
    requires Distinct(s) && IsSubsequence(c, s)
    ensures |Complement(s, c)| == |s| - |c|
    ensures multiset(c) + multiset(Complement(s, c)) == multiset(s)
    decreases |s|
  {
    if |s| == 0 {
    } else if |c| > 0 && c[0] == s[0] && IsSubsequence(c[1..], s[1..]) {
      ComplementDropsHead(s, c);
      ComplementSplits(s[1..], c[1..]);
      MultisetOfHead(s);
      MultisetOfHead(c);
    } else {
      ComplementKeepsHead(s, c);
      ComplementSplits(s[1..], c);
      MultisetOfHead(s);
    }
  }

  /** When the chosen part starts with the head, the complement is that of the tails. */
  lemma ComplementDropsHead<T>(s: seq<T>, c: seq<T>)
    requires Distinct(s) && |s| > 0 && |c| > 0 && c[0] == s[0]
    ensures Complement(s, c) == Complement(s[1..], c[1..])
  {
    HeadNotInTail(s);
    assert c == [c[0]] + c[1..];
    assert forall x :: x in s[1..] ==> (x in c <==> x in c[1..]);
    ComplementCongruent(s[1..], c, c[1..]);
  }

  /** When the chosen part skips the head, the complement starts with it. */
  lemma ComplementKeepsHead<T>(s: seq<T>, c: seq<T>)
    requires Distinct(s) && |s| > 0 && IsSubsequence(c, s)
    requires !(|c| > 0 && c[0] == s[0] && IsSubsequence(c[1..], s[1..]))
    ensures IsSubsequence(c, s[1..])
    ensures Complement(s, c) == [s[0]] + Complement(s[1..], c)
  {
    HeadNotInTail(s);
    SubsequenceMembers(c, s[1..]);
  }

  /** Taking the complement twice gives back the chosen part: on a list
      without repeats, team 2's own complement is team 1. */
  lemma {:induction false} DoubleComplement<T>(s: seq<T>, c: seq<T>)
    requires Distinct(s) && IsSubsequence(c, s)
    ensures Complement(s, Complement(s, c)) == c
    decreases |s|
  {
    if |s| == 0 {
    } else if |c| > 0 && c[0] == s[0] && IsSubsequence(c[1..], s[1..]) {
      HeadNotInTail(s);
      ComplementDropsHead(s, c);
      var t := Complement(s[1..], c[1..]);
      assert s[0] !in t;
      DoubleComplement(s[1..], c[1..]);
      assert Complement(s, t) == [s[0]] + Complement(s[1..], t);
      assert c == [s[0]] + c[1..];
    } else {
      ComplementKeepsHead(s, c);
      HeadNotInTail(s);
      var t := Complement(s[1..], c);
      assert forall x :: x in s[1..] ==> (x in [s[0]] + t <==> x in t);
      ComplementCongruent(s[1..], [s[0]] + t, t);
      DoubleComplement(s[1..], c);
    }
  }

  lemma MultisetOfHead<T>(s: seq<T>)
    requires |s| > 0
    ensures multiset(s) == multiset{s[0]} + multiset(s[1..])
  {
    assert s == [s[0]] + s[1..];
  }
}
