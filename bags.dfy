/**
 * Sums and counts over multisets of natural numbers, the form in which the
 * pipeline's out-degrees are determined (their order is not).
 */
module Bags {

  /** The sum of a multiset of naturals. */
  ghost function BagSum(b: multiset<nat>): nat
    decreases |b|
  {
    if b == multiset{} then 0
    else
      var x :| x in b;
      x + BagSum(b - multiset{x})
  }

  /** BagSum does not depend on which element its definition picks first. */
  lemma {:induction false} BagSumRemove(b: multiset<nat>, y: nat)
    requires y in b
    ensures BagSum(b) == y + BagSum(b - multiset{y})
    decreases |b|
  {
    var x :| x in b && BagSum(b) == x + BagSum(b - multiset{x});
    if x != y {
      assert b - multiset{x} - multiset{y} == b - multiset{y} - multiset{x};
      BagSumRemove(b - multiset{x}, y);
      BagSumRemove(b - multiset{y}, x);
    }
  }

  /** Adding one element to a multiset adds its value to the sum. */
  lemma BagSumAdd(b: multiset<nat>, x: nat)
    ensures BagSum(multiset{x} + b) == x + BagSum(b)
  {
    BagSumRemove(multiset{x} + b, x);
    assert multiset{x} + b - multiset{x} == b;
  }

  /** Removing every copy of `x` from a multiset removes `b[x]` elements. */
  lemma {:induction false} CardRemoveAll(b: multiset<nat>, x: nat)
    ensures |b| == |b[x := 0]| + b[x]
    decreases b[x]
  {
    if b[x] > 0 {
      var fewer := b[x := b[x] - 1];
      assert b == fewer + multiset{x};
      assert fewer[x := 0] == b[x := 0];
      CardRemoveAll(fewer, x);
    } else {
      assert b[x := 0] == b;
    }
  }

  /** Splitting one copy of `x` off a multiset that contains it. */
  lemma SplitOne(b: multiset<nat>, x: nat)
    requires b[x] > 0
    ensures b == multiset{x} + b[x := b[x] - 1]
    ensures b[x := b[x] - 1][x := 0] == b[x := 0]
  {
  }

  /** Removing every copy of `x` lowers the sum by `x` for each copy. */
  lemma {:induction false} BagSumRemoveAll(b: multiset<nat>, x: nat)
    ensures BagSum(b) == x * b[x] + BagSum(b[x := 0])
    decreases b[x]
  {
    if b[x] > 0 {
      var n := b[x] - 1;
      var fewer := b[x := n];
      SplitOne(b, x);
      BagSumAdd(fewer, x);
      BagSumRemoveAll(fewer, x);
      calc {
        BagSum(b);
        BagSum(multiset{x} + fewer);
        x + BagSum(fewer);
        x + (x * n + BagSum(b[x := 0]));
        { assert x * (n + 1) == x + x * n; }
        x * b[x] + BagSum(b[x := 0]);
      }
    } else {
      assert b[x := 0] == b;
    }
  }
}
