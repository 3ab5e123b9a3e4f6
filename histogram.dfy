/**
 * The frequency stage of the pipeline (`length_freq`): the out-degrees are
 * tallied in a working map, the map's entries are copied into a vector in
 * the map's own (unspecified) order, and the vector is sorted. Because the
 * degrees are the map's keys, sorting the (degree, count) tuples orders
 * them by strictly ascending degree.
 */
module Histogram {
  import opened Bags

  /** A histogram entry: (degree, number of nodes with that degree). */
  type Entry = (nat, nat)

  /** The order on tuples that `Vec::sort` uses: lexicographic, first component first. */
  predicate Less(p: Entry, q: Entry)
  {
    p.0 < q.0 || (p.0 == q.0 && p.1 < q.1)
  }

  /** Non-decreasing in tuple order. */
  ghost predicate Sorted(s: seq<Entry>)
  {
    forall i, j :: 0 <= i < j < |s| ==> !Less(s[j], s[i])
  }

  /** No entry occurs twice. */
  ghost predicate NoDuplicates(s: seq<Entry>)
  {
    forall i, j :: 0 <= i < j < |s| ==> s[i] != s[j]
  }

  /** Degrees strictly increase along the sequence, so none occurs twice. */
  ghost predicate StrictlyAscending(h: seq<Entry>)
  {
    forall i, j :: 0 <= i < j < |h| ==> h[i].0 < h[j].0
  }

  /** The degrees that appear in a histogram. */
  ghost function DegreesOf(h: seq<Entry>): set<nat>
  {
    set p | p in h :: p.0
  }

  /**
   * `h` is the histogram of `bag`: strictly ascending degrees, each paired
   * with the (positive) number of times it occurs in `bag`, and exactly the
   * values of `bag` as degrees. Degrees that do not occur are left out.
   */
  ghost predicate IsHistogramOf(bag: multiset<nat>, h: seq<Entry>)
  {
    && StrictlyAscending(h)
    && (forall i :: 0 <= i < |h| ==> h[i].1 == bag[h[i].0] && h[i].1 >= 1)
    && DegreesOf(h) == set x | x in bag
  }

  /** The sum of the counts of a histogram. */
  function SumCounts(h: seq<Entry>): nat
  {
    if |h| == 0 then 0 else h[0].1 + SumCounts(h[1..])
  }

  /** The sum of degree times count over a histogram: the total the histogram stands for. */
  function WeightedSum(h: seq<Entry>): nat
  {
    if |h| == 0 then 0 else h[0].0 * h[0].1 + WeightedSum(h[1..])
  }

  /** `Vec::sort` on the entry vector, as an in-place insertion sort. */
  method SortEntries(a: array<Entry>)
    modifies a
    ensures Sorted(a[..])
    ensures multiset(a[..]) == old(multiset(a[..]))
  {
    for i := 0 to a.Length
      invariant forall p, q :: 0 <= p < q < i ==> !Less(a[q], a[p])
      invariant multiset(a[..]) == old(multiset(a[..]))
    {
      InsertLast(a, i);
    }
  }

  /** Moves `a[i]` left into the sorted prefix `a[..i]`, leaving `a[..i + 1]` sorted. */
  method InsertLast(a: array<Entry>, i: nat)
    requires i < a.Length
    requires forall p, q :: 0 <= p < q < i ==> !Less(a[q], a[p])
    modifies a
    ensures forall p, q :: 0 <= p < q <= i ==> !Less(a[q], a[p])
    ensures a[i + 1..] == old(a[i + 1..])
    ensures multiset(a[..]) == old(multiset(a[..]))
  {
    var j := i;
    while j > 0 && Less(a[j], a[j - 1])
      invariant 0 <= j <= i
      invariant forall p, q :: 0 <= p < q <= i && p != j && q != j ==> !Less(a[q], a[p])
      invariant forall q :: j < q <= i ==> Less(a[j], a[q])
      invariant a[i + 1..] == old(a[i + 1..])
      invariant multiset(a[..]) == old(multiset(a[..]))
    {
      Swap(a, j - 1, j);
      j := j - 1;
    }
  }

  /** Exchanges two neighbouring entries. */
  method Swap(a: array<Entry>, i: nat, j: nat)
    requires i < j < a.Length
    modifies a
    ensures a[i] == old(a[j]) && a[j] == old(a[i])
    ensures forall k :: 0 <= k < a.Length && k != i && k != j ==> a[k] == old(a[k])
    ensures multiset(a[..]) == old(multiset(a[..]))
  {
    a[i], a[j] := a[j], a[i];
  }

  /** An entry that occurs at most once cannot sit at two different positions. */
  lemma DistinctByCount(s: seq<Entry>, i: nat, j: nat)
    requires i < j < |s| && multiset(s)[s[i]] <= 1
    ensures s[i] != s[j]
  {
    assert s == s[..j] + s[j..];
    assert s[i] in s[..j] && s[j] in s[j..];
  }

  /** In a sequence without duplicates every entry occurs at most once. */
  lemma {:induction false} NoDuplicatesCount(s: seq<Entry>, x: Entry)
    requires NoDuplicates(s)
    ensures multiset(s)[x] <= 1
  {
    if |s| > 0 {
      assert s == [s[0]] + s[1..];
      assert s[0] !in s[1..];
      NoDuplicatesCount(s[1..], x);
    }
  }

  /**
   * The entries gathered from the tally, once sorted, form the histogram of
   * the degrees: the step from `length_freq`'s working map to its result.
   */
  lemma SortedTallyIsHistogram(
    lengths: seq<nat>, counts: map<nat, nat>, entries: seq<Entry>, freq: seq<Entry>)
    requires forall x :: x in counts <==> x in lengths
    requires forall x :: x in counts ==> counts[x] == multiset(lengths)[x]
    requires forall p :: p in entries ==> p.0 in counts && p.1 == counts[p.0]
    requires forall x :: x in counts ==> (x, counts[x]) in entries
    requires NoDuplicates(entries)
    requires Sorted(freq) && multiset(freq) == multiset(entries)
    ensures IsHistogramOf(multiset(lengths), freq)
  {
    forall i | 0 <= i < |freq|
      ensures freq[i] in entries
    {
      assert freq[i] in multiset(freq);
    }
    forall i, j | 0 <= i < j < |freq|
      ensures freq[i].0 < freq[j].0
    {
      NoDuplicatesCount(entries, freq[i]);
      DistinctByCount(freq, i, j);
    }
    forall x | x in multiset(lengths)
      ensures x in DegreesOf(freq)
    {
      assert (x, counts[x]) in multiset(entries);
    }
  }

  /**
   * `length_freq`: tallies each degree in a working map (a first occurrence
   * gets count 1, later ones add 1), copies the map's entries into a vector
   * in the map's own order and sorts the vector. The result is the
   * histogram of the degrees.
   */
  method LengthFreq(lengths: seq<nat>) returns (freq: seq<Entry>)
    ensures IsHistogramOf(multiset(lengths), freq)
  {
    var counts: map<nat, nat> := map[];
    for i := 0 to |lengths|
      invariant forall x :: x in counts <==> x in lengths[..i]
      invariant forall x :: x in counts ==> counts[x] == multiset(lengths[..i])[x]
    {
      var length := lengths[i];
      assert lengths[..i + 1] == lengths[..i] + [length];
      if length in counts {
        var f := counts[length];
        counts := counts[length := f + 1];
      } else {
        counts := counts[length := 1];
      }
    }
    assert lengths[..|lengths|] == lengths;

    var entries: seq<Entry> := [];
    var rest := counts.Keys;
    while rest != {}
      invariant rest <= counts.Keys
      invariant forall p :: p in entries ==> p.0 in counts && p.0 !in rest && p.1 == counts[p.0]
      invariant forall x :: x in counts && x !in rest ==> (x, counts[x]) in entries
      invariant NoDuplicates(entries)
      decreases rest
    {
      var entry :| entry in rest;
      entries := entries + [(entry, counts[entry])];
      rest := rest - {entry};
    }

    var a := new Entry[|entries|](i requires 0 <= i < |entries| => entries[i]);
    assert a[..] == entries;
    SortEntries(a);
    freq := a[..];
    SortedTallyIsHistogram(lengths, counts, entries, freq);
  }

  /** Every value left in the bag after removing the first degree is a later degree. */
  lemma TailCoversRest(bag: multiset<nat>, h: seq<Entry>)
    requires IsHistogramOf(bag, h) && |h| > 0
    ensures forall y :: y in bag[h[0].0 := 0] ==> y in DegreesOf(h[1..])
  {
    forall y | y in bag[h[0].0 := 0]
      ensures y in DegreesOf(h[1..])
    {
      assert y in bag && y != h[0].0;
      assert y in DegreesOf(h);
      var p :| p in h && p.0 == y;
      var k :| 0 <= k < |h| && h[k] == p;
      assert h[k] in h[1..];
    }
  }

  /** Every later degree is still in the bag after removing the first degree. */
  lemma TailWithinRest(bag: multiset<nat>, h: seq<Entry>)
    requires IsHistogramOf(bag, h) && |h| > 0
    ensures forall y :: y in DegreesOf(h[1..]) ==> y in bag[h[0].0 := 0]
  {
    forall y | y in DegreesOf(h[1..])
      ensures y in bag[h[0].0 := 0]
    {
      var p :| p in h[1..] && p.0 == y;
      var k :| 1 <= k < |h| && h[k] == p;
      assert h[k] in h;
      assert y in DegreesOf(h) && y != h[0].0;
    }
  }

  /** Dropping the first entry of a histogram leaves the histogram of the bag without that degree. */
  lemma HistogramTail(bag: multiset<nat>, h: seq<Entry>)
    requires IsHistogramOf(bag, h) && |h| > 0
    ensures IsHistogramOf(bag[h[0].0 := 0], h[1..])
  {
    TailCoversRest(bag, h);
    TailWithinRest(bag, h);
    var rest := bag[h[0].0 := 0];
    assert DegreesOf(h[1..]) == set x | x in rest;
    forall i | 0 <= i < |h[1..]|
      ensures h[1..][i].1 == rest[h[1..][i].0]
    {
      assert h[1..][i] == h[i + 1];
    }
  }

  /** The smallest degree of a nonempty histogram comes first. */
  lemma HistogramHead(bag: multiset<nat>, h: seq<Entry>, y: nat)
    requires IsHistogramOf(bag, h) && y in bag
    ensures |h| > 0 && h[0].0 <= y
  {
    assert y in DegreesOf(h);
    var p :| p in h && p.0 == y;
    var k :| 0 <= k < |h| && h[k] == p;
  }

  /**
   * A histogram is determined by its multiset: any two histograms of the
   * same degrees are identical. In particular `length_freq` gives the same
   * result for every permutation of its input, whatever order the tally
   * map hands its entries out in.
   */
  lemma {:induction false} HistogramDeterminedByMultiset(bag: multiset<nat>, h1: seq<Entry>, h2: seq<Entry>)
    requires IsHistogramOf(bag, h1) && IsHistogramOf(bag, h2)
    ensures h1 == h2
    decreases |h1|
  {
    HistogramEmptyIff(bag, h1);
    HistogramEmptyIff(bag, h2);
    if |h1| > 0 {
      var x := h1[0].0;
      assert x in DegreesOf(h1);
      HistogramHead(bag, h2, x);
      HistogramHead(bag, h1, h2[0].0);
      assert h2[0] == h1[0];
      HistogramTail(bag, h1);
      HistogramTail(bag, h2);
      HistogramDeterminedByMultiset(bag[x := 0], h1[1..], h2[1..]);
      assert h1 == [h1[0]] + h1[1..] && h2 == [h2[0]] + h2[1..];
    }
  }

  /** The counts of a histogram add up to the number of degrees it was built from. */
  lemma {:induction false} HistogramCountsSum(bag: multiset<nat>, h: seq<Entry>)
    requires IsHistogramOf(bag, h)
    ensures SumCounts(h) == |bag|
    decreases |h|
  {
    HistogramEmptyIff(bag, h);
    if |h| > 0 {
      HistogramTail(bag, h);
      HistogramCountsSum(bag[h[0].0 := 0], h[1..]);
      CardRemoveAll(bag, h[0].0);
    }
  }

  /** A histogram is empty exactly when there are no degrees to count. */
  lemma HistogramEmptyIff(bag: multiset<nat>, h: seq<Entry>)
    requires IsHistogramOf(bag, h)
    ensures h == [] <==> bag == multiset{}
  {
    forall x | x in bag
      ensures |h| > 0
    {
      HistogramHead(bag, h, x);
    }
    if |h| > 0 {
      assert h[0].0 in bag;
    }
  }

  /** Degree times count, summed over a histogram, gives back the sum of all the degrees. */
  lemma {:induction false} HistogramWeightedSum(bag: multiset<nat>, h: seq<Entry>)
    requires IsHistogramOf(bag, h)
    ensures WeightedSum(h) == BagSum(bag)
    decreases |h|
  {
    HistogramEmptyIff(bag, h);
    if |h| > 0 {
      HistogramTail(bag, h);
      HistogramWeightedSum(bag[h[0].0 := 0], h[1..]);
      BagSumRemoveAll(bag, h[0].0);
    }
  }
}
