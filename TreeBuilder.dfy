/** The greedy construction of buildHuffmanTree, stated on the sequence of live slots
    nodes[0..nodeCount). */
module TreeBuilder {
  import opened Trees

  /** The index the two-minimum scan settles on after looking at slots 0..n-1 while passing
      over slot `skip` (-1 skips nothing): the earliest slot of least frequency, or -1 when
      there is no slot to choose. Ties go to the first slot seen, because the scan only moves
      on a strictly smaller frequency. */
  function EarliestMin(w: seq<Tree>, n: nat, skip: int): (m: int)
    requires n <= |w|
    ensures -1 <= m < n
    ensures m == -1 <==> n == 0 || (n == 1 && skip == 0)
    ensures m >= 0 ==> m != skip
  {
    if n == 0 then -1
    else
      var k := EarliestMin(w, n - 1, skip);
      if n - 1 == skip then k
      else if k == -1 || w[n - 1].frequency < w[k].frequency then n - 1
      else k
  }

  /** The slot the scan settles on has the least frequency among the slots it looked at,
      and every earlier slot it looked at has a strictly greater one. */
  lemma {:induction false} EarliestMinIsLeast(w: seq<Tree>, n: nat, skip: int)
    requires n <= |w|
    ensures var m := EarliestMin(w, n, skip);
      m >= 0 ==> forall j :: 0 <= j < n && j != skip ==> w[m].frequency <= w[j].frequency
    ensures var m := EarliestMin(w, n, skip);
      m >= 0 ==> forall j :: 0 <= j < m && j != skip ==> w[m].frequency < w[j].frequency
  {
    if n > 0 {
      EarliestMinIsLeast(w, n - 1, skip);
    }
  }

  /** Skipping a slot outside the scanned range is the same as skipping nothing. */
  lemma {:induction false} EarliestMinSkipOutside(w: seq<Tree>, n: nat, skip: int)
    requires n <= |w| && (skip < 0 || skip >= n)
    ensures EarliestMin(w, n, skip) == EarliestMin(w, n, -1)
  {
    if n > 0 {
      EarliestMinSkipOutside(w, n - 1, skip);
    }
  }

  /** minIndex1: the earliest slot of least frequency. */
  function FirstMin(w: seq<Tree>): (m: int)
    requires |w| >= 2
    ensures 0 <= m < |w|
  {
    EarliestMin(w, |w|, -1)
  }

  /** minIndex2: the earliest slot of least frequency among the others. */
  function SecondMin(w: seq<Tree>): (m: int)
    requires |w| >= 2
    ensures 0 <= m < |w| && m != FirstMin(w)
  {
    EarliestMin(w, |w|, FirstMin(w))
  }

  /** The node createNode builds from the two selected slots: its frequency is the sum of its
      children's, and the lighter child is on the left. */
  function Merged(w: seq<Tree>): (r: Tree)
    requires |w| >= 2
    ensures r.Internal? && r.frequency == r.left.frequency + r.right.frequency
    ensures r.left.frequency <= r.right.frequency
  {
    var m1, m2 := FirstMin(w), SecondMin(w);
    EarliestMinIsLeast(w, |w|, -1);
    Internal(w[m1].frequency + w[m2].frequency, w[m1], w[m2])
  }

  /** The slot update at the end of one pass of the while loop: `x` goes into slot i, then
      the last slot is moved into slot j (read after the first write, so when i is the last
      slot it is `x` that moves) and the live range shrinks by one. */
  function PlaceAndDrop(w: seq<Tree>, i: nat, j: nat, x: Tree): (r: seq<Tree>)
    requires i < |w| && j < |w| && i != j
    ensures |r| == |w| - 1
  {
    var w1 := w[i := x];
    var w2 := w1[j := w1[|w| - 1]];
    w2[..|w| - 1]
  }

  /** One pass of the while loop: merge the two selected nodes into slot minIndex1 and fill
      slot minIndex2 from the last slot. */
  function MergeStep(w: seq<Tree>): (r: seq<Tree>)
    requires |w| >= 2
    ensures |r| == |w| - 1
  {
    PlaceAndDrop(w, FirstMin(w), SecondMin(w), Merged(w))
  }

  /** Merge until one slot is left; that slot is the root, and it weighs what the live
      nodes weighed together. */
  function Combine(w: seq<Tree>): (r: Tree)
    requires |w| >= 1
    ensures r.frequency == Weight(w)
    decreases |w|
  {
    if |w| == 1 then
      assert WeightTo(w, 0) == 0;
      w[0]
    else
      MergeStepWeight(w);
      Combine(MergeStep(w))
  }

  /** One leaf per table entry, in table order. */
  function InitialForest(entries: seq<FreqEntry>): (w: seq<Tree>)
    ensures |w| == |entries|
  {
    seq(|entries|, k requires 0 <= k < |entries| => LeafOf(entries[k]))
  }

  /** The tree buildHuffmanTree returns for a non-empty table. */
  function HuffmanTree(entries: seq<FreqEntry>): (r: Tree)
    requires |entries| >= 1
    ensures r.frequency == Total(entries)
  {
    InitialForestMeasures(entries);
    Combine(InitialForest(entries))
  }

  // ---------------------------------------------------------------------------
  // Measures on the live slots, and how one merge step changes them.

  /** Sum of the frequencies of w[0..k). */
  function WeightTo(w: seq<Tree>, k: nat): int
    requires k <= |w|
  {
    if k == 0 then 0 else WeightTo(w, k - 1) + w[k - 1].frequency
  }

  /** Sum of the frequencies of the live nodes. */
  function Weight(w: seq<Tree>): int
  {
    WeightTo(w, |w|)
  }

  /** How many leaves of w[0..k) hold entry `e`. */
  function CountTo(w: seq<Tree>, k: nat, e: FreqEntry): nat
    requires k <= |w|
  {
    if k == 0 then 0 else CountTo(w, k - 1, e) + LeafCount(w[k - 1], e)
  }

  /** How many leaves of the live nodes hold entry `e`. */
  function ForestCount(w: seq<Tree>, e: FreqEntry): nat
  {
    CountTo(w, |w|, e)
  }

  ghost predicate AllWellFormed(w: seq<Tree>)
  {
    forall k :: 0 <= k < |w| ==> WellFormed(w[k])
  }

  lemma {:induction false} WeightToPrefix(a: seq<Tree>, b: seq<Tree>, k: nat)
    requires k <= |a| && k <= |b|
    requires forall m :: 0 <= m < k ==> a[m] == b[m]
    ensures WeightTo(a, k) == WeightTo(b, k)
  {
    if k > 0 {
      WeightToPrefix(a, b, k - 1);
    }
  }

  lemma {:induction false} WeightToUpdate(w: seq<Tree>, i: nat, x: Tree, k: nat)
    requires i < |w| && k <= |w|
    ensures WeightTo(w[i := x], k) + (if i < k then w[i].frequency else 0)
         == WeightTo(w, k) + (if i < k then x.frequency else 0)
  {
    if k > 0 {
      WeightToUpdate(w, i, x, k - 1);
    }
  }

  lemma {:induction false} CountToPrefix(a: seq<Tree>, b: seq<Tree>, k: nat, e: FreqEntry)
    requires k <= |a| && k <= |b|
    requires forall m :: 0 <= m < k ==> a[m] == b[m]
    ensures CountTo(a, k, e) == CountTo(b, k, e)
  {
    if k > 0 {
      CountToPrefix(a, b, k - 1, e);
    }
  }

  lemma {:induction false} CountToUpdate(w: seq<Tree>, i: nat, x: Tree, k: nat, e: FreqEntry)
    requires i < |w| && k <= |w|
    ensures CountTo(w[i := x], k, e) + (if i < k then LeafCount(w[i], e) else 0)
         == CountTo(w, k, e) + (if i < k then LeafCount(x, e) else 0)
  {
    if k > 0 {
      CountToUpdate(w, i, x, k - 1, e);
    }
  }

  function Indicator(a: Tree, t: Tree): nat
  {
    if a == t then 1 else 0
  }

  /** How many of the slots w[0..k) hold node `t`. */
  function Occurrences(w: seq<Tree>, k: nat, t: Tree): nat
    requires k <= |w|
  {
    if k == 0 then 0 else Occurrences(w, k - 1, t) + Indicator(w[k - 1], t)
  }

  lemma {:induction false} OccurrencesPrefix(a: seq<Tree>, b: seq<Tree>, k: nat, t: Tree)
    requires k <= |a| && k <= |b|
    requires forall m :: 0 <= m < k ==> a[m] == b[m]
    ensures Occurrences(a, k, t) == Occurrences(b, k, t)
  {
    if k > 0 {
      OccurrencesPrefix(a, b, k - 1, t);
    }
  }

  lemma {:induction false} OccurrencesUpdate(w: seq<Tree>, i: nat, x: Tree, k: nat, t: Tree)
    requires i < |w| && k <= |w|
    ensures Occurrences(w[i := x], k, t) + (if i < k then Indicator(w[i], t) else 0)
         == Occurrences(w, k, t) + (if i < k then Indicator(x, t) else 0)
  {
    if k > 0 {
      OccurrencesUpdate(w, i, x, k - 1, t);
    }
  }

  lemma {:induction false} OccurrencesPrefixMultiplicity(w: seq<Tree>, k: nat, t: Tree)
    requires k <= |w|
    ensures Occurrences(w, k, t) == multiset(w[..k])[t]
  {
    if k > 0 {
      assert w[..k] == w[..k - 1] + [w[k - 1]];
      OccurrencesPrefixMultiplicity(w, k - 1, t);
    }
  }

  lemma OccurrencesMultiplicity(w: seq<Tree>, t: Tree)
    ensures Occurrences(w, |w|, t) == multiset(w)[t]
  {
    OccurrencesPrefixMultiplicity(w, |w|, t);
    assert w[..|w|] == w;
  }

  lemma PlaceAndDropOccurrences(w: seq<Tree>, i: nat, j: nat, x: Tree, t: Tree)
    requires i < |w| && j < |w| && i != j
    ensures Occurrences(PlaceAndDrop(w, i, j, x), |w| - 1, t) + Indicator(w[i], t) + Indicator(w[j], t)
         == Occurrences(w, |w|, t) + Indicator(x, t)
  {
    var n := |w|;
    var w1 := w[i := x];
    var w2 := w1[j := w1[n - 1]];
    OccurrencesPrefix(PlaceAndDrop(w, i, j, x), w2, n - 1, t);
    OccurrencesUpdate(w, i, x, n, t);
    OccurrencesUpdate(w1, j, w1[n - 1], n, t);
    assert w2[n - 1] == w1[n - 1];
  }

  /** The slot update keeps the live nodes apart from the two it overwrites, and adds `x`. */
  lemma PlaceAndDropMultiset(w: seq<Tree>, i: nat, j: nat, x: Tree)
    requires i < |w| && j < |w| && i != j
    ensures multiset(PlaceAndDrop(w, i, j, x)) + multiset{w[i], w[j]} == multiset(w) + multiset{x}
  {
    forall t
      ensures (multiset(PlaceAndDrop(w, i, j, x)) + multiset{w[i], w[j]})[t]
           == (multiset(w) + multiset{x})[t]
    {
      PlaceAndDropOccurrences(w, i, j, x, t);
      OccurrencesMultiplicity(PlaceAndDrop(w, i, j, x), t);
      OccurrencesMultiplicity(w, t);
      assert multiset{w[i], w[j]}[t] == Indicator(w[i], t) + Indicator(w[j], t);
      assert multiset{x}[t] == Indicator(x, t);
    }
  }

  lemma PlaceAndDropWeight(w: seq<Tree>, i: nat, j: nat, x: Tree)
    requires i < |w| && j < |w| && i != j
    ensures Weight(PlaceAndDrop(w, i, j, x)) + w[i].frequency + w[j].frequency
         == Weight(w) + x.frequency
  {
    var n := |w|;
    var w1 := w[i := x];
    var w2 := w1[j := w1[n - 1]];
    var r := PlaceAndDrop(w, i, j, x);
    WeightToPrefix(r, w2, n - 1);
    WeightToUpdate(w, i, x, n);
    WeightToUpdate(w1, j, w1[n - 1], n);
    assert w2[n - 1] == w1[n - 1];
  }

  lemma PlaceAndDropLeaves(w: seq<Tree>, i: nat, j: nat, x: Tree, e: FreqEntry)
    requires i < |w| && j < |w| && i != j
    ensures ForestCount(PlaceAndDrop(w, i, j, x), e)
            + LeafCount(w[i], e) + LeafCount(w[j], e)
         == ForestCount(w, e) + LeafCount(x, e)
  {
    var n := |w|;
    var w1 := w[i := x];
    var w2 := w1[j := w1[n - 1]];
    var r := PlaceAndDrop(w, i, j, x);
    CountToPrefix(r, w2, n - 1, e);
    CountToUpdate(w, i, x, n, e);
    CountToUpdate(w1, j, w1[n - 1], n, e);
    assert w2[n - 1] == w1[n - 1];
  }

  /** The two scan results are distinct live slots; minIndex1 holds the least frequency
      (the earliest slot holding it), and minIndex2 the least frequency among the other slots
      (again the earliest), so freq[minIndex1] <= freq[minIndex2] <= every other slot's. */
  lemma SelectedSlots(w: seq<Tree>)
    requires |w| >= 2
    ensures 0 <= FirstMin(w) < |w| && 0 <= SecondMin(w) < |w| && FirstMin(w) != SecondMin(w)
    ensures forall j :: 0 <= j < |w| ==> w[FirstMin(w)].frequency <= w[j].frequency
    ensures forall j :: 0 <= j < FirstMin(w) ==> w[FirstMin(w)].frequency < w[j].frequency
    ensures forall j :: 0 <= j < |w| && j != FirstMin(w) ==> w[SecondMin(w)].frequency <= w[j].frequency
    ensures forall j :: 0 <= j < SecondMin(w) && j != FirstMin(w) ==> w[SecondMin(w)].frequency < w[j].frequency
  {
    EarliestMinIsLeast(w, |w|, -1);
    EarliestMinIsLeast(w, |w|, FirstMin(w));
  }

  /** A merge step replaces the two selected nodes by their merge: as a multiset the live
      nodes lose w[minIndex1] and w[minIndex2] and gain the new node. */
  lemma MergeStepMultiset(w: seq<Tree>)
    requires |w| >= 2
    ensures multiset(MergeStep(w)) + multiset{w[FirstMin(w)], w[SecondMin(w)]}
         == multiset(w) + multiset{Merged(w)}
  {
    PlaceAndDropMultiset(w, FirstMin(w), SecondMin(w), Merged(w));
  }

  /** A merge step keeps the total frequency of the live nodes. */
  lemma MergeStepWeight(w: seq<Tree>)
    requires |w| >= 2
    ensures Weight(MergeStep(w)) == Weight(w)
  {
    PlaceAndDropWeight(w, FirstMin(w), SecondMin(w), Merged(w));
  }

  /** A merge step keeps the leaves of the live nodes. */
  lemma MergeStepLeaves(w: seq<Tree>, e: FreqEntry)
    requires |w| >= 2
    ensures ForestCount(MergeStep(w), e) == ForestCount(w, e)
  {
    var m1, m2 := FirstMin(w), SecondMin(w);
    PlaceAndDropLeaves(w, m1, m2, Merged(w), e);
  }

  /** A merge step keeps every live node well formed. */
  lemma MergeStepWellFormed(w: seq<Tree>)
    requires |w| >= 2 && AllWellFormed(w)
    ensures AllWellFormed(MergeStep(w))
  {
    var m1, m2 := FirstMin(w), SecondMin(w);
    var w1 := w[m1 := Merged(w)];
    assert AllWellFormed(w1);
  }

  lemma {:induction false} CombineLeaves(w: seq<Tree>, e: FreqEntry)
    requires |w| >= 1
    ensures LeafCount(Combine(w), e) == ForestCount(w, e)
    decreases |w|
  {
    if |w| > 1 {
      MergeStepLeaves(w, e);
      CombineLeaves(MergeStep(w), e);
    } else {
      assert CountTo(w, 0, e) == 0;
    }
  }

  lemma {:induction false} CombineWellFormed(w: seq<Tree>)
    requires |w| >= 1 && AllWellFormed(w)
    ensures WellFormed(Combine(w))
    decreases |w|
  {
    if |w| > 1 {
      MergeStepWellFormed(w);
      CombineWellFormed(MergeStep(w));
    }
  }

  /** With two or more live nodes the loop runs at least once, and the last node it creates,
      the root, is internal. */
  lemma {:induction false} CombineInternal(w: seq<Tree>)
    requires |w| >= 2
    ensures Combine(w).Internal?
    decreases |w|
  {
    if |w| > 2 {
      CombineInternal(MergeStep(w));
    } else {
      var r := MergeStep(w);
      assert |r| == 1;
      SelectedSlots(w);
      assert r[0] == Merged(w);
    }
  }

  lemma {:induction false} InitialForestMeasures(entries: seq<FreqEntry>)
    ensures Weight(InitialForest(entries)) == Total(entries)
    ensures AllWellFormed(InitialForest(entries))
    decreases |entries|
  {
    if entries != [] {
      var n := |entries|;
      WeightToPrefix(InitialForest(entries), InitialForest(entries[..n - 1]), n - 1);
      InitialForestMeasures(entries[..n - 1]);
    }
  }

  lemma {:induction false} InitialForestCount(entries: seq<FreqEntry>, e: FreqEntry)
    ensures ForestCount(InitialForest(entries), e) == multiset(entries)[e]
    decreases |entries|
  {
    if entries != [] {
      var n := |entries|;
      CountToPrefix(InitialForest(entries), InitialForest(entries[..n - 1]), n - 1, e);
      assert entries == entries[..n - 1] + [entries[n - 1]];
      InitialForestCount(entries[..n - 1], e);
    }
  }

  /** What buildHuffmanTree promises for a non-empty table: the root's frequency is the total
      of the table, the leaves are exactly the table's entries, every internal node's
      frequency is the sum of its children's, and the root is a single leaf exactly when the
      table has one entry (that entry's leaf). */
  lemma HuffmanTreeProperties(entries: seq<FreqEntry>)
    requires |entries| >= 1
    ensures HuffmanTree(entries).frequency == Total(entries)
    ensures multiset(Leaves(HuffmanTree(entries))) == multiset(entries)
    ensures |Leaves(HuffmanTree(entries))| == |entries|
    ensures WellFormed(HuffmanTree(entries))
    ensures HuffmanTree(entries).Internal? <==> |entries| >= 2
    ensures |entries| == 1 ==> HuffmanTree(entries) == LeafOf(entries[0])
  {
    var w := InitialForest(entries);
    InitialForestMeasures(entries);
    CombineWellFormed(w);
    forall e
      ensures multiset(Leaves(HuffmanTree(entries)))[e] == multiset(entries)[e]
    {
      CombineLeaves(w, e);
      InitialForestCount(entries, e);
      LeafCountIsMultiplicity(HuffmanTree(entries), e);
    }
    assert multiset(Leaves(HuffmanTree(entries))) == multiset(entries);
    if |entries| >= 2 {
      CombineInternal(w);
    }
    assert |multiset(Leaves(HuffmanTree(entries)))| == |multiset(entries)|;
  }
}
