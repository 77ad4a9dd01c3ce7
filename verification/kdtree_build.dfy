/**
 * Bulk construction of hw5/kdtree.c (kdtree_create, internal_create) with the
 * partition helpers in_cut_left / in_cut_right of hw5/kdtree_helpers.c.  The
 * two qsort calls are modelled by an insertion sort under the same
 * comparators; both are total orders, so every correct sort gives the same
 * sequence.
 */
module KdBuild {
  import opened Wrappers
  import opened Locations
  import opened Seqs
  import opened KdTree

  // ------------------------------------------------------------------------
  // Sorting
  // ------------------------------------------------------------------------

  /** Non-decreasing under the comparator of `dim`. */
  ghost predicate SortedBy(dim: nat, s: seq<Loc>) {
    forall i, j | 0 <= i < j < |s| :: Compare(dim, s[i], s[j]) <= 0
  }

  /** Strictly increasing under the comparator of `dim`. */
  ghost predicate StrictlySortedBy(dim: nat, s: seq<Loc>) {
    forall i, j | 0 <= i < j < |s| :: Compare(dim, s[i], s[j]) < 0
  }

  /** The head of a sorted sequence is below or equal to every element. */
  lemma SortedHeadMin(dim: nat, s: seq<Loc>)
    requires SortedBy(dim, s) && |s| > 0
    ensures forall y | y in s :: Compare(dim, s[0], y) <= 0
  {
    forall y | y in s ensures Compare(dim, s[0], y) <= 0 {
      var i :| 0 <= i < |s| && s[i] == y;
      if i == 0 { assert Compare(dim, y, y) == 0; }
    }
  }

  /** Prepending a lower bound keeps a sequence sorted. */
  lemma ConsSorted(dim: nat, a: Loc, s: seq<Loc>)
    requires SortedBy(dim, s)
    requires forall y | y in s :: Compare(dim, a, y) <= 0
    ensures SortedBy(dim, [a] + s)
  {
    forall i, j | 0 <= i < j < |s| + 1 ensures Compare(dim, ([a] + s)[i], ([a] + s)[j]) <= 0 {
      if i == 0 {
        assert ([a] + s)[j] == s[j - 1];
      } else {
        assert ([a] + s)[i] == s[i - 1] && ([a] + s)[j] == s[j - 1];
      }
    }
  }

  /** The tail of a sorted sequence is sorted. */
  lemma TailSorted(dim: nat, s: seq<Loc>)
    requires SortedBy(dim, s) && |s| > 0
    ensures SortedBy(dim, s[1..])
  {
    forall i, j | 0 <= i < j < |s| - 1 ensures Compare(dim, s[1..][i], s[1..][j]) <= 0 {
      assert s[1..][i] == s[i + 1] && s[1..][j] == s[j + 1];
    }
  }

  /** A lower bound of the head of a sorted sequence bounds all of it. */
  lemma BelowHead(dim: nat, x: Loc, s: seq<Loc>)
    requires SortedBy(dim, s) && |s| > 0 && Compare(dim, x, s[0]) <= 0
    ensures forall y | y in s :: Compare(dim, x, y) <= 0
  {
    SortedHeadMin(dim, s);
    forall y | y in s ensures Compare(dim, x, y) <= 0 {
      CompareTransitiveLe(dim, x, s[0], y);
    }
  }

  /** Every element of the insertion result other than the head is bounded below by the head. */
  lemma HeadBelowInsert(dim: nat, x: Loc, s: seq<Loc>, rest: seq<Loc>)
    requires SortedBy(dim, s) && |s| > 0 && Compare(dim, x, s[0]) > 0
    requires multiset(rest) == multiset(s[1..]) + multiset{x}
    ensures forall y | y in rest :: Compare(dim, s[0], y) <= 0
  {
    SortedHeadMin(dim, s);
    CompareAntisymmetric(dim, x, s[0]);
    forall y | y in rest ensures Compare(dim, s[0], y) <= 0 {
      assert y in multiset(rest);
      if y != x {
        assert y in multiset(s[1..]);
        assert y in s[1..];
        assert y in s;
      }
    }
  }

  /** Inserts `x` into a sorted sequence before the first element not below it. */
  function InsertSorted(x: Loc, s: seq<Loc>, dim: nat): (r: seq<Loc>)
    requires SortedBy(dim, s)
    ensures SortedBy(dim, r)
    ensures multiset(r) == multiset(s) + multiset{x}
    decreases |s|
  {
    if |s| == 0 then [x]
    else if Compare(dim, x, s[0]) <= 0 then
      BelowHead(dim, x, s);
      ConsSorted(dim, x, s);
      [x] + s
    else
      TailSorted(dim, s);
      var rest := InsertSorted(x, s[1..], dim);
      HeadBelowInsert(dim, x, s, rest);
      ConsSorted(dim, s[0], rest);
      assert s == [s[0]] + s[1..];
      [s[0]] + rest
  }

  /** The qsort of kdtree_create under the comparator of `dim`. */
  function Sort(s: seq<Loc>, dim: nat): (r: seq<Loc>)
    ensures SortedBy(dim, r)
    ensures multiset(r) == multiset(s)
  {
    if |s| == 0 then []
    else
      assert s == [s[0]] + s[1..];
      InsertSorted(s[0], Sort(s[1..], dim), dim)
  }

  /** A sorted sequence without repetitions is strictly sorted. */
  lemma SortedNoDupStrict(dim: nat, s: seq<Loc>)
    requires SortedBy(dim, s) && NoDup(s)
    ensures StrictlySortedBy(dim, s)
  {
  }

  /** A strictly sorted sequence has no repetitions. */
  lemma StrictNoDup(dim: nat, s: seq<Loc>)
    requires StrictlySortedBy(dim, s)
    ensures NoDup(s)
  {
  }

  // ------------------------------------------------------------------------
  // Partition
  // ------------------------------------------------------------------------

  /** in_cut_left: `p` goes to the left half, i.e. compares below the median on `d`. */
  function InCutLeft(p: Loc, median: Loc, d: nat): (b: bool)
    ensures b <==> d < K && Compare(d, p, median) < 0
  {
    if d == 0 && CompareLatitude(p, median) < 0 then true
    else if d == 1 && CompareLongitude(p, median) < 0 then true
    else false
  }

  /** in_cut_right: `p` goes to the right half, i.e. compares above the median on `d`. */
  function InCutRight(p: Loc, median: Loc, d: nat): (b: bool)
    ensures b <==> d < K && Compare(d, p, median) > 0
  {
    if d == 0 && CompareLatitude(p, median) > 0 then true
    else if d == 1 && CompareLongitude(p, median) > 0 then true
    else false
  }

  /** A point is never sent both ways, and is sent nowhere exactly when it is the median. */
  lemma InCutExclusive(p: Loc, median: Loc, d: nat)
    requires d < K
    ensures !(InCutLeft(p, median, d) && InCutRight(p, median, d))
    ensures !InCutLeft(p, median, d) && !InCutRight(p, median, d) <==> p == median
  {
  }

  /**
   * The partition loop of internal_create: scans `other` in order, appending
   * each point to the left or right half; a point equal to the median is dropped.
   */
  function Partition(other: seq<Loc>, median: Loc, dim: nat): (r: (seq<Loc>, seq<Loc>))
    ensures forall x :: x in r.0 <==> x in other && InCutLeft(x, median, dim)
    ensures forall x :: x in r.1 <==> x in other && InCutRight(x, median, dim)
    ensures |r.0| + |r.1| <= |other|
  {
    if |other| == 0 then ([], [])
    else
      var x := other[|other| - 1];
      var (l, r) := Partition(other[..|other| - 1], median, dim);
      assert other == other[..|other| - 1] + [x];
      if InCutLeft(x, median, dim) then (l + [x], r)
      else if InCutRight(x, median, dim) then (l, r + [x])
      else (l, r)
  }

  /** Each half of the partition keeps the order `other` had. */
  lemma {:induction false} PartitionSorted(other: seq<Loc>, median: Loc, dim: nat, d2: nat)
    requires StrictlySortedBy(d2, other)
    ensures StrictlySortedBy(d2, Partition(other, median, dim).0)
    ensures StrictlySortedBy(d2, Partition(other, median, dim).1)
  {
    if |other| > 0 {
      var init := other[..|other| - 1];
      var x := other[|other| - 1];
      PartitionSorted(init, median, dim, d2);
      var (l, r) := Partition(init, median, dim);
      forall y | y in init ensures Compare(d2, y, x) < 0 {
        var i :| 0 <= i < |init| && init[i] == y;
        assert other[i] == y;
      }
    }
  }

  // ------------------------------------------------------------------------
  // Construction
  // ------------------------------------------------------------------------

  /**
   * internal_create.  `cut` is sorted on this depth's dimension, `other` on the
   * next one, and `|other|` is the count `n` the code is given.  The recursive
   * calls swap the roles: the filtered `other` halves become the next `cut`
   * arrays.  When the filtered half is shorter than the copied half the next
   * level reads array slots that were never written; the model returns None
   * for that undefined behaviour.
   */
  function Build(cut: seq<Loc>, other: seq<Loc>, depth: nat): Option<Tree>
    decreases |other|
  {
    var n := |other|;
    if n == 0 then Some(Leaf)
    else if |cut| != n then None
    else
      var dim := Dim(depth);
      var median := n / 2;
      var pivot := cut[median];
      var (otherLeft, otherRight) := Partition(other, pivot, dim);
      var left := Build(otherLeft, cut[..median], depth + 1);
      var right := Build(otherRight, cut[median + 1..], depth + 1);
      if left.Some? && right.Some? then Some(Node(pivot, left.value, right.value)) else None
  }

  /** Every node splits its points as the median does: the left side has the extra one. */
  ghost predicate MedianSplit(t: Tree) {
    match t
    case Leaf => true
    case Node(_, l, r) =>
      (Size(l) == Size(r) || Size(l) == Size(r) + 1) && MedianSplit(l) && MedianSplit(r)
  }

  /** What internal_create needs: two orderings of the same distinct points. */
  ghost predicate BuildInput(cut: seq<Loc>, other: seq<Loc>, depth: nat) {
    && StrictlySortedBy(Dim(depth), cut)
    && StrictlySortedBy(Dim(depth + 1), other)
    && |cut| == |other|
    && Elems(cut) == Elems(other)
  }

  /** In a strictly sorted sequence, the points below position m are the ones before it. */
  lemma BelowMedian(dim: nat, cut: seq<Loc>, m: nat)
    requires StrictlySortedBy(dim, cut) && m < |cut|
    ensures forall x :: x in cut && Compare(dim, x, cut[m]) < 0 <==> x in cut[..m]
    ensures forall x :: x in cut && Compare(dim, x, cut[m]) > 0 <==> x in cut[m + 1..]
  {
    forall x | x in cut
      ensures Compare(dim, x, cut[m]) < 0 <==> x in cut[..m]
      ensures Compare(dim, x, cut[m]) > 0 <==> x in cut[m + 1..]
    {
      var i :| 0 <= i < |cut| && cut[i] == x;
      if i < m {
        assert cut[..m][i] == x;
      } else if i > m {
        assert cut[m + 1..][i - m - 1] == x;
      }
      if x in cut[..m] {
        var j :| 0 <= j < m && cut[..m][j] == x;
        assert cut[j] == x;
      }
      if x in cut[m + 1..] {
        var j :| 0 <= j < |cut| - m - 1 && cut[m + 1..][j] == x;
        assert cut[m + 1 + j] == x;
      }
    }
  }

  /** A slice of a strictly sorted sequence is strictly sorted. */
  lemma SliceSorted(dim: nat, s: seq<Loc>, lo: nat, hi: nat)
    requires StrictlySortedBy(dim, s) && lo <= hi <= |s|
    ensures StrictlySortedBy(dim, s[lo..hi])
  {
    forall i, j | 0 <= i < j < hi - lo ensures Compare(dim, s[lo..hi][i], s[lo..hi][j]) < 0 {
      assert s[lo..hi][i] == s[lo + i] && s[lo..hi][j] == s[lo + j];
    }
  }

  lemma SuffixSorted(dim: nat, s: seq<Loc>, lo: nat)
    requires StrictlySortedBy(dim, s) && lo <= |s|
    ensures StrictlySortedBy(dim, s[lo..])
  {
    SliceSorted(dim, s, lo, |s|);
    assert s[lo..|s|] == s[lo..];
  }

  /** The filtered halves of `other` hold the same points as the copied halves of `cut`. */
  lemma PartitionMatchesSlices(cut: seq<Loc>, other: seq<Loc>, depth: nat)
    requires BuildInput(cut, other, depth) && |other| > 0
    ensures var m := |other| / 2;
            var halves := Partition(other, cut[m], Dim(depth));
            && Elems(halves.0) == Elems(cut[..m])
            && Elems(halves.1) == Elems(cut[m + 1..])
  {
    var m := |other| / 2;
    var dim := Dim(depth);
    var (oL, oR) := Partition(other, cut[m], dim);
    BelowMedian(dim, cut, m);
    forall x ensures (x in oL <==> x in cut[..m]) && (x in oR <==> x in cut[m + 1..]) {
      assert x in other <==> x in cut by { assert x in Elems(other) <==> x in Elems(cut); }
    }
  }

  /** Both recursive calls of internal_create again receive a proper input. */
  lemma BuildStep(cut: seq<Loc>, other: seq<Loc>, depth: nat)
    requires BuildInput(cut, other, depth) && |other| > 0
    ensures var m := |other| / 2;
            var halves := Partition(other, cut[m], Dim(depth));
            && BuildInput(halves.0, cut[..m], depth + 1)
            && BuildInput(halves.1, cut[m + 1..], depth + 1)
  {
    PartitionMatchesSlices(cut, other, depth);
    BuildStepLeft(cut, other, depth);
    BuildStepRight(cut, other, depth);
  }

  lemma BuildStepLeft(cut: seq<Loc>, other: seq<Loc>, depth: nat)
    requires BuildInput(cut, other, depth) && |other| > 0
    requires Elems(Partition(other, cut[|other| / 2], Dim(depth)).0) == Elems(cut[..|other| / 2])
    ensures BuildInput(Partition(other, cut[|other| / 2], Dim(depth)).0, cut[..|other| / 2], depth + 1)
  {
    var m := |other| / 2;
    var dim := Dim(depth);
    PartitionSorted(other, cut[m], dim, Dim(depth + 1));
    SliceSorted(dim, cut, 0, m);
    assert cut[0..m] == cut[..m];
    HalfInput(Partition(other, cut[m], dim).0, cut[..m], depth);
  }

  lemma BuildStepRight(cut: seq<Loc>, other: seq<Loc>, depth: nat)
    requires BuildInput(cut, other, depth) && |other| > 0
    requires Elems(Partition(other, cut[|other| / 2], Dim(depth)).1) == Elems(cut[|other| / 2 + 1..])
    ensures BuildInput(Partition(other, cut[|other| / 2], Dim(depth)).1, cut[|other| / 2 + 1..], depth + 1)
  {
    var m := |other| / 2;
    var dim := Dim(depth);
    PartitionSorted(other, cut[m], dim, Dim(depth + 1));
    SuffixSorted(dim, cut, m + 1);
    HalfInput(Partition(other, cut[m], dim).1, cut[m + 1..], depth);
  }

  /** The cutting dimension repeats every K levels. */
  lemma DimPeriod(depth: nat)
    ensures Dim(depth + K) == Dim(depth)
  {
  }

  /** A half of `other` and the matching slice of `cut` are a proper input one level down. */
  lemma HalfInput(half: seq<Loc>, slice: seq<Loc>, depth: nat)
    requires StrictlySortedBy(Dim(depth + 1), half) && StrictlySortedBy(Dim(depth), slice)
    requires Elems(half) == Elems(slice)
    ensures BuildInput(half, slice, depth + 1)
  {
    DimPeriod(depth);
    SortedInput(half, slice, depth + 1);
  }

  /** Two strict orderings of the same points are a proper input. */
  lemma SortedInput(cut: seq<Loc>, other: seq<Loc>, depth: nat)
    requires StrictlySortedBy(Dim(depth), cut) && StrictlySortedBy(Dim(depth + 1), other)
    requires Elems(cut) == Elems(other)
    ensures BuildInput(cut, other, depth)
  {
    StrictNoDup(Dim(depth), cut);
    StrictNoDup(Dim(depth + 1), other);
    NoDupCard(cut);
    NoDupCard(other);
  }

  /** The copied halves of `cut` lie strictly on either side of the median. */
  lemma SlicesAroundMedian(cut: seq<Loc>, dim: nat, m: nat)
    requires StrictlySortedBy(dim, cut) && m < |cut|
    ensures forall x | x in Elems(cut[..m]) :: Compare(dim, x, cut[m]) < 0
    ensures forall x | x in Elems(cut[m + 1..]) :: Compare(dim, x, cut[m]) > 0
    ensures Elems(cut) == {cut[m]} + Elems(cut[..m]) + Elems(cut[m + 1..])
  {
    BelowMedian(dim, cut, m);
    assert cut == cut[..m] + [cut[m]] + cut[m + 1..];
  }

  /**
   * On distinct input internal_create succeeds and yields a valid tree that
   * stores exactly the input points, with the median at the root and a
   * median split at every node.
   */
  lemma {:induction false} BuildCorrect(cut: seq<Loc>, other: seq<Loc>, depth: nat)
    requires BuildInput(cut, other, depth)
    ensures Build(cut, other, depth).Some?
    ensures var t := Build(cut, other, depth).value;
            && Valid(t, depth)
            && Keys(t) == Elems(cut)
            && Size(t) == |cut|
            && MedianSplit(t)
            && (|cut| > 0 ==> t.key == cut[|cut| / 2])
    decreases |other|
  {
    var n := |other|;
    if n > 0 {
      var dim := Dim(depth);
      var m := n / 2;
      var (oL, oR) := Partition(other, cut[m], dim);
      var cL, cR := cut[..m], cut[m + 1..];
      BuildStep(cut, other, depth);
      SlicesAroundMedian(cut, dim, m);
      BuildCorrect(oL, cL, depth + 1);
      BuildCorrect(oR, cR, depth + 1);
      var l := Build(oL, cL, depth + 1).value;
      var r := Build(oR, cR, depth + 1).value;
      assert Build(cut, other, depth) == Some(Node(cut[m], l, r));
    }
  }

  /** Sorting distinct points gives a strictly sorted sequence of the same points. */
  lemma SortDistinct(input: seq<Loc>, dim: nat)
    requires NoDup(input)
    ensures StrictlySortedBy(dim, Sort(input, dim))
    ensures |Sort(input, dim)| == |input|
    ensures Elems(Sort(input, dim)) == Elems(input)
  {
    var x := Sort(input, dim);
    NoDupPermutation(input, x);
    SortedNoDupStrict(dim, x);
    assert |x| == |multiset(x)| == |input|;
    forall p ensures p in x <==> p in input {
      assert p in x <==> p in multiset(x);
      assert p in input <==> p in multiset(input);
    }
  }

  /** Sorting distinct points both ways gives internal_create a valid input. */
  lemma SortedBuildCorrect(input: seq<Loc>)
    requires NoDup(input)
    ensures var built := Build(Sort(input, 0), Sort(input, 1), 0);
            && built.Some?
            && Valid(built.value, 0)
            && Keys(built.value) == Elems(input)
            && Size(built.value) == |input|
            && MedianSplit(built.value)
  {
    SortDistinct(input, 0);
    SortDistinct(input, 1);
    BuildCorrect(Sort(input, 0), Sort(input, 1), 0);
  }

  /** Outcome of kdtree_create: a NULL result, a tree, or undefined behaviour. */
  datatype Creation = NullTree | Made(tree: KdTree) | Undefined

  /**
   * kdtree_create: copies and sorts the first `n` points both ways and builds
   * the tree; the counter is set to the raw input count `n`.
   */
  function Create(pts: Option<seq<Loc>>, n: nat): (r: Creation)
    requires pts.Some? ==> n <= |pts.value|
    ensures n == 0 ==> r == Made(KdTree(Leaf, 0))
    ensures n > 0 && pts.None? ==> r == NullTree
    ensures n > 0 && pts.Some? && NoDup(pts.value[..n]) ==>
              && r.Made?
              && Valid(r.tree.root, 0)
              && Keys(r.tree.root) == Elems(pts.value[..n])
              && r.tree.n == n == Size(r.tree.root)
              && MedianSplit(r.tree.root)
  {
    if n == 0 then Made(KdTree(Leaf, n))
    else if pts.None? then NullTree
    else
      var input := pts.value[..n];
      var built := Build(Sort(input, 0), Sort(input, 1), 0);
      assert NoDup(input) ==> built.Some? && Valid(built.value, 0) && Keys(built.value) == Elems(input)
                              && Size(built.value) == n && MedianSplit(built.value) by {
        if NoDup(input) { SortedBuildCorrect(input); }
      }
      if built.Some? then Made(KdTree(built.value, n)) else Undefined
  }
}
