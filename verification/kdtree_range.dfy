/**
 * The pruned rectangle search of hw5/kdtree.c (kdtree_range_for_each,
 * internal_range_for_each, kdtree_range) and the add_to_arr callback of
 * hw5/kdtree_helpers.c.  The callback form is modelled by the sequence of
 * points passed to the callback, in call order.
 */
module KdRange {
  import opened Wrappers
  import opened Locations
  import opened Seqs
  import opened KdTree

  /** Inclusive rectangle test of internal_range_for_each. */
  predicate InBox(x: Loc, sw: Loc, ne: Loc) {
    sw.lat <= x.lat <= ne.lat && sw.lon <= x.lon <= ne.lon
  }

  /** The in-box points of a set. */
  function BoxPoints(s: set<Loc>, sw: Loc, ne: Loc): set<Loc> {
    set x | x in s && InBox(x, sw, ne)
  }

  /**
   * internal_range_for_each: the points passed to the callback, in order.  The
   * node itself is reported first; a subtree is skipped when the node's
   * coordinate on its cutting dimension lies beyond the rectangle.
   */
  function RangeAt(t: Tree, depth: nat, sw: Loc, ne: Loc): (calls: seq<Loc>)
    ensures forall x | x in calls :: x in Keys(t) && InBox(x, sw, ne)
    ensures |calls| <= Size(t)
  {
    match t
    case Leaf => []
    case Node(k, l, r) =>
      var here := if InBox(k, sw, ne) then [k] else [];
      var c := Coord(Dim(depth), k);
      if Coord(Dim(depth), sw) <= c && c <= Coord(Dim(depth), ne) then
        here + RangeAt(l, depth + 1, sw, ne) + RangeAt(r, depth + 1, sw, ne)
      else if c < Coord(Dim(depth), sw) then
        here + RangeAt(r, depth + 1, sw, ne)
      else
        here + RangeAt(l, depth + 1, sw, ne)
  }

  /** The node's report followed by both subtrees' reports: every in-box key once. */
  lemma JoinReports(k: Loc, sw: Loc, ne: Loc, here: seq<Loc>, a: seq<Loc>, ka: set<Loc>, b: seq<Loc>, kb: set<Loc>)
    requires here == if InBox(k, sw, ne) then [k] else []
    requires NoDup(a) && Elems(a) == BoxPoints(ka, sw, ne) && forall x | x in a :: x in ka
    requires NoDup(b) && Elems(b) == BoxPoints(kb, sw, ne) && forall x | x in b :: x in kb
    requires k !in ka && k !in kb && ka !! kb
    ensures NoDup(here + a + b) && Elems(here + a + b) == BoxPoints({k} + ka + kb, sw, ne)
  {
    NoDupConcat(here, a);
    NoDupConcat(here + a, b);
    assert Elems(here + a + b) == Elems(here) + Elems(a) + Elems(b);
  }

  /** The node's report followed by one subtree's, the other holding no in-box key. */
  lemma JoinPruned(k: Loc, sw: Loc, ne: Loc, here: seq<Loc>, a: seq<Loc>, ka: set<Loc>, kp: set<Loc>)
    requires here == if InBox(k, sw, ne) then [k] else []
    requires NoDup(a) && Elems(a) == BoxPoints(ka, sw, ne) && forall x | x in a :: x in ka
    requires k !in ka && forall x | x in kp :: !InBox(x, sw, ne)
    ensures NoDup(here + a)
    ensures Elems(here + a) == BoxPoints({k} + ka + kp, sw, ne) == BoxPoints({k} + kp + ka, sw, ne)
  {
    NoDupConcat(here, a);
    assert Elems(here + a) == Elems(here) + Elems(a);
  }

  /**
   * On a valid tree the search reports every in-box point exactly once: the
   * pruned subtrees hold no in-box point.
   */
  lemma {:induction false} RangeAtCorrect(t: Tree, depth: nat, sw: Loc, ne: Loc)
    requires Valid(t, depth)
    ensures NoDup(RangeAt(t, depth, sw, ne))
    ensures Elems(RangeAt(t, depth, sw, ne)) == BoxPoints(Keys(t), sw, ne)
  {
    match t
    case Leaf =>
    case Node(k, l, r) =>
      RangeAtCorrect(l, depth + 1, sw, ne);
      RangeAtCorrect(r, depth + 1, sw, ne);
      var dim := Dim(depth);
      var here := if InBox(k, sw, ne) then [k] else [];
      var L := RangeAt(l, depth + 1, sw, ne);
      var R := RangeAt(r, depth + 1, sw, ne);
      ValidNodeDisjoint(t, depth);
      var c := Coord(dim, k);
      if Coord(dim, sw) <= c && c <= Coord(dim, ne) {
        JoinReports(k, sw, ne, here, L, Keys(l), R, Keys(r));
      } else if c < Coord(dim, sw) {
        // every left key is at most c on this coordinate, so none is in the box
        forall x | x in Keys(l) ensures !InBox(x, sw, ne) {
          CompareCoord(dim, x, k);
        }
        JoinPruned(k, sw, ne, here, R, Keys(r), Keys(l));
      } else {
        forall x | x in Keys(r) ensures !InBox(x, sw, ne) {
          CompareCoord(dim, x, k);
        }
        JoinPruned(k, sw, ne, here, L, Keys(l), Keys(r));
      }
  }

  /** kdtree_range_for_each: the callback sequence for the whole tree. */
  function RangeForEach(t: KdTree, sw: Loc, ne: Loc): (calls: seq<Loc>)
    ensures forall x | x in calls :: x in Keys(t.root) && InBox(x, sw, ne)
    ensures Valid(t.root, 0) ==> NoDup(calls) && Elems(calls) == BoxPoints(Keys(t.root), sw, ne)
  {
    var calls := RangeAt(t.root, 0, sw, ne);
    assert Valid(t.root, 0) ==> NoDup(calls) && Elems(calls) == BoxPoints(Keys(t.root), sw, ne) by {
      if Valid(t.root, 0) { RangeAtCorrect(t.root, 0, sw, ne); }
    }
    calls
  }

  /** The Array struct that kdtree_range hands to add_to_arr. */
  datatype Acc = Acc(count: int, items: seq<Loc>)

  /**
   * add_to_arr: store `loc` at index `count` and count it; nothing happens when
   * either pointer is NULL.
   */
  function AddToArr(loc: Option<Loc>, a: Option<Acc>): (r: Option<Acc>)
    requires loc.Some? && a.Some? ==> 0 <= a.value.count < |a.value.items|
    ensures loc.None? || a.None? ==> r == a
    ensures loc.Some? && a.Some? ==>
              && r.Some?
              && r.value.count == a.value.count + 1
              && |r.value.items| == |a.value.items|
              && r.value.items[a.value.count] == loc.value
              && forall i | 0 <= i < |a.value.items| && i != a.value.count ::
                   r.value.items[i] == a.value.items[i]
  {
    if loc.None? || a.None? then a
    else Some(Acc(a.value.count + 1, a.value.items[a.value.count := loc.value]))
  }

  /** Feeding a sequence of callback points to add_to_arr, in order. */
  function Collect(calls: seq<Loc>, a: Acc): (r: Acc)
    requires 0 <= a.count && a.count + |calls| <= |a.items|
    ensures r.count == a.count + |calls|
    ensures |r.items| == |a.items|
    ensures r.items[..a.count] == a.items[..a.count]
    ensures r.items[a.count..r.count] == calls
  {
    if |calls| == 0 then a
    else
      var a1 := AddToArr(Some(calls[0]), Some(a)).value;
      var r := Collect(calls[1..], a1);
      assert r.items[a.count..r.count] == [calls[0]] + calls[1..] by {
        assert r.items[a1.count..r.count] == calls[1..];
        assert r.items[..a1.count][a.count] == calls[0];
      }
      r
  }

  /**
   * kdtree_range: the array is allocated with room for `t.n` points and the
   * callback appends to it; the result is the filled prefix and its count.
   * add_to_arr writes without a bound check, so the call stays inside the
   * array exactly when the search reports at most `t.n` points.
   */
  function Range(t: KdTree, sw: Loc, ne: Loc): (r: (seq<Loc>, int))
    requires |RangeForEach(t, sw, ne)| <= t.n
    ensures r.1 == |r.0| == |RangeForEach(t, sw, ne)|
    ensures r.0 == RangeForEach(t, sw, ne)
    ensures Valid(t.root, 0) ==> Elems(r.0) == BoxPoints(Keys(t.root), sw, ne) && NoDup(r.0)
  {
    var calls := RangeForEach(t, sw, ne);
    var a := Collect(calls, Acc(0, seq(t.n, _ => Loc(0.0, 0.0))));
    (a.items[..a.count], a.count)
  }

  /** A counter that does not undercount the stored nodes leaves room for every box. */
  lemma CounterSuffices(t: KdTree, sw: Loc, ne: Loc)
    requires Size(t.root) <= t.n
    ensures |RangeForEach(t, sw, ne)| <= t.n
  {
  }
}
