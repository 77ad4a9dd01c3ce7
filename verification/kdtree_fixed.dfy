/**
 * Corrected counterparts of three k-d tree operations of hw5/kdtree.c whose
 * code does not keep the ordering the tree depends on, together with inputs
 * that show each discrepancy in the operations as written (module KdTree and
 * KdBuild).
 */
module KdFixed {
  import opened Wrappers
  import opened Locations
  import opened Seqs
  import opened KdTree
  import opened KdBuild
  import opened KdRange

  // ------------------------------------------------------------------------
  // Insertion: attach on the side the descent chose
  // ------------------------------------------------------------------------

  /** A single new leaf is a valid subtree at any depth. */
  lemma LeafValid(p: Loc, depth: nat)
    ensures Valid(Node(p, Leaf, Leaf), depth) && Keys(Node(p, Leaf, Leaf)) == {p}
  {
    assert Valid(Leaf, depth + 1);
  }

  /** kdtree_add below a non-empty root, linking the new leaf where the descent ended. */
  function AddAtFixed(t: Tree, p: Loc, depth: nat): (r: (Tree, bool))
    requires t.Node?
    ensures r.1 <==> !Find(t, p, depth)
    ensures !r.1 ==> r.0 == t
    ensures r.1 ==> Keys(r.0) == Keys(t) + {p} && Size(r.0) == Size(t) + 1
    ensures r.1 && Valid(t, depth) ==> Valid(r.0, depth)
  {
    var c := Compare(Dim(depth), p, t.key);
    if c < 0 then
      if t.left.Leaf? then
        LeafValid(p, depth + 1);
        (Node(t.key, Node(p, Leaf, Leaf), t.right), true)
      else
        var (l', added) := AddAtFixed(t.left, p, depth + 1);
        (Node(t.key, l', t.right), added)
    else if c > 0 then
      if t.right.Leaf? then
        LeafValid(p, depth + 1);
        assert Compare(Dim(depth), p, t.key) > 0;
        (Node(t.key, t.left, Node(p, Leaf, Leaf)), true)
      else
        var (r', added) := AddAtFixed(t.right, p, depth + 1);
        (Node(t.key, t.left, r'), added)
    else
      (t, false)
  }

  /** kdtree_add with the corrected link: every reported addition is stored and findable. */
  function AddFixed(t: KdTree, p: Loc): (r: (KdTree, bool))
    ensures r.1 <==> !Contains(t, p)
    ensures !r.1 ==> r.0 == t
    ensures r.1 ==> r.0.n == t.n + 1 && Keys(r.0.root) == Keys(t.root) + {p}
    ensures r.1 ==> Size(r.0.root) == Size(t.root) + 1
    ensures Valid(t.root, 0) ==> Valid(r.0.root, 0) && Contains(r.0, p)
  {
    if t.root.Leaf? then
      (KdTree(Node(p, Leaf, Leaf), t.n + 1), true)
    else
      var (root', added) := AddAtFixed(t.root, p, 0);
      if added then (KdTree(root', t.n + 1), true) else (t, false)
  }

  /**
   * The code as written reports a third point as added although its leaf is
   * linked nowhere: the counter says 3 while the tree holds 2 points.
   */
  lemma AddTieScenario()
    ensures var t1 := Add(KdTree(Leaf, 0), Loc(5.0, 5.0)).0;
            var t2 := Add(t1, Loc(6.0, 5.0)).0;
            var r := Add(t2, Loc(7.0, 5.0));
            && r.1 && r.0.n == 3
            && !Contains(r.0, Loc(7.0, 5.0)) && Size(r.0.root) == 2
  {
  }

  /** The same three insertions with the corrected link keep all three points. */
  lemma AddTieScenarioFixed()
    ensures var t1 := AddFixed(KdTree(Leaf, 0), Loc(5.0, 5.0)).0;
            var t2 := AddFixed(t1, Loc(6.0, 5.0)).0;
            var r := AddFixed(t2, Loc(7.0, 5.0));
            && r.1 && r.0.n == 3
            && Contains(r.0, Loc(7.0, 5.0)) && Size(r.0.root) == 3
  {
  }

  // ------------------------------------------------------------------------
  // Deletion: search the replacement at the child's depth
  // ------------------------------------------------------------------------

  /** internal_remove with find_min / find_max called at the child's depth. */
  function RemoveAtFixed(t: Tree, p: Loc, depth: nat): (r: (Tree, bool))
    ensures !Find(t, p, depth) ==> r == (t, false)
    ensures Find(t, p, depth) ==> r.1
    ensures Valid(t, depth) ==> Valid(r.0, depth) && Keys(r.0) == Keys(t) - {p}
    ensures Valid(t, depth) && p in Keys(t) ==> Size(r.0) + 1 == Size(t)
  {
    match t
    case Leaf => (Leaf, false)
    case Node(k, l, r) =>
      var dim := Dim(depth);
      var c := Compare(dim, p, k);
      if c == 0 then
        if l.Leaf? && r.Leaf? then
          (Leaf, true)
        else if r.Node? then
          var m := FindMin(r, dim, depth + 1).value;
          var r' := RemoveAtFixed(r, m, depth + 1).0;
          assert Valid(t, depth) ==> Valid(Node(m, l, r'), depth) && Keys(Node(m, l, r')) == Keys(t) - {p} by {
            if Valid(t, depth) { PromoteMinValid(t, m, r', depth); }
          }
          (Node(m, l, r'), true)
        else
          var m := FindMax(l, dim, depth + 1).value;
          var l' := RemoveAtFixed(l, m, depth + 1).0;
          assert Valid(t, depth) ==> Valid(Node(m, l', r), depth) && Keys(Node(m, l', r)) == Keys(t) - {p} by {
            if Valid(t, depth) { PromoteMaxValid(t, m, l', depth); }
          }
          (Node(m, l', r), true)
      else if c < 0 then
        var (l', removed) := RemoveAtFixed(l, p, depth + 1);
        assert Valid(t, depth) ==> Keys(Node(k, l', r)) == Keys(t) - {p} by {
          if Valid(t, depth) { ValidNodeDisjoint(t, depth); CompareAntisymmetric(dim, p, k); }
        }
        (Node(k, l', r), removed)
      else
        var (r', removed) := RemoveAtFixed(r, p, depth + 1);
        assert Valid(t, depth) ==> Keys(Node(k, l, r')) == Keys(t) - {p} by {
          if Valid(t, depth) { ValidNodeDisjoint(t, depth); CompareAntisymmetric(dim, p, k); }
        }
        (Node(k, l, r'), removed)
  }

  /** Promoting the right subtree's minimum into the root keeps the ordering. */
  lemma PromoteMinValid(t: Tree, m: Loc, r': Tree, depth: nat)
    requires t.Node? && t.right.Node? && Valid(t, depth)
    requires m == FindMin(t.right, Dim(depth), depth + 1).value
    requires Valid(r', depth + 1) && Keys(r') == Keys(t.right) - {m}
    ensures Valid(Node(m, t.left, r'), depth)
    ensures Keys(Node(m, t.left, r')) == Keys(t) - {t.key}
  {
    var dim := Dim(depth);
    ValidNodeDisjoint(t, depth);
    forall x | x in Keys(t.left) ensures Compare(dim, x, m) < 0 {
      CompareAntisymmetric(dim, m, t.key);
      CompareTransitive(dim, x, t.key, m);
    }
    forall x | x in Keys(r') ensures Compare(dim, x, m) > 0 {
      CompareAntisymmetric(dim, x, m);
    }
  }

  /** Promoting the left subtree's maximum into the root keeps the ordering. */
  lemma PromoteMaxValid(t: Tree, m: Loc, l': Tree, depth: nat)
    requires t.Node? && t.left.Node? && t.right.Leaf? && Valid(t, depth)
    requires m == FindMax(t.left, Dim(depth), depth + 1).value
    requires Valid(l', depth + 1) && Keys(l') == Keys(t.left) - {m}
    ensures Valid(Node(m, l', t.right), depth)
    ensures Keys(Node(m, l', t.right)) == Keys(t) - {t.key}
  {
    var dim := Dim(depth);
    ValidNodeDisjoint(t, depth);
    forall x | x in Keys(l') ensures Compare(dim, x, m) < 0 {
      CompareAntisymmetric(dim, x, m);
    }
  }

  /** kdtree_remove with the corrected depth: a valid tree stays valid. */
  function RemoveFixed(t: KdTree, p: Loc): (r: KdTree)
    ensures !Contains(t, p) ==> r == t
    ensures Valid(t.root, 0) ==> Valid(r.root, 0) && Keys(r.root) == Keys(t.root) - {p} && !Contains(r, p)
    ensures Valid(t.root, 0) && p in Keys(t.root) ==> r.n == t.n - 1 && Size(r.root) + 1 == Size(t.root)
  {
    var (root', removed) := RemoveAtFixed(t.root, p, 0);
    KdTree(root', if removed then t.n - 1 else t.n)
  }

  /**
   * The code as written promotes (6,5) instead of the true minimum (5.5,9),
   * after which the kept point (5.5,9) can no longer be found.
   */
  lemma RemoveScenario()
    ensures var t1 := Add(KdTree(Leaf, 0), Loc(5.0, 5.0)).0;
            var t2 := Add(t1, Loc(6.0, 5.0)).0;
            var t3 := Add(t2, Loc(5.5, 9.0)).0;
            var t4 := Remove(t3, Loc(5.0, 5.0));
            && Contains(t3, Loc(5.5, 9.0))
            && Loc(5.5, 9.0) in Keys(t4.root)
            && !Contains(t4, Loc(5.5, 9.0))
  {
  }

  /** The corrected removal on the same tree keeps (5.5,9) findable. */
  lemma RemoveScenarioFixed()
    ensures var t1 := Add(KdTree(Leaf, 0), Loc(5.0, 5.0)).0;
            var t2 := Add(t1, Loc(6.0, 5.0)).0;
            var t3 := Add(t2, Loc(5.5, 9.0)).0;
            var t4 := RemoveFixed(t3, Loc(5.0, 5.0));
            Contains(t4, Loc(5.5, 9.0)) && Contains(t4, Loc(6.0, 5.0)) && !Contains(t4, Loc(5.0, 5.0))
  {
  }

  /** The points of the undercount run: added in this order, removed b then a. */
  const UA: Loc := Loc(3.0, 3.0)
  const UB: Loc := Loc(1.0, 0.0)
  const UC: Loc := Loc(1.0, 3.0)
  const UD: Loc := Loc(2.0, 2.0)

  /** The tree after adding UA, UB, UC, UD: no ties, so it is valid and n counts every node. */
  function UndercountStart(): (t: KdTree)
    ensures Valid(t.root, 0) && Keys(t.root) == {UA, UB, UC, UD} && t.n == Size(t.root) == 4
  {
    KdTree(Node(UA, Node(UB, Leaf, Node(UC, Leaf, Node(UD, Leaf, Leaf))), Leaf), 4)
  }

  lemma UndercountAdds()
    ensures Add(Add(Add(Add(KdTree(Leaf, 0), UA).0, UB).0, UC).0, UD).0 == UndercountStart()
  {
    assert Add(KdTree(Leaf, 0), UA).0 == KdTree(Node(UA, Leaf, Leaf), 1);
    UndercountAddB();
    UndercountAddC();
    UndercountAddD();
  }

  lemma UndercountAddB()
    ensures Add(KdTree(Node(UA, Leaf, Leaf), 1), UB).0 == KdTree(Node(UA, Node(UB, Leaf, Leaf), Leaf), 2)
  {
  }

  lemma UndercountAddC()
    ensures Add(KdTree(Node(UA, Node(UB, Leaf, Leaf), Leaf), 2), UC).0
            == KdTree(Node(UA, Node(UB, Leaf, Node(UC, Leaf, Leaf)), Leaf), 3)
  {
  }

  lemma UndercountAddD()
    ensures Add(KdTree(Node(UA, Node(UB, Leaf, Node(UC, Leaf, Leaf)), Leaf), 3), UD).0 == UndercountStart()
  {
  }

  /** Removing UB as written promotes UC, whose right subtree then holds UD on the wrong side. */
  lemma UndercountFirstRemove()
    ensures Remove(UndercountStart(), UB) == KdTree(Node(UA, Node(UC, Leaf, Node(UD, Leaf, Leaf)), Leaf), 3)
  {
  }

  /** Removing UA as written promotes UD, and the search for UD in the left subtree misses it. */
  lemma UndercountSecondRemove()
    ensures var sub := Node(UC, Leaf, Node(UD, Leaf, Leaf));
            Remove(KdTree(Node(UA, sub, Leaf), 3), UA) == KdTree(Node(UD, sub, Leaf), 2)
  {
    var sub := Node(UC, Leaf, Node(UD, Leaf, Leaf));
    assert FindMax(sub, 0, 0) == Some(UD);
    assert !Find(sub, UD, 1);
  }

  /**
   * Two removals as written: the first promotes a key that disorders the
   * subtree, so the second cannot find its promoted key again and leaves it
   * stored twice.  The counter then undercounts the nodes, and a box around
   * all of them reports more points than kdtree_range allocates.
   */
  lemma RemoveUndercounts()
    ensures var t4 := Add(Add(Add(Add(KdTree(Leaf, 0), UA).0, UB).0, UC).0, UD).0;
            var t6 := Remove(Remove(t4, UB), UA);
            && Valid(t4.root, 0) && t4.n == Size(t4.root) == 4
            && t6.n == 2 && Size(t6.root) == 3
            && |RangeForEach(t6, Loc(0.0, 0.0), Loc(5.0, 5.0))| == 3
  {
    UndercountAdds();
    UndercountFirstRemove();
    UndercountSecondRemove();
    UndercountRange();
  }

  lemma UndercountRange()
    ensures var sub := Node(UC, Leaf, Node(UD, Leaf, Leaf));
            |RangeForEach(KdTree(Node(UD, sub, Leaf), 2), Loc(0.0, 0.0), Loc(5.0, 5.0))| == 3
  {
  }

  /**
   * On a valid tree whose counter is exact, the corrected removal keeps it
   * exact, so kdtree_range afterwards has room for every box.
   */
  lemma RemoveFixedKeepsCount(t: KdTree, p: Loc)
    requires Valid(t.root, 0) && t.n == Size(t.root)
    ensures Valid(RemoveFixed(t, p).root, 0)
    ensures RemoveFixed(t, p).n == Size(RemoveFixed(t, p).root)
    ensures forall sw, ne :: |RangeForEach(RemoveFixed(t, p), sw, ne)| <= RemoveFixed(t, p).n
  {
    var r := RemoveFixed(t, p);
    if !Contains(t, p) {
      assert r == t;
    }
    forall sw, ne ensures |RangeForEach(r, sw, ne)| <= r.n {
      CounterSuffices(r, sw, ne);
    }
  }

  // ------------------------------------------------------------------------
  // Construction: drop repeated points before building
  // ------------------------------------------------------------------------

  /** The points of `s` in order of first occurrence. */
  function Distinct(s: seq<Loc>): (r: seq<Loc>)
    ensures NoDup(r)
    ensures Elems(r) == Elems(s)
    ensures |r| <= |s|
    ensures NoDup(s) ==> r == s
  {
    if |s| == 0 then []
    else
      var init := Distinct(s[..|s| - 1]);
      var x := s[|s| - 1];
      assert s == s[..|s| - 1] + [x];
      assert Elems(s) == Elems(s[..|s| - 1]) + {x};
      if x in init then
        init
      else
        NoDupConcat(init, [x]);
        assert Elems(init + [x]) == Elems(init) + {x};
        init + [x]
  }

  /** kdtree_create on the distinct input points: defined for every input. */
  function CreateFixed(pts: Option<seq<Loc>>, n: nat): (r: Creation)
    requires pts.Some? ==> n <= |pts.value|
    ensures n == 0 ==> r == Made(KdTree(Leaf, 0))
    ensures n > 0 && pts.None? ==> r == NullTree
    ensures n > 0 && pts.Some? ==>
              && r.Made?
              && Valid(r.tree.root, 0)
              && Keys(r.tree.root) == Elems(pts.value[..n])
              && r.tree.n == Size(r.tree.root) == |Keys(r.tree.root)|
  {
    if n == 0 then Made(KdTree(Leaf, 0))
    else if pts.None? then NullTree
    else
      var input := Distinct(pts.value[..n]);
      NoDupCard(input);
      Create(Some(input), |input|)
  }

  /** Two copies of one point make the code as written read unwritten slots. */
  lemma CreateDuplicateScenario()
    ensures Create(Some([Loc(1.0, 1.0), Loc(1.0, 1.0)]), 2) == Undefined
  {
    var a := Loc(1.0, 1.0);
    assert [a, a][..2] == [a, a];
    SortTwice(a, 0);
    SortTwice(a, 1);
    assert Partition([a, a], a, 0) == ([], []);
    assert Build([], [a], 1) == None;
    assert Build([a, a], [a, a], 0) == None;
  }

  /** Both orderings of a repeated point are the point twice. */
  lemma SortTwice(a: Loc, dim: nat)
    ensures Sort([a, a], dim) == [a, a]
  {
    assert [a, a][1..] == [a];
    assert [a][1..] == [];
    assert Sort([a], dim) == [a];
  }

  /** The corrected construction stores the point once. */
  lemma CreateDuplicateScenarioFixed(a: Loc)
    ensures var r := CreateFixed(Some([a, a]), 2);
            r.Made? && r.tree.n == 1 && Keys(r.tree.root) == {a}
  {
    assert [a, a][..2] == [a, a];
    DistinctTwice(a);
    assert [a][..1] == [a];
    assert Elems([a]) == {a} by {
      assert forall x :: x in Elems([a]) <==> x == a;
    }
  }

  /** A point given twice is kept once. */
  lemma DistinctTwice(a: Loc)
    ensures Distinct([a, a]) == [a]
  {
    assert [a, a][..1] == [a];
    assert [a][..0] == [];
  }
}
