/**
 * The 2-d tree of hw5/kdtree.c and hw5/kdtree_helpers.c: membership, insertion
 * and deletion by promotion, modelled on an immutable tree.  The C loops that
 * walk down the tree with a toggling `dim` are written here as recursion that
 * carries the depth; the cutting dimension at a node is `Dim(depth)`.
 */
module KdTree {
  import opened Wrappers
  import opened Locations

  datatype Tree = Leaf | Node(key: Loc, left: Tree, right: Tree)

  /** The kdtree struct: the root and the counter `n` the code maintains. */
  datatype KdTree = KdTree(root: Tree, n: int)

  /** The points stored in a subtree. */
  function Keys(t: Tree): set<Loc> {
    match t
    case Leaf => {}
    case Node(k, l, r) => {k} + Keys(l) + Keys(r)
  }

  /** Number of nodes of a subtree. */
  function Size(t: Tree): nat {
    match t
    case Leaf => 0
    case Node(_, l, r) => 1 + Size(l) + Size(r)
  }

  /**
   * The ordering invariant: under the comparator of the node's depth, every
   * key of the left subtree is smaller and every key of the right subtree larger.
   */
  ghost predicate Valid(t: Tree, depth: nat) {
    match t
    case Leaf => true
    case Node(k, l, r) =>
      && (forall x | x in Keys(l) :: Compare(Dim(depth), x, k) < 0)
      && (forall x | x in Keys(r) :: Compare(Dim(depth), x, k) > 0)
      && Valid(l, depth + 1)
      && Valid(r, depth + 1)
  }

  /** A valid tree stores no point twice: its node count is its number of keys. */
  lemma {:induction false} ValidSizeIsCardinality(t: Tree, depth: nat)
    requires Valid(t, depth)
    ensures Size(t) == |Keys(t)|
  {
    match t
    case Leaf =>
    case Node(k, l, r) =>
      ValidSizeIsCardinality(l, depth + 1);
      ValidSizeIsCardinality(r, depth + 1);
      ValidNodeDisjoint(t, depth);
      assert Keys(t) == {k} + (Keys(l) + Keys(r));
      assert |Keys(l) + Keys(r)| == |Keys(l)| + |Keys(r)|;
  }

  /** At a node of a valid tree the key and the two subtrees hold disjoint points. */
  lemma ValidNodeDisjoint(t: Tree, depth: nat)
    requires t.Node? && Valid(t, depth)
    ensures t.key !in Keys(t.left) && t.key !in Keys(t.right)
    ensures Keys(t.left) !! Keys(t.right)
  {
    forall x | x in Keys(t.left)
      ensures x !in Keys(t.right)
    {
      assert Compare(Dim(depth), x, t.key) < 0;
    }
  }

  // ------------------------------------------------------------------------
  // Membership
  // ------------------------------------------------------------------------

  /**
   * The descent of kdtree_contains from a node at `depth`: go left while `p`
   * compares smaller, right while larger, stop on equality.
   */
  function Find(t: Tree, p: Loc, depth: nat): (found: bool)
    ensures found ==> p in Keys(t)
    ensures Valid(t, depth) ==> (found <==> p in Keys(t))
  {
    match t
    case Leaf => false
    case Node(k, l, r) =>
      var c := Compare(Dim(depth), p, k);
      if c < 0 then Find(l, p, depth + 1)
      else if c > 0 then Find(r, p, depth + 1)
      else true
  }

  /** kdtree_contains. */
  function Contains(t: KdTree, p: Loc): (found: bool)
    ensures found ==> p in Keys(t.root)
    ensures Valid(t.root, 0) ==> (found <==> p in Keys(t.root))
  {
    Find(t.root, p, 0)
  }

  // ------------------------------------------------------------------------
  // Insertion
  // ------------------------------------------------------------------------

  /**
   * The attach step of kdtree_add: the new leaf is linked under `par` by
   * comparing the raw coordinate of `par`'s cutting dimension, without the
   * tie-break the descent used.  On a tie it is linked nowhere.
   */
  function Attach(par: Tree, p: Loc, dim: nat): Tree
    requires par.Node?
  {
    var leaf := Node(p, Leaf, Leaf);
    if Coord(dim, p) < Coord(dim, par.key) then Node(par.key, leaf, par.right)
    else if Coord(dim, p) > Coord(dim, par.key) then Node(par.key, par.left, leaf)
    else par
  }

  /**
   * True when the descent for `p` ends at a node whose raw coordinate on its
   * cutting dimension equals `p`'s: that is where Attach drops the new leaf.
   */
  predicate TiesAtEnd(t: Tree, p: Loc, depth: nat)
    requires t.Node?
  {
    var c := Compare(Dim(depth), p, t.key);
    if c < 0 then
      if t.left.Leaf? then Coord(Dim(depth), p) == Coord(Dim(depth), t.key)
      else TiesAtEnd(t.left, p, depth + 1)
    else if c > 0 then
      if t.right.Leaf? then Coord(Dim(depth), p) == Coord(Dim(depth), t.key)
      else TiesAtEnd(t.right, p, depth + 1)
    else false
  }

  /**
   * kdtree_add below a non-empty root.  Returns the new tree and whether the
   * code reports the point as added.
   */
  function AddAt(t: Tree, p: Loc, depth: nat): (r: (Tree, bool))
    requires t.Node?
    ensures r.1 <==> !Find(t, p, depth)
    ensures !r.1 ==> r.0 == t
    ensures r.1 && TiesAtEnd(t, p, depth) ==> r.0 == t
    ensures r.1 && !TiesAtEnd(t, p, depth) ==>
              Keys(r.0) == Keys(t) + {p} && Size(r.0) == Size(t) + 1
    ensures r.1 && !TiesAtEnd(t, p, depth) && Valid(t, depth) ==> Valid(r.0, depth)
  {
    var dim := Dim(depth);
    var c := Compare(dim, p, t.key);
    if c < 0 then
      if t.left.Leaf? then
        CompareCoord(dim, p, t.key);
        (Attach(t, p, dim), true)
      else
        var (l', added) := AddAt(t.left, p, depth + 1);
        (Node(t.key, l', t.right), added)
    else if c > 0 then
      if t.right.Leaf? then
        CompareCoord(dim, p, t.key);
        (Attach(t, p, dim), true)
      else
        var (r', added) := AddAt(t.right, p, depth + 1);
        (Node(t.key, t.left, r'), added)
    else
      (t, false)
  }

  /**
   * kdtree_add: an absent point is reported as added and the counter rises,
   * whether or not the new leaf could be linked; a present point changes nothing.
   */
  function Add(t: KdTree, p: Loc): (r: (KdTree, bool))
    ensures r.1 <==> !Contains(t, p)
    ensures !r.1 ==> r.0 == t
    ensures r.1 ==> r.0.n == t.n + 1
    ensures r.1 && (t.root.Leaf? || !TiesAtEnd(t.root, p, 0)) ==>
              Keys(r.0.root) == Keys(t.root) + {p} && Size(r.0.root) == Size(t.root) + 1
    ensures r.1 && t.root.Node? && TiesAtEnd(t.root, p, 0) ==> r.0.root == t.root
    ensures r.1 && (t.root.Leaf? || !TiesAtEnd(t.root, p, 0)) && Valid(t.root, 0) ==>
              Valid(r.0.root, 0) && Contains(r.0, p)
  {
    if t.root.Leaf? then
      (KdTree(Node(p, Leaf, Leaf), t.n + 1), true)
    else
      var (root', added) := AddAt(t.root, p, 0);
      if added then (KdTree(root', t.n + 1), true) else (t, false)
  }

  // ------------------------------------------------------------------------
  // Minimum and maximum along a cutting dimension
  // ------------------------------------------------------------------------

  /** min_of_three: `x` unless `y` or `z` is strictly smaller on `dimCut`. */
  function MinOfThree(x: Loc, y: Option<Loc>, z: Option<Loc>, dimCut: nat): (m: Loc)
    ensures m == x || (y.Some? && m == y.value) || (z.Some? && m == z.value)
    ensures Compare(dimCut, m, x) <= 0
    ensures y.Some? ==> Compare(dimCut, m, y.value) <= 0
    ensures z.Some? ==> Compare(dimCut, m, z.value) <= 0
    ensures m != x ==> Compare(dimCut, m, x) < 0
  {
    var m1 := if y.Some? && Compare(dimCut, y.value, x) < 0 then y.value else x;
    if z.Some? && Compare(dimCut, z.value, m1) < 0 then z.value else m1
  }

  /** max_of_three: `x` unless `y` or `z` is strictly larger on `dimCut`. */
  function MaxOfThree(x: Loc, y: Option<Loc>, z: Option<Loc>, dimCut: nat): (m: Loc)
    ensures m == x || (y.Some? && m == y.value) || (z.Some? && m == z.value)
    ensures Compare(dimCut, m, x) >= 0
    ensures y.Some? ==> Compare(dimCut, m, y.value) >= 0
    ensures z.Some? ==> Compare(dimCut, m, z.value) >= 0
    ensures m != x ==> Compare(dimCut, m, x) > 0
  {
    var m1 := if y.Some? && Compare(dimCut, y.value, x) > 0 then y.value else x;
    if z.Some? && Compare(dimCut, z.value, m1) > 0 then z.value else m1
  }

  /**
   * find_min: the key of a node of `t`; when `depth` is the real depth of a
   * valid `t`, a key minimal on `dimCut`.  Where the node's own dimension is
   * `dimCut` only the left spine is searched.
   */
  function FindMin(t: Tree, dimCut: nat, depth: nat): (r: Option<Loc>)
    ensures r.None? <==> t.Leaf?
    ensures r.Some? ==> r.value in Keys(t)
    ensures r.Some? && Valid(t, depth) ==> forall x | x in Keys(t) :: Compare(dimCut, r.value, x) <= 0
  {
    match t
    case Leaf => None
    case Node(k, l, r) =>
      if Dim(depth) == dimCut then
        if l.Node? then
          var m := FindMin(l, dimCut, depth + 1);
          assert Valid(t, depth) ==> forall x | x in Keys(t) :: Compare(dimCut, m.value, x) <= 0 by {
            if Valid(t, depth) {
              forall x | x in Keys(t) ensures Compare(dimCut, m.value, x) <= 0 {
                if x in Keys(r) {
                  CompareTransitive(dimCut, m.value, k, x);
                }
              }
            }
          }
          m
        else
          Some(k)
      else
        Some(MinOfThree(k, FindMin(l, dimCut, depth + 1), FindMin(r, dimCut, depth + 1), dimCut))
  }

  /** find_max: symmetric to FindMin, following the right spine. */
  function FindMax(t: Tree, dimCut: nat, depth: nat): (r: Option<Loc>)
    ensures r.None? <==> t.Leaf?
    ensures r.Some? ==> r.value in Keys(t)
    ensures r.Some? && Valid(t, depth) ==> forall x | x in Keys(t) :: Compare(dimCut, r.value, x) >= 0
  {
    match t
    case Leaf => None
    case Node(k, l, r) =>
      if Dim(depth) == dimCut then
        if r.Node? then
          var m := FindMax(r, dimCut, depth + 1);
          assert Valid(t, depth) ==> forall x | x in Keys(t) :: Compare(dimCut, m.value, x) >= 0 by {
            if Valid(t, depth) {
              forall x | x in Keys(t) ensures Compare(dimCut, m.value, x) >= 0 {
                if x in Keys(l) {
                  CompareTransitive(dimCut, x, k, m.value);
                }
              }
            }
          }
          m
        else
          Some(k)
      else
        Some(MaxOfThree(k, FindMax(l, dimCut, depth + 1), FindMax(r, dimCut, depth + 1), dimCut))
  }

  // ------------------------------------------------------------------------
  // Deletion
  // ------------------------------------------------------------------------

  /**
   * internal_remove as written: the promoted key is searched with the
   * parent's depth (find_min(curr->right, dim, depth)), then deleted from the
   * child subtree.  Returns the new subtree and the `removed` flag.
   */
  function RemoveAt(t: Tree, p: Loc, depth: nat): (r: (Tree, bool))
    ensures !Find(t, p, depth) ==> r == (t, false)
    ensures Find(t, p, depth) ==> r.1
  {
    match t
    case Leaf => (Leaf, false)
    case Node(k, l, r) =>
      var dim := Dim(depth);
      var c := Compare(dim, p, k);
      if c == 0 then
        if l.Leaf? && r.Leaf? then
          (Leaf, true)
        else if r.Node? then
          var m := FindMin(r, dim, depth).value;
          (Node(m, l, RemoveAt(r, m, depth + 1).0), true)
        else
          var m := FindMax(l, dim, depth).value;
          (Node(m, RemoveAt(l, m, depth + 1).0, r), true)
      else if c < 0 then
        var (l', removed) := RemoveAt(l, p, depth + 1);
        (Node(k, l', r), removed)
      else
        var (r', removed) := RemoveAt(r, p, depth + 1);
        (Node(k, l, r'), removed)
  }

  /** Replacing the root by m and m's subtree by one without m: the root's key goes. */
  lemma PromoteKeys(t: Tree, m: Loc, sub': Tree, right: bool)
    requires t.Node? && t.key !in Keys(t.left) && t.key !in Keys(t.right)
    requires var sub := if right then t.right else t.left;
             m in Keys(sub) && Keys(sub') == Keys(sub) - {m} && Size(sub') + 1 == Size(sub)
    ensures var t' := if right then Node(m, t.left, sub') else Node(m, sub', t.right);
            Keys(t') == Keys(t) - {t.key} && Size(t') + 1 == Size(t)
  {
    var t' := if right then Node(m, t.left, sub') else Node(m, sub', t.right);
    assert Keys(t') == {m} + Keys(t'.left) + Keys(t'.right);
    forall x
      ensures x in Keys(t') <==> x in Keys(t) - {t.key}
    {
    }
  }

  /** Replacing one subtree by one without p: p goes, the root stays. */
  lemma DescendKeys(t: Tree, p: Loc, sub': Tree, right: bool)
    requires t.Node? && p != t.key && Keys(t.left) !! Keys(t.right)
    requires var sub := if right then t.right else t.left;
             p in Keys(sub) && Keys(sub') == Keys(sub) - {p} && Size(sub') + 1 == Size(sub)
    ensures var t' := if right then Node(t.key, t.left, sub') else Node(t.key, sub', t.right);
            Keys(t') == Keys(t) - {p} && Size(t') + 1 == Size(t)
  {
    var t' := if right then Node(t.key, t.left, sub') else Node(t.key, sub', t.right);
    assert Keys(t') == {t.key} + Keys(t'.left) + Keys(t'.right);
    forall x
      ensures x in Keys(t') <==> x in Keys(t) - {p}
    {
    }
  }

  /**
   * On a valid subtree holding p, internal_remove as written takes exactly
   * p out of the keys and one node out of the tree.
   */
  lemma {:induction false} RemoveAtKeys(t: Tree, p: Loc, depth: nat)
    ensures Valid(t, depth) && p in Keys(t) ==>
              Keys(RemoveAt(t, p, depth).0) == Keys(t) - {p} && Size(RemoveAt(t, p, depth).0) + 1 == Size(t)
    decreases t
  {
    if t.Node? && Valid(t, depth) && p in Keys(t) {
      var dim := Dim(depth);
      var c := Compare(dim, p, t.key);
      ValidNodeDisjoint(t, depth);
      if c == 0 {
        if t.right.Node? {
          var m := FindMin(t.right, dim, depth).value;
          RemoveAtKeys(t.right, m, depth + 1);
          PromoteKeys(t, m, RemoveAt(t.right, m, depth + 1).0, true);
        } else if t.left.Node? {
          var m := FindMax(t.left, dim, depth).value;
          RemoveAtKeys(t.left, m, depth + 1);
          PromoteKeys(t, m, RemoveAt(t.left, m, depth + 1).0, false);
        }
      } else if c < 0 {
        CompareAntisymmetric(dim, p, t.key);
        RemoveAtKeys(t.left, p, depth + 1);
        DescendKeys(t, p, RemoveAt(t.left, p, depth + 1).0, false);
      } else {
        RemoveAtKeys(t.right, p, depth + 1);
        DescendKeys(t, p, RemoveAt(t.right, p, depth + 1).0, true);
      }
    }
  }

  /** kdtree_remove: the counter drops exactly when the point was found. */
  function Remove(t: KdTree, p: Loc): (r: KdTree)
    ensures !Contains(t, p) ==> r == t
    ensures Valid(t.root, 0) && p in Keys(t.root) ==>
              r.n == t.n - 1 && Keys(r.root) == Keys(t.root) - {p} && Size(r.root) + 1 == Size(t.root)
  {
    RemoveAtKeys(t.root, p, 0);
    var (root', removed) := RemoveAt(t.root, p, 0);
    KdTree(root', if removed then t.n - 1 else t.n)
  }
}
