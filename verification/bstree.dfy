/**
 * The integer binary search tree of exam_2/bstree.c: insert, minValueNode,
 * deleteNode (as written, including its faulty two-children branch), the
 * in-order traversal as a sequence, and a corrected deletion.
 */
module BsTree {
  import opened Wrappers
  import opened Seqs

  datatype Bst = Empty | BNode(key: int, left: Bst, right: Bst)

  /** The keys stored in a tree. */
  function KeySet(t: Bst): set<int> {
    match t
    case Empty => {}
    case BNode(k, l, r) => {k} + KeySet(l) + KeySet(r)
  }

  /** Search-tree order: smaller keys on the left, larger on the right, at every node. */
  ghost predicate IsBst(t: Bst) {
    match t
    case Empty => true
    case BNode(k, l, r) =>
      && (forall x | x in KeySet(l) :: x < k)
      && (forall x | x in KeySet(r) :: x > k)
      && IsBst(l) && IsBst(r)
  }

  /** Strictly increasing sequence of keys. */
  ghost predicate Increasing(s: seq<int>) {
    forall i, j | 0 <= i < j < |s| :: s[i] < s[j]
  }

  /** inorder: the keys in left, node, right order. */
  function Inorder(t: Bst): seq<int> {
    match t
    case Empty => []
    case BNode(k, l, r) => Inorder(l) + [k] + Inorder(r)
  }

  /** The traversal lists exactly the stored keys, and a search tree lists each once. */
  lemma {:induction false} InorderKeys(t: Bst)
    ensures Elems(Inorder(t)) == KeySet(t)
    ensures |KeySet(t)| <= |Inorder(t)|
  {
    match t
    case Empty =>
    case BNode(k, l, r) =>
      InorderKeys(l);
      InorderKeys(r);
      var s := Inorder(t);
      assert Elems(s) == Elems(Inorder(l)) + {k} + Elems(Inorder(r));
      CardAtMostLength(s);
  }

  /** A three-part sequence increases exactly when its parts do and lie on either side of `k`. */
  lemma IncreasingJoin(a: seq<int>, k: int, b: seq<int>)
    ensures Increasing(a + [k] + b) <==>
              Increasing(a) && Increasing(b) && (forall x | x in a :: x < k) && (forall x | x in b :: x > k)
  {
    var s := a + [k] + b;
    if Increasing(a) && Increasing(b) && (forall x | x in a :: x < k) && (forall x | x in b :: x > k) {
      forall i, j | 0 <= i < j < |s| ensures s[i] < s[j] {
        if j < |a| {
          assert s[i] == a[i] && s[j] == a[j];
        } else if i < |a| {
          assert s[i] == a[i] && a[i] in a;
          if j > |a| { assert s[j] == b[j - |a| - 1] && b[j - |a| - 1] in b; }
          else { assert s[j] == k; }
        } else if i == |a| {
          assert s[i] == k;
          assert s[j] == b[j - |a| - 1] && b[j - |a| - 1] in b;
        } else {
          assert s[i] == b[i - |a| - 1] && s[j] == b[j - |a| - 1];
        }
      }
    }
    if Increasing(s) {
      forall i, j | 0 <= i < j < |a| ensures a[i] < a[j] {
        assert a[i] == s[i] && a[j] == s[j];
      }
      forall i, j | 0 <= i < j < |b| ensures b[i] < b[j] {
        assert b[i] == s[|a| + 1 + i] && b[j] == s[|a| + 1 + j];
      }
      forall x | x in a ensures x < k {
        var i :| 0 <= i < |a| && a[i] == x;
        assert s[i] == x && s[|a|] == k;
      }
      forall x | x in b ensures x > k {
        var i :| 0 <= i < |b| && b[i] == x;
        assert s[|a| + 1 + i] == x && s[|a|] == k;
      }
    }
  }

  /** A tree is a search tree exactly when its in-order traversal is strictly increasing. */
  lemma {:induction false} InorderIncreasingIffBst(t: Bst)
    ensures IsBst(t) <==> Increasing(Inorder(t))
  {
    match t
    case Empty =>
    case BNode(k, l, r) =>
      InorderIncreasingIffBst(l);
      InorderIncreasingIffBst(r);
      IncreasingJoin(Inorder(l), k, Inorder(r));
      InorderKeys(l);
      InorderKeys(r);
      assert forall x :: x in Inorder(l) <==> x in KeySet(l) by {
        forall x ensures x in Inorder(l) <==> x in KeySet(l) { assert x in Elems(Inorder(l)) <==> x in Inorder(l); }
      }
      assert forall x :: x in Inorder(r) <==> x in KeySet(r) by {
        forall x ensures x in Inorder(r) <==> x in KeySet(r) { assert x in Elems(Inorder(r)) <==> x in Inorder(r); }
      }
  }

  /** Standard search: is `key` on the path the comparisons choose? */
  function Search(t: Bst, key: int): (found: bool)
    ensures found ==> key in KeySet(t)
    ensures IsBst(t) ==> (found <==> key in KeySet(t))
  {
    match t
    case Empty => false
    case BNode(k, l, r) => if key < k then Search(l, key) else if key > k then Search(r, key) else true
  }

  /** insert: descends by comparison and hangs a new leaf where the search ends. */
  function Insert(t: Bst, key: int): (r: Bst)
    ensures KeySet(r) == KeySet(t) + {key}
    ensures Search(t, key) ==> r == t
    ensures IsBst(t) ==> IsBst(r) && (r == t <==> key in KeySet(t))
  {
    match t
    case Empty => BNode(key, Empty, Empty)
    case BNode(k, l, rt) =>
      if key < k then BNode(k, Insert(l, key), rt)
      else if key > k then BNode(k, l, Insert(rt, key))
      else t
  }

  /** minValueNode: the leftmost node, or None for an empty tree. */
  function MinValueNode(t: Bst): (r: Option<Bst>)
    ensures r.None? <==> t.Empty?
    ensures r.Some? ==> r.value.BNode? && r.value.left.Empty? && r.value.key in KeySet(t)
    ensures r.Some? && IsBst(t) ==> forall x | x in KeySet(t) :: r.value.key <= x
  {
    match t
    case Empty => None
    case BNode(_, l, _) => if l.Empty? then Some(t) else MinValueNode(l)
  }

  // ------------------------------------------------------------------------
  // deleteNode as written
  // ------------------------------------------------------------------------

  /**
   * The successor loop of deleteNode when the successor lies strictly below
   * root->right.  `s` is a node whose left child exists; the result is `s`
   * with the successor unlinked and the successor's key.  At the successor's
   * parent the code clears the left link and, when the successor has a right
   * child, overwrites the parent's right link with it.
   */
  function DetachAsWritten(s: Bst): (r: (Bst, int))
    requires s.BNode? && s.left.BNode?
    ensures r.0.BNode?
    ensures r.1 == MinValueNode(s).value.key
    ensures KeySet(r.0) <= KeySet(s) && r.1 in KeySet(s)
  {
    var succ := s.left;
    if succ.left.Empty? then
      (BNode(s.key, Empty, if succ.right.BNode? then succ.right else s.right), succ.key)
    else
      var (l', k) := DetachAsWritten(s.left);
      (BNode(s.key, l', s.right), k)
  }

  /** The successor of a two-children node is a leaf strictly below its right child. */
  predicate SuccessorIsDeepLeaf(t: Bst)
    requires t.BNode?
  {
    t.right.BNode? && t.right.left.BNode? && MinValueNode(t.right).value.right.Empty?
  }

  /** The node deleteNode finds for `key`, if any. */
  function Located(t: Bst, key: int): (r: Option<Bst>)
    ensures r.Some? ==> r.value.BNode? && r.value.key == key
    ensures r.Some? <==> Search(t, key)
  {
    match t
    case Empty => None
    case BNode(k, l, r) =>
      if k != key then (if key < k then Located(l, key) else Located(r, key))
      else Some(t)
  }

  /** Deletion of `key` takes a branch of deleteNode that is correct. */
  predicate DeletesSafely(t: Bst, key: int) {
    var n := Located(t, key);
    n.Some? ==> n.value.left.Empty? || n.value.right.Empty? || SuccessorIsDeepLeaf(n.value)
  }

  /**
   * deleteNode.  When the successor is root->right itself, line 127 clears
   * root->left, and when that successor also has no right child root->right
   * still points to the freed successor; the model keeps the freed node's
   * last contents in that position.
   */
  function DeleteNode(t: Bst, key: int): (r: Bst)
    ensures !Search(t, key) ==> r == t
    ensures KeySet(r) <= KeySet(t)
    ensures IsBst(t) && DeletesSafely(t, key) ==>
              IsBst(r) && KeySet(r) == KeySet(t) - {key}
  {
    match t
    case Empty => Empty
    case BNode(k, l, rt) =>
      if k != key then
        if key < k then BNode(k, DeleteNode(l, key), rt) else BNode(k, l, DeleteNode(rt, key))
      else if l.Empty? then rt
      else if rt.Empty? then l
      else if rt.left.Empty? then
        if rt.right.BNode? then BNode(rt.key, Empty, rt.right) else BNode(rt.key, Empty, rt)
      else
        var (rt', m) := DetachAsWritten(rt);
        assert IsBst(t) && DeletesSafely(t, key) ==>
                 IsBst(BNode(m, l, rt')) && KeySet(BNode(m, l, rt')) == KeySet(t) - {key} by {
          if IsBst(t) && DeletesSafely(t, key) {
            DetachLeafSuccessor(rt);
            forall x | x in KeySet(l) ensures x < m {
              assert m in KeySet(rt);
            }
          }
        }
        BNode(m, l, rt')
  }

  /** Unlinking a leaf successor removes exactly its key and keeps the order. */
  lemma {:induction false} DetachLeafSuccessor(s: Bst)
    requires s.BNode? && s.left.BNode? && IsBst(s)
    requires MinValueNode(s).value.right.Empty?
    ensures var (s', m) := DetachAsWritten(s);
            && IsBst(s') && KeySet(s') == KeySet(s) - {m}
            && m in KeySet(s) && forall x | x in KeySet(s') :: m < x
  {
    var succ := s.left;
    if succ.left.BNode? {
      DetachLeafSuccessor(succ);
      var (l', m) := DetachAsWritten(succ);
      assert m in KeySet(succ);
    }
  }

  // ------------------------------------------------------------------------
  // Corrected deletion
  // ------------------------------------------------------------------------

  /** Unlinks the leftmost node of `s`, replacing it by its right child. */
  function DetachMin(s: Bst): (r: (Bst, int))
    requires s.BNode?
    ensures r.1 == MinValueNode(s).value.key
    ensures KeySet(r.0) + {r.1} == KeySet(s)
    ensures IsBst(s) ==> IsBst(r.0) && KeySet(r.0) == KeySet(s) - {r.1}
    ensures IsBst(s) ==> forall x | x in KeySet(r.0) :: r.1 < x
  {
    if s.left.Empty? then (s.right, s.key)
    else
      var (l', k) := DetachMin(s.left);
      (BNode(s.key, l', s.right), k)
  }

  /** deleteNode with the successor's right child relinked to its parent's left. */
  function DeleteFixed(t: Bst, key: int): (r: Bst)
    ensures !Search(t, key) ==> r == t
    ensures IsBst(t) ==> IsBst(r) && KeySet(r) == KeySet(t) - {key}
  {
    match t
    case Empty => Empty
    case BNode(k, l, rt) =>
      if k != key then
        if key < k then BNode(k, DeleteFixed(l, key), rt) else BNode(k, l, DeleteFixed(rt, key))
      else if l.Empty? then rt
      else if rt.Empty? then l
      else
        var (rt', m) := DetachMin(rt);
        assert IsBst(t) ==> forall x | x in KeySet(l) :: x < m by {
          if IsBst(t) { assert m in KeySet(rt); }
        }
        BNode(m, l, rt')
  }

  /** On the deletions deleteNode handles correctly, the corrected version agrees with it. */
  lemma {:induction false} DeleteFixedAgrees(t: Bst, key: int)
    requires IsBst(t) && DeletesSafely(t, key)
    ensures DeleteFixed(t, key) == DeleteNode(t, key)
  {
    match t
    case Empty =>
    case BNode(k, l, rt) =>
      if k != key {
        if key < k { DeleteFixedAgrees(l, key); } else { DeleteFixedAgrees(rt, key); }
      } else if l.BNode? && rt.BNode? {
        DetachAgrees(rt);
      }
  }

  /** With a leaf successor below the right child both unlinking steps coincide. */
  lemma {:induction false} DetachAgrees(s: Bst)
    requires s.BNode? && s.left.BNode? && MinValueNode(s).value.right.Empty?
    ensures DetachMin(s) == DetachAsWritten(s)
  {
    if s.left.left.BNode? {
      DetachAgrees(s.left);
    }
  }

  // ------------------------------------------------------------------------
  // Scenarios
  // ------------------------------------------------------------------------

  /** The tree the driver in main builds. */
  function DriverTree(): Bst {
    Insert(Insert(Insert(Insert(Insert(Insert(Insert(Empty, 50), 30), 20), 40), 70), 60), 80)
  }

  /** The shape the driver's insertions produce. */
  lemma DriverTreeShape()
    ensures DriverTree() == BNode(50, BNode(30, BNode(20, Empty, Empty), BNode(40, Empty, Empty)),
                                      BNode(70, BNode(60, Empty, Empty), BNode(80, Empty, Empty)))
  {
    var e := Empty;
    var t3 := BNode(50, BNode(30, BNode(20, e, e), e), e);
    assert Insert(Insert(Insert(Empty, 50), 30), 20) == t3;
    var t4 := BNode(50, BNode(30, BNode(20, e, e), BNode(40, e, e)), e);
    assert Insert(t3, 40) == t4;
    var t5 := BNode(50, BNode(30, BNode(20, e, e), BNode(40, e, e)), BNode(70, e, e));
    assert Insert(t4, 70) == t5;
    var t6 := BNode(50, BNode(30, BNode(20, e, e), BNode(40, e, e)), BNode(70, BNode(60, e, e), e));
    assert Insert(t5, 60) == t6;
  }

  /** main's deletion of the leaf 60. */
  lemma DriverDelete()
    ensures DeleteNode(DriverTree(), 60) == BNode(50, BNode(30, BNode(20, Empty, Empty), BNode(40, Empty, Empty)),
                                                      BNode(70, Empty, BNode(80, Empty, Empty)))
  {
    DriverTreeShape();
    var e := Empty;
    assert DeleteNode(BNode(60, e, e), 60) == e;
    assert DeleteNode(BNode(70, BNode(60, e, e), BNode(80, e, e)), 60) == BNode(70, e, BNode(80, e, e));
  }

  lemma InorderLeaf(k: int)
    ensures Inorder(BNode(k, Empty, Empty)) == [k]
  {
    assert [] + [k] + [] == [k];
  }

  lemma InorderThree(a: int, b: int, c: int)
    ensures Inorder(BNode(b, BNode(a, Empty, Empty), BNode(c, Empty, Empty))) == [a, b, c]
  {
    InorderLeaf(a);
    InorderLeaf(c);
  }

  /** main: deleting 60 from the driver's tree leaves 20 30 40 50 70 80 in order. */
  lemma DriverScenario()
    ensures Inorder(DriverTree()) == [20, 30, 40, 50, 60, 70, 80]
    ensures Inorder(DeleteNode(DriverTree(), 60)) == [20, 30, 40, 50, 70, 80]
  {
    DriverTreeShape();
    DriverDelete();
    InorderThree(20, 30, 40);
    InorderThree(60, 70, 80);
    InorderLeaf(80);
    assert Inorder(BNode(70, Empty, BNode(80, Empty, Empty))) == [70, 80];
    assert [20, 30, 40] + [50] + [60, 70, 80] == [20, 30, 40, 50, 60, 70, 80];
    assert [20, 30, 40] + [50] + [70, 80] == [20, 30, 40, 50, 70, 80];
  }

  /** Deleting the root of 50(30,70): the successor is root->right, so 30 is lost. */
  lemma DeleteSuccessorIsRightChild()
    ensures var t := BNode(50, BNode(30, Empty, Empty), BNode(70, Empty, Empty));
            && IsBst(t)
            && KeySet(DeleteNode(t, 50)) == {70}
            && KeySet(DeleteFixed(t, 50)) == {30, 70}
  {
  }

  /**
   * Deleting the root when the successor 60 has a right child 65: line 125
   * replaces 70's right subtree (80) by 65, so 80 is lost and 65 sits right of 70.
   */
  lemma DeleteSuccessorWithRightChild()
    ensures var t := BNode(50, BNode(30, Empty, Empty),
                             BNode(70, BNode(60, Empty, BNode(65, Empty, Empty)), BNode(80, Empty, Empty)));
            && IsBst(t)
            && KeySet(DeleteNode(t, 50)) == {30, 60, 65, 70}
            && !IsBst(DeleteNode(t, 50))
            && KeySet(DeleteFixed(t, 50)) == {30, 60, 65, 70, 80}
  {
    var r := DeleteNode(BNode(50, BNode(30, Empty, Empty),
                               BNode(70, BNode(60, Empty, BNode(65, Empty, Empty)), BNode(80, Empty, Empty))), 50);
    assert r.right.right.key == 65 && r.right.key == 70;
  }
}
