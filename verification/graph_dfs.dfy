/**
 * Depth-first search with restart (ldigraph_dfs_with_restart and
 * ldigraph_dfs_visit in hw6/ldigraph_helpers.c): every vertex ends DONE,
 * the finish array lists each vertex once (the last to finish first), the
 * cycle flag is set exactly when the graph has a directed cycle, and
 * without a cycle the finish array is a topological order.
 *
 * The ghost sequence `pos` is the inverse of the filled part of the finish
 * array, and the ghost `stack` holds the PROCESSING vertices in the order
 * the recursion entered them.
 */
module Dfs {
  import opened Digraph
  import opened GraphSearch

  /** Consecutive entries of `p` are joined by edges. */
  ghost predicate IsPath(g: Graph, p: seq<int>) {
    forall k | 0 <= k < |p| - 1 :: Edge(g, p[k], p[k + 1])
  }

  /** A closed walk of at least one edge. */
  ghost predicate IsCycle(g: Graph, p: seq<int>) {
    |p| >= 2 && p[0] == p[|p| - 1] && IsPath(g, p)
  }

  ghost predicate HasCycle(g: Graph) {
    exists p :: IsCycle(g, p)
  }

  /** Colours only move forward: UNSEEN, then PROCESSING, then DONE. */
  function Rank(c: Color): nat {
    match c
    case Unseen => 0
    case Processing => 1
    case Done => 2
  }

  /** The number of vertices of colour `c`. */
  function Count(color: seq<Color>, c: Color): (r: nat)
    ensures r <= |color|
  {
    if |color| == 0 then 0
    else Count(color[..|color| - 1], c) + (if color[|color| - 1] == c then 1 else 0)
  }

  lemma {:induction false} CountRecolor(color: seq<Color>, x: int, c: Color, c': Color)
    requires 0 <= x < |color| && color[x] != c && c' != c
    ensures Count(color[x := c'], c) == Count(color, c)
  {
    var last := |color| - 1;
    if x < last {
      assert color[x := c'][..last] == color[..last][x := c'];
      CountRecolor(color[..last], x, c, c');
    } else {
      assert color[x := c'][..last] == color[..last];
    }
  }

  lemma {:induction false} CountAdd(color: seq<Color>, x: int, c: Color)
    requires 0 <= x < |color| && color[x] != c
    ensures Count(color[x := c], c) == Count(color, c) + 1
  {
    var last := |color| - 1;
    if x < last {
      assert color[x := c][..last] == color[..last][x := c];
      CountAdd(color[..last], x, c);
    } else {
      assert color[x := c][..last] == color[..last];
    }
  }

  lemma {:induction false} CountBelow(color: seq<Color>, x: int, c: Color)
    requires 0 <= x < |color| && color[x] != c
    ensures Count(color, c) < |color|
  {
    var last := |color| - 1;
    if x < last {
      CountBelow(color[..last], x, c);
    }
  }

  lemma {:induction false} CountNone(color: seq<Color>, c: Color)
    requires forall x | 0 <= x < |color| :: color[x] != c
    ensures Count(color, c) == 0
  {
    if |color| > 0 {
      CountNone(color[..|color| - 1], c);
    }
  }

  lemma {:induction false} CountAll(color: seq<Color>, c: Color)
    requires forall x | 0 <= x < |color| :: color[x] == c
    ensures Count(color, c) == |color|
  {
    if |color| > 0 {
      CountAll(color[..|color| - 1], c);
    }
  }

  /** Every colour at least as far along as before. */
  ghost predicate Advanced(c0: seq<Color>, c1: seq<Color>) {
    |c0| == |c1| && forall x | 0 <= x < |c0| :: Rank(c0[x]) <= Rank(c1[x])
  }

  /** Moving colours forward never adds UNSEEN vertices; leaving UNSEEN removes one. */
  lemma {:induction false} UnseenShrinks(c0: seq<Color>, c1: seq<Color>, x: int)
    requires Advanced(c0, c1)
    ensures Count(c1, Unseen) <= Count(c0, Unseen)
    ensures 0 <= x < |c0| && c0[x] == Unseen && c1[x] != Unseen ==> Count(c1, Unseen) < Count(c0, Unseen)
  {
    if |c0| > 0 {
      var last := |c0| - 1;
      assert Rank(c0[last]) <= Rank(c1[last]);
      UnseenShrinks(c0[..last], c1[..last], x);
    }
  }

  /** The PROCESSING vertices are exactly the stack, and the stack is a path. */
  ghost predicate StackOk(g: Graph, color: seq<Color>, stack: seq<int>) {
    && (forall k | 0 <= k < |stack| :: IsVertex(g, stack[k]))
    && (forall x | 0 <= x < |color| :: color[x] == Processing <==> x in stack)
    && IsPath(g, stack)
  }

  /**
   * The DONE vertices are exactly the filled tail finish[n - count..], and
   * `pos` inverts it.
   */
  ghost predicate Finished(g: Graph, s: Search, pos: seq<int>) {
    && Sized(g, s) && |pos| == N(g) && s.count == Count(s.color, Done)
    && (forall x | 0 <= x < N(g) && s.color[x] == Done ::
          0 <= N(g) - s.count <= pos[x] < N(g) && s.finish[pos[x]] == x)
    && (forall i | 0 <= i && N(g) - s.count <= i < N(g) ::
          IsVertex(g, s.finish[i]) && s.color[s.finish[i]] == Done && pos[s.finish[i]] == i)
  }

  /**
   * Out-edges of DONE vertices: the target has been seen, and unless a
   * cycle was found it is DONE and finished earlier (a later finish slot).
   */
  ghost predicate Ordered(g: Graph, s: Search, pos: seq<int>) {
    Sized(g, s) && |pos| == N(g) &&
    forall u, j | 0 <= u < N(g) && 0 <= j < |g.adj[u]| && s.color[u] == Done ::
      && 0 <= g.adj[u][j] < N(g)
      && s.color[g.adj[u][j]] != Unseen
      && (s.foundCycle || (s.color[g.adj[u][j]] == Done && pos[g.adj[u][j]] > pos[u]))
  }

  /** What holds between calls of ldigraph_dfs_visit. */
  ghost predicate DfsInv(g: Graph, s: Search, stack: seq<int>, pos: seq<int>) {
    && WellFormed(g) && Sized(g, s) && |pos| == N(g)
    && StackOk(g, s.color, stack)
    && Finished(g, s, pos)
    && Ordered(g, s, pos)
    && (s.foundCycle ==> HasCycle(g))
  }

  /** How a search moves on: colours advance, finished vertices keep their slot, the flag stays set. */
  ghost predicate Moved(s0: Search, s1: Search, pos0: seq<int>, pos1: seq<int>) {
    && Advanced(s0.color, s1.color) && |pos0| == |pos1| == |s0.color|
    && (forall x | 0 <= x < |s0.color| && s0.color[x] == Done :: pos1[x] == pos0[x])
    && (s0.foundCycle ==> s1.foundCycle)
  }

  lemma MovedTrans(s0: Search, s1: Search, s2: Search, pos0: seq<int>, pos1: seq<int>, pos2: seq<int>)
    requires Moved(s0, s1, pos0, pos1) && Moved(s1, s2, pos1, pos2)
    ensures Moved(s0, s2, pos0, pos2)
  {
    forall x | 0 <= x < |s0.color| && s0.color[x] == Done ensures pos2[x] == pos0[x] {
      assert Rank(s0.color[x]) <= Rank(s1.color[x]);
    }
  }

  /** The first `i` out-edges of `v` lead to seen vertices, DONE ones unless a cycle was found. */
  ghost predicate Scanning(g: Graph, s: Search, v: int, i: int) {
    && IsVertex(g, v) && 0 <= i <= |g.adj[v]|
    && forall j | 0 <= j < i ::
         && 0 <= g.adj[v][j] < |s.color|
         && s.color[g.adj[v][j]] != Unseen
         && (s.foundCycle || s.color[g.adj[v][j]] == Done)
  }

  /** The loop invariant of ldigraph_dfs_visit(v), entered in state s0. */
  ghost predicate Visiting(g: Graph, s0: Search, s: Search, stack: seq<int>, pos0: seq<int>, pos: seq<int>,
                           v: int, i: int) {
    && DfsInv(g, s, stack + [v], pos) && Scanning(g, s, v, i)
    && Moved(s0, s, pos0, pos) && v !in stack
    && s0.color[v] == Unseen && s.color[v] == Processing
  }

  /** The stack stays a path when `v`, an out-neighbour of its top, is pushed. */
  lemma PushPath(g: Graph, stack: seq<int>, v: int)
    requires IsPath(g, stack) && (|stack| == 0 || Edge(g, stack[|stack| - 1], v))
    ensures IsPath(g, stack + [v])
  {
    var p := stack + [v];
    forall k | 0 <= k < |p| - 1 ensures Edge(g, p[k], p[k + 1]) {
      if k < |stack| - 1 {
        assert p[k] == stack[k] && p[k + 1] == stack[k + 1];
      }
    }
  }

  /** Turning an UNSEEN vertex PROCESSING keeps the finish bookkeeping. */
  lemma StartFinished(g: Graph, s: Search, pos: seq<int>, v: int)
    requires Finished(g, s, pos) && IsVertex(g, v) && s.color[v] == Unseen
    ensures Finished(g, s.(color := s.color[v := Processing]), pos)
  {
    var s1 := s.(color := s.color[v := Processing]);
    CountRecolor(s.color, v, Done, Processing);
    forall i | 0 <= i && N(g) - s1.count <= i < N(g)
      ensures IsVertex(g, s1.finish[i]) && s1.color[s1.finish[i]] == Done && pos[s1.finish[i]] == i
    {
      assert s.color[s.finish[i]] == Done;
    }
  }

  /** Turning an UNSEEN vertex PROCESSING keeps the edge order of DONE vertices. */
  lemma StartOrdered(g: Graph, s: Search, pos: seq<int>, v: int)
    requires Ordered(g, s, pos) && IsVertex(g, v) && s.color[v] == Unseen
    ensures Ordered(g, s.(color := s.color[v := Processing]), pos)
  {
    var s1 := s.(color := s.color[v := Processing]);
    forall u, j | 0 <= u < N(g) && 0 <= j < |g.adj[u]| && s1.color[u] == Done
      ensures s1.color[g.adj[u][j]] == s.color[g.adj[u][j]]
    {
      assert s.color[u] == Done;
    }
  }

  /** Entering ldigraph_dfs_visit(v): v turns PROCESSING and is pushed. */
  lemma StartVisit(g: Graph, s: Search, stack: seq<int>, pos: seq<int>, v: int)
    requires DfsInv(g, s, stack, pos) && IsVertex(g, v) && s.color[v] == Unseen
    requires |stack| == 0 || Edge(g, stack[|stack| - 1], v)
    ensures Visiting(g, s, s.(color := s.color[v := Processing]), stack, pos, pos, v, 0)
  {
    var s1 := s.(color := s.color[v := Processing]);
    PushPath(g, stack, v);
    StartFinished(g, s, pos, v);
    StartOrdered(g, s, pos, v);
    forall x | 0 <= x < N(g) ensures s1.color[x] == Processing <==> x in stack + [v] {
    }
  }

  /** Before recursing along the tree edge v -> w: the bookkeeping for the call. */
  lemma TreeEdge(g: Graph, s0: Search, s: Search, stack: seq<int>, pos0: seq<int>, pos: seq<int>,
                 v: int, i: int, s2: Search)
    requires Visiting(g, s0, s, stack, pos0, pos, v, i) && i < |g.adj[v]|
    requires s.color[g.adj[v][i]] == Unseen
    requires s2.color == s.color && s2.finish == s.finish && s2.count == s.count
    requires s2.foundCycle == s.foundCycle && |s2.dist| == |s.dist| && |s2.pred| == |s.pred|
    ensures DfsInv(g, s2, stack + [v], pos) && IsVertex(g, g.adj[v][i])
    ensures Edge(g, (stack + [v])[|stack + [v]| - 1], g.adj[v][i])
    ensures Count(s2.color, Unseen) < Count(s0.color, Unseen)
  {
    assert g.adj[v][i] in g.adj[v];
    UnseenShrinks(s0.color, s.color, v);
  }

  /** After the recursive visit of w, the i-th edge of v is scanned. */
  lemma AfterTreeEdge(g: Graph, s0: Search, s: Search, stack: seq<int>, pos0: seq<int>, pos: seq<int>,
                      v: int, i: int, s2: Search, s3: Search, pos3: seq<int>)
    requires Visiting(g, s0, s, stack, pos0, pos, v, i) && i < |g.adj[v]|
    requires s2.color == s.color && s2.foundCycle == s.foundCycle
    requires DfsInv(g, s3, stack + [v], pos3) && s3.color[g.adj[v][i]] == Done
    requires Moved(s2, s3, pos, pos3)
    ensures Visiting(g, s0, s3, stack, pos0, pos3, v, i + 1)
  {
    MovedTrans(s0, s, s3, pos0, pos, pos3);
    assert Rank(s.color[v]) <= Rank(s3.color[v]);
    forall j | 0 <= j < i
      ensures s3.color[g.adj[v][j]] != Unseen && (s3.foundCycle || s3.color[g.adj[v][j]] == Done)
    {
      assert Rank(s.color[g.adj[v][j]]) <= Rank(s3.color[g.adj[v][j]]);
    }
    assert v in stack + [v];
  }

  /** An edge from the top of the stack back into the stack closes a cycle. */
  lemma ClosingEdge(g: Graph, p: seq<int>, w: int)
    requires IsPath(g, p) && w in p && Edge(g, p[|p| - 1], w)
    ensures HasCycle(g)
  {
    var k :| 0 <= k < |p| && p[k] == w;
    var c := p[k..] + [w];
    forall t | 0 <= t < |c| - 1 ensures Edge(g, c[t], c[t + 1]) {
      if t < |p| - k - 1 {
        assert c[t] == p[k + t] && c[t + 1] == p[k + t + 1];
      }
    }
    assert IsCycle(g, c);
  }

  /** The i-th edge of v reaches a PROCESSING vertex: the cycle flag is set. */
  lemma BackEdge(g: Graph, s0: Search, s: Search, stack: seq<int>, pos0: seq<int>, pos: seq<int>,
                 v: int, i: int)
    requires Visiting(g, s0, s, stack, pos0, pos, v, i) && i < |g.adj[v]|
    requires s.color[g.adj[v][i]] == Processing
    ensures Visiting(g, s0, s.(foundCycle := true), stack, pos0, pos, v, i + 1)
  {
    var w := g.adj[v][i];
    assert w in g.adj[v];
    assert w in stack + [v];
    assert (stack + [v])[|stack + [v]| - 1] == v;
    ClosingEdge(g, stack + [v], w);
  }

  /** The i-th edge of v reaches a DONE vertex: nothing to do. */
  lemma DoneEdge(g: Graph, s0: Search, s: Search, stack: seq<int>, pos0: seq<int>, pos: seq<int>,
                 v: int, i: int)
    requires Visiting(g, s0, s, stack, pos0, pos, v, i) && i < |g.adj[v]|
    requires s.color[g.adj[v][i]] == Done
    ensures Visiting(g, s0, s, stack, pos0, pos, v, i + 1)
  {
  }

  /** Finishing v leaves room for it in the finish array. */
  lemma FinishRoom(g: Graph, s0: Search, s: Search, stack: seq<int>, pos0: seq<int>, pos: seq<int>, v: int)
    requires IsVertex(g, v) && Visiting(g, s0, s, stack, pos0, pos, v, |g.adj[v]|)
    ensures 0 <= N(g) - s.count - 1 < N(g)
  {
    CountBelow(s.color, v, Done);
  }

  /** The finish bookkeeping after v turns DONE in slot n - count - 1. */
  lemma FinishSlots(g: Graph, s: Search, pos: seq<int>, v: int, s1: Search, pos1: seq<int>)
    requires Sized(g, s) && Finished(g, s, pos) && IsVertex(g, v) && s.color[v] == Processing
    requires 0 <= N(g) - s.count - 1
    requires s1 == s.(color := s.color[v := Done], finish := s.finish[N(g) - s.count - 1 := v],
                      count := s.count + 1)
    requires pos1 == pos[v := N(g) - s.count - 1]
    ensures Finished(g, s1, pos1)
  {
    var slot := N(g) - s.count - 1;
    CountAdd(s.color, v, Done);
    forall x | 0 <= x < N(g) && s1.color[x] == Done
      ensures N(g) - s1.count <= pos1[x] < N(g) && s1.finish[pos1[x]] == x
    {
      if x != v {
        assert s.color[x] == Done;
      }
    }
    forall i | N(g) - s1.count <= i < N(g)
      ensures IsVertex(g, s1.finish[i]) && s1.color[s1.finish[i]] == Done && pos1[s1.finish[i]] == i
    {
      if i != slot {
        assert s.color[s.finish[i]] == Done;
      }
    }
  }

  /** The out-edges of every DONE vertex are in order once v finishes. */
  lemma FinishOrdered(g: Graph, s: Search, pos: seq<int>, v: int, s1: Search, pos1: seq<int>)
    requires WellFormed(g) && Sized(g, s) && Finished(g, s, pos) && Ordered(g, s, pos)
    requires IsVertex(g, v) && Scanning(g, s, v, |g.adj[v]|) && s.color[v] == Processing
    requires 0 <= N(g) - s.count - 1
    requires s1 == s.(color := s.color[v := Done], finish := s.finish[N(g) - s.count - 1 := v],
                      count := s.count + 1)
    requires pos1 == pos[v := N(g) - s.count - 1]
    ensures Ordered(g, s1, pos1)
  {
    forall u, j | 0 <= u < N(g) && 0 <= j < |g.adj[u]| && s1.color[u] == Done
      ensures 0 <= g.adj[u][j] < N(g) && s1.color[g.adj[u][j]] != Unseen
      ensures s1.foundCycle || (s1.color[g.adj[u][j]] == Done && pos1[g.adj[u][j]] > pos1[u])
    {
      var w := g.adj[u][j];
      if u == v {
        if !s.foundCycle {
          assert s.color[w] == Done;
        }
      } else {
        assert s.color[u] == Done;
      }
    }
  }

  /** Leaving ldigraph_dfs_visit(v): v is DONE, in slot n - count - 1, and popped. */
  lemma FinishVisit(g: Graph, s0: Search, s: Search, stack: seq<int>, pos0: seq<int>, pos: seq<int>,
                    v: int, s1: Search, pos1: seq<int>)
    requires IsVertex(g, v) && Visiting(g, s0, s, stack, pos0, pos, v, |g.adj[v]|)
    requires 0 <= N(g) - s.count - 1
    requires s1 == s.(color := s.color[v := Done], finish := s.finish[N(g) - s.count - 1 := v],
                      count := s.count + 1)
    requires pos1 == pos[v := N(g) - s.count - 1]
    ensures DfsInv(g, s1, stack, pos1) && s1.color[v] == Done && Moved(s0, s1, pos0, pos1)
  {
    FinishSlots(g, s, pos, v, s1, pos1);
    FinishOrdered(g, s, pos, v, s1, pos1);
    forall k | 0 <= k < |stack| - 1 ensures Edge(g, stack[k], stack[k + 1]) {
      assert (stack + [v])[k] == stack[k] && (stack + [v])[k + 1] == stack[k + 1];
    }
    forall x | 0 <= x < N(g) ensures s1.color[x] == Processing <==> x in stack {
      assert x in stack + [v] <==> x in stack || x == v;
    }
    forall k | 0 <= k < |stack| ensures IsVertex(g, stack[k]) {
      assert (stack + [v])[k] == stack[k];
    }
    forall x | 0 <= x < |s0.color| && s0.color[x] == Done ensures pos1[x] == pos0[x] {
      assert x != v;
    }
  }

  /**
   * ldigraph_dfs_visit(v) on an UNSEEN vertex v whose caller is the top of
   * the stack: scans v's out-edges in list order, recursing into UNSEEN
   * targets (recording dist and pred) and setting the cycle flag on an edge
   * to a PROCESSING vertex, then records v in the next finish slot from the
   * back.
   */
  method DfsVisit(g: Graph, s0: Search, v: int, ghost stack: seq<int>, ghost pos0: seq<int>)
    returns (s: Search, ghost pos: seq<int>)
    requires DfsInv(g, s0, stack, pos0) && IsVertex(g, v) && s0.color[v] == Unseen
    requires |stack| == 0 || Edge(g, stack[|stack| - 1], v)
    ensures DfsInv(g, s, stack, pos) && s.color[v] == Done && Moved(s0, s, pos0, pos)
    ensures s.from == s0.from
    decreases Count(s0.color, Unseen)
  {
    StartVisit(g, s0, stack, pos0, v);
    s := s0.(color := s0.color[v := Processing]);
    pos := pos0;
    var i := 0;
    while i < |g.adj[v]|
      invariant Visiting(g, s0, s, stack, pos0, pos, v, i) && s.from == s0.from
    {
      var w := g.adj[v][i];
      if s.color[w] == Unseen {
        var s2 := s.(dist := s.dist[w := s.dist[v] + 1], pred := s.pred[w := v]);
        TreeEdge(g, s0, s, stack, pos0, pos, v, i, s2);
        var s3, pos3 := DfsVisit(g, s2, w, stack + [v], pos);
        AfterTreeEdge(g, s0, s, stack, pos0, pos, v, i, s2, s3, pos3);
        s, pos := s3, pos3;
      } else if s.color[w] == Processing {
        BackEdge(g, s0, s, stack, pos0, pos, v, i);
        s := s.(foundCycle := true);
      } else {
        DoneEdge(g, s0, s, stack, pos0, pos, v, i);
      }
      i := i + 1;
    }
    FinishRoom(g, s0, s, stack, pos0, pos, v);
    ghost var pos1 := pos[v := N(g) - s.count - 1];
    var s1 := s.(color := s.color[v := Done], finish := s.finish[N(g) - s.count - 1 := v],
                 count := s.count + 1);
    FinishVisit(g, s0, s, stack, pos0, pos, v, s1, pos1);
    s, pos := s1, pos1;
  }

  /** The state of a fresh search: nothing seen, nothing finished. */
  lemma StartSearch(g: Graph, s: Search)
    requires WellFormed(g) && Sized(g, s) && s.count == 0 && !s.foundCycle
    requires forall v | 0 <= v < N(g) :: s.color[v] == Unseen
    ensures DfsInv(g, s, [], seq(N(g), _ => -1))
  {
    CountNone(s.color, Done);
  }

  /** Once every vertex is DONE, the finish array holds every vertex exactly once. */
  lemma AllFinished(g: Graph, s: Search, pos: seq<int>)
    requires DfsInv(g, s, [], pos)
    requires forall v | 0 <= v < N(g) :: s.color[v] == Done
    ensures s.count == N(g)
    ensures forall i | 0 <= i < N(g) :: IsVertex(g, s.finish[i])
    ensures forall v | 0 <= v < N(g) :: v in s.finish
    ensures forall i, j | 0 <= i < j < N(g) :: s.finish[i] != s.finish[j]
  {
    CountAll(s.color, Done);
    forall v | 0 <= v < N(g) ensures v in s.finish {
      assert s.finish[pos[v]] == v;
    }
    forall i, j | 0 <= i < j < N(g) ensures s.finish[i] != s.finish[j] {
      assert pos[s.finish[i]] == i && pos[s.finish[j]] == j;
    }
  }

  /** Without the cycle flag, every edge goes to a later finish slot. */
  lemma TopologicalOrder(g: Graph, s: Search, pos: seq<int>)
    requires DfsInv(g, s, [], pos) && !s.foundCycle
    requires forall v | 0 <= v < N(g) :: s.color[v] == Done
    ensures forall i, j | 0 <= i < N(g) && 0 <= j < N(g) && Edge(g, s.finish[i], s.finish[j]) :: i < j
  {
    CountAll(s.color, Done);
    forall i, j | 0 <= i < N(g) && 0 <= j < N(g) && Edge(g, s.finish[i], s.finish[j]) ensures i < j {
      var u, w := s.finish[i], s.finish[j];
      var k :| 0 <= k < |g.adj[u]| && g.adj[u][k] == w;
      assert pos[u] == i && pos[w] == j;
    }
  }

  /** Along a path whose edges all increase `rank`, the rank at the end exceeds the rank at the start. */
  lemma {:induction false} PathRises(g: Graph, rank: seq<int>, p: seq<int>, k: int)
    requires forall u, w | Edge(g, u, w) :: 0 <= u < |rank| && 0 <= w < |rank| && rank[u] < rank[w]
    requires IsPath(g, p) && 1 <= k < |p|
    ensures 0 <= p[0] < |rank| && 0 <= p[k] < |rank| && rank[p[0]] < rank[p[k]]
  {
    assert Edge(g, p[k - 1], p[k]);
    if k > 1 {
      PathRises(g, rank, p, k - 1);
    }
  }

  /** A graph whose edges all increase some ranking has no cycle. */
  lemma RankedAcyclic(g: Graph, rank: seq<int>)
    requires forall u, w | Edge(g, u, w) :: 0 <= u < |rank| && 0 <= w < |rank| && rank[u] < rank[w]
    ensures !HasCycle(g)
  {
    if HasCycle(g) {
      var p :| IsCycle(g, p);
      PathRises(g, rank, p, |p| - 1);
    }
  }

  /** Without the cycle flag, the finish slots rank the graph, so it has no cycle. */
  lemma NoFlagNoCycle(g: Graph, s: Search, pos: seq<int>)
    requires DfsInv(g, s, [], pos) && !s.foundCycle
    requires forall v | 0 <= v < N(g) :: s.color[v] == Done
    ensures !HasCycle(g)
  {
    forall u, w | Edge(g, u, w) ensures 0 <= u < |pos| && 0 <= w < |pos| && pos[u] < pos[w] {
      var k :| 0 <= k < |g.adj[u]| && g.adj[u][k] == w;
    }
    RankedAcyclic(g, pos);
  }

  /** What DFS with restart promises once every vertex is DONE. */
  ghost predicate DfsResult(g: Graph, s: Search) {
    && Sized(g, s) && s.count == N(g)
    && (forall v | 0 <= v < N(g) :: s.color[v] == Done)
    && (forall i | 0 <= i < N(g) :: IsVertex(g, s.finish[i]))
    && (forall v | 0 <= v < N(g) :: v in s.finish)
    && (forall i, j | 0 <= i < j < N(g) :: s.finish[i] != s.finish[j])
    && (s.foundCycle <==> HasCycle(g))
    && (!s.foundCycle ==> forall i, j | 0 <= i < N(g) && 0 <= j < N(g) && Edge(g, s.finish[i], s.finish[j]) :: i < j)
  }

  /** The final state of the restart loop has all the promised properties. */
  lemma EndSearch(g: Graph, s: Search, pos: seq<int>)
    requires DfsInv(g, s, [], pos)
    requires forall v | 0 <= v < N(g) :: s.color[v] == Done
    ensures DfsResult(g, s)
  {
    AllFinished(g, s, pos);
    if !s.foundCycle {
      TopologicalOrder(g, s, pos);
      NoFlagNoCycle(g, s, pos);
    }
  }

  /** Vertices DONE before a visit stay DONE after it. */
  lemma DoneStays(s0: Search, s: Search, pos0: seq<int>, pos: seq<int>, from: int)
    requires Moved(s0, s, pos0, pos) && from <= |s0.color|
    requires forall v | 0 <= v < from :: s0.color[v] == Done
    ensures forall v | 0 <= v < from :: s.color[v] == Done
  {
    forall v | 0 <= v < from ensures s.color[v] == Done {
      assert Rank(s0.color[v]) <= Rank(s.color[v]);
    }
  }

  /**
   * ldigraph_dfs_with_restart: a DFS from every vertex still UNSEEN, in
   * increasing order.  The graph has at least one vertex, as every graph
   * ldigraph_create returns does.
   */
  method DfsWithRestart(g: Graph) returns (s: Search)
    requires WellFormed(g) && N(g) >= 1
    ensures DfsResult(g, s)
  {
    s := SearchInit(g, 0);
    ghost var pos := seq(N(g), _ => -1);
    StartSearch(g, s);
    var from := 0;
    while from < N(g)
      invariant 0 <= from <= N(g) && DfsInv(g, s, [], pos)
      invariant forall v | 0 <= v < from :: s.color[v] == Done
    {
      if s.color[from] == Unseen {
        s := s.(dist := s.dist[from := 0]);
        ghost var s0, pos0 := s, pos;
        s, pos := DfsVisit(g, s, from, [], pos);
        DoneStays(s0, s, pos0, pos, from);
      } else {
        assert s.color[from] != Processing;
      }
      from := from + 1;
    }
    EndSearch(g, s, pos);
  }
}
