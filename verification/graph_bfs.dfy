/**
 * Breadth-first search (ldigraph_bfs in hw6/ldigraph_helpers.c) and
 * ldigraph_shortest_path (hw6/ldigraph.c), proved to compute edge-count
 * distances.
 */
module Bfs {
  import opened Digraph
  import opened GraphQueue
  import opened GraphSearch

  /** There is a walk of exactly `k` edges from `s` to `x`. */
  ghost predicate Reach(g: Graph, s: int, x: int, k: nat)
    decreases k
  {
    if k == 0 then x == s
    else exists w :: Edge(g, w, x) && Reach(g, s, w, k - 1)
  }

  /**
   * `d` is the distance from `s` to `x`: the length of a shortest walk, or
   * -1 when there is none.
   */
  ghost predicate IsDistance(g: Graph, s: int, x: int, d: int) {
    if d == -1 then forall k: nat :: !Reach(g, s, x, k)
    else d >= 0 && Reach(g, s, x, d) && forall k: nat | k < d :: !Reach(g, s, x, k)
  }

  /** The number of vertices that already have a distance. */
  function CountFound(dist: seq<int>): (c: nat)
    ensures c <= |dist|
  {
    if |dist| == 0 then 0
    else CountFound(dist[..|dist| - 1]) + (if dist[|dist| - 1] != -1 then 1 else 0)
  }

  /** Before the search no vertex has a distance. */
  lemma {:induction false} ZeroFound(dist: seq<int>)
    requires forall x | 0 <= x < |dist| :: dist[x] == -1
    ensures CountFound(dist) == 0
  {
    if |dist| > 0 {
      ZeroFound(dist[..|dist| - 1]);
    }
  }

  /** Giving an undiscovered vertex a distance adds one to the count. */
  lemma {:induction false} CountFoundUpdate(dist: seq<int>, u: int, d: int)
    requires 0 <= u < |dist| && dist[u] == -1 && d != -1
    ensures CountFound(dist[u := d]) == CountFound(dist) + 1
  {
    var last := |dist| - 1;
    if u < last {
      assert dist[u := d][..last] == dist[..last][u := d];
      CountFoundUpdate(dist[..last], u, d);
    } else {
      assert dist[u := d][..last] == dist[..last];
    }
  }

  /** While some vertex is undiscovered, fewer than all vertices are discovered. */
  lemma {:induction false} CountFoundBelow(dist: seq<int>, u: int)
    requires 0 <= u < |dist| && dist[u] == -1
    ensures CountFound(dist) < |dist|
  {
    var last := |dist| - 1;
    if u < last {
      CountFoundBelow(dist[..last], u);
    }
  }

  /**
   * The vertices discovered so far, in the order they were enqueued; each
   * has a non-negative distance realised by a walk, and no other vertex has
   * a distance.
   */
  ghost predicate Found(g: Graph, s: int, order: seq<int>, dist: seq<int>) {
    && |dist| == N(g)
    && |order| >= 1 && order[0] == s && IsVertex(g, s) && dist[s] == 0
    && |order| == CountFound(dist)
    && (forall k | 0 <= k < |order| :: IsVertex(g, order[k]))
    && (forall x | 0 <= x < N(g) :: dist[x] != -1 <==> x in order)
    && (forall k | 0 <= k < |order| :: dist[order[k]] >= 0 && Reach(g, s, order[k], dist[order[k]]))
  }

  /**
   * The level structure of the queue: dequeued vertices are at most `d`
   * away; the queue holds distance-`d` vertices up to position `m` and
   * distance-(d + 1) vertices after it.
   */
  ghost predicate Levels(order: seq<int>, dist: seq<int>, head: int, m: int, d: int) {
    && 0 <= head <= m <= |order| && d >= 0
    && (forall k | 0 <= k < |order| :: 0 <= order[k] < |dist|)
    && (forall k | 0 <= k < head :: dist[order[k]] <= d)
    && (forall k | head <= k < m :: dist[order[k]] == d)
    && (forall k | m <= k < |order| :: dist[order[k]] == d + 1)
  }

  /** The first `upto` out-edges of `v` lead to discovered vertices at most one step further. */
  ghost predicate Scanned(g: Graph, v: int, dist: seq<int>, upto: nat) {
    && IsVertex(g, v) && upto <= |g.adj[v]| && v < |dist|
    && forall j | 0 <= j < upto ::
         0 <= g.adj[v][j] < |dist| && dist[g.adj[v][j]] != -1 && dist[g.adj[v][j]] <= dist[v] + 1
  }

  /** The first `count` enqueued vertices have had all their out-edges scanned. */
  ghost predicate Closed(g: Graph, order: seq<int>, dist: seq<int>, count: int) {
    0 <= count <= |order| &&
    forall k | 0 <= k < count :: IsVertex(g, order[k]) && Scanned(g, order[k], dist, |g.adj[order[k]]|)
  }

  /** When the queue holds only distance-(d + 1) vertices, the next level starts. */
  lemma NextLevel(order: seq<int>, dist: seq<int>, head: nat, d: int)
    requires Levels(order, dist, head, head, d)
    ensures Levels(order, dist, head, |order|, d + 1)
  {
  }

  /** Dequeuing `order[head]`, a distance-`d` vertex. */
  lemma DequeueLevels(order: seq<int>, dist: seq<int>, head: nat, m: nat, d: int)
    requires Levels(order, dist, head, m, d) && head < m
    ensures dist[order[head]] == d
    ensures Levels(order, dist, head + 1, m, d)
  {
  }

  /** Discovering `u` through an out-edge of the discovered vertex `v`. */
  lemma DiscoverFound(g: Graph, s: int, order: seq<int>, dist: seq<int>, v: int, u: int)
    requires WellFormed(g) && Found(g, s, order, dist)
    requires v in order && Edge(g, v, u) && dist[u] == -1
    ensures Found(g, s, order + [u], dist[u := dist[v] + 1])
  {
    var order' := order + [u];
    var dist' := dist[u := dist[v] + 1];
    var j :| 0 <= j < |g.adj[v]| && g.adj[v][j] == u;
    assert IsVertex(g, u);
    assert u !in order;
    CountFoundUpdate(dist, u, dist[v] + 1);
    assert Reach(g, s, u, dist[v] + 1);
    forall k | 0 <= k < |order'|
      ensures dist'[order'[k]] >= 0 && Reach(g, s, order'[k], dist'[order'[k]])
    {
      if k < |order| {
        assert order'[k] == order[k] != u;
      }
    }
    forall x | 0 <= x < N(g) ensures dist'[x] != -1 <==> x in order' {
      if x != u {
        assert x in order' <==> x in order;
      }
    }
  }

  /** The new vertex joins the distance-(d + 1) part of the queue. */
  lemma DiscoverLevels(order: seq<int>, dist: seq<int>, head: nat, m: nat, d: int, u: int, e: int)
    requires Levels(order, dist, head, m, d) && 0 <= u < |dist| && u !in order && e == d + 1
    ensures Levels(order + [u], dist[u := e], head, m, d)
  {
    var order' := order + [u];
    var dist' := dist[u := e];
    forall k | 0 <= k < |order| ensures dist'[order'[k]] == dist[order[k]] {
      assert order[k] in order;
    }
  }

  /** Scans already made stay valid when an undiscovered vertex gets a distance. */
  lemma DiscoverClosed(g: Graph, order: seq<int>, dist: seq<int>, count: nat, u: int, e: int)
    requires Closed(g, order, dist, count) && 0 <= u < |dist| && dist[u] == -1 && e != -1
    requires u !in order
    ensures Closed(g, order + [u], dist[u := e], count)
  {
    var dist' := dist[u := e];
    forall k | 0 <= k < count
      ensures Scanned(g, (order + [u])[k], dist', |g.adj[(order + [u])[k]]|)
    {
      var v := order[k];
      assert (order + [u])[k] == v && v != u;
      assert Scanned(g, v, dist, |g.adj[v]|);
      forall j | 0 <= j < |g.adj[v]| ensures dist'[g.adj[v][j]] == dist[g.adj[v][j]] {
      }
    }
  }

  /** The edge just scanned now satisfies the scan condition, for either kind of target. */
  lemma ScanOne(g: Graph, v: int, dist: seq<int>, i: nat, dist': seq<int>)
    requires Scanned(g, v, dist, i) && i < |g.adj[v]| && |dist'| == |dist|
    requires dist'[v] == dist[v]
    requires forall j | 0 <= j < i :: dist'[g.adj[v][j]] == dist[g.adj[v][j]]
    requires 0 <= g.adj[v][i] < |dist| && dist'[g.adj[v][i]] != -1 && dist'[g.adj[v][i]] <= dist[v] + 1
    ensures Scanned(g, v, dist', i + 1)
  {
  }

  /** Discovering the target of the i-th out-edge of `v` completes the scan of that edge. */
  lemma ScanDiscovered(g: Graph, v: int, dist: seq<int>, i: nat, e: int)
    requires Scanned(g, v, dist, i) && i < |g.adj[v]| && 0 <= g.adj[v][i] < |dist|
    requires dist[g.adj[v][i]] == -1 && g.adj[v][i] != v && e == dist[v] + 1 && e != -1
    ensures Scanned(g, v, dist[g.adj[v][i] := e], i + 1)
  {
    var u := g.adj[v][i];
    forall j | 0 <= j < i ensures dist[u := e][g.adj[v][j]] == dist[g.adj[v][j]] {
    }
    ScanOne(g, v, dist, i, dist[u := e]);
  }

  /** Every discovered vertex is at most d + 1 away. */
  lemma LevelsBound(order: seq<int>, dist: seq<int>, head: nat, m: nat, d: int, x: int)
    requires Levels(order, dist, head, m, d) && x in order
    ensures dist[x] <= d + 1
  {
    var k :| 0 <= k < |order| && order[k] == x;
  }

  /** Once every discovered vertex is scanned, a walk of k edges ends at a vertex at most k away. */
  lemma {:induction false} Complete(g: Graph, s: int, order: seq<int>, dist: seq<int>, x: int, k: nat)
    requires Found(g, s, order, dist) && Closed(g, order, dist, |order|)
    requires Reach(g, s, x, k)
    ensures IsVertex(g, x) && dist[x] != -1 && dist[x] <= k
    decreases k
  {
    if k == 0 {
      assert x == order[0];
    } else {
      var w :| Edge(g, w, x) && Reach(g, s, w, k - 1);
      Complete(g, s, order, dist, w, k - 1);
      var i :| 0 <= i < |order| && order[i] == w;
      var j :| 0 <= j < |g.adj[w]| && g.adj[w][j] == x;
      assert Scanned(g, order[i], dist, |g.adj[order[i]]|);
    }
  }

  /** At the end of the search every vertex carries its distance. */
  lemma Distances(g: Graph, s: int, order: seq<int>, dist: seq<int>)
    requires Found(g, s, order, dist) && Closed(g, order, dist, |order|)
    ensures forall x | 0 <= x < N(g) :: IsDistance(g, s, x, dist[x])
  {
    forall x | 0 <= x < N(g) ensures IsDistance(g, s, x, dist[x]) {
      if dist[x] == -1 {
        forall k: nat ensures !Reach(g, s, x, k) {
          if Reach(g, s, x, k) {
            Complete(g, s, order, dist, x, k);
          }
        }
      } else {
        var i :| 0 <= i < |order| && order[i] == x;
        forall k: nat | k < dist[x] ensures !Reach(g, s, x, k) {
          if Reach(g, s, x, k) {
            Complete(g, s, order, dist, x, k);
          }
        }
      }
    }
  }

  /**
   * The invariant of the inner loop of ldigraph_bfs while it scans the
   * out-edges of `v`, the vertex just dequeued: the first `i` out-edges are
   * done and every other enqueued vertex before `v` is fully scanned.
   */
  ghost predicate ScanState(g: Graph, from: int, v: int, q: Queue, dist: seq<int>, order: seq<int>,
                            m: int, d: int, i: nat) {
    && Inv(q) && |q.que| == N(g) && 1 <= q.head <= |order|
    && Contents(q) == order[q.head..] && v == order[q.head - 1]
    && Found(g, from, order, dist) && Levels(order, dist, q.head, m, d) && dist[v] == d
    && Closed(g, order, dist, q.head - 1) && Scanned(g, v, dist, i)
  }

  /**
   * One step of the inner loop of ldigraph_bfs when the out-neighbour `u`
   * (the i-th entry of v's list) has no distance yet: it gets
   * dist[v] + 1 and is enqueued.
   */
  method Discover(g: Graph, from: int, v: int, u: int, q0: Queue, dist0: seq<int>,
                  ghost order0: seq<int>, ghost m: nat, ghost d: int, ghost i: nat)
    returns (q: Queue, dist: seq<int>, ghost order: seq<int>)
    requires WellFormed(g) && ScanState(g, from, v, q0, dist0, order0, m, d, i)
    requires i < |g.adj[v]| && u == g.adj[v][i] && dist0[u] == -1
    ensures ScanState(g, from, v, q, dist, order, m, d, i + 1) && q.head == q0.head
    ensures dist == dist0[u := d + 1] && order == order0 + [u]
  {
    assert Edge(g, v, u);
    assert v in order0;
    assert u !in order0;
    var e := dist0[v] + 1;
    DiscoverFound(g, from, order0, dist0, v, u);
    DiscoverLevels(order0, dist0, q0.head, m, d, u, e);
    DiscoverClosed(g, order0, dist0, q0.head - 1, u, e);
    ScanDiscovered(g, v, dist0, i, e);
    CountFoundBelow(dist0, u);
    dist := dist0[u := e];
    q := Enqueue(q0, u);
    order := order0 + [u];
    assert order[q.head..] == order0[q.head..] + [u];
  }

  /** The inner loop step when the out-neighbour already has a distance: nothing changes. */
  lemma SkipStep(g: Graph, from: int, v: int, q: Queue, dist: seq<int>, order: seq<int>,
                 m: int, d: int, i: nat)
    requires WellFormed(g) && ScanState(g, from, v, q, dist, order, m, d, i)
    requires i < |g.adj[v]| && dist[g.adj[v][i]] != -1
    ensures ScanState(g, from, v, q, dist, order, m, d, i + 1)
  {
    var u := g.adj[v][i];
    assert Edge(g, v, u);
    assert u in order;
    LevelsBound(order, dist, q.head, m, d, u);
    ScanOne(g, v, dist, i, dist);
  }

  /**
   * The inner loop of ldigraph_bfs: every undiscovered out-neighbour of the
   * dequeued vertex `v` gets distance dist[v] + 1 and is enqueued.
   */
  method ScanOutEdges(g: Graph, from: int, v: int, q0: Queue, dist0: seq<int>,
                      ghost order0: seq<int>, ghost m: nat, ghost d: int)
    returns (q: Queue, dist: seq<int>, ghost order: seq<int>)
    requires WellFormed(g)
    requires Inv(q0) && |q0.que| == N(g) && 1 <= q0.head <= |order0|
    requires Contents(q0) == order0[q0.head..] && v == order0[q0.head - 1]
    requires Found(g, from, order0, dist0) && Levels(order0, dist0, q0.head, m, d) && dist0[v] == d
    requires Closed(g, order0, dist0, q0.head - 1)
    ensures Inv(q) && |q.que| == N(g) && q.head == q0.head && q.head <= |order|
    ensures Contents(q) == order[q.head..]
    ensures Found(g, from, order, dist) && Levels(order, dist, q.head, m, d)
    ensures Closed(g, order, dist, q.head)
  {
    q, dist, order := q0, dist0, order0;
    assert Scanned(g, v, dist, 0);
    var i := 0;
    while i < |g.adj[v]|
      invariant i <= |g.adj[v]| && ScanState(g, from, v, q, dist, order, m, d, i) && q.head == q0.head
    {
      if dist[g.adj[v][i]] == -1 {
        q, dist, order := Discover(g, from, v, g.adj[v][i], q, dist, order, m, d, i);
      } else {
        SkipStep(g, from, v, q, dist, order, m, d, i);
      }
      i := i + 1;
    }
    CloseOne(g, order, dist, q.head - 1);
  }

  /** Finishing the scan of order[count] extends the closed prefix by one. */
  lemma CloseOne(g: Graph, order: seq<int>, dist: seq<int>, count: nat)
    requires Closed(g, order, dist, count) && count < |order| && IsVertex(g, order[count])
    requires Scanned(g, order[count], dist, |g.adj[order[count]]|)
    ensures Closed(g, order, dist, count + 1)
  {
  }

  /** The state right after `from` is enqueued with distance 0. */
  lemma StartFound(g: Graph, from: int, dist: seq<int>)
    requires IsVertex(g, from) && |dist| == N(g)
    requires forall x | 0 <= x < |dist| :: dist[x] == -1
    ensures Found(g, from, [from], dist[from := 0])
    ensures Levels([from], dist[from := 0], 0, 1, 0) && Closed(g, [from], dist[from := 0], 0)
  {
    ZeroFound(dist);
    CountFoundUpdate(dist, from, 0);
    assert Reach(g, from, from, 0);
  }

  /**
   * One round of the outer loop of ldigraph_bfs: dequeue the oldest vertex
   * and scan its out-edges.  The ghost level bookkeeping moves on to the
   * next distance when the current level is used up.
   */
  method Visit(g: Graph, from: int, q0: Queue, dist0: seq<int>,
               ghost order0: seq<int>, ghost m0: nat, ghost d0: int)
    returns (q: Queue, dist: seq<int>, ghost order: seq<int>, ghost m: nat, ghost d: int)
    requires WellFormed(g) && !IsEmpty(q0)
    requires Inv(q0) && |q0.que| == N(g) && 0 <= q0.head <= |order0|
    requires Contents(q0) == order0[q0.head..] && Found(g, from, order0, dist0)
    requires Levels(order0, dist0, q0.head, m0, d0) && Closed(g, order0, dist0, q0.head)
    ensures Inv(q) && |q.que| == N(g) && 0 <= q.head <= |order| && q.head == q0.head + 1
    ensures Contents(q) == order[q.head..] && Found(g, from, order, dist)
    ensures Levels(order, dist, q.head, m, d) && Closed(g, order, dist, q.head)
  {
    IsEmptyIffNoContents(q0);
    m, d := m0, d0;
    if q0.head == m {
      NextLevel(order0, dist0, q0.head, d);
      m, d := |order0|, d + 1;
    }
    DequeueLevels(order0, dist0, q0.head, m, d);
    var r := Dequeue(q0);
    assert order0[q0.head..][1..] == order0[q0.head + 1..];
    q, dist, order := ScanOutEdges(g, from, r.0, r.1, dist0, order0, m, d);
  }

  /**
   * ldigraph_bfs: the search from `from` with the array queue.  Each vertex
   * is enqueued at most once (its distance is set first), so the n-slot
   * buffer never overflows, and every distance comes out exact.
   */
  method BfsSearch(g: Graph, from: int) returns (s: Search)
    requires WellFormed(g) && IsVertex(g, from)
    ensures Sized(g, s) && s.from == from
    ensures forall x | 0 <= x < N(g) :: IsDistance(g, from, x, s.dist[x])
  {
    s := SearchInit(g, from);
    var q := NewQueue(N(g));
    q := Enqueue(q, from);
    var dist := s.dist[from := 0];
    ghost var order := [from];
    ghost var m := 1;
    ghost var d := 0;
    StartFound(g, from, s.dist);
    while !IsEmpty(q)
      invariant Inv(q) && |q.que| == N(g) && 0 <= q.head <= |order|
      invariant Contents(q) == order[q.head..] && Found(g, from, order, dist)
      invariant Levels(order, dist, q.head, m, d) && Closed(g, order, dist, q.head)
      decreases N(g) - q.head
    {
      q, dist, order, m, d := Visit(g, from, q, dist, order, m, d);
    }
    IsEmptyIffNoContents(q);
    Distances(g, from, order, dist);
    s := s.(dist := dist);
  }

  /**
   * ldigraph_shortest_path: -1 for an invalid endpoint, otherwise the BFS
   * distance (0 from a vertex to itself, -1 when unreachable).
   */
  method ShortestPath(g: Graph, from: int, to: int) returns (d: int)
    requires WellFormed(g)
    ensures !IsVertex(g, from) || !IsVertex(g, to) ==> d == -1
    ensures IsVertex(g, from) && IsVertex(g, to) ==> IsDistance(g, from, to, d)
    ensures IsVertex(g, from) && to == from ==> d == 0
  {
    if !IsVertex(g, from) || !IsVertex(g, to) {
      return -1;
    }
    var s := BfsSearch(g, from);
    d := s.dist[to];
    assert Reach(g, from, from, 0);
  }
}
