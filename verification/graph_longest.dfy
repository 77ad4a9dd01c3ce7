/**
 * ldigraph_longest_path (hw6/ldigraph.c) with its helpers max_of_neighbors
 * and brute_force (hw6/ldigraph_helpers.c): on an acyclic graph a dynamic
 * programme over the DFS finish order, otherwise an exhaustive search of
 * simple paths.  Both branches compute the length of a longest simple path
 * from `from` to `to`, or -1 when there is none.
 */
module LongestPath {
  import opened Digraph
  import opened GraphSearch
  import opened Dfs

  /** No vertex of `p` occurs twice. */
  ghost predicate Distinct(p: seq<int>) {
    forall i, j | 0 <= i < j < |p| :: p[i] != p[j]
  }

  /** A simple path from `v` to `to`. */
  ghost predicate SimpleRoute(g: Graph, p: seq<int>, v: int, to: int) {
    |p| >= 1 && p[0] == v && p[|p| - 1] == to && IsPath(g, p) && Distinct(p)
  }

  /** Every vertex of `p` before its end is unmarked in `visited`. */
  ghost predicate Avoids(p: seq<int>, visited: seq<bool>) {
    forall k | 0 <= k < |p| - 1 :: 0 <= p[k] < |visited| && !visited[p[k]]
  }

  /**
   * `d` is the length of a longest simple path from `v` to `to`, or -1
   * (NO_PATH) when there is none.
   */
  ghost predicate Longest(g: Graph, v: int, to: int, d: int) {
    if d == NoPath then forall p :: !SimpleRoute(g, p, v, to)
    else
      && d >= 0
      && (exists p :: SimpleRoute(g, p, v, to) && |p| - 1 == d)
      && (forall p | SimpleRoute(g, p, v, to) :: |p| - 1 <= d)
  }

  /** max_of_neighbors: the largest entry, or NO_PATH when no entry exceeds it. */
  function MaxOfNeighbors(arr: seq<int>): (r: int)
    ensures r >= NoPath
    ensures forall i | 0 <= i < |arr| :: arr[i] <= r
    ensures r == NoPath || exists i | 0 <= i < |arr| :: arr[i] == r
  {
    if |arr| == 0 then NoPath
    else
      var m := MaxOfNeighbors(arr[..|arr| - 1]);
      if m < arr[|arr| - 1] then arr[|arr| - 1] else m
  }

  /** The number of unmarked vertices: what bounds the depth of brute_force. */
  function CountFalse(visited: seq<bool>): (r: nat)
    ensures r <= |visited|
  {
    if |visited| == 0 then 0
    else CountFalse(visited[..|visited| - 1]) + (if visited[|visited| - 1] then 0 else 1)
  }

  lemma {:induction false} MarkShrinks(visited: seq<bool>, v: int)
    requires 0 <= v < |visited| && !visited[v]
    ensures CountFalse(visited[v := true]) < CountFalse(visited)
  {
    var last := |visited| - 1;
    if v < last {
      assert visited[v := true][..last] == visited[..last][v := true];
      MarkShrinks(visited[..last], v);
    } else {
      assert visited[v := true][..last] == visited[..last];
    }
  }

  /**
   * brute_force(g, v, visited, path_length, to): `path_length` when v is
   * `to`; NO_PATH when v is on the current path or has no out-edges;
   * otherwise the best result over v's out-neighbours with v marked.  The C
   * code marks v in place and clears it again before returning; here the
   * marked copy is passed down, so the caller's `visited` is untouched.
   */
  function BruteForce(g: Graph, v: int, visited: seq<bool>, len: int, to: int): int
    requires WellFormed(g) && IsVertex(g, v) && |visited| == N(g)
    decreases CountFalse(visited), 0
  {
    if v == to then len
    else if visited[v] then NoPath
    else if |g.adj[v]| == 0 then NoPath
    else
      MarkShrinks(visited, v);
      MaxOfNeighbors(Explore(g, g.adj[v], visited[v := true], len + 1, to))
  }

  /** The array `arr` of brute_force: one recursive result per out-neighbour, in list order. */
  function Explore(g: Graph, ws: seq<int>, visited: seq<bool>, len: int, to: int): (rs: seq<int>)
    requires WellFormed(g) && |visited| == N(g)
    requires forall i | 0 <= i < |ws| :: IsVertex(g, ws[i])
    ensures |rs| == |ws|
    decreases CountFalse(visited), 1, |ws|
  {
    if |ws| == 0 then []
    else [BruteForce(g, ws[0], visited, len, to)] + Explore(g, ws[1..], visited, len, to)
  }

  lemma {:induction false} ExploreAt(g: Graph, ws: seq<int>, visited: seq<bool>, len: int, to: int, i: int)
    requires WellFormed(g) && |visited| == N(g)
    requires forall k | 0 <= k < |ws| :: IsVertex(g, ws[k])
    requires 0 <= i < |ws|
    ensures Explore(g, ws, visited, len, to)[i] == BruteForce(g, ws[i], visited, len, to)
    decreases |ws|
  {
    if i > 0 {
      ExploreAt(g, ws[1..], visited, len, to, i - 1);
    }
  }

  /** Prepending v to a simple path from one of its out-neighbours that avoids v. */
  lemma Extend(g: Graph, v: int, q: seq<int>, to: int, visited: seq<bool>)
    requires WellFormed(g) && IsVertex(g, v) && v != to && |visited| == N(g) && visited[v]
    requires |q| >= 1 && Edge(g, v, q[0]) && SimpleRoute(g, q, q[0], to) && Avoids(q, visited)
    ensures SimpleRoute(g, [v] + q, v, to)
  {
    var p := [v] + q;
    forall k | 0 <= k < |p| - 1 ensures Edge(g, p[k], p[k + 1]) {
      if k > 0 {
        assert p[k] == q[k - 1] && p[k + 1] == q[k];
      }
    }
    forall i, j | 0 <= i < j < |p| ensures p[i] != p[j] {
      if i > 0 {
        assert p[i] == q[i - 1] && p[j] == q[j - 1];
      } else if j < |p| - 1 {
        assert p[j] == q[j - 1] && !visited[q[j - 1]];
      }
    }
  }

  /** Marking v adds it to what a path must avoid. */
  lemma ExtendAvoids(q: seq<int>, v: int, visited: seq<bool>)
    requires 0 <= v < |visited| && !visited[v] && Avoids(q, visited[v := true])
    ensures Avoids([v] + q, visited)
  {
    var p := [v] + q;
    forall k | 0 <= k < |p| - 1 ensures 0 <= p[k] < |visited| && !visited[p[k]] {
      if k > 0 {
        assert p[k] == q[k - 1];
      }
    }
  }

  /** A path for an out-neighbour of v, with v marked, gives one for v. */
  lemma SoundStep(g: Graph, v: int, visited: seq<bool>, len: int, to: int, w: int, r: int)
    requires WellFormed(g) && IsVertex(g, v) && v != to && |visited| == N(g) && !visited[v]
    requires w in g.adj[v]
    requires exists q :: SimpleRoute(g, q, w, to) && Avoids(q, visited[v := true]) && len + 1 + |q| - 1 == r
    ensures exists p :: SimpleRoute(g, p, v, to) && Avoids(p, visited) && len + |p| - 1 == r
  {
    var q :| SimpleRoute(g, q, w, to) && Avoids(q, visited[v := true]) && len + 1 + |q| - 1 == r;
    Extend(g, v, q, to, visited[v := true]);
    ExtendAvoids(q, v, visited);
    assert SimpleRoute(g, [v] + q, v, to) && Avoids([v] + q, visited) && len + |[v] + q| - 1 == r;
  }

  /** Every value brute_force returns other than NO_PATH is realised by an unmarked simple path. */
  lemma {:induction false} BruteSound(g: Graph, v: int, visited: seq<bool>, len: int, to: int)
    requires WellFormed(g) && IsVertex(g, v) && |visited| == N(g) && len >= 0
    ensures BruteForce(g, v, visited, len, to) >= NoPath
    ensures BruteForce(g, v, visited, len, to) != NoPath ==>
              exists p :: SimpleRoute(g, p, v, to) && Avoids(p, visited)
                          && len + |p| - 1 == BruteForce(g, v, visited, len, to)
    decreases CountFalse(visited), 1
  {
    if v == to {
      assert SimpleRoute(g, [v], v, to) && Avoids([v], visited);
    } else if !visited[v] && |g.adj[v]| > 0 {
      MarkShrinks(visited, v);
      if MaxOfNeighbors(Explore(g, g.adj[v], visited[v := true], len + 1, to)) != NoPath {
        SoundNeighbours(g, v, visited, len, to);
      }
    }
  }

  /** The out-neighbour whose recursive result is the maximum brute_force takes. */
  lemma BestNeighbour(g: Graph, v: int, marked: seq<bool>, len: int, to: int) returns (w: int)
    requires WellFormed(g) && IsVertex(g, v) && |marked| == N(g)
    requires MaxOfNeighbors(Explore(g, g.adj[v], marked, len, to)) != NoPath
    ensures w in g.adj[v] && IsVertex(g, w)
    ensures BruteForce(g, w, marked, len, to) == MaxOfNeighbors(Explore(g, g.adj[v], marked, len, to))
  {
    var arr := Explore(g, g.adj[v], marked, len, to);
    var i :| 0 <= i < |arr| && arr[i] == MaxOfNeighbors(arr);
    ExploreAt(g, g.adj[v], marked, len, to, i);
    w := g.adj[v][i];
  }

  /** The recursive case of BruteSound: the best out-neighbour's path, with v in front. */
  lemma {:induction false} SoundNeighbours(g: Graph, v: int, visited: seq<bool>, len: int, to: int)
    requires WellFormed(g) && IsVertex(g, v) && |visited| == N(g) && len >= 0
    requires v != to && !visited[v] && |g.adj[v]| > 0
    requires CountFalse(visited[v := true]) < CountFalse(visited)
    requires MaxOfNeighbors(Explore(g, g.adj[v], visited[v := true], len + 1, to)) != NoPath
    ensures exists p :: SimpleRoute(g, p, v, to) && Avoids(p, visited)
                        && len + |p| - 1 == MaxOfNeighbors(Explore(g, g.adj[v], visited[v := true], len + 1, to))
    decreases CountFalse(visited), 0
  {
    var marked := visited[v := true];
    var w := BestNeighbour(g, v, marked, len + 1, to);
    BruteSound(g, w, marked, len + 1, to);
    SoundStep(g, v, visited, len, to, w, BruteForce(g, w, marked, len + 1, to));
  }

  /** The tail of a simple path from v that avoids `visited` avoids v as well. */
  lemma TailAvoids(g: Graph, p: seq<int>, v: int, to: int, visited: seq<bool>)
    requires SimpleRoute(g, p, v, to) && Avoids(p, visited) && |p| >= 2 && 0 <= v < |visited|
    ensures SimpleRoute(g, p[1..], p[1], to) && Avoids(p[1..], visited[v := true])
  {
    var q := p[1..];
    forall k | 0 <= k < |q| - 1 ensures Edge(g, q[k], q[k + 1]) {
      assert q[k] == p[k + 1] && q[k + 1] == p[k + 2];
    }
    forall i, j | 0 <= i < j < |q| ensures q[i] != q[j] {
      assert q[i] == p[i + 1] && q[j] == p[j + 1];
    }
    forall k | 0 <= k < |q| - 1 ensures 0 <= q[k] < |visited| && !visited[v := true][q[k]] {
      assert q[k] == p[k + 1] && p[0] == v;
    }
  }

  /** Every unmarked simple path is at most as long as what brute_force returns. */
  lemma {:induction false} BruteBound(g: Graph, v: int, visited: seq<bool>, len: int, to: int, p: seq<int>)
    requires WellFormed(g) && IsVertex(g, v) && |visited| == N(g)
    requires SimpleRoute(g, p, v, to) && Avoids(p, visited)
    ensures BruteForce(g, v, visited, len, to) >= len + |p| - 1
    decreases CountFalse(visited)
  {
    if v == to {
      assert p[0] == p[|p| - 1];
    } else {
      assert p[0] != p[|p| - 1];
      assert Edge(g, p[0], p[1]);
      var marked := visited[v := true];
      var i :| 0 <= i < |g.adj[v]| && g.adj[v][i] == p[1];
      var arr := Explore(g, g.adj[v], marked, len + 1, to);
      ExploreAt(g, g.adj[v], marked, len + 1, to, i);
      MarkShrinks(visited, v);
      TailAvoids(g, p, v, to, visited);
      BruteBound(g, p[1], marked, len + 1, to, p[1..]);
      assert arr[i] <= MaxOfNeighbors(arr);
    }
  }

  /** With nothing marked, every simple path qualifies. */
  lemma AvoidsNone(g: Graph, p: seq<int>, v: int, to: int)
    requires WellFormed(g) && SimpleRoute(g, p, v, to) && IsVertex(g, v)
    ensures Avoids(p, seq(N(g), _ => false))
  {
    forall k | 0 <= k < |p| - 1 ensures 0 <= p[k] < N(g) {
      assert Edge(g, p[k], p[k + 1]);
    }
  }

  /** brute_force from `from` with nothing marked and length 0 finds a longest simple path. */
  lemma BruteLongest(g: Graph, from: int, to: int)
    requires WellFormed(g) && IsVertex(g, from)
    ensures Longest(g, from, to, BruteForce(g, from, seq(N(g), _ => false), 0, to))
  {
    var none := seq(N(g), _ => false);
    var r := BruteForce(g, from, none, 0, to);
    BruteSound(g, from, none, 0, to);
    forall p | SimpleRoute(g, p, from, to) ensures r != NoPath && |p| - 1 <= r {
      AvoidsNone(g, p, from, to);
      BruteBound(g, from, none, 0, to, p);
    }
  }

  /** A path that revisits a vertex contains a cycle between the two visits. */
  lemma CycleBetween(g: Graph, p: seq<int>, i: int, j: int)
    requires IsPath(g, p) && 0 <= i < j < |p|
    ensures p[i] == p[j] ==> IsCycle(g, p[i..j + 1])
  {
    var c := p[i..j + 1];
    forall k | 0 <= k < |c| - 1 ensures Edge(g, c[k], c[k + 1]) {
      assert c[k] == p[i + k] && c[k + 1] == p[i + k + 1];
    }
  }

  /** In a graph without cycles no path repeats a vertex. */
  lemma AcyclicDistinct(g: Graph, p: seq<int>)
    requires IsPath(g, p) && !HasCycle(g)
    ensures Distinct(p)
  {
    forall i, j | 0 <= i < j < |p| ensures p[i] != p[j] {
      CycleBetween(g, p, i, j);
    }
  }

  /** The longest simple path from `to` to itself is the empty one. */
  lemma LongestSelf(g: Graph, to: int)
    requires IsVertex(g, to)
    ensures Longest(g, to, to, 0)
  {
    assert SimpleRoute(g, [to], to, to);
    forall p | SimpleRoute(g, p, to, to) ensures |p| - 1 <= 0 {
      assert p[0] == p[|p| - 1];
    }
  }

  /** A path to `to` from an out-neighbour of v, with v in front. */
  lemma Prepend(g: Graph, v: int, q: seq<int>, to: int)
    requires !HasCycle(g) && IsVertex(g, v) && |q| >= 1 && Edge(g, v, q[0]) && IsPath(g, q)
    ensures IsPath(g, [v] + q) && Distinct([v] + q)
  {
    var p := [v] + q;
    forall k | 0 <= k < |p| - 1 ensures Edge(g, p[k], p[k + 1]) {
      if k > 0 {
        assert p[k] == q[k - 1] && p[k + 1] == q[k];
      }
    }
    AcyclicDistinct(g, p);
  }

  /**
   * The recurrence of the dynamic programme: in an acyclic graph, a vertex
   * other than `to` is one step further than its best out-neighbour, or has
   * no path when none of them has one.
   */
  lemma DagStep(g: Graph, v: int, to: int, dist: seq<int>, max: int)
    requires WellFormed(g) && !HasCycle(g) && IsVertex(g, v) && v != to && |dist| == N(g)
    requires forall j | 0 <= j < |g.adj[v]| :: Longest(g, g.adj[v][j], to, dist[g.adj[v][j]])
    requires max >= NoPath && forall j | 0 <= j < |g.adj[v]| :: dist[g.adj[v][j]] <= max
    requires max == NoPath || exists j | 0 <= j < |g.adj[v]| :: dist[g.adj[v][j]] == max
    ensures Longest(g, v, to, if max == NoPath then NoPath else max + 1)
  {
    forall p | SimpleRoute(g, p, v, to) ensures max != NoPath && |p| - 1 <= max + 1 {
      assert p[0] != p[|p| - 1];
      assert Edge(g, p[0], p[1]);
      var j :| 0 <= j < |g.adj[v]| && g.adj[v][j] == p[1];
      TailAvoids(g, p, v, to, seq(N(g), _ => false) [v := false]) by {
        AvoidsNone(g, p, v, to);
      }
      assert Longest(g, p[1], to, dist[p[1]]);
    }
    if max != NoPath {
      var j :| 0 <= j < |g.adj[v]| && dist[g.adj[v][j]] == max;
      var w := g.adj[v][j];
      assert Longest(g, w, to, max);
      var q :| SimpleRoute(g, q, w, to) && |q| - 1 == max;
      assert w in g.adj[v];
      Prepend(g, v, q, to);
      assert SimpleRoute(g, [v] + q, v, to);
    }
  }

  /** The inner loop of the dynamic programme: the best value among v's out-neighbours. */
  method MaxOverSuccessors(g: Graph, dist: seq<int>, v: int) returns (max: int)
    requires WellFormed(g) && IsVertex(g, v) && |dist| == N(g)
    ensures max >= NoPath && forall j | 0 <= j < |g.adj[v]| :: dist[g.adj[v][j]] <= max
    ensures max == NoPath || exists j | 0 <= j < |g.adj[v]| :: dist[g.adj[v][j]] == max
  {
    max := NoPath;
    var j := 0;
    while j < |g.adj[v]|
      invariant 0 <= j <= |g.adj[v]| && max >= NoPath
      invariant forall k | 0 <= k < j :: dist[g.adj[v][k]] <= max
      invariant max == NoPath || exists k | 0 <= k < j :: dist[g.adj[v][k]] == max
    {
      var w := g.adj[v][j];
      if max < dist[w] {
        max := dist[w];
      }
      j := j + 1;
    }
  }

  /** Every out-neighbour of finish[i] sits at a later finish slot. */
  lemma SuccessorLater(g: Graph, s: Search, i: int, j: int)
    requires WellFormed(g) && DfsResult(g, s) && !s.foundCycle && 0 <= i < N(g)
    requires 0 <= j < |g.adj[s.finish[i]]|
    ensures exists k | i < k < N(g) :: s.finish[k] == g.adj[s.finish[i]][j]
  {
    var w := g.adj[s.finish[i]][j];
    assert w in s.finish;
    var k :| 0 <= k < |s.finish| && s.finish[k] == w;
    assert w in g.adj[s.finish[i]];
    assert Edge(g, s.finish[i], s.finish[k]);
  }

  /** The invariant of the dynamic programme: finish slots after i hold their final values. */
  ghost predicate DagDone(g: Graph, s: Search, to: int, dist: seq<int>, i: int) {
    && Sized(g, s) && |dist| == N(g) && -1 <= i < N(g)
    && forall k | i < k < N(g) :: IsVertex(g, s.finish[k]) && Longest(g, s.finish[k], to, dist[s.finish[k]])
  }

  /** Setting the value of finish[i] keeps the later slots and completes slot i. */
  lemma DagAdvance(g: Graph, s: Search, to: int, dist: seq<int>, i: int, d: int)
    requires WellFormed(g) && DfsResult(g, s) && DagDone(g, s, to, dist, i) && 0 <= i
    requires Longest(g, s.finish[i], to, d)
    ensures DagDone(g, s, to, dist[s.finish[i] := d], i - 1)
  {
    forall k | i < k < N(g) ensures dist[s.finish[i] := d][s.finish[k]] == dist[s.finish[k]] {
      assert s.finish[k] != s.finish[i];
    }
  }

  /** Before finish[i] is processed, all of its out-neighbours already have their values. */
  lemma DagReady(g: Graph, s: Search, to: int, dist: seq<int>, i: int)
    requires WellFormed(g) && DfsResult(g, s) && !s.foundCycle && DagDone(g, s, to, dist, i) && 0 <= i
    ensures forall j | 0 <= j < |g.adj[s.finish[i]]| ::
              Longest(g, g.adj[s.finish[i]][j], to, dist[g.adj[s.finish[i]][j]])
  {
    forall j | 0 <= j < |g.adj[s.finish[i]]|
      ensures Longest(g, g.adj[s.finish[i]][j], to, dist[g.adj[s.finish[i]][j]])
    {
      SuccessorLater(g, s, i, j);
    }
  }

  /**
   * The acyclic branch of ldigraph_longest_path: the finish slots from the
   * last down to the first, `to` getting 0 and every other vertex one more
   * than its best out-neighbour (NO_PATH staying NO_PATH).  The values the
   * DFS left in dist are overwritten before they are read.
   */
  method LongestDag(g: Graph, s: Search, to: int) returns (dist: seq<int>)
    requires WellFormed(g) && DfsResult(g, s) && !s.foundCycle && IsVertex(g, to)
    ensures |dist| == N(g) && forall v | 0 <= v < N(g) :: Longest(g, v, to, dist[v])
  {
    dist := s.dist;
    var i := N(g) - 1;
    while i >= 0
      invariant DagDone(g, s, to, dist, i)
    {
      var v := s.finish[i];
      if v == to {
        LongestSelf(g, to);
        DagAdvance(g, s, to, dist, i, 0);
        dist := dist[v := 0];
      } else {
        var max := MaxOverSuccessors(g, dist, v);
        DagReady(g, s, to, dist, i);
        NoFlagAcyclic(g, s);
        DagStep(g, v, to, dist, max);
        if max != NoPath {
          max := max + 1;
        }
        DagAdvance(g, s, to, dist, i, max);
        dist := dist[v := max];
      }
      i := i - 1;
    }
    forall v | 0 <= v < N(g) ensures Longest(g, v, to, dist[v]) {
      assert v in s.finish;
      var k :| 0 <= k < |s.finish| && s.finish[k] == v;
    }
  }

  /** The DFS result without the flag means there is no cycle. */
  lemma NoFlagAcyclic(g: Graph, s: Search)
    requires DfsResult(g, s) && !s.foundCycle
    ensures !HasCycle(g)
  {
  }

  /**
   * ldigraph_longest_path: -1 for an invalid endpoint; otherwise the length
   * of a longest simple path from `from` to `to` (0 when they are equal),
   * -1 when `to` cannot be reached.
   */
  method LongestPathLength(g: Graph, from: int, to: int) returns (r: int)
    requires WellFormed(g) && N(g) >= 1
    ensures !IsVertex(g, from) || !IsVertex(g, to) ==> r == -1
    ensures IsVertex(g, from) && IsVertex(g, to) ==> Longest(g, from, to, r)
    ensures IsVertex(g, from) && from == to ==> r == 0
  {
    if !IsVertex(g, from) || !IsVertex(g, to) {
      return -1;
    }
    var s := DfsWithRestart(g);
    if !s.foundCycle {
      var dist := LongestDag(g, s, to);
      r := dist[from];
    } else {
      r := BruteForce(g, from, seq(N(g), _ => false), 0, to);
      BruteLongest(g, from, to);
    }
    if from == to {
      LongestSelf(g, to);
      LongestUnique(g, from, to, r, 0);
    }
  }

  /** The longest length is unique. */
  lemma LongestUnique(g: Graph, v: int, to: int, d1: int, d2: int)
    requires Longest(g, v, to, d1) && Longest(g, v, to, d2)
    ensures d1 == d2
  {
    if d1 != NoPath && d2 != NoPath {
      var p :| SimpleRoute(g, p, v, to) && |p| - 1 == d1;
      var q :| SimpleRoute(g, q, v, to) && |q| - 1 == d2;
    }
  }
}
