/**
 * The adjacency-list digraph of hw6/ldigraph.c: vertices 0..n-1, each with
 * the list of its out-neighbours in insertion order.  List capacities and
 * their doubling are memory management and are not modelled.
 */
module Digraph {
  import opened Wrappers

  /** `adj[v]` is the adjacency list of vertex v; the vertex count is `|adj|`. */
  datatype Graph = Graph(adj: seq<seq<int>>)

  /** The number of vertices. */
  function N(g: Graph): nat {
    |g.adj|
  }

  predicate IsVertex(g: Graph, v: int) {
    0 <= v < |g.adj|
  }

  /** The arguments add_edge and has_edge accept: two distinct vertices. */
  predicate ValidEdge(g: Graph, from: int, to: int) {
    IsVertex(g, from) && IsVertex(g, to) && from != to
  }

  /** There is an edge u -> v. */
  predicate Edge(g: Graph, u: int, v: int) {
    IsVertex(g, u) && v in g.adj[u]
  }

  /** What add_edge keeps true: every listed neighbour is another vertex. */
  ghost predicate WellFormed(g: Graph) {
    forall u, i | 0 <= u < |g.adj| && 0 <= i < |g.adj[u]| :: IsVertex(g, g.adj[u][i]) && g.adj[u][i] != u
  }

  /** ldigraph_create: None (NULL) for fewer than one vertex, else n empty lists. */
  function Create(n: nat): (r: Option<Graph>)
    ensures r.None? <==> n < 1
    ensures r.Some? ==> N(r.value) == n && WellFormed(r.value)
    ensures r.Some? ==> forall u, v :: !Edge(r.value, u, v)
  {
    if n < 1 then None else Some(Graph(seq(n, _ => [])))
  }

  /** ldigraph_size: the vertex count, 0 for NULL. */
  function Size(g: Option<Graph>): nat {
    if g.None? then 0 else N(g.value)
  }

  /** The size of a created graph is the requested vertex count (0 when creation gives NULL). */
  lemma SizeCreate(n: nat)
    ensures Size(Create(n)) == n
  {
  }

  /** ldigraph_add_edge: appends `to` to from's list when both are distinct vertices. */
  function AddEdge(g: Graph, from: int, to: int): (r: Graph)
    ensures N(r) == N(g)
    ensures forall u | 0 <= u < N(g) && u != from :: r.adj[u] == g.adj[u]
    ensures ValidEdge(g, from, to) ==> r.adj[from] == g.adj[from] + [to]
    ensures !ValidEdge(g, from, to) ==> r == g
    ensures WellFormed(g) ==> WellFormed(r)
    ensures forall u, v :: Edge(r, u, v) <==> Edge(g, u, v) || (ValidEdge(g, from, to) && u == from && v == to)
  {
    if ValidEdge(g, from, to) then Graph(g.adj[from := g.adj[from] + [to]]) else g
  }

  /** ldigraph_has_edge: sequential search of from's list. */
  method HasEdge(g: Graph, from: int, to: int) returns (r: bool)
    ensures r <==> ValidEdge(g, from, to) && Edge(g, from, to)
  {
    if !ValidEdge(g, from, to) {
      return false;
    }
    var i := 0;
    while i < |g.adj[from]| && g.adj[from][i] != to
      invariant 0 <= i <= |g.adj[from]|
      invariant to !in g.adj[from][..i]
    {
      assert g.adj[from][..i + 1] == g.adj[from][..i] + [g.adj[from][i]];
      i := i + 1;
    }
    assert i == |g.adj[from]| ==> g.adj[from][..i] == g.adj[from];
    r := i < |g.adj[from]|;
  }
}
