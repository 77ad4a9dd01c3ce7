/**
 * The search record of hw6/ldigraph_helpers.h and its initialisation
 * (ldigraph_search_create, ldigraph_search_init in hw6/ldigraph_helpers.c).
 */
module GraphSearch {
  import opened Wrappers
  import opened Digraph

  /** LDIGRAPH_UNSEEN, LDIGRAPH_PROCESSING, LDIGRAPH_DONE. */
  datatype Color = Unseen | Processing | Done

  /** NO_PATH of hw6/ldigraph_helpers.h. */
  const NoPath: int := -1

  /**
   * One search over a graph: per-vertex colour, distance and predecessor,
   * the finish order (filled from the back), the number of finished
   * vertices and whether a cycle was seen.  The finish array is left
   * unset by the C code; here it starts as all -1.
   */
  datatype Search = Search(from: int, color: seq<Color>, dist: seq<int>, pred: seq<int>,
                           finish: seq<int>, count: int, foundCycle: bool)

  /** The arrays have one slot per vertex of `g`. */
  predicate Sized(g: Graph, s: Search) {
    |s.color| == N(g) && |s.dist| == N(g) && |s.pred| == N(g) && |s.finish| == N(g)
  }

  /** ldigraph_search_init: everything unseen, no distances or predecessors, nothing finished. */
  function SearchInit(g: Graph, from: int): (s: Search)
    ensures Sized(g, s) && s.from == from
    ensures forall v | 0 <= v < N(g) :: s.color[v] == Unseen && s.dist[v] == -1 && s.pred[v] == -1
    ensures s.count == 0 && !s.foundCycle
  {
    var n := N(g);
    Search(from, seq(n, _ => Unseen), seq(n, _ => -1), seq(n, _ => -1), seq(n, _ => -1), 0, false)
  }

  /** ldigraph_search_create: NULL unless `from` is a vertex; allocation failure is not modelled. */
  function SearchCreate(g: Graph, from: int): (r: Option<Search>)
    ensures r.Some? <==> IsVertex(g, from)
    ensures r.Some? ==> r.value == SearchInit(g, from)
  {
    if IsVertex(g, from) then Some(SearchInit(g, from)) else None
  }
}
