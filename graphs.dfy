/**
 * Vocabulary shared by the four algorithms: vertices, undirected simple graphs
 * given by adjacency sets, elimination orders and fill-in edge sets.
 *
 * Vertices are natural numbers (the descriptors of a `vecS` adjacency list are
 * indices). A graph is a map from each vertex to the set of its neighbours; a
 * `VertexOrder` is a sequence of vertices and an `EdgeSet` is a set of pairs.
 */
module Graphs {

  type Vertex = nat
  type Edge = (Vertex, Vertex)
  type AdjMap = map<Vertex, set<Vertex>>
  type VertexOrder = seq<Vertex>
  type EdgeSet = set<Edge>

  /** The width of `size_t`, the type of vertex counts and LEX M labels. */
  const SizeWord: nat := 0x1_0000_0000_0000_0000

  /** A `size_t` computation: the value modulo `SizeWord`, unchanged when it fits. */
  function Wrap(x: nat): (r: nat)
    ensures r < SizeWord
    ensures x < SizeWord ==> r == x
    ensures x >= SizeWord ==> r < x
  {
    x % SizeWord
  }

  /** Simple undirected graph: neighbours are vertices, adjacency is symmetric, no self-loops. */
  ghost predicate ValidGraph(g: AdjMap) {
    forall v {:trigger g[v]} | v in g :: forall w | w in g[v] :: w in g && v in g[w] && w != v
  }

  /** Every vertex adjacent to every other one. */
  ghost predicate Complete(g: AdjMap) {
    forall v, w | v in g && w in g && v != w :: w in g[v]
  }

  ghost predicate Distinct(s: seq<Vertex>) {
    forall i, j | 0 <= i < j < |s| :: s[i] != s[j]
  }

  /** `pos` maps each element of `s` back to its index: the elements are distinct. */
  ghost predicate Positions(s: seq<Vertex>, pos: map<Vertex, nat>) {
    forall i | 0 <= i < |s| :: s[i] in pos && pos[s[i]] == i
  }

  /** `order` lists every vertex of `vs` exactly once. */
  ghost predicate IsOrderOf(order: VertexOrder, vs: set<Vertex>) {
    && |order| == |vs|
    && Distinct(order)
    && (forall i | 0 <= i < |order| :: order[i] in vs)
    && (forall v | v in vs :: v in order)
  }

  /**
   * The numbering loops' state: positions above `index` of `s` hold the
   * numbered vertices, those of `vs` no longer in `unordered`, and `at`
   * gives each one's position; as many vertices are unnumbered as
   * positions are left.
   */
  ghost predicate Numbered(vs: set<Vertex>, s: seq<Vertex>, index: int, unordered: set<Vertex>, at: map<Vertex, nat>) {
    && -1 <= index < |s| && unordered <= vs && |unordered| == index + 1
    && (forall k | index < k < |s| :: s[k] in vs && s[k] !in unordered && s[k] in at && at[s[k]] == k)
    && (forall v | v in vs && v !in unordered :: v in at && index < at[v] < |s| && s[at[v]] == v)
  }

  /** Numbering an unnumbered vertex at position `index` keeps the state. */
  lemma NumberNext(vs: set<Vertex>, s: seq<Vertex>, index: int, unordered: set<Vertex>, at: map<Vertex, nat>, v: Vertex)
    requires Numbered(vs, s, index, unordered, at) && 0 <= index && v in unordered && v in vs
    ensures Numbered(vs, s[index := v], index - 1, unordered - {v}, at[v := index])
  {
  }

  /** Once every vertex is numbered, the positions list each vertex exactly once. */
  lemma NumberedAll(vs: set<Vertex>, s: seq<Vertex>, at: map<Vertex, nat>)
    requires Numbered(vs, s, -1, {}, at) && |s| == |vs|
    ensures IsOrderOf(s, vs)
  {
    forall v | v in vs ensures v in s {
      assert s[at[v]] == v;
    }
  }

  /** The pair with the smaller vertex first, as `fill_in` stores its edges. */
  function Canon(a: Vertex, b: Vertex): Edge {
    if a < b then (a, b) else (b, a)
  }

  /** The neighbours `e` adds to `v`, where `e` is a set of (unordered) pairs. */
  ghost function Incident(e: EdgeSet, v: Vertex): set<Vertex> {
    (set p | p in e && p.0 == v :: p.1) + (set p | p in e && p.1 == v :: p.0)
  }

  /** The graph `g` with every pair of `e` added as an undirected edge. */
  ghost function AddEdges(g: AdjMap, e: EdgeSet): (r: AdjMap)
    ensures r.Keys == g.Keys
  {
    map v | v in g :: g[v] + Incident(e, v)
  }

  /**
   * A mutable adjacency-list graph: the caller-owned object that `fill` extends
   * in place. Only the operations the core uses are modelled.
   */
  class Graph {
    var adj: AdjMap

    ghost predicate Valid()
      reads this
    {
      ValidGraph(adj)
    }

    constructor (g: AdjMap)
      requires ValidGraph(g)
      ensures Valid() && adj == g
    {
      adj := g;
    }

    /**
     * Insert the undirected edge u--v. The model keeps the graph simple, so it
     * is only called with two distinct, not yet adjacent vertices.
     */
    method AddEdge(u: Vertex, v: Vertex)
      requires Valid() && u in adj && v in adj && u != v && v !in adj[u]
      modifies this
      ensures Valid()
      ensures adj == old(adj)[u := old(adj)[u] + {v}][v := old(adj)[v] + {u}]
    {
      adj := adj[u := adj[u] + {v}][v := adj[v] + {u}];
    }
  }
}
