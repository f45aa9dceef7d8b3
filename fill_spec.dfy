/**
 * The FILL run that `fill`, `fill_in` and `is_perfect_elimination_order`
 * all perform, as pure functions over an immutable graph, and what it achieves.
 *
 * The three variants build the same `index_of` map and the same successor sets
 * `succ`, then walk `order` up to its second-to-last vertex. At `v` they find
 * `min`, the earliest successor of `v`, and every other successor `w` of `v`
 * that `min` does not yet have as a successor becomes a fill-in edge `min--w`.
 * `Run` replays that walk; `FillEdges` is the fill-in it records.
 *
 * The central results are that the filled graph has `order` as a perfect
 * elimination ordering (`FillMakesPerfect`) and that the fill-in is empty
 * exactly when `order` already is one (`PerfectIffNoFill`).
 */
module FillSpec {
  import opened Graphs

  /**
   * `index_of` after its filling loop: every vertex of `order` mapped to its
   * position (a later occurrence overwrites an earlier one).
   */
  ghost function IndexMap(order: VertexOrder): map<Vertex, nat> {
    if order == [] then map[]
    else
      var k := |order| - 1;
      IndexMap(order[..k])[order[k] := k]
  }

  /** `index_of[v]`: `operator[]` yields 0 for a vertex never stored. */
  function PosOf(pos: map<Vertex, nat>, v: Vertex): nat {
    if v in pos then pos[v] else 0
  }

  /** The neighbours of `v` in `G` that come after `v` in the order. */
  ghost function Later(G: AdjMap, pos: map<Vertex, nat>, v: Vertex): set<Vertex> {
    if v in G then set w | w in G[v] && PosOf(pos, v) < PosOf(pos, w) else {}
  }

  /** `succ[v]`: `operator[]` yields the empty set for a vertex never stored. */
  function SuccOf(succ: map<Vertex, set<Vertex>>, v: Vertex): set<Vertex> {
    if v in succ then succ[v] else {}
  }

  /** The successor sets as the first double loop builds them. */
  ghost function InitSucc(g: AdjMap, pos: map<Vertex, nat>): map<Vertex, set<Vertex>> {
    map v | v in g :: Later(g, pos, v)
  }

  lemma {:induction false} HasEarliest(s: set<Vertex>, pos: map<Vertex, nat>)
    requires s != {}
    ensures exists m :: m in s && forall w | w in s :: PosOf(pos, m) <= PosOf(pos, w)
  {
    var x :| x in s;
    if s == {x} {
      assert forall w | w in s :: w == x;
    } else {
      HasEarliest(s - {x}, pos);
      var y :| y in s - {x} && forall w | w in s - {x} :: PosOf(pos, y) <= PosOf(pos, w);
      if PosOf(pos, x) < PosOf(pos, y) {
        assert forall w | w in s :: PosOf(pos, x) <= PosOf(pos, w);
      } else {
        assert forall w | w in s :: PosOf(pos, y) <= PosOf(pos, w);
      }
    }
  }

  /** `order[min_index]` after the scan: a member of `s` whose position is smallest. */
  ghost function Earliest(s: set<Vertex>, pos: map<Vertex, nat>): (m: Vertex)
    requires s != {}
    ensures m in s && forall w | w in s :: PosOf(pos, m) <= PosOf(pos, w)
  {
    HasEarliest(s, pos);
    var m :| m in s && forall w | w in s :: PosOf(pos, m) <= PosOf(pos, w);
    m
  }

  /**
   * The loop state of the FILL run: the successor sets, the graph as
   * `fill` has extended it so far, and the fill-in `fill_in` has recorded so far.
   */
  datatype FillState = FillState(succ: map<Vertex, set<Vertex>>, adj: AdjMap, added: EdgeSet)

  /** The successors of `v` that the earliest one lacks: the vertices that get a new edge to it. */
  ghost function Fresh(st: FillState, pos: map<Vertex, nat>, v: Vertex): set<Vertex> {
    var s := SuccOf(st.succ, v);
    if s == {} then {}
    else
      var m := Earliest(s, pos);
      set w | w in s && w != m && w !in SuccOf(st.succ, m)
  }

  /** The fill-in pairs joining `m` to every vertex of `f`, smaller vertex first. */
  ghost function Star(m: Vertex, f: set<Vertex>): EdgeSet {
    set w | w in f :: Canon(m, w)
  }

  /** `G` with the undirected edges `m--w` for every `w` of `f`. */
  ghost function AddStar(G: AdjMap, m: Vertex, f: set<Vertex>): AdjMap {
    map x | x in G :: if x == m then G[x] + f else if x in f then G[x] + {m} else G[x]
  }

  /**
   * One iteration of the main loop, at vertex `v`. When `succ[v]` is empty the
   * insertion loop has nothing to visit and the state is unchanged.
   */
  ghost function Step(st: FillState, pos: map<Vertex, nat>, v: Vertex): FillState {
    var s := SuccOf(st.succ, v);
    if s == {} then st
    else
      var m := Earliest(s, pos);
      var f := Fresh(st, pos, v);
      FillState(st.succ[m := SuccOf(st.succ, m) + f], AddStar(st.adj, m, f), st.added + Star(m, f))
  }

  /** The state before the main loop. */
  ghost function Init(g: AdjMap, order: VertexOrder): FillState {
    FillState(InitSucc(g, IndexMap(order)), g, {})
  }

  /** The state after the main loop has processed `order[..k]`. */
  ghost function Run(g: AdjMap, order: VertexOrder, k: nat): FillState
    requires k < |order|
  {
    if k == 0 then Init(g, order)
    else Step(Run(g, order, k - 1), IndexMap(order), order[k - 1])
  }

  /** The run one vertex further is one more step. */
  lemma RunNext(g: AdjMap, order: VertexOrder, k: nat, j: nat)
    requires j == k + 1 < |order|
    ensures Run(g, order, j) == Step(Run(g, order, k), IndexMap(order), order[k])
  {
  }

  /** The fill-in: what `fill_in` records over all vertices but the last. */
  ghost function FillEdges(g: AdjMap, order: VertexOrder): EdgeSet
    requires |order| >= 1
  {
    Run(g, order, |order| - 1).added
  }

  /** The graph as `fill` leaves it. */
  ghost function Filled(g: AdjMap, order: VertexOrder): AdjMap
    requires |order| >= 1
  {
    Run(g, order, |order| - 1).adj
  }

  /** What all three variants demand of their input: a simple graph and an ordering of its vertices. */
  ghost predicate Setup(g: AdjMap, order: VertexOrder) {
    ValidGraph(g) && IsOrderOf(order, g.Keys) && |order| >= 1
  }

  ghost predicate IsClique(G: AdjMap, s: set<Vertex>) {
    forall a, b | a in s && b in s && a != b :: a in G && b in G[a]
  }

  /** Every vertex's later neighbours are pairwise adjacent. */
  ghost predicate PerfectElimination(G: AdjMap, order: VertexOrder) {
    forall k | 0 <= k < |order| :: IsClique(G, Later(G, IndexMap(order), order[k]))
  }

  // ---------------------------------------------------------------------------
  // Positions

  /** A stored position points back at the vertex, and every vertex of `order` is stored. */
  lemma {:induction false} IndexMapSound(order: VertexOrder, v: Vertex)
    ensures v in IndexMap(order) <==> v in order
    ensures v in IndexMap(order) ==> IndexMap(order)[v] < |order| && order[IndexMap(order)[v]] == v
  {
    if order != [] {
      var k := |order| - 1;
      IndexMapSound(order[..k], v);
      assert order == order[..k] + [order[k]];
    }
  }

  /**
   * The positions as the loops use them: each entry of `order` is a vertex of
   * `g` stored at its own index, and each vertex of `g` is stored at an index
   * holding it.
   */
  ghost predicate Indexed(g: AdjMap, order: VertexOrder) {
    && (forall i | 0 <= i < |order| :: order[i] in g && order[i] in IndexMap(order) && IndexMap(order)[order[i]] == i)
    && (forall v | v in g :: v in IndexMap(order) && IndexMap(order)[v] < |order| && order[IndexMap(order)[v]] == v)
  }

  /** The form of `Setup` the proofs work with. */
  ghost predicate Ready(g: AdjMap, order: VertexOrder) {
    ValidGraph(g) && Indexed(g, order) && |order| >= 1
  }

  lemma SetupReady(g: AdjMap, order: VertexOrder)
    requires Setup(g, order)
    ensures Ready(g, order)
  {
    var pos := IndexMap(order);
    forall i | 0 <= i < |order| ensures order[i] in pos && pos[order[i]] == i {
      IndexMapSound(order, order[i]);
      assert order[pos[order[i]]] == order[i];
    }
    forall v | v in g ensures v in pos && pos[v] < |order| && order[pos[v]] == v {
      IndexMapSound(order, v);
    }
  }

  // ---------------------------------------------------------------------------
  // Adding edges

  lemma AddEdgesEmpty(g: AdjMap)
    ensures AddEdges(g, {}) == g
  {
    forall v | v in g ensures AddEdges(g, {})[v] == g[v] {
      assert Incident({}, v) == {};
    }
  }

  /** A graph over the same vertices that agrees with `AddEdges(g, e)` at every vertex is that graph. */
  lemma AddEdgesPointwise(g: AdjMap, G: AdjMap, e: EdgeSet)
    requires G.Keys == g.Keys
    requires forall x {:trigger G[x]} | x in g :: x in G && G[x] == g[x] + Incident(e, x)
    ensures G == AddEdges(g, e)
  {
    forall x | x in g ensures G[x] == AddEdges(g, e)[x] {
    }
  }

  /** The neighbours a star of new edges around `m` gives each vertex. */
  lemma IncidentStar(m: Vertex, f: set<Vertex>, x: Vertex)
    requires m !in f
    ensures Incident(Star(m, f), x) == (if x == m then f else {}) + (if x in f then {m} else {})
  {
    var lhs := Incident(Star(m, f), x);
    var rhs := (if x == m then f else {}) + (if x in f then {m} else {});
    forall y | y in lhs ensures y in rhs {
      if p :| p in Star(m, f) && p.0 == x && p.1 == y {
        var w :| w in f && p == Canon(m, w);
      } else {
        var p :| p in Star(m, f) && p.1 == x && p.0 == y;
        var w :| w in f && p == Canon(m, w);
      }
    }
    forall y | y in rhs ensures y in lhs {
      if x == m && y in f {
        assert Canon(m, y) in Star(m, f);
      } else {
        assert Canon(m, x) in Star(m, f);
      }
    }
  }

  lemma IncidentUnion(e: EdgeSet, n: EdgeSet, x: Vertex)
    ensures Incident(e + n, x) == Incident(e, x) + Incident(n, x)
  {
  }

  // ---------------------------------------------------------------------------
  // The loop invariant of the FILL run

  /**
   * The successor sets are exactly the later neighbours in the current graph,
   * which stays simple and only grows.
   */
  ghost predicate Inv(g: AdjMap, pos: map<Vertex, nat>, st: FillState) {
    && st.succ.Keys == g.Keys
    && st.adj.Keys == g.Keys
    && ValidGraph(st.adj)
    && (forall x {:trigger st.succ[x]} | x in g :: st.succ[x] == Later(st.adj, pos, x))
    && (forall x {:trigger st.adj[x]} | x in g :: g[x] <= st.adj[x])
  }

  /**
   * The current graph is `g` plus the recorded fill-in, which consists of
   * ordered pairs of vertices that `g` did not already join.
   */
  ghost predicate AddedInv(g: AdjMap, st: FillState) {
    && (forall x {:trigger st.adj[x]} | x in g :: x in st.adj && st.adj[x] == g[x] + Incident(st.added, x))
    && (forall e | e in st.added :: e.0 in g && e.1 in g && e.0 < e.1 && e.1 !in g[e.0])
  }

  /** Joining `m` to the vertices of `f` keeps a simple graph simple and only adds adjacencies. */
  lemma AddStarValid(G: AdjMap, m: Vertex, f: set<Vertex>)
    requires ValidGraph(G) && m in G && m !in f && (forall w | w in f :: w in G)
    ensures AddStar(G, m, f).Keys == G.Keys && ValidGraph(AddStar(G, m, f))
    ensures forall x | x in G :: G[x] <= AddStar(G, m, f)[x]
  {
    var G' := AddStar(G, m, f);
    forall v | v in G' ensures forall w | w in G'[v] :: w in G' && v in G'[w] && w != v {
      forall w | w in G'[v] ensures w in G' && v in G'[w] && w != v {
        if w !in G[v] {
          assert (v == m && w in f) || (v in f && w == m);
        }
      }
    }
  }

  /** Only `m` gains later neighbours from the star, since every vertex of `f` comes after `m`. */
  lemma AddStarLater(G: AdjMap, pos: map<Vertex, nat>, m: Vertex, f: set<Vertex>, x: Vertex)
    requires m in G && m !in f && x in G
    requires forall w | w in f :: PosOf(pos, m) < PosOf(pos, w)
    ensures Later(AddStar(G, m, f), pos, x) == Later(G, pos, x) + (if x == m then f else {})
  {
    var G' := AddStar(G, m, f);
    if x in f {
      assert G'[x] == G[x] + {m};
    } else if x != m {
      assert G'[x] == G[x];
    }
  }

  /** The pairs of a star to vertices `m` was not adjacent to are new, ordered pairs of `g`. */
  lemma StarNew(g: AdjMap, G: AdjMap, m: Vertex, f: set<Vertex>)
    requires ValidGraph(g) && m in g && m in G && g[m] <= G[m] && m !in f
    requires forall w | w in f :: w in g && w !in G[m]
    ensures forall e | e in Star(m, f) :: e.0 in g && e.1 in g && e.0 < e.1 && e.1 !in g[e.0]
  {
    forall e | e in Star(m, f) ensures e.0 in g && e.1 in g && e.0 < e.1 && e.1 !in g[e.0] {
      var w :| w in f && e == Canon(m, w);
      assert w !in g[m];
    }
  }

  /** The shape of one step, for a vertex with successors: which vertices are involved. */
  lemma StepFacts(g: AdjMap, order: VertexOrder, st: FillState, v: Vertex)
    requires Ready(g, order) && Inv(g, IndexMap(order), st) && v in g
    requires SuccOf(st.succ, v) != {}
    ensures var pos := IndexMap(order);
            var m := Earliest(SuccOf(st.succ, v), pos);
            var f := Fresh(st, pos, v);
            && m in g && m != v && m !in f && PosOf(pos, v) < PosOf(pos, m)
            && (forall w | w in f :: w in g && PosOf(pos, m) < PosOf(pos, w) && w !in st.adj[m])
  {
    var pos := IndexMap(order);
    var s := SuccOf(st.succ, v);
    var m := Earliest(s, pos);
    assert m in st.adj[v];
    forall w | w in Fresh(st, pos, v)
      ensures w in g && PosOf(pos, m) < PosOf(pos, w) && w !in st.adj[m]
    {
      assert w in st.adj[v];
      assert order[pos[m]] == m && order[pos[w]] == w;
    }
  }

  /** Joining `m` to `f`, with `f` added to `m`'s successors, keeps the successor sets exact. */
  lemma StarKeepsInv(g: AdjMap, pos: map<Vertex, nat>, st: FillState, m: Vertex, f: set<Vertex>, added: EdgeSet)
    requires Inv(g, pos, st) && m in g && m !in f
    requires forall w | w in f :: w in g && PosOf(pos, m) < PosOf(pos, w)
    ensures Inv(g, pos, FillState(st.succ[m := SuccOf(st.succ, m) + f], AddStar(st.adj, m, f), added))
  {
    AddStarValid(st.adj, m, f);
    forall x | x in g ensures st.succ[m := SuccOf(st.succ, m) + f][x] == Later(AddStar(st.adj, m, f), pos, x) {
      AddStarLater(st.adj, pos, m, f, x);
    }
  }

  lemma StepInv(g: AdjMap, order: VertexOrder, st: FillState, v: Vertex)
    requires Ready(g, order) && Inv(g, IndexMap(order), st) && v in g
    ensures Inv(g, IndexMap(order), Step(st, IndexMap(order), v))
  {
    var pos := IndexMap(order);
    var s := SuccOf(st.succ, v);
    if s != {} {
      StepFacts(g, order, st, v);
      StarKeepsInv(g, pos, st, Earliest(s, pos), Fresh(st, pos, v), Step(st, pos, v).added);
    }
  }


  /** Joining `m` to `f` in the graph and recording the star as fill-in keeps the two in step. */
  lemma StarKeepsAdded(g: AdjMap, st: FillState, m: Vertex, f: set<Vertex>, succ: map<Vertex, set<Vertex>>)
    requires ValidGraph(g) && AddedInv(g, st) && st.adj.Keys == g.Keys && m in g && g[m] <= st.adj[m] && m !in f
    requires forall w | w in f :: w in g && w !in st.adj[m]
    ensures AddedInv(g, FillState(succ, AddStar(st.adj, m, f), st.added + Star(m, f)))
  {
    forall x | x in g ensures AddStar(st.adj, m, f)[x] == g[x] + Incident(st.added + Star(m, f), x) {
      IncidentUnion(st.added, Star(m, f), x);
      IncidentStar(m, f, x);
    }
    StarNew(g, st.adj, m, f);
  }

  lemma StepAdded(g: AdjMap, order: VertexOrder, st: FillState, v: Vertex)
    requires Ready(g, order) && Inv(g, IndexMap(order), st) && AddedInv(g, st) && v in g
    ensures AddedInv(g, Step(st, IndexMap(order), v))
  {
    var pos := IndexMap(order);
    var s := SuccOf(st.succ, v);
    if s != {} {
      StepFacts(g, order, st, v);
      var m := Earliest(s, pos);
      StarKeepsAdded(g, st, m, Fresh(st, pos, v), Step(st, pos, v).succ);
    }
  }


  /** A step leaves the adjacency of every vertex up to `v` alone, and only grows the others. */
  lemma StepAdj(g: AdjMap, order: VertexOrder, st: FillState, v: Vertex, x: Vertex)
    requires Ready(g, order) && Inv(g, IndexMap(order), st) && v in g && x in g
    ensures x in Step(st, IndexMap(order), v).adj
    ensures st.adj[x] <= Step(st, IndexMap(order), v).adj[x]
    ensures PosOf(IndexMap(order), x) <= PosOf(IndexMap(order), v) ==> Step(st, IndexMap(order), v).adj[x] == st.adj[x]
  {
    var pos := IndexMap(order);
    var s := SuccOf(st.succ, v);
    if s != {} {
      StepFacts(g, order, st, v);
      var m := Earliest(s, pos);
      var f := Fresh(st, pos, v);
      if PosOf(pos, x) <= PosOf(pos, v) {
        assert x != m && x !in f;
      }
    }
  }

  lemma {:induction false} RunInv(g: AdjMap, order: VertexOrder, k: nat)
    requires Ready(g, order) && k < |order|
    ensures Inv(g, IndexMap(order), Run(g, order, k))
  {
    if k > 0 {
      RunInv(g, order, k - 1);
      StepInv(g, order, Run(g, order, k - 1), order[k - 1]);
    }
  }

  lemma {:induction false} RunAdded(g: AdjMap, order: VertexOrder, k: nat)
    requires Ready(g, order) && k < |order|
    ensures AddedInv(g, Run(g, order, k))
  {
    if k == 0 {
      forall x | x in g ensures Incident({}, x) == {} {
      }
    } else {
      RunAdded(g, order, k - 1);
      RunStepAdded(g, order, k);
    }
  }

  lemma RunStepAdded(g: AdjMap, order: VertexOrder, k: nat)
    requires Ready(g, order) && 0 < k < |order| && AddedInv(g, Run(g, order, k - 1))
    ensures AddedInv(g, Run(g, order, k))
  {
    RunInv(g, order, k - 1);
    StepAdded(g, order, Run(g, order, k - 1), order[k - 1]);
  }

  // ---------------------------------------------------------------------------
  // The filled graph is perfectly eliminated by `order`

  /** The earliest later neighbour of `v` is a vertex of `G` adjacent to all of `v`'s other later neighbours. */
  ghost predicate ClosedAt(G: AdjMap, pos: map<Vertex, nat>, v: Vertex) {
    var L := Later(G, pos, v);
    L != {} ==> Earliest(L, pos) in G && L - {Earliest(L, pos)} <= Later(G, pos, Earliest(L, pos))
  }

  /** The earliest later neighbour of each vertex inherits all its other later neighbours. */
  ghost predicate MinClosed(G: AdjMap, order: VertexOrder) {
    forall k | 0 <= k < |order| :: ClosedAt(G, IndexMap(order), order[k])
  }

  /** Cliques of later neighbours, by induction from the back of the order. */
  lemma {:induction false} CliqueAt(G: AdjMap, order: VertexOrder, k: nat)
    requires ValidGraph(G) && Indexed(G, order) && MinClosed(G, order) && k < |order|
    ensures IsClique(G, Later(G, IndexMap(order), order[k]))
    decreases |order| - k
  {
    var pos := IndexMap(order);
    var L := Later(G, pos, order[k]);
    if L != {} {
      var m := Earliest(L, pos);
      assert m in G;
      IndexMapSound(order, m);
      var j := pos[m];
      assert order[j] == m;
      CliqueAt(G, order, j);
      forall a, b | a in L && b in L && a != b ensures a in G && b in G[a] {
        if a == m {
          assert b in Later(G, pos, m);
        } else if b == m {
          assert a in Later(G, pos, m);
        } else {
          assert a in Later(G, pos, m) && b in Later(G, pos, m);
        }
      }
    }
  }

  lemma MinClosedPerfect(G: AdjMap, order: VertexOrder)
    requires ValidGraph(G) && Indexed(G, order) && MinClosed(G, order)
    ensures PerfectElimination(G, order)
  {
    forall k | 0 <= k < |order| ensures IsClique(G, Later(G, IndexMap(order), order[k])) {
      CliqueAt(G, order, k);
    }
  }

  /** The last vertex has no later neighbours. */
  lemma NothingAfterLast(g: AdjMap, order: VertexOrder, G: AdjMap)
    requires Ready(g, order) && ValidGraph(G) && G.Keys == g.Keys
    ensures Later(G, IndexMap(order), order[|order| - 1]) == {}
  {
    var pos := IndexMap(order);
    var v := order[|order| - 1];
    forall w | w in G && v in G && w in G[v] ensures PosOf(pos, w) <= PosOf(pos, v) {
    }
  }

  /** Later neighbours only grow with the adjacency. */
  lemma LaterGrows(A: AdjMap, B: AdjMap, pos: map<Vertex, nat>, x: Vertex)
    requires x in A && x in B && A[x] <= B[x]
    ensures Later(A, pos, x) <= Later(B, pos, x)
  {
  }

  /**
   * The step at `v` leaves `v`'s adjacency alone and makes its earliest later
   * neighbour adjacent to all the others.
   */
  lemma StepCloses(g: AdjMap, order: VertexOrder, st: FillState, v: Vertex)
    requires Ready(g, order) && Inv(g, IndexMap(order), st) && v in g
    ensures ClosedAt(Step(st, IndexMap(order), v).adj, IndexMap(order), v)
  {
    var pos := IndexMap(order);
    var st' := Step(st, pos, v);
    StepInv(g, order, st, v);
    var s := SuccOf(st.succ, v);
    if s != {} {
      StepFacts(g, order, st, v);
      var m := Earliest(s, pos);
      assert st'.adj[v] == st.adj[v];
      assert Later(st'.adj, pos, v) == s;
      forall w | w in s - {m} ensures w in st'.succ[m] {
      }
    }
  }

  lemma RunStepCloses(g: AdjMap, order: VertexOrder, k: nat, j: nat)
    requires Ready(g, order) && j == k + 1 < |order|
    ensures ClosedAt(Run(g, order, j).adj, IndexMap(order), order[k])
  {
    RunInv(g, order, k);
    StepCloses(g, order, Run(g, order, k), order[k]);
    RunNext(g, order, k, j);
  }

  /**
   * The closure property at `v` carries over from `B` to a larger graph `G`
   * in which `v`'s adjacency is unchanged.
   */
  lemma ClosedCarries(B: AdjMap, G: AdjMap, pos: map<Vertex, nat>, v: Vertex, m: Vertex)
    requires ClosedAt(B, pos, v) && v in B && v in G && G[v] == B[v]
    requires Later(B, pos, v) != {} ==> m == Earliest(Later(B, pos, v), pos)
    requires m in B ==> m in G && B[m] <= G[m]
    ensures ClosedAt(G, pos, v)
  {
    var L := Later(G, pos, v);
    assert L == Later(B, pos, v);
    if L != {} {
      LaterGrows(B, G, pos, m);
    }
  }

  /**
   * Once step `k` has made `order[k]`'s earliest later neighbour inherit the
   * others, later steps keep it so: they leave `order[k]`'s adjacency alone
   * and only add to the others'.
   */
  lemma {:induction false} ClosedStays(g: AdjMap, order: VertexOrder, k: nat, j: nat)
    requires Ready(g, order) && k < j < |order|
    ensures ClosedAt(Run(g, order, j).adj, IndexMap(order), order[k])
  {
    if j == k + 1 {
      RunStepCloses(g, order, k, j);
    } else {
      ClosedStays(g, order, k, j - 1);
      RunKeepsClosed(g, order, k, j);
    }
  }

  /** A step at a later vertex `v` keeps the closure property at `u`. */
  lemma StepKeepsClosed(g: AdjMap, order: VertexOrder, st: FillState, v: Vertex, u: Vertex)
    requires Ready(g, order) && Inv(g, IndexMap(order), st) && v in g && u in g
    requires PosOf(IndexMap(order), u) < PosOf(IndexMap(order), v) && ClosedAt(st.adj, IndexMap(order), u)
    ensures ClosedAt(Step(st, IndexMap(order), v).adj, IndexMap(order), u)
  {
    var pos := IndexMap(order);
    var L := Later(st.adj, pos, u);
    var m := if L != {} then Earliest(L, pos) else u;
    StepAdj(g, order, st, v, u);
    StepAdj(g, order, st, v, m);
    ClosedCarries(st.adj, Step(st, pos, v).adj, pos, u, m);
  }

  /** Step `j`, at a vertex after `order[k]`, keeps the closure property at `order[k]`. */
  lemma RunKeepsClosed(g: AdjMap, order: VertexOrder, k: nat, j: nat)
    requires Ready(g, order) && k + 1 < j < |order|
    requires ClosedAt(Run(g, order, j - 1).adj, IndexMap(order), order[k])
    ensures ClosedAt(Run(g, order, j).adj, IndexMap(order), order[k])
  {
    RunInv(g, order, j - 1);
    assert IndexMap(order)[order[k]] == k && IndexMap(order)[order[j - 1]] == j - 1;
    StepKeepsClosed(g, order, Run(g, order, j - 1), order[j - 1], order[k]);
    RunNext(g, order, j - 1, j);
  }

  /**
   * `fill`'s postcondition: the filled graph is simple, has the same vertices,
   * and has `order` as a perfect elimination ordering, so it is chordal.
   */
  lemma FillMakesPerfect(g: AdjMap, order: VertexOrder)
    requires Ready(g, order)
    ensures ValidGraph(Filled(g, order)) && Filled(g, order).Keys == g.Keys
    ensures PerfectElimination(Filled(g, order), order)
  {
    var G := Filled(g, order);
    var pos := IndexMap(order);
    RunInv(g, order, |order| - 1);
    forall k | 0 <= k < |order| ensures ClosedAt(G, pos, order[k]) {
      if k < |order| - 1 {
        ClosedStays(g, order, k, |order| - 1);
      } else {
        NothingAfterLast(g, order, G);
      }
    }
    MinClosedPerfect(G, order);
  }

  /**
   * `fill` adds exactly the edges `fill_in` returns, and each of them is an
   * ordered pair of vertices of `g` that `g` did not already join.
   */
  lemma FillAgrees(g: AdjMap, order: VertexOrder)
    requires Ready(g, order)
    ensures Filled(g, order) == AddEdges(g, FillEdges(g, order))
    ensures forall e | e in FillEdges(g, order) :: e.0 in g && e.1 in g && e.0 < e.1 && e.1 !in g[e.0]
  {
    RunInv(g, order, |order| - 1);
    RunAdded(g, order, |order| - 1);
    AddEdgesPointwise(g, Filled(g, order), FillEdges(g, order));
  }

  // ---------------------------------------------------------------------------
  // The fill-in is forced: the filled graph is the least completion

  /** `H` has every vertex of `G` and at least its neighbours. */
  ghost predicate Within(G: AdjMap, H: AdjMap) {
    forall x | x in G :: x in H && G[x] <= H[x]
  }

  /**
   * A step stays inside any graph `H` on which `order` is perfect: `min` and
   * every fresh `w` are later neighbours of `v` in `H`, so `H` joins them.
   */
  lemma StepWithin(g: AdjMap, order: VertexOrder, st: FillState, v: Vertex, H: AdjMap)
    requires Ready(g, order) && Inv(g, IndexMap(order), st) && v in g
    requires Within(st.adj, H) && PerfectElimination(H, order)
    ensures Within(Step(st, IndexMap(order), v).adj, H)
  {
    var pos := IndexMap(order);
    var s := SuccOf(st.succ, v);
    if s != {} {
      StepFacts(g, order, st, v);
      var m := Earliest(s, pos);
      var f := Fresh(st, pos, v);
      var L := Later(H, pos, v);
      assert order[pos[v]] == v;
      assert IsClique(H, L);
      assert m in L;
      forall w | w in f ensures w in H && m in H[w] && w in H[m] {
        assert w in L;
      }
      forall x | x in st.adj ensures x in H && AddStar(st.adj, m, f)[x] <= H[x] {
      }
    }
  }

  lemma {:induction false} RunWithin(g: AdjMap, order: VertexOrder, k: nat, H: AdjMap)
    requires Ready(g, order) && k < |order| && Within(g, H) && PerfectElimination(H, order)
    ensures Within(Run(g, order, k).adj, H)
  {
    if k > 0 {
      RunWithin(g, order, k - 1, H);
      RunStepWithin(g, order, k, H);
    }
  }

  lemma RunStepWithin(g: AdjMap, order: VertexOrder, k: nat, H: AdjMap)
    requires Ready(g, order) && 0 < k < |order| && PerfectElimination(H, order)
    requires Within(Run(g, order, k - 1).adj, H)
    ensures Within(Run(g, order, k).adj, H)
  {
    RunInv(g, order, k - 1);
    StepWithin(g, order, Run(g, order, k - 1), order[k - 1], H);
  }

  /**
   * The filled graph is the least chordal completion along `order`: every
   * graph that contains `g` and has `order` as a perfect elimination ordering
   * contains it, so each fill-in edge is forced.
   */
  lemma FillLeast(g: AdjMap, order: VertexOrder, H: AdjMap)
    requires Ready(g, order) && Within(g, H) && PerfectElimination(H, order)
    ensures Within(Filled(g, order), H)
    ensures forall e | e in FillEdges(g, order) :: e.0 in H && e.1 in H[e.0] && e.1 in H && e.0 in H[e.1]
  {
    RunWithin(g, order, |order| - 1, H);
    RunInv(g, order, |order| - 1);
    RunAdded(g, order, |order| - 1);
    forall e | e in FillEdges(g, order) ensures e.0 in H && e.1 in H[e.0] && e.1 in H && e.0 in H[e.1] {
      var G := Filled(g, order);
      assert e.1 in Incident(FillEdges(g, order), e.0) && e.1 in G[e.0];
      assert e.0 in Incident(FillEdges(g, order), e.1) && e.0 in G[e.1];
      assert G[e.0] <= H[e.0] && G[e.1] <= H[e.1];
    }
  }

  // ---------------------------------------------------------------------------
  // No fill-in exactly on perfect elimination orderings

  /** A step at a vertex whose later neighbours already form a clique adds nothing. */
  lemma StepNoFill(g: AdjMap, order: VertexOrder, st: FillState, v: Vertex)
    requires Ready(g, order) && Inv(g, IndexMap(order), st) && v in g
    requires st.adj == g && st.added == {} && IsClique(g, Later(g, IndexMap(order), v))
    ensures Step(st, IndexMap(order), v).adj == g && Step(st, IndexMap(order), v).added == {}
  {
    var pos := IndexMap(order);
    var s := SuccOf(st.succ, v);
    if s != {} {
      StepFacts(g, order, st, v);
      var m := Earliest(s, pos);
      forall w | w in s - {m} ensures w in SuccOf(st.succ, m) {
        assert w in g[m];
      }
      assert Fresh(st, pos, v) == {};
      assert Star(m, {}) == {};
      forall x | x in g ensures AddStar(g, m, {})[x] == g[x] {
      }
    }
  }

  lemma {:induction false} NoFillOnPerfect(g: AdjMap, order: VertexOrder, k: nat)
    requires Ready(g, order) && PerfectElimination(g, order) && k < |order|
    ensures Run(g, order, k).added == {} && Run(g, order, k).adj == g
  {
    if k > 0 {
      NoFillOnPerfect(g, order, k - 1);
      RunStepNoFill(g, order, k);
    }
  }

  lemma RunStepNoFill(g: AdjMap, order: VertexOrder, k: nat)
    requires Ready(g, order) && PerfectElimination(g, order) && 0 < k < |order|
    requires Run(g, order, k - 1).added == {} && Run(g, order, k - 1).adj == g
    ensures Run(g, order, k).added == {} && Run(g, order, k).adj == g
  {
    RunInv(g, order, k - 1);
    StepNoFill(g, order, Run(g, order, k - 1), order[k - 1]);
  }

  /**
   * `is_perfect_elimination_order` is `fill_in(g, order).empty()`, and both
   * mean that every vertex's later neighbours are pairwise adjacent.
   */
  lemma PerfectIffNoFill(g: AdjMap, order: VertexOrder)
    requires Ready(g, order)
    ensures FillEdges(g, order) == {} <==> PerfectElimination(g, order)
  {
    if FillEdges(g, order) == {} {
      FillAgrees(g, order);
      AddEdgesEmpty(g);
      FillMakesPerfect(g, order);
    }
    if PerfectElimination(g, order) {
      NoFillOnPerfect(g, order, |order| - 1);
    }
  }

  /** On a complete graph every order is a perfect elimination ordering, with no fill-in. */
  lemma CompleteNoFill(g: AdjMap, order: VertexOrder)
    requires Ready(g, order) && Complete(g)
    ensures PerfectElimination(g, order) && FillEdges(g, order) == {}
  {
    PerfectIffNoFill(g, order);
  }
}
