/**
 * The three variants of the FILL run as the loops of `fill.h` perform it:
 * `fill` extends the graph in place, `fill_in` returns the fill-in edges and
 * `is_perfect_elimination_order` stops at the first edge it would add.
 *
 * Every loop is proved to follow `FillSpec.Run` step by step, so the results
 * inherit what `FillSpec` proves about that run. The local `succ` map of the
 * source only gets an entry when a successor is inserted; it is related to the
 * specification's successor sets through `SuccOf`, which reads an absent entry
 * as the empty set exactly like `operator[]` does.
 */
module Fill {
  import opened Graphs
  import opened FillSpec

  /** Two successor maps that `operator[]` cannot tell apart. */
  ghost predicate SuccAgree(a: map<Vertex, set<Vertex>>, b: map<Vertex, set<Vertex>>) {
    forall x :: SuccOf(a, x) == SuccOf(b, x)
  }

  /** The members of `s` other than `m` that are missing from `m`'s successors `sm`. */
  ghost function Missing(s: set<Vertex>, m: Vertex, sm: set<Vertex>): set<Vertex> {
    set w | w in s && w != m && w !in sm
  }

  // ---------------------------------------------------------------------------
  // The loops every variant shares

  /** The loop filling `index_of`: every vertex mapped to its position in `order`. */
  method IndexOrder(order: VertexOrder) returns (pos: map<Vertex, nat>)
    ensures pos == IndexMap(order)
    ensures forall v :: v in pos <==> v in order
  {
    pos := map[];
    var i := 0;
    while i < |order|
      invariant 0 <= i <= |order|
      invariant pos == IndexMap(order[..i])
    {
      assert order[..i + 1][..i] == order[..i];
      pos := pos[order[i] := i];
      i := i + 1;
    }
    assert order[..|order|] == order;
    forall v ensures v in pos <==> v in order {
      IndexMapSound(order, v);
    }
  }

  /**
   * The double loop building `succ`: for every vertex `v` and neighbour `w`,
   * `w` is recorded as a successor of `v` when it comes later in the order.
   * Vertices and neighbours are visited in an unspecified order.
   */
  method InitialSuccessors(g: AdjMap, pos: map<Vertex, nat>) returns (succ: map<Vertex, set<Vertex>>)
    ensures SuccAgree(succ, InitSucc(g, pos))
  {
    succ := map[];
    var todo := g.Keys;
    while todo != {}
      invariant todo <= g.Keys
      invariant forall x :: SuccOf(succ, x) == if x in g && x !in todo then Later(g, pos, x) else {}
      decreases todo
    {
      var v :| v in todo;
      var rest := g[v];
      while rest != {}
        invariant rest <= g[v]
        invariant forall x | x != v :: SuccOf(succ, x) == if x in g && x !in todo then Later(g, pos, x) else {}
        invariant SuccOf(succ, v) <= g[v]
        invariant forall w | w in g[v] :: w in SuccOf(succ, v) <==> w !in rest && PosOf(pos, v) < PosOf(pos, w)
        decreases rest
      {
        var w :| w in rest;
        if PosOf(pos, v) < PosOf(pos, w) {
          succ := succ[v := SuccOf(succ, v) + {w}];
        }
        rest := rest - {w};
      }
      assert SuccOf(succ, v) == Later(g, pos, v);
      todo := todo - {v};
    }
  }

  /**
   * The scan for `min_index`: starting from `n` (the number of vertices), the
   * smallest position of a member of `s`. It stays `n` when `s` is empty.
   */
  method EarliestSuccessor(s: set<Vertex>, pos: map<Vertex, nat>, n: nat) returns (minIndex: nat)
    ensures minIndex <= n
    ensures forall w | w in s :: minIndex <= PosOf(pos, w)
    ensures minIndex < n ==> exists w | w in s :: PosOf(pos, w) == minIndex
    ensures s == {} ==> minIndex == n
  {
    minIndex := n;
    var rest := s;
    while rest != {}
      invariant rest <= s
      invariant minIndex <= n
      invariant forall w | w in s - rest :: minIndex <= PosOf(pos, w)
      invariant minIndex < n ==> exists w | w in s - rest :: PosOf(pos, w) == minIndex
      decreases rest
    {
      var w :| w in rest;
      if PosOf(pos, w) < minIndex {
        minIndex := PosOf(pos, w);
      }
      rest := rest - {w};
    }
  }

  /**
   * Within the FILL run, the scan over `succ[v]` lands on the position of
   * the earliest successor, and finds nothing only when there is none.
   */
  lemma ScanFindsEarliest(g: AdjMap, order: VertexOrder, st: FillState, succ: map<Vertex, set<Vertex>>, v: Vertex, minIndex: nat)
    requires Ready(g, order) && Inv(g, IndexMap(order), st) && SuccAgree(succ, st.succ) && v in g
    requires minIndex <= |order|
    requires forall w | w in SuccOf(succ, v) :: minIndex <= PosOf(IndexMap(order), w)
    requires minIndex < |order| ==> exists w | w in SuccOf(succ, v) :: PosOf(IndexMap(order), w) == minIndex
    requires SuccOf(succ, v) == {} ==> minIndex == |order|
    ensures minIndex < |order| <==> SuccOf(st.succ, v) != {}
    ensures minIndex < |order| ==> order[minIndex] == Earliest(SuccOf(st.succ, v), IndexMap(order))
  {
    var pos := IndexMap(order);
    var s := SuccOf(st.succ, v);
    assert s == SuccOf(succ, v);
    if s != {} {
      var m := Earliest(s, pos);
      assert m in st.adj[v];
      assert order[pos[m]] == m;
      assert minIndex < |order|;
      var w :| w in s && PosOf(pos, w) == minIndex;
      assert w in st.adj[v];
      assert order[pos[w]] == w;
    }
  }

  /** What the insertion loop computes from agreeing successor maps is what `Step` computes. */
  lemma StepMatches(st: FillState, pos: map<Vertex, nat>, succ: map<Vertex, set<Vertex>>, v: Vertex)
    requires SuccAgree(succ, st.succ) && SuccOf(st.succ, v) != {}
    ensures var m := Earliest(SuccOf(st.succ, v), pos);
            var f := Missing(SuccOf(succ, v), m, SuccOf(succ, m));
            && f == Fresh(st, pos, v)
            && SuccAgree(succ[m := SuccOf(succ, m) + f], Step(st, pos, v).succ)
  {
    var s := SuccOf(st.succ, v);
    var m := Earliest(s, pos);
    var f := Missing(SuccOf(succ, v), m, SuccOf(succ, m));
    assert SuccOf(succ, v) == s && SuccOf(succ, m) == SuccOf(st.succ, m);
    assert f == Fresh(st, pos, v);
    var a := succ[m := SuccOf(succ, m) + f];
    var b := Step(st, pos, v).succ;
    forall x ensures SuccOf(a, x) == SuccOf(b, x) {
      if x != m {
        assert SuccOf(a, x) == SuccOf(succ, x);
      }
    }
  }

  /** Adding `w` to the star around `m` is adding the single edge `m--w`. */
  lemma AddStarOneMore(G: AdjMap, m: Vertex, f: set<Vertex>, w: Vertex)
    requires m in G && w in G && w != m && m !in f && w !in f
    ensures AddStar(G, m, f + {w}) == AddStar(G, m, f)[m := AddStar(G, m, f)[m] + {w}][w := AddStar(G, m, f)[w] + {m}]
  {
    var A := AddStar(G, m, f + {w});
    var B := AddStar(G, m, f)[m := AddStar(G, m, f)[m] + {w}][w := AddStar(G, m, f)[w] + {m}];
    forall x | x in G ensures A[x] == B[x] {
    }
  }

  /** The star of new pairs around `m` grows by one pair per new vertex. */
  lemma StarOneMore(m: Vertex, f: set<Vertex>, w: Vertex)
    ensures Star(m, f + {w}) == Star(m, f) + {Canon(m, w)}
  {
    assert Canon(m, w) in Star(m, f + {w});
  }

  /** A step whose `min` misses a successor records a fill-in edge. */
  lemma StepRecords(st: FillState, pos: map<Vertex, nat>, v: Vertex)
    requires Fresh(st, pos, v) != {}
    ensures Step(st, pos, v).added != {}
  {
    var w :| w in Fresh(st, pos, v);
    var m := Earliest(SuccOf(st.succ, v), pos);
    assert Canon(m, w) in Star(m, Fresh(st, pos, v));
  }

  /** A step without a missing successor keeps the successor sets and records nothing. */
  lemma StepRecordsNothing(st: FillState, pos: map<Vertex, nat>, v: Vertex)
    requires Fresh(st, pos, v) == {}
    ensures SuccAgree(Step(st, pos, v).succ, st.succ) && Step(st, pos, v).added == st.added
  {
    if SuccOf(st.succ, v) != {} {
      var m := Earliest(SuccOf(st.succ, v), pos);
      assert Star(m, {}) == {};
    }
  }

  /** The fill-in recorded so far only grows. */
  lemma {:induction false} AddedGrows(g: AdjMap, order: VertexOrder, j: nat, k: nat)
    requires j <= k < |order|
    ensures Run(g, order, j).added <= Run(g, order, k).added
  {
    if j < k {
      AddedGrows(g, order, j, k - 1);
    }
  }

  /** Whatever the FILL run records along the way is part of the fill-in. */
  lemma AddedInFill(g: AdjMap, order: VertexOrder, k: nat)
    requires k < |order|
    ensures Run(g, order, k).added <= FillEdges(g, order)
  {
    AddedGrows(g, order, k, |order| - 1);
  }

  // ---------------------------------------------------------------------------
  // fill

  /**
   * The insertion loop of `fill`: every member `w` of `s` other than `m` that
   * `m` lacks as a successor becomes one, and the edge `m--w` is added to `g`.
   */
  method AddFillEdges(g: Graph, succ: map<Vertex, set<Vertex>>, s: set<Vertex>, m: Vertex)
      returns (succ': map<Vertex, set<Vertex>>)
    requires g.Valid() && m in g.adj
    requires forall w | w in Missing(s, m, SuccOf(succ, m)) :: w in g.adj && w !in g.adj[m]
    modifies g
    ensures g.Valid()
    ensures SuccAgree(succ', succ[m := SuccOf(succ, m) + Missing(s, m, SuccOf(succ, m))])
    ensures g.adj == AddStar(old(g.adj), m, Missing(s, m, SuccOf(succ, m)))
  {
    ghost var G := g.adj;
    ghost var sm := SuccOf(succ, m);
    assert AddStar(G, m, {}) == G by {
      assert forall x | x in G :: AddStar(G, m, {})[x] == G[x];
    }
    succ' := succ;
    var rest := s;
    ghost var f: set<Vertex> := {};
    while rest != {}
      invariant rest <= s
      invariant f <= s && forall w | w in s :: w in f <==> w !in rest && w != m && w !in sm
      invariant g.Valid()
      invariant forall x :: SuccOf(succ', x) == if x == m then sm + f else SuccOf(succ, x)
      invariant g.adj == AddStar(G, m, f)
      decreases rest
    {
      var w :| w in rest;
      if w != m && w !in SuccOf(succ', m) {
        succ' := succ'[m := SuccOf(succ', m) + {w}];
        AddStarOneMore(G, m, f, w);
        g.AddEdge(m, w);
        f := f + {w};
      }
      rest := rest - {w};
    }
    assert f == Missing(s, m, sm);
    assert forall x :: SuccOf(succ[m := sm + f], x) == if x == m then sm + f else SuccOf(succ, x);
  }

  /** One iteration of `fill`'s main loop, at `v`: the `min_index` scan, then the insertion loop. */
  method FillAt(g: Graph, order: VertexOrder, pos: map<Vertex, nat>, n: nat, succ: map<Vertex, set<Vertex>>, v: Vertex,
                ghost g0: AdjMap, ghost st: FillState)
      returns (succ': map<Vertex, set<Vertex>>)
    requires Ready(g0, order) && pos == IndexMap(order) && n == |order| && v in g0
    requires Inv(g0, pos, st) && g.adj == st.adj && SuccAgree(succ, st.succ)
    modifies g
    ensures g.adj == Step(st, pos, v).adj && SuccAgree(succ', Step(st, pos, v).succ)
  {
    var minIndex := EarliestSuccessor(SuccOf(succ, v), pos, n);
    ScanFindsEarliest(g0, order, st, succ, v, minIndex);
    succ' := succ;
    if minIndex < n {
      var m := order[minIndex];
      StepFacts(g0, order, st, v);
      StepMatches(st, pos, succ, v);
      succ' := AddFillEdges(g, succ, SuccOf(succ, v), m);
    }
  }

  /** The main loop of `fill`, over every vertex of `order` but the last. */
  method FillLoop(g: Graph, order: VertexOrder, pos: map<Vertex, nat>, n: nat, succ0: map<Vertex, set<Vertex>>, ghost g0: AdjMap)
    requires Ready(g0, order) && pos == IndexMap(order) && n == |order|
    requires g.adj == g0 && SuccAgree(succ0, Init(g0, order).succ)
    modifies g
    ensures g.adj == Filled(g0, order)
  {
    var succ := succ0;
    var i := 0;
    while i < |order| - 1
      invariant 0 <= i <= |order| - 1
      invariant g.adj == Run(g0, order, i).adj
      invariant SuccAgree(succ, Run(g0, order, i).succ)
    {
      ghost var st := Run(g0, order, i);
      RunInv(g0, order, i);
      succ := FillAt(g, order, pos, n, succ, order[i], g0, st);
      i := i + 1;
    }
  }

  /**
   * `fill`: the graph becomes its chordal completion along `order`: `order`
   * is a perfect elimination ordering of it, and every graph containing the
   * original on which `order` is one contains it.
   */
  method Fill(g: Graph, order: VertexOrder)
    requires g.Valid() && Setup(g.adj, order)
    modifies g
    ensures g.adj == Filled(old(g.adj), order)
    ensures g.Valid() && PerfectElimination(g.adj, order)
    ensures g.adj == AddEdges(old(g.adj), FillEdges(old(g.adj), order))
    ensures forall H | Within(old(g.adj), H) && PerfectElimination(H, order) :: Within(g.adj, H)
  {
    ghost var g0 := g.adj;
    SetupReady(g0, order);
    var n := |g.adj.Keys|;
    var pos := IndexOrder(order);
    var succ := InitialSuccessors(g.adj, pos);
    FillLoop(g, order, pos, n, succ, g0);
    FillMakesPerfect(g0, order);
    FillAgrees(g0, order);
    forall H | Within(g0, H) && PerfectElimination(H, order) ensures Within(Filled(g0, order), H) {
      FillLeast(g0, order, H);
    }
  }

  // ---------------------------------------------------------------------------
  // fill_in

  /**
   * The insertion loop of `fill_in`: the same successor updates as in `fill`,
   * with each new edge recorded as a pair, smaller vertex first.
   */
  method RecordFillEdges(succ: map<Vertex, set<Vertex>>, s: set<Vertex>, m: Vertex, edges: EdgeSet)
      returns (succ': map<Vertex, set<Vertex>>, edges': EdgeSet)
    ensures SuccAgree(succ', succ[m := SuccOf(succ, m) + Missing(s, m, SuccOf(succ, m))])
    ensures edges' == edges + Star(m, Missing(s, m, SuccOf(succ, m)))
  {
    ghost var sm := SuccOf(succ, m);
    succ', edges' := succ, edges;
    var rest := s;
    ghost var f: set<Vertex> := {};
    while rest != {}
      invariant rest <= s
      invariant f <= s && forall w | w in s :: w in f <==> w !in rest && w != m && w !in sm
      invariant forall x :: SuccOf(succ', x) == if x == m then sm + f else SuccOf(succ, x)
      invariant edges' == edges + Star(m, f)
      decreases rest
    {
      var w :| w in rest;
      if w != m && w !in SuccOf(succ', m) {
        succ' := succ'[m := SuccOf(succ', m) + {w}];
        if m < w {
          edges' := edges' + {(m, w)};
        } else {
          edges' := edges' + {(w, m)};
        }
        StarOneMore(m, f, w);
        f := f + {w};
      }
      rest := rest - {w};
    }
    assert f == Missing(s, m, sm);
    assert forall x :: SuccOf(succ[m := sm + f], x) == if x == m then sm + f else SuccOf(succ, x);
  }

  /** One iteration of `fill_in`'s main loop, at `v`. */
  method FillInAt(order: VertexOrder, pos: map<Vertex, nat>, n: nat, succ: map<Vertex, set<Vertex>>, v: Vertex, edges: EdgeSet,
                  ghost g: AdjMap, ghost st: FillState)
      returns (succ': map<Vertex, set<Vertex>>, edges': EdgeSet)
    requires Ready(g, order) && pos == IndexMap(order) && n == |order| && v in g
    requires Inv(g, pos, st) && edges == st.added && SuccAgree(succ, st.succ)
    ensures edges' == Step(st, pos, v).added && SuccAgree(succ', Step(st, pos, v).succ)
  {
    var minIndex := EarliestSuccessor(SuccOf(succ, v), pos, n);
    ScanFindsEarliest(g, order, st, succ, v, minIndex);
    succ', edges' := succ, edges;
    if minIndex < n {
      var m := order[minIndex];
      StepMatches(st, pos, succ, v);
      succ', edges' := RecordFillEdges(succ, SuccOf(succ, v), m, edges);
    }
  }

  /** The main loop of `fill_in`, over every vertex of `order` but the last. */
  method FillInLoop(order: VertexOrder, pos: map<Vertex, nat>, n: nat, succ0: map<Vertex, set<Vertex>>, ghost g: AdjMap)
      returns (edges: EdgeSet)
    requires Ready(g, order) && pos == IndexMap(order) && n == |order|
    requires SuccAgree(succ0, Init(g, order).succ)
    ensures edges == FillEdges(g, order)
  {
    var succ := succ0;
    edges := {};
    var i := 0;
    while i < |order| - 1
      invariant 0 <= i <= |order| - 1
      invariant edges == Run(g, order, i).added
      invariant SuccAgree(succ, Run(g, order, i).succ)
    {
      ghost var st := Run(g, order, i);
      RunInv(g, order, i);
      succ, edges := FillInAt(order, pos, n, succ, order[i], edges, g, st);
      i := i + 1;
    }
  }

  /**
   * `fill_in`: the edges `fill` would add, as ordered pairs of vertices that
   * `g` does not join; adding them makes `order` a perfect elimination ordering,
   * and every graph containing `g` on which `order` is one has all of them.
   */
  method FillIn(g: AdjMap, order: VertexOrder) returns (edges: EdgeSet)
    requires Setup(g, order)
    ensures edges == FillEdges(g, order)
    ensures forall e | e in edges :: e.0 in g && e.1 in g && e.0 < e.1 && e.1 !in g[e.0]
    ensures PerfectElimination(AddEdges(g, edges), order)
    ensures forall H | Within(g, H) && PerfectElimination(H, order) :: forall e | e in edges :: e.0 in H && e.1 in H[e.0]
  {
    SetupReady(g, order);
    var n := |g.Keys|;
    var pos := IndexOrder(order);
    var succ := InitialSuccessors(g, pos);
    edges := FillInLoop(order, pos, n, succ, g);
    FillMakesPerfect(g, order);
    FillAgrees(g, order);
    forall H | Within(g, H) && PerfectElimination(H, order) ensures forall e | e in edges :: e.0 in H && e.1 in H[e.0] {
      FillLeast(g, order, H);
    }
  }

  // ---------------------------------------------------------------------------
  // is_perfect_elimination_order

  /** The checking loop: whether some member of `s` other than `m` is missing from `m`'s successors. */
  method HasMissing(succ: map<Vertex, set<Vertex>>, s: set<Vertex>, m: Vertex) returns (found: bool)
    ensures found <==> Missing(s, m, SuccOf(succ, m)) != {}
  {
    var rest := s;
    while rest != {}
      invariant rest <= s
      invariant Missing(s - rest, m, SuccOf(succ, m)) == {}
      decreases rest
    {
      var w :| w in rest;
      if w != m && w !in SuccOf(succ, m) {
        assert w in Missing(s, m, SuccOf(succ, m));
        return true;
      }
      assert Missing(s - (rest - {w}), m, SuccOf(succ, m)) == Missing(s - rest, m, SuccOf(succ, m));
      rest := rest - {w};
    }
    assert s - rest == s;
    return false;
  }

  /**
   * One iteration of `is_perfect_elimination_order`'s main loop, at `order[i]`:
   * it reports whether FILL's step at this vertex records a fill-in edge.
   */
  method CheckAt(order: VertexOrder, pos: map<Vertex, nat>, n: nat, succ: map<Vertex, set<Vertex>>, i: nat, ghost g: AdjMap)
      returns (found: bool)
    requires Ready(g, order) && pos == IndexMap(order) && n == |order| && i + 1 < |order|
    requires SuccAgree(succ, Run(g, order, i).succ)
    ensures found ==> Run(g, order, i + 1).added != {}
    ensures !found ==> Run(g, order, i + 1).added == Run(g, order, i).added && SuccAgree(succ, Run(g, order, i + 1).succ)
  {
    ghost var st := Run(g, order, i);
    RunInv(g, order, i);
    RunNext(g, order, i, i + 1);
    var v := order[i];
    var minIndex := EarliestSuccessor(SuccOf(succ, v), pos, n);
    ScanFindsEarliest(g, order, st, succ, v, minIndex);
    found := false;
    if minIndex < n {
      var m := order[minIndex];
      StepMatches(st, pos, succ, v);
      found := HasMissing(succ, SuccOf(succ, v), m);
    }
    if found {
      StepRecords(st, pos, v);
    } else {
      StepRecordsNothing(st, pos, v);
    }
  }

  /** The main loop of `is_perfect_elimination_order`, returning at the first missing successor. */
  method CheckLoop(order: VertexOrder, pos: map<Vertex, nat>, n: nat, succ: map<Vertex, set<Vertex>>, ghost g: AdjMap)
      returns (ok: bool)
    requires Ready(g, order) && pos == IndexMap(order) && n == |order|
    requires SuccAgree(succ, Init(g, order).succ)
    ensures ok <==> FillEdges(g, order) == {}
  {
    var i := 0;
    while i < |order| - 1
      invariant 0 <= i <= |order| - 1
      invariant Run(g, order, i).added == {}
      invariant SuccAgree(succ, Run(g, order, i).succ)
    {
      var found := CheckAt(order, pos, n, succ, i, g);
      if found {
        AddedInFill(g, order, i + 1);
        return false;
      }
      i := i + 1;
    }
    return true;
  }

  /**
   * `is_perfect_elimination_order`: `fill` with an early exit at the first
   * edge it would add. True exactly when there is no fill-in, that is when
   * every vertex's later neighbours are pairwise adjacent.
   */
  method IsPerfectEliminationOrder(g: AdjMap, order: VertexOrder) returns (ok: bool)
    requires Setup(g, order)
    ensures ok <==> FillEdges(g, order) == {}
    ensures ok <==> PerfectElimination(g, order)
  {
    SetupReady(g, order);
    var n := |g.Keys|;
    var pos := IndexOrder(order);
    var succ := InitialSuccessors(g, pos);
    ok := CheckLoop(order, pos, n, succ, g);
    PerfectIffNoFill(g, order);
  }
}
