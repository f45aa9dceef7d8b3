/**
 * The known graph of the FILL unit test: edges 1-0, 2-0, 3-1, 3-2, 4-0,
 * 4-3, 5-0, 5-1, 5-2, 5-3 eliminated in the order 4, 3, 2, 1, 0, 5. The
 * order is not perfect, the fill-in holds 0-3 and 1-2, and after `fill`
 * the order is perfect.
 */
module FillExample {
  import opened Graphs
  import opened FillSpec
  import Fill

  function KnownGraph(): (g: AdjMap) {
    map[0 := {1, 2, 4, 5}, 1 := {0, 3, 5}, 2 := {0, 3, 5}, 3 := {1, 2, 4, 5}, 4 := {0, 3}, 5 := {0, 1, 2, 3}]
  }

  function KnownOrder(): VertexOrder {
    [4, 3, 2, 1, 0, 5]
  }

  /** The positions of the known order. */
  lemma KnownPositions()
    ensures IndexMap(KnownOrder()) == map[4 := 0, 3 := 1, 2 := 2, 1 := 3, 0 := 4, 5 := 5]
  {
    assert [4][..0] == [];
    assert IndexMap([4]) == map[4 := 0];
    assert [4, 3][..1] == [4];
    assert IndexMap([4, 3]) == map[4 := 0, 3 := 1];
    assert [4, 3, 2][..2] == [4, 3];
    assert IndexMap([4, 3, 2]) == map[4 := 0, 3 := 1, 2 := 2];
    assert [4, 3, 2, 1][..3] == [4, 3, 2];
    assert IndexMap([4, 3, 2, 1]) == map[4 := 0, 3 := 1, 2 := 2, 1 := 3];
    assert [4, 3, 2, 1, 0][..4] == [4, 3, 2, 1];
    assert IndexMap([4, 3, 2, 1, 0]) == map[4 := 0, 3 := 1, 2 := 2, 1 := 3, 0 := 4];
    assert KnownOrder()[..5] == [4, 3, 2, 1, 0];
  }

  /** The known graph and order meet the precondition of the elimination loop. */
  lemma KnownReady()
    ensures Ready(KnownGraph(), KnownOrder())
  {
    KnownPositions();
    var g := KnownGraph();
    assert ValidGraph(g) by {
      forall v | v in g ensures forall w | w in g[v] :: w in g && v in g[w] && w != v {
        assert v in {0, 1, 2, 3, 4, 5};
      }
    }
  }

  /** The test's first check: the order is not a perfect elimination order, so the fill-in is not empty. */
  lemma KnownNotPerfect()
    ensures Ready(KnownGraph(), KnownOrder())
    ensures !PerfectElimination(KnownGraph(), KnownOrder())
    ensures FillEdges(KnownGraph(), KnownOrder()) != {}
  {
    KnownReady();
    KnownPositions();
    var g, o := KnownGraph(), KnownOrder();
    var pos := IndexMap(o);
    assert 0 in Later(g, pos, o[0]) && 3 in Later(g, pos, o[0]);
    assert 3 !in g[0];
    assert !IsClique(g, Later(g, pos, o[0]));
    PerfectIffNoFill(g, o);
  }

  /** A member of `s` strictly earlier than all the others is the one the successor scan finds. */
  lemma EarliestIs(s: set<Vertex>, pos: map<Vertex, nat>, m: Vertex)
    requires m in s && forall w | w in s && w != m :: PosOf(pos, m) < PosOf(pos, w)
    ensures Earliest(s, pos) == m
  {
  }

  /**
   * Eliminating 4 from a state with the initial successors: the earliest
   * successor is 3, and 0-3 is recorded.
   */
  lemma EliminateFour(st: FillState, pos: map<Vertex, nat>)
    requires pos == map[4 := 0, 3 := 1, 2 := 2, 1 := 3, 0 := 4, 5 := 5]
    requires SuccOf(st.succ, 4) == {0, 3} && SuccOf(st.succ, 3) == {1, 2, 5} && SuccOf(st.succ, 2) == {0, 5}
    requires st.added == {}
    ensures Step(st, pos, 4).added == {(0, 3)}
    ensures SuccOf(Step(st, pos, 4).succ, 3) == {0, 1, 2, 5} && SuccOf(Step(st, pos, 4).succ, 2) == {0, 5}
  {
    EarliestIs({0, 3}, pos, 3);
    assert Fresh(st, pos, 4) == {0};
    assert Star(3, {0}) == {(0, 3)};
  }

  /** Eliminating 4, whose successors are 3 and 0, records 0-3 and makes 0 a successor of 3. */
  lemma KnownFirstStep(g: AdjMap, o: VertexOrder)
    requires g == KnownGraph() && o == KnownOrder()
    ensures Run(g, o, 1).added == {(0, 3)}
    ensures SuccOf(Run(g, o, 1).succ, 3) == {0, 1, 2, 5}
    ensures SuccOf(Run(g, o, 1).succ, 2) == {0, 5}
  {
    KnownPositions();
    var pos := IndexMap(o);
    assert Later(g, pos, 4) == {0, 3};
    assert Later(g, pos, 3) == {1, 2, 5};
    assert Later(g, pos, 2) == {0, 5};
    assert Run(g, o, 1) == Step(Run(g, o, 0), pos, 4);
    EliminateFour(Run(g, o, 0), pos);
  }

  /**
   * Eliminating 3 from any state with the successors and fill-in the first
   * step leaves: the earliest successor is 2, and 1-2 is recorded.
   */
  lemma EliminateThree(st: FillState, pos: map<Vertex, nat>)
    requires pos == map[4 := 0, 3 := 1, 2 := 2, 1 := 3, 0 := 4, 5 := 5]
    requires SuccOf(st.succ, 3) == {0, 1, 2, 5} && SuccOf(st.succ, 2) == {0, 5} && st.added == {(0, 3)}
    ensures Step(st, pos, 3).added == {(0, 3), (1, 2)}
  {
    EarliestIs({0, 1, 2, 5}, pos, 2);
    assert Fresh(st, pos, 3) == {1};
    assert Star(2, {1}) == {(1, 2)};
  }

  /** Eliminating 3 next records 1-2. */
  lemma KnownSecondStep(g: AdjMap, o: VertexOrder)
    requires g == KnownGraph() && o == KnownOrder()
    ensures Run(g, o, 2).added == {(0, 3), (1, 2)}
  {
    KnownPositions();
    KnownFirstStep(g, o);
    assert Run(g, o, 2) == Step(Run(g, o, 1), IndexMap(o), 3);
    EliminateThree(Run(g, o, 1), IndexMap(o));
  }

  /** The known graph with its fill-in 0-3 and 1-2 added. */
  function CompletedGraph(): (h: AdjMap) {
    map[0 := {1, 2, 3, 4, 5}, 1 := {0, 2, 3, 5}, 2 := {0, 1, 3, 5}, 3 := {0, 1, 2, 4, 5}, 4 := {0, 3}, 5 := {0, 1, 2, 3}]
  }

  /** The completed graph contains the known graph and has the known order as a perfect elimination order. */
  lemma KnownCompletion(g: AdjMap, h: AdjMap, o: VertexOrder)
    requires g == KnownGraph() && h == CompletedGraph() && o == KnownOrder()
    ensures Within(g, h) && PerfectElimination(h, o)
  {
    KnownPositions();
    var pos := IndexMap(o);
    assert Later(h, pos, 4) == {0, 3};
    assert Later(h, pos, 3) == {0, 1, 2, 5};
    assert Later(h, pos, 2) == {0, 1, 5};
    assert Later(h, pos, 1) == {0, 5};
    assert Later(h, pos, 0) == {5};
    assert Later(h, pos, 5) == {};
    forall k | 0 <= k < |o| ensures IsClique(h, Later(h, pos, o[k])) {
      assert o[k] in {4, 3, 2, 1, 0, 5};
    }
  }

  /** The only pairs the completed graph adds to the known graph are 0-3 and 1-2. */
  lemma CompletionAdds(g: AdjMap, h: AdjMap, a: Vertex, b: Vertex)
    requires g == KnownGraph() && h == CompletedGraph()
    requires a in g && a in h && a < b && b in h[a] && b !in g[a]
    ensures (a, b) == (0, 3) || (a, b) == (1, 2)
  {
    assert a in {0, 1, 2, 3, 4, 5};
  }

  /** Every fill-in edge of the known graph is one the completed graph adds. */
  lemma FillInForced(g: AdjMap, o: VertexOrder, h: AdjMap)
    requires g == KnownGraph() && o == KnownOrder() && h == CompletedGraph()
    ensures FillEdges(g, o) <= {(0, 3), (1, 2)}
  {
    KnownReady();
    KnownCompletion(g, h, o);
    forall a: Vertex, b: Vertex | a in g && a in h && a < b && b in h[a] && b !in g[a]
      ensures (a, b) in {(0, 3), (1, 2)}
    {
      CompletionAdds(g, h, a, b);
    }
    FillWithin(g, o, h, {(0, 3), (1, 2)});
  }

  /** A fill-in lies within the new pairs of any completion with a perfect elimination order. */
  lemma FillWithin(g: AdjMap, o: VertexOrder, h: AdjMap, allowed: EdgeSet)
    requires Ready(g, o) && Within(g, h) && PerfectElimination(h, o)
    requires forall a: Vertex, b: Vertex | a in g && a in h && a < b && b in h[a] && b !in g[a] :: (a, b) in allowed
    ensures FillEdges(g, o) <= allowed
  {
    FillLeast(g, o, h);
    FillAgrees(g, o);
  }

  /**
   * The test's fill-in checks: the fill-in is exactly 0-3 and 1-2. Both are
   * recorded by the first two steps, and no other pair can be, since every
   * fill-in edge is forced into the completed graph.
   */
  lemma KnownFillIn()
    ensures FillEdges(KnownGraph(), KnownOrder()) == {(0, 3), (1, 2)}
  {
    FillInIs(KnownGraph(), KnownOrder(), CompletedGraph());
  }

  /** `KnownFillIn` over its arguments. */
  lemma FillInIs(g: AdjMap, o: VertexOrder, h: AdjMap)
    requires g == KnownGraph() && o == KnownOrder() && h == CompletedGraph()
    ensures FillEdges(g, o) == {(0, 3), (1, 2)}
  {
    KnownSecondStep(g, o);
    Fill.AddedInFill(g, o, 2);
    FillInForced(g, o, h);
    assert FillEdges(g, o) == Run(g, o, 2).added;
  }

  /** The test's last check: once filled, the graph has the order as a perfect elimination order. */
  lemma KnownFilledPerfect()
    ensures PerfectElimination(Filled(KnownGraph(), KnownOrder()), KnownOrder())
  {
    KnownReady();
    FillMakesPerfect(KnownGraph(), KnownOrder());
  }
}
