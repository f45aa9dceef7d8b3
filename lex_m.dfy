/**
 * LEX M (`lex_m.h`): the vertices are numbered from n-1 down to 0. Each round
 * numbers the unnumbered vertex with the largest label, bumps the labels of its
 * unnumbered neighbours, sorts the remaining vertices by label with
 * `radix_sort` and compacts their labels to even ranks.
 *
 * Labels are `size_t`: every increment, doubling and subtraction on them is
 * written modulo `SizeWord`. A label that was never stored reads as 0, as
 * `operator[]` would insert it.
 *
 * The propagation over `reach` buckets (the loop over `l`) is modelled as
 * written, and `ScanReachBuckets` proves that it does nothing when started, as
 * the source starts it, at its own bound.
 */
module LexM {
  import opened Graphs
  import RadixSort
  import FillSpec

  /** `labels[v]`: 0 for a vertex never labelled. */
  function LabelOf(labels: map<Vertex, nat>, v: Vertex): nat {
    if v in labels then labels[v] else 0
  }

  /** `reach[l]`: the empty set for a bucket never filled. */
  function Bucket(reach: map<nat, set<Vertex>>, l: nat): set<Vertex> {
    if l in reach then reach[l] else {}
  }

  // ---------------------------------------------------------------------------
  // Relabelling: the compaction of sorted labels to even ranks

  ghost predicate Ascending(ks: seq<nat>) {
    forall i, j | 0 <= i < j < |ks| :: ks[i] <= ks[j]
  }

  /** The value `prev_label` holds when the loop reaches position `i`. */
  function Prev(ks: seq<nat>, seed: nat, i: nat): nat
    requires i < |ks|
  {
    if i == 0 then seed else ks[i - 1]
  }

  /**
   * The value `n_unique_labels` holds after the loop has passed position `i`
   * of the sorted labels `ks`: how often the label changed up to there,
   * starting from `seed`.
   */
  ghost function Rank(ks: seq<nat>, seed: nat, i: nat): nat
    requires i < |ks|
  {
    (if i == 0 then 0 else Rank(ks, seed, i - 1)) + (if ks[i] != Prev(ks, seed, i) then 1 else 0)
  }

  /** The labels of the sorted range, in order. */
  ghost function KeysOf(s: seq<Vertex>, labels: map<Vertex, nat>): (ks: seq<nat>)
    requires RadixSort.Keyed(s, labels)
    ensures |ks| == |s| && forall i | 0 <= i < |s| :: ks[i] == labels[s[i]]
  {
    if s == [] then [] else [labels[s[0]]] + KeysOf(s[1..], labels)
  }

  /** Ranks never decrease along the range and grow by at most one per position. */
  lemma {:induction false} RankMonotone(ks: seq<nat>, seed: nat, i: nat, j: nat)
    requires i <= j < |ks|
    ensures Rank(ks, seed, i) <= Rank(ks, seed, j) <= Rank(ks, seed, i) + (j - i)
    decreases j
  {
    if i < j {
      RankMonotone(ks, seed, i, j - 1);
    }
  }

  /** Every rank between the first and the one at `i` is reached at or before `i`. */
  lemma {:induction false} RankHits(ks: seq<nat>, seed: nat, i: nat, r: nat)
    requires i < |ks| && Rank(ks, seed, 0) <= r <= Rank(ks, seed, i)
    ensures exists j | 0 <= j <= i :: Rank(ks, seed, j) == r
    decreases i
  {
    if Rank(ks, seed, i) != r {
      RankMonotone(ks, seed, i - 1, i);
      RankHits(ks, seed, i - 1, r);
    }
  }

  /** Equal labels in a sorted range get the same rank. */
  lemma {:induction false} RankEqual(ks: seq<nat>, seed: nat, i: nat, j: nat)
    requires Ascending(ks) && i <= j < |ks| && ks[i] == ks[j]
    ensures Rank(ks, seed, i) == Rank(ks, seed, j)
    decreases j
  {
    if i < j {
      assert ks[i] <= ks[j - 1] <= ks[j];
      RankEqual(ks, seed, i, j - 1);
    }
  }

  /** A strictly larger label in a sorted range gets a strictly larger rank. */
  lemma {:induction false} RankGrows(ks: seq<nat>, seed: nat, i: nat, j: nat)
    requires Ascending(ks) && i < j < |ks| && ks[i] < ks[j]
    ensures Rank(ks, seed, i) < Rank(ks, seed, j)
    decreases j
  {
    if ks[j - 1] < ks[j] {
      RankMonotone(ks, seed, i, j - 1);
    } else {
      RankGrows(ks, seed, i, j - 1);
    }
  }

  /** Seeding with anything but the first label only adds one change at the front. */
  lemma {:induction false} RankSeed(ks: seq<nat>, seed: nat, i: nat)
    requires i < |ks|
    ensures Rank(ks, seed, i) == Rank(ks, ks[0], i) + (if ks[0] != seed then 1 else 0)
    decreases i
  {
    if i > 0 {
      RankSeed(ks, seed, i - 1);
    }
  }

  /** The distinct values among the first `n` of `ks`. */
  ghost function ValuesUpTo(ks: seq<nat>, n: nat): set<nat>
    requires n <= |ks|
  {
    set i | 0 <= i < n :: ks[i]
  }

  /** In a sorted range seeded with its first label, ranks count distinct labels from 0. */
  lemma {:induction false} RankCounts(ks: seq<nat>, i: nat)
    requires Ascending(ks) && i < |ks|
    ensures |ValuesUpTo(ks, i + 1)| == Rank(ks, ks[0], i) + 1
    decreases i
  {
    if i == 0 {
      assert ValuesUpTo(ks, 1) == {ks[0]};
    } else {
      RankCounts(ks, i - 1);
      assert ValuesUpTo(ks, i + 1) == ValuesUpTo(ks, i) + {ks[i]};
      if ks[i] == ks[i - 1] {
        assert ks[i] in ValuesUpTo(ks, i);
        assert ValuesUpTo(ks, i + 1) == ValuesUpTo(ks, i);
      } else {
        forall k | 0 <= k < i ensures ks[k] != ks[i] {
          assert ks[k] <= ks[i - 1];
        }
        assert ks[i] !in ValuesUpTo(ks, i);
      }
    }
  }

  /** Ranks follow the labels of a sorted range: both directions of the comparison. */
  lemma RankOrder(ks: seq<nat>, seed: nat, i: nat, j: nat)
    requires Ascending(ks) && i < |ks| && j < |ks|
    ensures ks[i] < ks[j] <==> Rank(ks, seed, i) < Rank(ks, seed, j)
    ensures ks[i] == ks[j] <==> Rank(ks, seed, i) == Rank(ks, seed, j)
  {
    if i < j {
      if ks[i] < ks[j] { RankGrows(ks, seed, i, j); } else { RankEqual(ks, seed, i, j); }
    } else if j < i {
      if ks[j] < ks[i] { RankGrows(ks, seed, j, i); } else { RankEqual(ks, seed, j, i); }
    }
  }

  /**
   * `n_unique_labels` after the loop: one less than the number of distinct
   * labels, plus one when the smallest label differs from the id `prev_label`
   * was seeded with.
   */
  lemma UniqueCount(ks: seq<nat>, seed: nat)
    requires Ascending(ks) && |ks| >= 1
    ensures Rank(ks, seed, |ks| - 1) + 1 == |ValuesUpTo(ks, |ks|)| + (if ks[0] != seed then 1 else 0)
  {
    RankCounts(ks, |ks| - 1);
    RankSeed(ks, seed, |ks| - 1);
  }

  /**
   * The relabelling loop has passed `a[..i]`: those vertices hold twice their
   * rank, the others their old label, and `prev` is the label seen last.
   */
  ghost predicate Relabelled(a: seq<Vertex>, labels: map<Vertex, nat>, ks: seq<nat>, i: nat,
                             labels': map<Vertex, nat>, prev: nat, nUnique: nat)
    requires |a| >= 1 && i <= |a| == |ks| && RadixSort.Keyed(a, labels)
  {
    && nUnique == (if i == 0 then 0 else Rank(ks, a[0], i - 1)) && nUnique <= i
    && (i < |a| ==> prev == Prev(ks, a[0], i))
    && labels'.Keys == labels.Keys
    && (forall v | v in labels && v !in a :: labels'[v] == labels[v])
    && (forall k | i <= k < |a| :: labels'[a[k]] == labels[a[k]])
    && (forall j | 0 <= j < i :: labels'[a[j]] == 2 * Rank(ks, a[0], j))
  }

  /** One pass of the relabelling loop, at `t[i]`. */
  method RelabelAt(t: seq<Vertex>, labels: map<Vertex, nat>, ghost pos: map<Vertex, nat>, ghost ks: seq<nat>,
                   i: nat, labels': map<Vertex, nat>, prev: nat, nUnique: nat)
    returns (labels'': map<Vertex, nat>, prev': nat, nUnique': nat)
    requires i < |t| && 2 * |t| < SizeWord
    requires RadixSort.Keyed(t, labels) && Positions(t, pos) && ks == KeysOf(t, labels)
    requires Relabelled(t, labels, ks, i, labels', prev, nUnique)
    ensures Relabelled(t, labels, ks, i + 1, labels'', prev', nUnique')
  {
    var v := t[i];
    assert v in t;
    prev', nUnique' := prev, nUnique;
    if labels'[v] != prev {
      nUnique' := nUnique + 1;
      prev' := labels'[v];
    }
    assert nUnique' == Rank(ks, t[0], i);
    assert 2 * nUnique' < SizeWord;
    var rank := Wrap(2 * nUnique');
    labels'' := labels'[v := rank];
    forall j | 0 <= j <= i ensures labels''[t[j]] == 2 * Rank(ks, t[0], j) {
      if j < i {
        assert pos[t[j]] != pos[t[i]];
        assert labels''[t[j]] == labels'[t[j]];
      }
    }
    forall k | i + 1 <= k < |t| ensures labels''[t[k]] == labels[t[k]] {
      assert pos[t[k]] != pos[t[i]];
    }
  }

  /**
   * The relabelling loop over the sorted vertices: each vertex gets twice its
   * rank, `prev_label` starting from the id of the first vertex.
   */
  method Relabel(a: array<Vertex>, labels: map<Vertex, nat>, ghost pos: map<Vertex, nat>)
    returns (labels': map<Vertex, nat>, nUnique: nat)
    requires a.Length >= 1 && 2 * a.Length < SizeWord
    requires RadixSort.Keyed(a[..], labels) && Positions(a[..], pos)
    ensures labels'.Keys == labels.Keys
    ensures forall v | v in labels && v !in a[..] :: labels'[v] == labels[v]
    ensures nUnique == Rank(KeysOf(a[..], labels), a[0], a.Length - 1)
    ensures forall i | 0 <= i < a.Length :: labels'[a[i]] == 2 * Rank(KeysOf(a[..], labels), a[0], i)
  {
    ghost var s := a[..];
    ghost var ks := KeysOf(s, labels);
    var prev := a[0];
    nUnique := 0;
    labels' := labels;
    var i := 0;
    while i < a.Length
      invariant 0 <= i <= a.Length
      invariant Relabelled(s, labels, ks, i, labels', prev, nUnique)
    {
      labels', prev, nUnique := RelabelAt(a[..], labels, pos, ks, i, labels', prev, nUnique);
      i := i + 1;
    }
    assert i == a.Length;
  }

  // ---------------------------------------------------------------------------
  // One round: seeding, propagation, sorting and relabelling

  /** The label `v` has once `cur` is numbered: one more when it is an unnumbered neighbour of `cur`. */
  function Bumped(labels: map<Vertex, nat>, g: AdjMap, cur: Vertex, unordered: set<Vertex>, v: Vertex): nat
    requires cur in g
  {
    if v in g[cur] && v in unordered then (LabelOf(labels, v) + 1) % SizeWord else LabelOf(labels, v)
  }

  /**
   * The neighbours of `cur` outside `rest` have been seen: the unnumbered ones
   * are reached, filed under their old label and have their label bumped.
   */
  ghost predicate Seeded(g: AdjMap, cur: Vertex, unordered: set<Vertex>, labels: map<Vertex, nat>, rest: set<Vertex>,
                         labels': map<Vertex, nat>, reach: map<nat, set<Vertex>>, reached: set<Vertex>)
    requires cur in g
  {
    && rest <= g[cur]
    && (forall v :: v in reached <==> v in g[cur] && v !in rest && v in unordered)
    && labels'.Keys == labels.Keys + reached
    && (forall v :: LabelOf(labels', v) == if v in reached then (LabelOf(labels, v) + 1) % SizeWord else LabelOf(labels, v))
    && (forall l, v :: v in Bucket(reach, l) <==> v in reached && LabelOf(labels, v) == l)
  }

  /** One pass of the neighbour loop, at `v`. */
  method SeedAt(g: AdjMap, cur: Vertex, unordered: set<Vertex>, ghost labels: map<Vertex, nat>, rest: set<Vertex>,
                labels': map<Vertex, nat>, reach: map<nat, set<Vertex>>, reached: set<Vertex>, v: Vertex)
    returns (labels'': map<Vertex, nat>, reach': map<nat, set<Vertex>>, reached': set<Vertex>)
    requires cur in g && v in rest
    requires Seeded(g, cur, unordered, labels, rest, labels', reach, reached)
    ensures Seeded(g, cur, unordered, labels, rest - {v}, labels'', reach', reached')
  {
    labels'', reach', reached' := labels', reach, reached;
    if v in unordered {
      assert v !in reached;
      reached' := reached + {v};
      var l := LabelOf(labels', v);
      reach' := reach[l := Bucket(reach, l) + {v}];
      labels'' := labels'[v := (l + 1) % SizeWord];
      forall x ensures LabelOf(labels'', x) == if x in reached' then (LabelOf(labels, x) + 1) % SizeWord else LabelOf(labels, x) {
        if x != v {
          assert LabelOf(labels'', x) == LabelOf(labels', x);
        }
      }
      forall k, x ensures x in Bucket(reach', k) <==> x in reached' && LabelOf(labels, x) == k {
        if k != l {
          assert Bucket(reach', k) == Bucket(reach, k);
        }
      }
    }
  }

  /**
   * The loop over the neighbours of the vertex just numbered: every unnumbered
   * neighbour is reached, filed in the bucket of its old label, and its label
   * goes up by one.
   */
  method SeedReach(g: AdjMap, cur: Vertex, unordered: set<Vertex>, labels: map<Vertex, nat>)
    returns (labels': map<Vertex, nat>, reach: map<nat, set<Vertex>>, reached: set<Vertex>)
    requires cur in g
    ensures reached == g[cur] * unordered
    ensures labels'.Keys == labels.Keys + reached
    ensures forall v :: LabelOf(labels', v) == Bumped(labels, g, cur, unordered, v)
    ensures forall l, v :: v in Bucket(reach, l) <==> v in reached && LabelOf(labels, v) == l
  {
    labels', reach, reached := labels, map[], {};
    var rest := g[cur];
    SeedStart(g, cur, unordered, labels);
    while rest != {}
      invariant Seeded(g, cur, unordered, labels, rest, labels', reach, reached)
      decreases |rest|
    {
      var v :| v in rest;
      labels', reach, reached := SeedAt(g, cur, unordered, labels, rest, labels', reach, reached, v);
      rest := rest - {v};
    }
    SeedDone(g, cur, unordered, labels, labels', reach, reached);
  }

  lemma SeedStart(g: AdjMap, cur: Vertex, unordered: set<Vertex>, labels: map<Vertex, nat>)
    requires cur in g
    ensures Seeded(g, cur, unordered, labels, g[cur], labels, map[], {})
  {
  }

  lemma SeedDone(g: AdjMap, cur: Vertex, unordered: set<Vertex>, labels: map<Vertex, nat>,
                 labels': map<Vertex, nat>, reach: map<nat, set<Vertex>>, reached: set<Vertex>)
    requires cur in g && Seeded(g, cur, unordered, labels, {}, labels', reach, reached)
    ensures reached == g[cur] * unordered
    ensures forall v :: LabelOf(labels', v) == Bumped(labels, g, cur, unordered, v)
  {
  }

  /** `iter_neighbors(g, v)`; a vertex the graph does not hold has none. */
  function Neighbours(g: AdjMap, v: Vertex): set<Vertex> {
    if v in g then g[v] else {}
  }

  /**
   * The `while (!reach[l].empty())` loop: empties bucket `l`, reaching every
   * unnumbered, unreached neighbour of the vertices taken from it. A vertex with
   * a label above `l` goes to the bucket of its label, which goes up by one; any
   * other goes back into bucket `l`.
   */
  method DrainBucket(g: AdjMap, unordered: set<Vertex>, labels: map<Vertex, nat>, reach: map<nat, set<Vertex>>,
                     reached: set<Vertex>, l: nat)
    returns (labels': map<Vertex, nat>, reach': map<nat, set<Vertex>>, reached': set<Vertex>)
    ensures Bucket(reach', l) == {}
    ensures reached <= reached' && reached' - reached <= unordered
    ensures forall v | v !in reached' || v in reached :: LabelOf(labels', v) == LabelOf(labels, v)
  {
    labels', reach', reached' := labels, reach, reached;
    while Bucket(reach', l) != {}
      invariant reached <= reached' && reached' - reached <= unordered
      invariant forall v | v !in reached' || v in reached :: LabelOf(labels', v) == LabelOf(labels, v)
      decreases |unordered - reached'|, |Bucket(reach', l)|
    {
      var v :| v in Bucket(reach', l);
      reach' := reach'[l := Bucket(reach', l) - {v}];
      ghost var left, bucket := unordered - reached', Bucket(reach', l);
      var rest := Neighbours(g, v);
      while rest != {}
        invariant unordered - reached' <= left
        invariant unordered - reached' == left ==> Bucket(reach', l) <= bucket
        invariant reached <= reached' && reached' - reached <= unordered
        invariant forall v | v !in reached' || v in reached :: LabelOf(labels', v) == LabelOf(labels, v)
        decreases |rest|
      {
        var w :| w in rest;
        rest := rest - {w};
        if w in unordered && w !in reached' {
          reached' := reached' + {w};
          var lw := LabelOf(labels', w);
          if lw > l {
            reach' := reach'[lw := Bucket(reach', lw) + {w}];
            labels' := labels'[w := (lw + 1) % SizeWord];
          } else {
            reach' := reach'[l := Bucket(reach', l) + {w}];
          }
        }
      }
      CardinalityMonotone(unordered - reached', left);
      if unordered - reached' == left {
        CardinalityMonotone(Bucket(reach', l), bucket);
      }
    }
  }

  /** A subset is no larger, a proper subset smaller. */
  lemma CardinalityMonotone<T>(a: set<T>, b: set<T>)
    requires a <= b
    ensures |a| <= |b| && (a != b ==> |a| < |b|)
  {
    assert b == a + (b - a) && a * (b - a) == {};
    if a != b {
      var x :| x in b && x !in a;
      assert x in b - a;
    }
  }

  /**
   * The loop over `l` from `from` downwards in steps of two, `size_t`
   * arithmetic, while `l < bound`. Started at its own bound it does nothing.
   */
  method ScanReachBuckets(g: AdjMap, unordered: set<Vertex>, labels: map<Vertex, nat>, reach: map<nat, set<Vertex>>,
                          reached: set<Vertex>, from: nat, bound: nat)
    returns (labels': map<Vertex, nat>, reach': map<nat, set<Vertex>>, reached': set<Vertex>)
    requires bound <= SizeWord - 2
    ensures from >= bound ==> labels' == labels && reach' == reach && reached' == reached
    ensures reached <= reached' && reached' - reached <= unordered
    ensures forall v | v !in reached' || v in reached :: LabelOf(labels', v) == LabelOf(labels, v)
  {
    labels', reach', reached' := labels, reach, reached;
    var l: nat := from;
    ghost var ran := false;
    while l < bound
      invariant ran ==> from < bound
      invariant !ran ==> l == from && labels' == labels && reach' == reach && reached' == reached
      invariant reached <= reached' && reached' - reached <= unordered
      invariant forall v | v !in reached' || v in reached :: LabelOf(labels', v) == LabelOf(labels, v)
      decreases if l < bound then l + 1 else 0
    {
      ran := true;
      labels', reach', reached' := DrainBucket(g, unordered, labels', reach', reached', l);
      l := if l >= 2 then l - 2 else l + SizeWord - 2;
    }
  }

  /** `std::vector` built from the set: its elements, each once. */
  method SetToArray(s: set<Vertex>) returns (a: array<Vertex>)
    ensures fresh(a) && multiset(a[..]) == multiset(s)
  {
    a := new Vertex[|s|](_ => 0);
    var rest := s;
    var i := 0;
    while rest != {}
      invariant 0 <= i <= a.Length && rest <= s && i + |rest| == |s|
      invariant multiset(a[..i]) + multiset(rest) == multiset(s)
      decreases |rest|
    {
      var v :| v in rest;
      a[i] := v;
      assert a[..i + 1] == a[..i] + [v];
      rest := rest - {v};
      assert multiset(rest) + multiset{v} == multiset(rest + {v});
      i := i + 1;
    }
    assert a[..i] == a[..];
  }

  /** The map after `radix_sort` has looked up every vertex of `s` with `operator[]`. */
  function WithDefaults(labels: map<Vertex, nat>, s: set<Vertex>): (r: map<Vertex, nat>)
    ensures r.Keys == labels.Keys + s
    ensures forall v | v in r :: r[v] == LabelOf(labels, v)
  {
    map v | v in labels.Keys + s :: LabelOf(labels, v)
  }

  /** A value at two positions occurs at least twice. */
  lemma RepeatCounts(t: seq<Vertex>, i: nat, k: nat)
    requires i < k < |t| && t[i] == t[k]
    ensures multiset(t)[t[i]] >= 2
  {
    assert t == t[..k] + t[k..];
    assert t[i] == t[..k][i] && t[k] == t[k..][0];
  }

  /** A sequence holding the elements of a set, each once, has them at distinct positions. */
  lemma {:induction false} SetPositions(t: seq<Vertex>, s: set<Vertex>)
    requires multiset(t) == multiset(s)
    ensures |t| == |s|
    ensures forall i | 0 <= i < |t| :: t[i] in s
    ensures Positions(t, FillSpec.IndexMap(t))
    ensures forall v | v in s :: v in FillSpec.IndexMap(t) && FillSpec.IndexMap(t)[v] < |t| && t[FillSpec.IndexMap(t)[v]] == v
  {
    assert |multiset(t)| == |t|;
    var pos := FillSpec.IndexMap(t);
    forall i | 0 <= i < |t| ensures t[i] in s {
      assert t[i] in multiset(t);
    }
    forall i | 0 <= i < |t| ensures t[i] in pos && pos[t[i]] == i {
      FillSpec.IndexMapSound(t, t[i]);
      var k := pos[t[i]];
      if k != i {
        if k < i { RepeatCounts(t, k, i); } else { RepeatCounts(t, i, k); }
        assert false;
      }
    }
    forall v | v in s ensures v in pos && pos[v] < |t| && t[pos[v]] == v {
      assert v in multiset(t);
      FillSpec.IndexMapSound(t, v);
    }
  }

  /**
   * What relabelling the sorted vertices `t` (the elements of `s`) achieves:
   * the new labels are even, keep the order of the old ones, the last vertex
   * has the largest, and the other vertices keep their labels.
   */
  lemma RelabelFacts(t: seq<Vertex>, s: set<Vertex>, keyed: map<Vertex, nat>, labels': map<Vertex, nat>, nUnique: nat, next: Vertex)
    requires |t| >= 1 && multiset(t) == multiset(s) && s <= keyed.Keys && next == t[|t| - 1]
    requires RadixSort.Keyed(t, keyed) && RadixSort.SortedByKey(t, keyed)
    requires labels'.Keys == keyed.Keys
    requires forall v | v in keyed && v !in t :: labels'[v] == keyed[v]
    requires nUnique == Rank(KeysOf(t, keyed), t[0], |t| - 1)
    requires forall i | 0 <= i < |t| :: labels'[t[i]] == 2 * Rank(KeysOf(t, keyed), t[0], i)
    ensures next in s && nUnique <= |s|
    ensures forall v | v in labels' && v !in s :: labels'[v] == keyed[v]
    ensures forall u | u in s :: labels'[u] % 2 == 0 && labels'[u] <= labels'[next] && labels'[u] <= 2 * |s|
    ensures forall u, w | u in s && w in s :: labels'[u] < labels'[w] <==> keyed[u] < keyed[w]
  {
    SetPositions(t, s);
    var ks := KeysOf(t, keyed);
    var pos := FillSpec.IndexMap(t);
    var last := |t| - 1;
    assert Ascending(ks);
    RankMonotone(ks, t[0], 0, last);
    forall v | v in labels' && v !in s ensures labels'[v] == keyed[v] {
      assert v !in t;
    }
    assert Rank(ks, t[0], 0) <= 1;
    forall u | u in s ensures labels'[u] % 2 == 0 && labels'[u] <= labels'[t[last]] && labels'[u] <= 2 * |s| {
      var r := Rank(ks, t[0], pos[u]);
      assert labels'[u] == 2 * r;
      assert (2 * r) % 2 == 0;
      RankMonotone(ks, t[0], pos[u], last);
    }
    forall u, w | u in s && w in s ensures labels'[u] < labels'[w] <==> keyed[u] < keyed[w] {
      RankOrder(ks, t[0], pos[u], pos[w]);
    }
  }

  /** `to_relabel`: the unnumbered vertices, sorted by label with `radix_sort`. */
  method SortedVertices(unordered: set<Vertex>, keyed: map<Vertex, nat>) returns (a: array<Vertex>)
    requires unordered <= keyed.Keys
    requires forall v | v in keyed :: keyed[v] < SizeWord
    ensures fresh(a) && multiset(a[..]) == multiset(unordered) && a.Length == |unordered|
    ensures RadixSort.Keyed(a[..], keyed) && RadixSort.SortedByKey(a[..], keyed)
  {
    a := SetToArray(unordered);
    SetPositions(a[..], unordered);
    RadixSort.Pow2Of64();
    ghost var passes := RadixSort.RadixSort(a, keyed, 64);
    assert |multiset(a[..])| == a.Length;
  }

  /** The labels of `s` leave no gaps: one is at most 2, and each above 2 is 2 more than another one. */
  ghost predicate GapFree(labels: map<Vertex, nat>, s: set<Vertex>)
    requires s <= labels.Keys
  {
    && (exists u | u in s :: labels[u] <= 2)
    && (forall u | u in s && labels[u] > 2 :: exists w | w in s :: labels[w] + 2 == labels[u])
  }

  /**
   * The new labels leave no gaps: the last vertex has twice `n_unique_labels`,
   * the first at most 2, and each label above 2 is 2 more than another one.
   */
  lemma RelabelDense(t: seq<Vertex>, s: set<Vertex>, keyed: map<Vertex, nat>, labels': map<Vertex, nat>, nUnique: nat)
    requires |t| >= 1 && multiset(t) == multiset(s) && s <= keyed.Keys && RadixSort.Keyed(t, keyed)
    requires labels'.Keys == keyed.Keys
    requires nUnique == Rank(KeysOf(t, keyed), t[0], |t| - 1)
    requires forall i | 0 <= i < |t| :: labels'[t[i]] == 2 * Rank(KeysOf(t, keyed), t[0], i)
    ensures labels'[t[|t| - 1]] == 2 * nUnique
    ensures GapFree(labels', s)
  {
    SetPositions(t, s);
    var ks := KeysOf(t, keyed);
    var pos := FillSpec.IndexMap(t);
    assert t[0] in s && labels'[t[0]] <= 2;
    forall u | u in s && labels'[u] > 2 ensures exists w | w in s :: labels'[w] + 2 == labels'[u] {
      var i := pos[u];
      var r := Rank(ks, t[0], i);
      RankHits(ks, t[0], i, r - 1);
      var j :| 0 <= j <= i && Rank(ks, t[0], j) == r - 1;
      assert t[j] in s && labels'[t[j]] + 2 == labels'[u];
    }
  }

  /** The relabelling loop and `cur_vertex = to_relabel.back()`, over the sorted vertices of `s`. */
  method RelabelSorted(a: array<Vertex>, ghost s: set<Vertex>, keyed: map<Vertex, nat>)
    returns (labels': map<Vertex, nat>, next: Vertex, nUnique: nat)
    requires a.Length >= 1 && 2 * a.Length < SizeWord && multiset(a[..]) == multiset(s) && s <= keyed.Keys
    requires RadixSort.Keyed(a[..], keyed) && RadixSort.SortedByKey(a[..], keyed)
    ensures next in s && nUnique <= |s|
    ensures labels'.Keys == keyed.Keys
    ensures forall v | v in labels' && v !in s :: labels'[v] == keyed[v]
    ensures forall u | u in s :: labels'[u] % 2 == 0 && labels'[u] <= labels'[next] && labels'[u] <= 2 * |s|
    ensures forall u, w | u in s && w in s :: labels'[u] < labels'[w] <==> keyed[u] < keyed[w]
    ensures labels'[next] == 2 * nUnique
    ensures GapFree(labels', s)
  {
    SetPositions(a[..], s);
    labels', nUnique := Relabel(a, keyed, FillSpec.IndexMap(a[..]));
    next := a[a.Length - 1];
    RelabelFacts(a[..], s, keyed, labels', nUnique, next);
    RelabelDense(a[..], s, keyed, labels', nUnique);
  }

  /**
   * Sorting the unnumbered vertices by label and relabelling them: their new
   * labels are even, keep the order of the old ones, leave no gaps (from at
   * most 2 up to twice `n_unique_labels`, in steps of 2), and the last vertex
   * of the sorted range, numbered next, has the largest.
   */
  method Reorder(unordered: set<Vertex>, labels: map<Vertex, nat>) returns (labels': map<Vertex, nat>, next: Vertex, nUnique: nat)
    requires unordered != {} && 2 * |unordered| < SizeWord
    requires forall v | v in labels :: labels[v] < SizeWord
    ensures next in unordered && nUnique <= |unordered|
    ensures labels'.Keys == labels.Keys + unordered
    ensures forall v | v in labels' && v !in unordered :: labels'[v] == labels[v]
    ensures forall u | u in unordered :: labels'[u] % 2 == 0 && labels'[u] <= labels'[next] && labels'[u] <= 2 * |unordered|
    ensures forall u, w | u in unordered && w in unordered :: labels'[u] < labels'[w] <==> LabelOf(labels, u) < LabelOf(labels, w)
    ensures labels'[next] == 2 * nUnique
    ensures GapFree(labels', unordered)
  {
    var keyed := WithDefaults(labels, unordered);
    var a := SortedVertices(unordered, keyed);
    labels', next, nUnique := RelabelSorted(a, unordered, keyed);
  }

  // ---------------------------------------------------------------------------
  // The main loop

  /**
   * `max_label = 2 * (n_unique_labels - 1)` in `size_t`: twice the previous
   * rank, or `SizeWord - 2` when the count is 0.
   */
  function MaxLabel(nUnique: nat): (m: nat)
    requires nUnique < SizeWord
    ensures m <= SizeWord - 2
    ensures nUnique == 0 ==> m == SizeWord - 2
    ensures 1 <= nUnique && 2 * nUnique <= SizeWord ==> m == 2 * (nUnique - 1)
  {
    var x := (nUnique + SizeWord - 1) % SizeWord;
    assert x == if nUnique == 0 then SizeWord - 1 else nUnique - 1;
    var m := (2 * x) % SizeWord;
    assert m == if 2 * x < SizeWord then 2 * x else 2 * x - SizeWord;
    m
  }

  /**
   * One round of the main loop once `cur` is numbered: the reach sets are
   * seeded and propagated, and unless every vertex is numbered the others are
   * sorted and relabelled and the next vertex chosen. Its label is the largest,
   * and the new labels order the unnumbered vertices as their old labels did
   * after the neighbours of `cur` went up by one.
   */
  method Round(g: AdjMap, unordered: set<Vertex>, labels: map<Vertex, nat>, cur: Vertex, maxLabel: nat, nUnique: nat)
    returns (labels': map<Vertex, nat>, done: bool, next: Vertex, nUnique': nat)
    requires cur in g && maxLabel <= SizeWord - 2 && 2 * |unordered| < SizeWord
    requires forall v | v in labels :: labels[v] < SizeWord
    ensures done <==> unordered == {}
    ensures forall v | v in labels' :: labels'[v] < SizeWord
    ensures done ==> nUnique' == nUnique
    ensures !done ==> next in unordered && nUnique' <= |unordered|
    ensures !done ==> unordered <= labels'.Keys && forall u | u in unordered :: labels'[u] % 2 == 0 && labels'[u] <= labels'[next]
    ensures !done ==> forall u, w | u in unordered && w in unordered ::
                        labels'[u] < labels'[w] <==> Bumped(labels, g, cur, unordered, u) < Bumped(labels, g, cur, unordered, w)
  {
    var seeded, reach, reached := SeedReach(g, cur, unordered, labels);
    seeded, reach, reached := ScanReachBuckets(g, unordered, seeded, reach, reached, maxLabel, maxLabel);
    forall v | v in seeded ensures seeded[v] < SizeWord {
      assert seeded[v] == Bumped(labels, g, cur, unordered, v);
    }
    if unordered == {} {
      return seeded, true, cur, nUnique;
    }
    done := false;
    labels', next, nUnique' := Reorder(unordered, seeded);
  }

  /**
   * `lex_m`: numbers the vertices from the last position down, each time the
   * unnumbered vertex the previous round left with the largest label. The
   * result lists every vertex exactly once.
   */
  method LexM(g: AdjMap) returns (order: VertexOrder)
    requires |g.Keys| >= 1 && 2 * |g.Keys| < SizeWord
    ensures IsOrderOf(order, g.Keys)
  {
    var n := |g.Keys|;
    var unordered := g.Keys;
    var cur :| cur in unordered;
    var nUnique: nat := 1;
    var slots := new Vertex[n](_ => 0);
    var labels: map<Vertex, nat> := map[];
    ghost var at: map<Vertex, nat> := map[];
    // `index` counts down from n - 1; the `size_t` wrap-around below 0 ends the loop.
    var index: int := n - 1;
    while 0 <= index
      invariant -1 <= index < n == slots.Length
      invariant 0 <= index ==> cur in unordered
      invariant nUnique < SizeWord
      invariant forall v | v in labels :: labels[v] < SizeWord
      invariant Numbered(g.Keys, slots[..], index, unordered, at)
      decreases index
    {
      var maxLabel := MaxLabel(nUnique);
      NumberNext(g.Keys, slots[..], index, unordered, at, cur);
      unordered := unordered - {cur};
      slots[index] := cur;
      at := at[cur := index];
      var done;
      labels, done, cur, nUnique := Round(g, unordered, labels, cur, maxLabel, nUnique);
      if done {
        assert index == 0;
        break;
      }
      index := index - 1;
    }
    order := slots[..];
    NumberedAll(g.Keys, order, at);
  }
}
