/**
 * LEX P (`lex_p`): lexicographic breadth-first search by partition
 * refinement. The unnumbered vertices are kept in classes of equal label, in
 * a doubly linked list ordered from the highest label (at `head`) down. Each
 * round numbers an unnumbered vertex of the first class that still has one,
 * from the last position down; then every unnumbered neighbour of it moves
 * out of its class into a new class linked immediately before the old one.
 *
 * The `Label` nodes of the list are records of an arena (`LabelList`),
 * addressed by index, with -1 standing for `nullptr`. A class's
 * `vertex_map` is the set `members[c]`, and each `LabeledVertex`'s `label`
 * field is `classOf[v]`. The ghost sequence `chain` lists the classes in
 * list order, and `at` maps each linked class to its position in `chain`.
 * Where the code walks an unordered container (the members of a class, the
 * neighbours of a vertex, the entries of `fix`) the model picks the next
 * element with `:|`, so every iteration order is covered.
 */
module LexP {
  import opened Graphs

  /** The null `Label *`. */
  const Null: int := -1

  /** `s` with `x` placed immediately before the first occurrence of `c`. */
  function Insert(s: seq<nat>, c: nat, x: nat): seq<nat> {
    if s == [] then []
    else if s[0] == c then [x] + s
    else [s[0]] + Insert(s[1..], c, x)
  }

  /** The list `s` after linking, for every class `c` of `s` that `fix` splits, `fix[c]` just before `c`. */
  function Refine(s: seq<nat>, fix: map<nat, nat>): seq<nat> {
    if s == [] then []
    else (if s[0] in fix then [fix[s[0]], s[0]] else [s[0]]) + Refine(s[1..], fix)
  }

  /** The classes of `r` numbered below `n`: the ones that existed before a round created new ones. */
  function Older(r: seq<nat>, n: nat): seq<nat> {
    if r == [] then []
    else (if r[0] < n then [r[0]] else []) + Older(r[1..], n)
  }

  /** Refining by an empty `fix` changes nothing. */
  lemma {:induction false} RefineNothing(s: seq<nat>)
    ensures Refine(s, map[]) == s
  {
    if s != [] {
      RefineNothing(s[1..]);
    }
  }

  /** `at` is a bijection between the classes below `size` it holds and the positions of `chain`. */
  ghost predicate Indexed(chain: seq<nat>, at: map<nat, nat>, size: nat) {
    && Positions(chain, at)
    && (forall c | c in at :: c < size && at[c] < |chain| && chain[at[c]] == c)
  }

  /** `prev` and `next` link the classes of `chain` in order, from `head` to `nullptr`. */
  ghost predicate Links(chain: seq<nat>, prev: seq<int>, next: seq<int>, head: int) {
    && (forall i | 0 <= i < |chain| :: chain[i] < |prev| && chain[i] < |next|)
    && |chain| > 0 && head == chain[0]
    && (forall i {:trigger next[chain[i]]} | 0 <= i < |chain| - 1 :: next[chain[i]] == chain[i + 1])
    && next[chain[|chain| - 1]] == Null
    && (forall i {:trigger prev[chain[i]]} | 0 < i < |chain| :: prev[chain[i]] == chain[i - 1])
    && prev[chain[0]] == Null
  }

  /** Class `c` holds exactly the vertices `classOf` sends to `c`. */
  ghost predicate PartitionOf(members: seq<set<Vertex>>, classOf: map<Vertex, nat>) {
    && (forall v | v in classOf :: classOf[v] < |members|)
    && (forall c, v | 0 <= c < |members| :: v in members[c] <==> v in classOf && classOf[v] == c)
  }

  /** A new, empty class keeps the vertices partitioned. */
  lemma EmptyClassPartition(members: seq<set<Vertex>>, classOf: map<Vertex, nat>)
    requires PartitionOf(members, classOf)
    ensures PartitionOf(members + [{}], classOf)
  {
    var members' := members + [{}];
    forall c, v | 0 <= c < |members'| ensures v in members'[c] <==> v in classOf && classOf[v] == c {
      if c < |members| {
        assert members'[c] == members[c];
      }
    }
  }

  /** Moving `w` from its class to class `nc`, in both the class and the `label` field, keeps the partition. */
  lemma MovePartition(members: seq<set<Vertex>>, classOf: map<Vertex, nat>, w: Vertex, nc: nat)
    requires PartitionOf(members, classOf) && w in classOf && nc < |members| && nc != classOf[w]
    ensures PartitionOf(members[classOf[w] := members[classOf[w]] - {w}][nc := members[nc] + {w}], classOf[w := nc])
  {
  }

  /**
   * The state of a refinement part-way: the vertices of `moved` have left
   * their class `classOf0[v]` for the new class `fix` made for it, every
   * other vertex is where it was, and `origin` names, for each class at
   * `n0` or above, the class it was split from.
   */
  ghost predicate Splitting(classOf0: map<Vertex, nat>, n0: nat, members: seq<set<Vertex>>, classOf: map<Vertex, nat>,
                            fix: map<nat, nat>, origin: map<nat, nat>, moved: set<Vertex>)
  {
    && n0 <= |members| && classOf.Keys == classOf0.Keys && moved <= classOf.Keys
    && PartitionOf(members, classOf)
    && (forall c | c in fix :: c < n0 <= fix[c] && fix[c] in origin && origin[fix[c]] == c)
    && (forall x :: x in origin <==> n0 <= x < |members|)
    && (forall x | x in origin :: origin[x] in fix && fix[origin[x]] == x && members[x] != {})
    && (forall v | v in moved :: classOf0[v] in fix && classOf[v] == fix[classOf0[v]])
    && (forall v | v in classOf && v !in moved :: classOf[v] == classOf0[v])
  }

  /**
   * One step of the refinement loop: moves the unmoved vertex `w` to the new
   * class of its class, creating that class, empty, on first use.
   */
  method SplitStep(ghost classOf0: map<Vertex, nat>, ghost n0: nat, members: seq<set<Vertex>>, classOf: map<Vertex, nat>,
                   fix: map<nat, nat>, ghost origin: map<nat, nat>, ghost moved: set<Vertex>, w: Vertex)
    returns (members': seq<set<Vertex>>, classOf': map<Vertex, nat>, fix': map<nat, nat>, ghost origin': map<nat, nat>)
    requires Splitting(classOf0, n0, members, classOf, fix, origin, moved)
    requires w in classOf && w !in moved && classOf0[w] < n0
    ensures Splitting(classOf0, n0, members', classOf', fix', origin', moved + {w})
  {
    var c := classOf[w];
    var nc;
    members', fix', origin' := members, fix, origin;
    if c in fix {
      nc := fix[c];
    } else {
      nc := |members|;
      EmptyClassPartition(members, classOf);
      members' := members + [{}];
      fix' := fix[c := nc];
      origin' := origin[nc := c];
    }
    MovePartition(members', classOf, w, nc);
    members' := members'[c := members'[c] - {w}][nc := members'[nc] + {w}];
    classOf' := classOf[w := nc];
  }

  /**
   * The relinking loop's bookkeeping: `linked` holds the entries of `fix`
   * already walked, the rest are in `todo`, and `added` holds exactly the
   * new classes linked so far.
   */
  ghost predicate Relinking(fix: map<nat, nat>, todo: set<nat>, linked: map<nat, nat>, added: set<nat>) {
    && todo <= fix.Keys && linked.Keys <= fix.Keys
    && (forall c | c in fix :: c in linked <==> c !in todo)
    && (forall c | c in linked :: linked[c] == fix[c] && fix[c] in added)
    && (forall c | c in todo :: fix[c] !in added)
  }

  /** Linking the new class of one more entry of an injective `fix` keeps the bookkeeping. */
  lemma RelinkStep(fix: map<nat, nat>, origin: map<nat, nat>, todo: set<nat>, linked: map<nat, nat>, added: set<nat>, c: nat)
    requires Relinking(fix, todo, linked, added) && c in todo
    requires forall d | d in fix :: fix[d] in origin && origin[fix[d]] == d
    ensures Relinking(fix, todo - {c}, linked[c := fix[c]], added + {fix[c]})
  {
    forall d | d in todo - {c} ensures fix[d] != fix[c] {
      assert origin[fix[d]] == d;
    }
  }

  /** When every entry is walked, every new class named by `origin` is linked. */
  lemma RelinkDone(fix: map<nat, nat>, origin: map<nat, nat>, linked: map<nat, nat>, added: set<nat>)
    requires Relinking(fix, {}, linked, added)
    requires forall x | x in origin :: origin[x] in fix && fix[origin[x]] == x
    ensures linked == fix && origin.Keys <= added
  {
    forall x | x in origin ensures x in added {
      assert origin[x] in linked;
    }
  }

  /** Classes appended to the arena leave the linked list as it was. */
  lemma LinksGrow(chain: seq<nat>, at: map<nat, nat>, prev: seq<int>, next: seq<int>, head: int,
                  prev': seq<int>, next': seq<int>)
    requires Indexed(chain, at, |prev|) && Links(chain, prev, next, head) && |prev| == |next|
    requires |prev| <= |prev'| == |next'|
    requires forall c | 0 <= c < |prev| :: prev'[c] == prev[c] && next'[c] == next[c]
    ensures Indexed(chain, at, |prev'|) && Links(chain, prev', next', head)
  {
  }

  /** The positions after inserting `nc` at position `k`. */
  ghost function Shifted(at: map<nat, nat>, k: nat, nc: nat): map<nat, nat> {
    map d | d in at.Keys + {nc} :: if d == nc then k else if at[d] >= k then at[d] + 1 else at[d]
  }

  /** Inserting `nc` at position `k` shifts the later positions by one. */
  lemma InsertIndexed(chain: seq<nat>, at: map<nat, nat>, size: nat, k: nat, nc: nat)
    requires Indexed(chain, at, size) && k < |chain| && nc < size && nc !in at
    ensures Indexed(chain[..k] + [nc] + chain[k..], Shifted(at, k, nc), size)
  {
    var chain', at' := chain[..k] + [nc] + chain[k..], Shifted(at, k, nc);
    forall i | 0 <= i < |chain'| ensures chain'[i] in at' && at'[chain'[i]] == i {
      if i < k {
        assert chain'[i] == chain[i];
      } else if i > k {
        assert chain'[i] == chain[i - 1];
      }
    }
    forall d | d in at' ensures d < size && at'[d] < |chain'| && chain'[at'[d]] == d {
      if d != nc {
        if at[d] >= k {
          assert chain'[at[d] + 1] == chain[at[d]];
        } else {
          assert chain'[at[d]] == chain[at[d]];
        }
      }
    }
  }

  /** The `next` links after linking `nc` before the class at position `k`. */
  lemma InsertNext(chain: seq<nat>, at: map<nat, nat>, prev: seq<int>, next: seq<int>, head: int, k: nat, nc: nat,
                   next': seq<int>, head': int)
    requires Indexed(chain, at, |prev|) && Links(chain, prev, next, head) && |prev| == |next|
    requires k < |chain| && nc < |prev| && nc !in at
    requires k > 0 ==> head' == head && next' == next[chain[k - 1] := nc][nc := chain[k]]
    requires k == 0 ==> head' == nc && next' == next[nc := chain[k]]
    ensures var chain' := chain[..k] + [nc] + chain[k..];
      && head' == chain'[0] && next'[chain'[|chain'| - 1]] == Null
      && forall i {:trigger next'[chain'[i]]} | 0 <= i < |chain'| - 1 :: next'[chain'[i]] == chain'[i + 1]
  {
    var chain' := chain[..k] + [nc] + chain[k..];
    forall i | 0 <= i < |chain'| - 1 ensures next'[chain'[i]] == chain'[i + 1] {
      if i < k - 1 {
        assert chain'[i] == chain[i] && chain'[i + 1] == chain[i + 1];
        assert at[chain[i]] == i;
      } else if i > k {
        assert chain'[i] == chain[i - 1] && chain'[i + 1] == chain[i];
        assert at[chain[i - 1]] == i - 1;
      }
    }
    var last := |chain| - 1;
    assert chain'[|chain'| - 1] == chain[last];
    if k < last {
      assert at[chain[last]] == last;
    }
  }

  /** The `prev` links after linking `nc` before the class at position `k`. */
  lemma InsertPrev(chain: seq<nat>, at: map<nat, nat>, prev: seq<int>, next: seq<int>, head: int, k: nat, nc: nat,
                   prev': seq<int>)
    requires Indexed(chain, at, |prev|) && Links(chain, prev, next, head) && |prev| == |next|
    requires k < |chain| && nc < |prev| && nc !in at
    requires prev' == prev[nc := prev[chain[k]]][chain[k] := nc]
    ensures var chain' := chain[..k] + [nc] + chain[k..];
      && prev'[chain'[0]] == Null
      && forall i {:trigger prev'[chain'[i]]} | 0 < i < |chain'| :: prev'[chain'[i]] == chain'[i - 1]
  {
    var chain' := chain[..k] + [nc] + chain[k..];
    forall i | 0 < i < |chain'| ensures prev'[chain'[i]] == chain'[i - 1] {
      if i < k {
        assert chain'[i] == chain[i] && chain'[i - 1] == chain[i - 1];
        assert at[chain[i]] == i;
      } else if i > k + 1 {
        assert chain'[i] == chain[i - 1] && chain'[i - 1] == chain[i - 2];
        assert at[chain[i - 1]] == i - 1;
      }
    }
    if k > 0 {
      assert at[chain[0]] == 0;
    }
  }

  /**
   * Linking `nc` before the class at position `k`, as the relinking loop
   * does, rewrites at most four links and yields the list with `nc`
   * inserted at `k`.
   */
  lemma InsertLinks(chain: seq<nat>, at: map<nat, nat>, prev: seq<int>, next: seq<int>, head: int, k: nat, nc: nat,
                    prev': seq<int>, next': seq<int>, head': int)
    requires Indexed(chain, at, |prev|) && Links(chain, prev, next, head) && |prev| == |next|
    requires k < |chain| && nc < |prev| && nc !in at
    requires k > 0 ==> head' == head && next' == next[chain[k - 1] := nc][nc := chain[k]]
    requires k == 0 ==> head' == nc && next' == next[nc := chain[k]]
    requires prev' == prev[nc := prev[chain[k]]][chain[k] := nc]
    ensures Links(chain[..k] + [nc] + chain[k..], prev', next', head')
  {
    InsertNext(chain, at, prev, next, head, k, nc, next', head');
    InsertPrev(chain, at, prev, next, head, k, nc, prev');
    var chain' := chain[..k] + [nc] + chain[k..];
    forall i | 0 <= i < |chain'| ensures chain'[i] < |prev'| && chain'[i] < |next'| {
      if i > k {
        assert chain'[i] == chain[i - 1];
      } else if i < k {
        assert chain'[i] == chain[i];
      }
    }
  }

  /** Inserting before `c` skips a prefix that does not hold `c`. */
  lemma {:induction false} InsertPast(a: seq<nat>, b: seq<nat>, c: nat, x: nat)
    requires c !in a
    ensures Insert(a + b, c, x) == a + Insert(b, c, x)
  {
    if a != [] {
      assert (a + b)[0] == a[0] != c;
      assert (a + b)[1..] == a[1..] + b;
      assert c !in a[1..];
      InsertPast(a[1..], b, c, x);
      calc {
        Insert(a + b, c, x);
        [a[0]] + Insert(a[1..] + b, c, x);
        [a[0]] + (a[1..] + Insert(b, c, x));
        { assert a == [a[0]] + a[1..]; }
        a + Insert(b, c, x);
      }
    } else {
      assert a + b == b;
    }
  }

  /** An entry of `fix` for a class not in the list has no effect. */
  lemma {:induction false} RefineIgnores(s: seq<nat>, fix: map<nat, nat>, c: nat, x: nat)
    requires c !in s
    ensures Refine(s, fix) == Refine(s, fix[c := x])
  {
    if s != [] {
      RefineIgnores(s[1..], fix, c, x);
    }
  }

  /**
   * Linking one more entry `(c, x)` of `fix` inserts `x` before `c` in the
   * list refined so far, and the result is the list refined by the larger
   * map. Since the end result depends only on the map, the order in which
   * the entries of `fix` are linked does not matter.
   */
  lemma {:induction false} InsertRefine(s: seq<nat>, fix: map<nat, nat>, c: nat, x: nat)
    requires c !in fix && multiset(s)[c] <= 1
    requires forall d | d in fix :: fix[d] != c
    ensures Insert(Refine(s, fix), c, x) == Refine(s, fix[c := x])
  {
    if s != [] {
      assert s == [s[0]] + s[1..];
      assert multiset(s) == multiset([s[0]]) + multiset(s[1..]);
      var front := if s[0] in fix then [fix[s[0]], s[0]] else [s[0]];
      assert Refine(s, fix) == front + Refine(s[1..], fix);
      if s[0] == c {
        RefineIgnores(s[1..], fix, c, x);
      } else {
        InsertRefine(s[1..], fix, c, x);
        InsertPast(front, Refine(s[1..], fix), c, x);
      }
    }
  }

  /** `Older` distributes over concatenation. */
  lemma {:induction false} OlderAppend(a: seq<nat>, b: seq<nat>, n: nat)
    ensures Older(a + b, n) == Older(a, n) + Older(b, n)
  {
    if a != [] {
      assert (a + b)[0] == a[0];
      assert (a + b)[1..] == a[1..] + b;
      OlderAppend(a[1..], b, n);
      var front := if a[0] < n then [a[0]] else [];
      calc {
        Older(a + b, n);
        front + Older(a[1..] + b, n);
        front + (Older(a[1..], n) + Older(b, n));
        (front + Older(a[1..], n)) + Older(b, n);
        Older(a, n) + Older(b, n);
      }
    } else {
      assert a + b == b;
    }
  }

  /** Linking the new classes keeps the old classes in their old order. */
  lemma {:induction false} RefineKeepsOrder(s: seq<nat>, fix: map<nat, nat>, n: nat)
    requires forall i | 0 <= i < |s| :: s[i] < n
    requires forall c | c in fix :: fix[c] >= n
    ensures Older(Refine(s, fix), n) == s
  {
    if s != [] {
      var front := if s[0] in fix then [fix[s[0]], s[0]] else [s[0]];
      OlderAppend(front, Refine(s[1..], fix), n);
      if s[0] in fix {
        OlderAppend([fix[s[0]]], [s[0]], n);
      }
      RefineKeepsOrder(s[1..], fix, n);
    }
  }

  /** In the linked list, each new class sits immediately before the class it was split from. */
  lemma {:induction false} RefinePlacesBefore(s: seq<nat>, fix: map<nat, nat>, n: nat)
    requires forall i | 0 <= i < |s| :: s[i] < n
    requires forall c | c in fix :: fix[c] >= n
    ensures forall k | 0 <= k < |Refine(s, fix)| && Refine(s, fix)[k] >= n ::
              k + 1 < |Refine(s, fix)| && Refine(s, fix)[k + 1] in fix && fix[Refine(s, fix)[k + 1]] == Refine(s, fix)[k]
  {
    if s != [] {
      var front := if s[0] in fix then [fix[s[0]], s[0]] else [s[0]];
      var rest := Refine(s[1..], fix);
      var r := Refine(s, fix);
      assert r == front + rest;
      RefinePlacesBefore(s[1..], fix, n);
      forall k | 0 <= k < |r| && r[k] >= n
        ensures k + 1 < |r| && r[k + 1] in fix && fix[r[k + 1]] == r[k]
      {
        if k >= |front| {
          assert r[k] == rest[k - |front|];
          assert r[k + 1] == rest[k + 1 - |front|];
        }
      }
    }
  }

  /**
   * `r` is `before` relinked by a `fix` from classes numbered below `n` to
   * new classes numbered from `n`: the old classes keep their order and each
   * new class sits immediately before the class it was split from.
   */
  ghost predicate RelinkedBy(before: seq<nat>, r: seq<nat>, fix: map<nat, nat>, n: nat) {
    && (forall c | c in fix :: c < n <= fix[c])
    && Older(r, n) == before
    && (forall k | 0 <= k < |r| && r[k] >= n :: k + 1 < |r| && r[k + 1] in fix && fix[r[k + 1]] == r[k])
  }

  /** A sequence in which each element's position is recorded in `at` holds no element twice. */
  lemma {:induction false} PositionsOnce(s: seq<nat>, at: map<nat, nat>, c: nat)
    requires forall i | 0 <= i < |s| :: s[i] in at && at[s[i]] == i
    ensures multiset(s)[c] <= 1
  {
    if s != [] {
      var last := |s| - 1;
      assert s == s[..last] + [s[last]];
      assert multiset(s) == multiset(s[..last]) + multiset([s[last]]);
      PositionsOnce(s[..last], at, c);
      if s[last] == c {
        assert c !in s[..last] by {
          forall i | 0 <= i < last ensures s[..last][i] != c {
            assert at[s[i]] == i;
          }
        }
      }
    }
  }

  /** The `Label` nodes of `lex_p`, with the `label` field of every vertex. */
  class LabelList {
    /** `members[c]`: the keys of the `vertex_map` of class `c`. */
    var members: seq<set<Vertex>>
    var prev: seq<int>
    var next: seq<int>
    var head: int
    /** The class each vertex's `label` field names. */
    var classOf: map<Vertex, nat>
    /** The classes reachable from `head`, in list order. */
    ghost var chain: seq<nat>
    /** The position in `chain` of each linked class. */
    ghost var at: map<nat, nat>

    /** `prev` and `next` form the doubly linked list `chain`, starting at `head`. */
    ghost predicate Linked()
      reads this
    {
      && |prev| == |next| == |members|
      && Indexed(chain, at, |members|)
      && Links(chain, prev, next, head)
    }

    /** Every vertex is in exactly one class, the one its `label` field names. */
    ghost predicate Partitioned()
      reads this
    {
      PartitionOf(members, classOf)
    }

    /** The state between rounds: every class is linked. */
    ghost predicate Valid()
      reads this
    {
      Linked() && Partitioned() && forall c | 0 <= c < |members| :: c in at
    }

    /** The initial state: one class, the empty label, holding every vertex. */
    constructor (vs: set<Vertex>)
      ensures Valid() && classOf.Keys == vs
      ensures members == [vs] && chain == [0]
    {
      var rest := vs;
      var labelOf: map<Vertex, nat> := map[];
      while rest != {}
        invariant rest <= vs
        invariant forall v :: v in labelOf <==> v in vs && v !in rest
        invariant forall v | v in labelOf :: labelOf[v] == 0
        decreases |rest|
      {
        var v :| v in rest;
        labelOf := labelOf[v := 0];
        rest := rest - {v};
      }
      assert labelOf.Keys == vs;
      members := [vs];
      prev := [Null];
      next := [Null];
      head := 0;
      classOf := labelOf;
      chain := [0];
      at := map[0 := 0];
    }

    /**
     * The scan of one class's `vertex_map`: an unnumbered member if there is
     * one, and otherwise the answer that there is none.
     */
    method ScanClass(c: nat, unordered: set<Vertex>) returns (cur: Vertex, found: bool)
      requires c < |members|
      ensures found ==> cur in members[c] && cur in unordered
      ensures !found ==> forall v | v in members[c] :: v !in unordered
    {
      var rest := members[c];
      while rest != {}
        invariant rest <= members[c]
        invariant forall v | v in members[c] - rest :: v !in unordered
        decreases |rest|
      {
        var v :| v in rest;
        if v in unordered {
          return v, true;
        }
        rest := rest - {v};
      }
      return 0, false;
    }

    /**
     * The selection scan of a round: walks the list from `head` and returns
     * an unnumbered vertex of the first class that has one. While some
     * vertex is unnumbered the scan finds one, so `assert(cur_vertex)` holds.
     */
    method Select(unordered: set<Vertex>) returns (cur: Vertex)
      requires Valid() && unordered <= classOf.Keys && unordered != {}
      ensures cur in unordered
      ensures forall i, v | 0 <= i < at[classOf[cur]] && v in members[chain[i]] :: v !in unordered
    {
      var node := head;
      ghost var i := 0;
      var found := false;
      cur := 0;
      while !found && node != Null
        invariant 0 <= i <= |chain|
        invariant !found ==> node == if i < |chain| then chain[i] else Null
        invariant !found ==> forall j, v | 0 <= j < i && v in members[chain[j]] :: v !in unordered
        invariant found ==> 1 <= i && cur in unordered && cur in members[chain[i - 1]]
        invariant found ==> forall j, v | 0 <= j < i - 1 && v in members[chain[j]] :: v !in unordered
        decreases |chain| - i
      {
        cur, found := ScanClass(node, unordered);
        node := next[node];
        i := i + 1;
      }
      var v :| v in unordered;
      assert v in members[chain[at[classOf[v]]]];
      assert found;
      assert at[classOf[cur]] == i - 1;
    }

    /**
     * The refinement of a round: each unnumbered neighbour of `cur` leaves
     * its class for the new class `fix` makes for that class, created on
     * the first such neighbour. The new classes are not linked yet, and
     * `origin` maps each of them to the class it was split from.
     */
    method Split(g: AdjMap, cur: Vertex, unordered: set<Vertex>) returns (fix: map<nat, nat>, ghost origin: map<nat, nat>)
      requires Valid() && cur in g && unordered <= classOf.Keys
      modifies this`members, this`prev, this`next, this`classOf
      ensures Linked() && Partitioned()
      ensures old(|members|) <= |members| && classOf.Keys == old(classOf.Keys)
      ensures forall c | c in fix :: c < old(|members|) <= fix[c] && fix[c] in origin && origin[fix[c]] == c
      ensures forall x :: x in origin <==> old(|members|) <= x < |members|
      ensures forall x | x in origin :: origin[x] in fix && fix[origin[x]] == x && members[x] != {}
      ensures forall v | v in g[cur] && v in unordered :: old(classOf[v]) in fix
      ensures forall v | v in classOf ::
                classOf[v] == if v in g[cur] && v in unordered then fix[old(classOf[v])] else old(classOf[v])
    {
      ghost var n0 := |members|;
      var ms, cls := members, classOf;
      fix := map[];
      origin := map[];
      ghost var moved: set<Vertex> := {};
      var todo := g[cur];
      while todo != {}
        invariant unchanged(this) && todo <= g[cur]
        invariant Splitting(classOf, n0, ms, cls, fix, origin, moved)
        invariant forall v :: v in moved <==> v in g[cur] && v !in todo && v in unordered
        decreases |todo|
      {
        var w :| w in todo;
        if w in unordered {
          ms, cls, fix, origin := SplitStep(classOf, n0, ms, cls, fix, origin, moved, w);
          moved := moved + {w};
        }
        todo := todo - {w};
      }
      // The new classes start unlinked.
      var ps := prev + seq(|ms| - |prev|, _ => Null);
      var ns := next + seq(|ms| - |next|, _ => Null);
      LinksGrow(chain, at, prev, next, head, ps, ns);
      members, prev, next, classOf := ms, ps, ns, cls;
    }

    /**
     * The refinement of a round and the relinking that follows it: the
     * unnumbered neighbours of `cur` leave their classes for new ones, and
     * each new class is linked immediately before the class it came from.
     */
    method Refinement(g: AdjMap, cur: Vertex, unordered: set<Vertex>) returns (fix: map<nat, nat>)
      requires Valid() && cur in g && unordered <= classOf.Keys
      modifies this
      ensures Valid() && classOf.Keys == old(classOf.Keys)
      ensures chain == Refine(old(chain), fix)
      ensures RelinkedBy(old(chain), chain, fix, old(|members|))
      ensures forall v | v in g[cur] && v in unordered :: old(classOf[v]) in fix && classOf[v] == fix[old(classOf[v])]
      ensures forall v | v in classOf && !(v in g[cur] && v in unordered) :: classOf[v] == old(classOf[v])
    {
      ghost var n0, chain0 := |members|, chain;
      ghost var origin;
      fix, origin := Split(g, cur, unordered);
      LinkNew(fix, n0, origin);
      RefineKeepsOrder(chain0, fix, n0);
      RefinePlacesBefore(chain0, fix, n0);
    }

    /**
     * Links every new class immediately before the class it was split from,
     * walking the entries of `fix` in any order; the resulting list is
     * `Refine` of the old one, which does not depend on that order.
     */
    method LinkNew(fix: map<nat, nat>, ghost n0: nat, ghost origin: map<nat, nat>)
      requires Linked() && n0 <= |members|
      requires forall c | c in at :: c < n0
      requires forall c | 0 <= c < n0 :: c in at
      requires forall c | c in fix :: c < n0 <= fix[c] && fix[c] in origin && origin[fix[c]] == c
      requires forall x :: x in origin <==> n0 <= x < |members|
      requires forall x | x in origin :: origin[x] in fix && fix[origin[x]] == x
      modifies this`prev, this`next, this`head, this`chain, this`at
      ensures Linked() && forall c | 0 <= c < |members| :: c in at
      ensures chain == Refine(old(chain), fix)
    {
      ghost var chain0, at0 := chain, at;
      ghost var linked: map<nat, nat> := map[];
      ghost var added: set<nat> := {};
      var todo := fix.Keys;
      RefineNothing(chain0);
      while todo != {}
        invariant Linked() && Relinking(fix, todo, linked, added)
        invariant at.Keys == at0.Keys + added
        invariant chain == Refine(chain0, linked)
        decreases |todo|
      {
        var c :| c in todo;
        LinkOne(fix, origin, chain0, at0, todo, linked, added, c);
        linked := linked[c := fix[c]];
        added := added + {fix[c]};
        todo := todo - {c};
      }
      RelinkDone(fix, origin, linked, added);
    }

    /** One step of the relinking loop: links `fix[c]` before `c`. */
    method LinkOne(fix: map<nat, nat>, ghost origin: map<nat, nat>, ghost chain0: seq<nat>, ghost at0: map<nat, nat>,
                   ghost todo: set<nat>, ghost linked: map<nat, nat>, ghost added: set<nat>, c: nat)
      requires Linked() && Relinking(fix, todo, linked, added) && c in todo
      requires forall d | d in fix :: fix[d] < |members| && fix[d] in origin && origin[fix[d]] == d
      requires Indexed(chain0, at0, |members|) && c in at0 && forall d | d in fix :: fix[d] !in at0
      requires at.Keys == at0.Keys + added && chain == Refine(chain0, linked)
      modifies this`prev, this`next, this`head, this`chain, this`at
      ensures Linked() && Relinking(fix, todo - {c}, linked[c := fix[c]], added + {fix[c]})
      ensures at.Keys == at0.Keys + (added + {fix[c]}) && chain == Refine(chain0, linked[c := fix[c]])
    {
      PositionsOnce(chain0, at0, c);
      InsertRefine(chain0, linked, c, fix[c]);
      LinkBefore(c, fix[c]);
      RelinkStep(fix, origin, todo, linked, added, c);
    }

    /** Links the unlinked class `nc` immediately before the linked class `c`. */
    method LinkBefore(c: nat, nc: nat)
      requires Linked() && c in at && nc < |members| && nc !in at
      modifies this`prev, this`next, this`head, this`chain, this`at
      ensures Linked() && at.Keys == old(at.Keys) + {nc}
      ensures chain == Insert(old(chain), c, nc)
    {
      ghost var k := at[c];
      ghost var chain0, at0, prev0, next0, head0 := chain, at, prev, next, head;
      assert chain[k] == c;
      var p := prev[c];
      assert k > 0 ==> p == chain[k - 1];
      assert k == 0 ==> p == Null;
      if p != Null {
        next := next[p := nc];
      } else {
        head := nc;
      }
      next := next[nc := c];
      prev := prev[nc := p][c := nc];
      InsertLinks(chain0, at0, prev0, next0, head0, k, nc, prev, next, head);
      InsertIndexed(chain0, at0, |members|, k, nc);
      InsertAt(chain0, c, nc, k, at0);
      chain := chain0[..k] + [nc] + chain0[k..];
      at := Shifted(at0, k, nc);
    }
  }

  /** `Insert` at the one occurrence of `c` is insertion at its position. */
  lemma {:induction false} InsertAt(s: seq<nat>, c: nat, x: nat, k: nat, at: map<nat, nat>)
    requires k < |s| && s[k] == c
    requires forall i | 0 <= i < |s| :: s[i] in at && at[s[i]] == i
    ensures Insert(s, c, x) == s[..k] + [x] + s[k..]
  {
    if k > 0 {
      assert at[s[0]] == 0;
      var at' := map d | d in at && at[d] >= 1 :: at[d] - 1;
      forall i | 0 <= i < |s[1..]| ensures s[1..][i] in at' && at'[s[1..][i]] == i {
        assert at[s[i + 1]] == i + 1;
      }
      InsertAt(s[1..], c, x, k - 1, at');
      assert s[..k] == [s[0]] + s[1..][..k - 1];
      assert s[k..] == s[1..][k - 1..];
    }
  }

  /**
   * `lex_p`: numbers the vertices from the last position down, each time a
   * vertex of the first class that still holds an unnumbered vertex, and
   * refines the classes by its unnumbered neighbours. The result lists
   * every vertex exactly once.
   */
  method LexP(g: AdjMap) returns (order: VertexOrder)
    ensures IsOrderOf(order, g.Keys)
  {
    var n := |g.Keys|;
    var list := new LabelList(g.Keys);
    var unordered := g.Keys;
    var slots := new Vertex[n](_ => 0);
    ghost var at: map<Vertex, nat> := map[];
    // `index` counts down from n - 1; the `size_t` wrap-around below 0 ends the loop.
    var index: int := n - 1;
    while 0 <= index
      invariant -1 <= index < n == slots.Length
      invariant list.Valid() && list.classOf.Keys == g.Keys
      invariant Numbered(g.Keys, slots[..], index, unordered, at)
      decreases index
    {
      var cur := list.Select(unordered);
      NumberNext(g.Keys, slots[..], index, unordered, at, cur);
      unordered := unordered - {cur};
      slots[index] := cur;
      at := at[cur := index];
      var _ := list.Refinement(g, cur, unordered);
      index := index - 1;
    }
    order := slots[..];
    NumberedAll(g.Keys, order, at);
  }
}
