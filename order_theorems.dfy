/**
 * What `getExecutionOrder` guarantees, proved about `KahnOrder.ExecutionOrder`:
 * totality without duplicates, the fallback in caller order, dependency order
 * for queue-phase nodes, the effect of edges whose source or target is not a
 * node, and completeness of the queue phase on acyclic graphs.
 */
module OrderTheorems {
  import opened SeqUtil
  import opened Graph
  import opened KahnOrder

  /** The keys not in `reached`, in key order. */
  function Unreached(keys: seq<string>, reached: seq<string>): (r: seq<string>)
    ensures forall x :: x in r <==> x in keys && x !in reached
    ensures Distinct(keys) ==> Distinct(r)
    decreases |keys|
  {
    if keys == [] then []
    else
      var k := keys[|keys| - 1];
      var r := Unreached(keys[..|keys| - 1], reached);
      assert forall x :: x in keys <==> x in keys[..|keys| - 1] || x == k;
      if k !in reached then r + [k] else r
  }

  lemma {:induction false} UnreachedOfReached(keys: seq<string>, reached: seq<string>)
    requires forall i :: 0 <= i < |keys| ==> keys[i] in reached
    ensures Unreached(keys, reached) == []
    decreases |keys|
  {
    if keys != [] {
      UnreachedOfReached(keys[..|keys| - 1], reached);
    }
  }

  /** One more key: it is unreached exactly when it is not in `reached`. */
  lemma UnreachedGrows(keys: seq<string>, x: string, reached: seq<string>)
    ensures Unreached(keys + [x], reached) == if x in reached then Unreached(keys, reached) else Unreached(keys, reached) + [x]
  {
  }

  /** The fallback appends exactly the not-yet-emitted ids, in order of first occurrence. */
  lemma {:induction false} AppendMissingIsUnreached(acc: seq<string>, ids: seq<string>)
    ensures AppendMissing(acc, ids) == acc + Unreached(Dedup(ids), acc)
    decreases |ids|
  {
    if ids != [] {
      var init := ids[..|ids| - 1];
      var x := ids[|ids| - 1];
      AppendMissingIsUnreached(acc, init);
      var d := Dedup(init);
      var u := Unreached(d, acc);
      if x in d {
        assert x in acc + u;
      } else {
        UnreachedGrows(d, x, acc);
        assert x in acc + u <==> x in acc;
      }
    }
  }

  /**
   * Appending the unreached ids to any duplicate-free sequence of ids gives
   * every distinct id exactly once.
   */
  lemma FallbackCompletes(ids: seq<string>, qp: seq<string>)
    requires Distinct(qp)
    requires forall i :: 0 <= i < |qp| ==> qp[i] in ids
    ensures var order := qp + Unreached(Dedup(ids), qp);
            && Distinct(order)
            && (forall x :: x in order <==> x in ids)
            && |order| == |Elems(ids)|
  {
    var rest := Unreached(Dedup(ids), qp);
    var order := qp + rest;
    forall i, j | 0 <= i < j < |order|
      ensures order[i] != order[j]
    {
      if j >= |qp| && i < |qp| {
        assert order[i] in qp && order[j] in rest;
      }
    }
    assert Elems(order) == Elems(ids);
    DistinctCard(order);
  }

  /**
   * The order holds every distinct node id exactly once, whatever the edges
   * (self-loops, cycles, dangling ends), and is the queue-phase nodes followed
   * by the nodes the queue never reached, in caller order.
   */
  lemma ExecutionOrderIsPermutation(ids: seq<string>, edges: seq<Edge>)
    ensures var order := ExecutionOrder(ids, edges);
            && Distinct(order)
            && (forall x :: x in order <==> x in ids)
            && |order| == |Elems(ids)|
            && order == QueuePhase(ids, edges) + Unreached(Dedup(ids), QueuePhase(ids, edges))
  {
    QueuePhaseNodes(ids, edges);
    AppendMissingIsUnreached(QueuePhase(ids, edges), ids);
    FallbackCompletes(ids, QueuePhase(ids, edges));
  }

  /** When `order` starts with `qp`, a prefix in dependency order, every edge into one of its first `|qp|` ids has its source earlier. */
  lemma PrefixSourcesFirst(edges: seq<Edge>, ids: seq<string>, qp: seq<string>, order: seq<string>)
    requires SourcesFirst(edges, qp)
    requires forall i :: 0 <= i < |qp| ==> qp[i] in ids
    requires |qp| <= |order| && order[..|qp|] == qp
    ensures forall i, j :: 0 <= i < |qp| && 0 <= j < |edges| && edges[j].target == order[i] ==>
                             edges[j].source in order[..i] && edges[j].source in ids
  {
  }

  /** The order starts with the queue phase. */
  lemma QueuePhasePrefix(ids: seq<string>, edges: seq<Edge>)
    ensures |QueuePhase(ids, edges)| <= |ExecutionOrder(ids, edges)|
    ensures ExecutionOrder(ids, edges)[..|QueuePhase(ids, edges)|] == QueuePhase(ids, edges)
  {
    var qp := QueuePhase(ids, edges);
    AppendMissingIsUnreached(qp, ids);
    var rest := Unreached(Dedup(ids), qp);
    assert (qp + rest)[..|qp|] == qp;
  }

  /**
   * A node emitted by the queue phase comes after the source of every edge
   * into it; such a source is therefore a node.
   */
  lemma QueuePhaseRespectsDependencies(ids: seq<string>, edges: seq<Edge>)
    ensures |QueuePhase(ids, edges)| <= |ExecutionOrder(ids, edges)|
    ensures var order := ExecutionOrder(ids, edges);
            forall i, j :: 0 <= i < |QueuePhase(ids, edges)| && 0 <= j < |edges| && edges[j].target == order[i] ==>
                             edges[j].source in order[..i] && edges[j].source in ids
  {
    QueuePhaseNodes(ids, edges);
    QueuePhaseOrdered(ids, edges);
    QueuePhasePrefix(ids, edges);
    PrefixSourcesFirst(edges, ids, QueuePhase(ids, edges), ExecutionOrder(ids, edges));
  }

  /** In a sequence of ids in dependency order, no node has an incoming edge from an id that is no node. */
  lemma DanglingSourceExcludes(edges: seq<Edge>, ids: seq<string>, qp: seq<string>, j: nat)
    requires SourcesFirst(edges, qp)
    requires forall i :: 0 <= i < |qp| ==> qp[i] in ids
    requires j < |edges| && edges[j].source !in ids
    ensures edges[j].target !in qp
  {
  }

  /**
   * An edge from an id that is no node into a node keeps that node out of the
   * queue phase for good: it is placed by the fallback, after every queue-phase node.
   */
  lemma MissingSourceBlocksTarget(ids: seq<string>, edges: seq<Edge>, j: nat)
    requires j < |edges|
    requires edges[j].source !in ids && edges[j].target in ids
    ensures edges[j].target !in QueuePhase(ids, edges)
    ensures |QueuePhase(ids, edges)| <= |ExecutionOrder(ids, edges)|
    ensures edges[j].target in ExecutionOrder(ids, edges)[|QueuePhase(ids, edges)|..]
  {
    var qp := QueuePhase(ids, edges);
    QueuePhaseNodes(ids, edges);
    QueuePhaseOrdered(ids, edges);
    DanglingSourceExcludes(edges, ids, qp, j);
    AppendMissingIsUnreached(qp, ids);
    var rest := Unreached(Dedup(ids), qp);
    assert edges[j].target in rest;
    assert (qp + rest)[|qp|..] == rest;
  }

  /** Edges whose target is a node, in edge order. */
  function KnownTargets(edges: seq<Edge>, nodeIds: set<string>): (r: seq<Edge>)
    ensures forall j :: 0 <= j < |r| ==> r[j].target in nodeIds && r[j] in edges
    ensures forall e :: e in edges && e.target in nodeIds ==> e in r
    decreases |edges|
  {
    if edges == [] then []
    else
      var e := edges[|edges| - 1];
      var r := KnownTargets(edges[..|edges| - 1], nodeIds);
      assert forall x :: x in edges <==> x in edges[..|edges| - 1] || x == e;
      if e.target in nodeIds then r + [e] else r
  }

  /** The ids in `s` that are nodes, in order. */
  function KnownOnly(s: seq<string>, nodeIds: set<string>): seq<string>
    decreases |s|
  {
    if s == [] then []
    else
      var x := s[|s| - 1];
      KnownOnly(s[..|s| - 1], nodeIds) + (if x in nodeIds then [x] else [])
  }

  lemma {:induction false} PendingKnownTargets(edges: seq<Edge>, nodeIds: set<string>, done: set<string>, v: string)
    requires v in nodeIds
    ensures Pending(KnownTargets(edges, nodeIds), done, v) == Pending(edges, done, v)
    decreases |edges|
  {
    if edges != [] {
      var init := edges[..|edges| - 1];
      PendingKnownTargets(init, nodeIds, done, v);
      var r := KnownTargets(init, nodeIds);
      var e := edges[|edges| - 1];
      if e.target in nodeIds {
        assert (r + [e])[..|r + [e]| - 1] == r;
      }
    }
  }

  lemma {:induction false} TargetsKnownTargets(edges: seq<Edge>, nodeIds: set<string>, u: string)
    ensures Targets(KnownTargets(edges, nodeIds), u) == KnownOnly(Targets(edges, u), nodeIds)
    decreases |edges|
  {
    if edges != [] {
      var init := edges[..|edges| - 1];
      var e := edges[|edges| - 1];
      TargetsKnownTargets(init, nodeIds, u);
      var r := KnownTargets(init, nodeIds);
      if e.target in nodeIds {
        assert (r + [e])[..|r + [e]| - 1] == r;
      }
      var t := Targets(init, u);
      if e.source == u {
        assert (t + [e.target])[..|t + [e.target]| - 1] == t;
      } else {
        assert t + [] == t;
      }
    }
  }

  /** Relaxing a concatenation relaxes the first part, then the second. */
  lemma {:induction false} RelaxAppend(nodeIds: set<string>, inDegree: map<string, int>,
                                       a: seq<string>, b: seq<string>, queue: seq<string>)
    ensures var r := Relax(nodeIds, inDegree, a, queue);
            Relax(nodeIds, inDegree, a + b, queue) == Relax(nodeIds, r.0, b, r.1)
    decreases |a|
  {
    if a != [] {
      assert (a + b)[1..] == a[1..] + b;
      var v := a[0];
      var d := (if v in inDegree then inDegree[v] else 0) - 1;
      if v in nodeIds {
        RelaxAppend(nodeIds, inDegree[v := d], a[1..], b, if d == 0 then queue + [v] else queue);
      } else {
        RelaxAppend(nodeIds, inDegree, a[1..], b, queue);
      }
    } else {
      assert a + b == b;
    }
  }

  /** The relaxing loop skips ids that are not nodes. */
  lemma {:induction false} RelaxKnownOnly(nodeIds: set<string>, inDegree: map<string, int>,
                                          nbrs: seq<string>, queue: seq<string>)
    ensures Relax(nodeIds, inDegree, KnownOnly(nbrs, nodeIds), queue) == Relax(nodeIds, inDegree, nbrs, queue)
    decreases |nbrs|
  {
    if nbrs != [] {
      var init := nbrs[..|nbrs| - 1];
      var x := nbrs[|nbrs| - 1];
      assert nbrs == init + [x];
      RelaxKnownOnly(nodeIds, inDegree, init, queue);
      var r := Relax(nodeIds, inDegree, init, queue);
      RelaxAppend(nodeIds, inDegree, init, [x], queue);
      var k := KnownOnly(init, nodeIds);
      if x in nodeIds {
        RelaxAppend(nodeIds, inDegree, k, [x], queue);
      } else {
        assert KnownOnly(nbrs, nodeIds) == k + [] == k;
        assert [x][1..] == [];
        assert Relax(nodeIds, r.0, [x], r.1) == Relax(nodeIds, r.0, [], r.1) == (r.0, r.1) == r;
      }
    }
  }

  lemma {:induction false} DrainKnownTargets(nodeIds: set<string>, edges: seq<Edge>, s: Frontier, fuel: nat)
    ensures Drain(nodeIds, KnownTargets(edges, nodeIds), s, fuel) == Drain(nodeIds, edges, s, fuel)
    decreases fuel
  {
    if s.queue != [] && fuel > 0 {
      var u := s.queue[0];
      if u in nodeIds {
        TargetsKnownTargets(edges, nodeIds, u);
        RelaxKnownOnly(nodeIds, s.inDegree, Targets(edges, u), s.queue[1..]);
      }
      assert Step(nodeIds, KnownTargets(edges, nodeIds), s) == Step(nodeIds, edges, s);
      DrainKnownTargets(nodeIds, edges, Step(nodeIds, edges, s), fuel - 1);
    }
  }

  /** Edges whose target is not a node change nothing: dropping them gives the same order. */
  lemma IgnoresEdgesToUnknownTargets(ids: seq<string>, edges: seq<Edge>)
    ensures ExecutionOrder(ids, KnownTargets(edges, Elems(ids))) == ExecutionOrder(ids, edges)
  {
    var n := Elems(ids);
    var known := KnownTargets(edges, n);
    forall v | v in n
      ensures InDegree(known, v) == InDegree(edges, v)
    {
      PendingKnownTargets(edges, n, {}, v);
    }
    assert Seed(ids, known) == Seed(ids, edges) by {
      ZeroInDegreeAgree(Dedup(ids), known, edges, n);
    }
    assert Initial(ids, known) == Initial(ids, edges);
    DrainKnownTargets(n, edges, Initial(ids, edges), |n|);
  }

  lemma {:induction false} ZeroInDegreeAgree(keys: seq<string>, e1: seq<Edge>, e2: seq<Edge>, nodeIds: set<string>)
    requires forall i :: 0 <= i < |keys| ==> keys[i] in nodeIds
    requires forall v :: v in nodeIds ==> InDegree(e1, v) == InDegree(e2, v)
    ensures ZeroInDegree(keys, e1) == ZeroInDegree(keys, e2)
    decreases |keys|
  {
    if keys != [] {
      ZeroInDegreeAgree(keys[..|keys| - 1], e1, e2, nodeIds);
    }
  }

  /** A closed walk of length at least one through nodes only. */
  ghost predicate IsCycle(nodeIds: set<string>, edges: seq<Edge>, p: seq<string>) {
    && |p| >= 2
    && p[0] == p[|p| - 1]
    && (forall i :: 0 <= i < |p| ==> p[i] in nodeIds)
    && (forall i :: 0 <= i < |p| - 1 ==> Edge(p[i], p[i + 1]) in edges)
  }

  ghost predicate Acyclic(nodeIds: set<string>, edges: seq<Edge>) {
    forall p :: !IsCycle(nodeIds, edges, p)
  }

  /** Every edge into a node comes from a node. */
  ghost predicate NoDanglingSources(nodeIds: set<string>, edges: seq<Edge>) {
    forall j :: 0 <= j < |edges| && edges[j].target in nodeIds ==> edges[j].source in nodeIds
  }

  /** `SourcesFirst` for the edges between two nodes only: each such edge's source comes before its target. */
  ghost predicate NodeSourcesFirst(nodeIds: set<string>, edges: seq<Edge>, s: seq<string>) {
    forall i, j :: 0 <= i < |s| && 0 <= j < |edges| && edges[j].source in nodeIds && edges[j].target == s[i] ==>
                     edges[j].source in s[..i]
  }

  /** Every element of `r` has a predecessor in `r` along some edge. */
  ghost predicate NoStart(edges: seq<Edge>, r: set<string>) {
    forall x {:trigger HasPredecessor(edges, r, x)} :: x in r ==> HasPredecessor(edges, r, x)
  }

  ghost predicate HasPredecessor(edges: seq<Edge>, r: set<string>, x: string) {
    exists y :: y in r && Edge(y, x) in edges
  }

  ghost predicate IsWalk(edges: seq<Edge>, p: seq<string>) {
    forall i :: 0 <= i < |p| - 1 ==> Edge(p[i], p[i + 1]) in edges
  }

  /** When every node of `r` has a predecessor in `r`, a walk of any length ends at `w` inside `r`. */
  lemma {:induction false} WalkBack(edges: seq<Edge>, r: set<string>, w: string, n: nat) returns (p: seq<string>)
    requires w in r
    requires NoStart(edges, r)
    ensures |p| == n + 1 && p[n] == w
    ensures forall i :: 0 <= i < |p| ==> p[i] in r
    ensures IsWalk(edges, p)
  {
    if n == 0 {
      p := [w];
    } else {
      var q := WalkBack(edges, r, w, n - 1);
      assert q[0] in r && HasPredecessor(edges, r, q[0]);
      var src :| src in r && Edge(src, q[0]) in edges;
      p := [src] + q;
      forall i | 0 <= i < |p|
        ensures p[i] in r
      {
        if i > 0 {
          assert p[i] == q[i - 1];
        }
      }
      forall i | 0 <= i < |p| - 1
        ensures Edge(p[i], p[i + 1]) in edges
      {
        if i > 0 {
          assert p[i] == q[i - 1] && p[i + 1] == q[i];
        }
      }
    }
  }

  /** A walk that is longer than the set it stays in contains a cycle. */
  lemma CycleInLongWalk(nodeIds: set<string>, edges: seq<Edge>, r: set<string>, p: seq<string>) returns (c: seq<string>)
    requires r <= nodeIds
    requires forall i :: 0 <= i < |p| ==> p[i] in r
    requires IsWalk(edges, p)
    requires |p| > |r|
    ensures IsCycle(nodeIds, edges, c)
  {
    var i, k := Pigeonhole(p, r);
    c := p[i..k + 1];
    forall m | 0 <= m < |c| - 1
      ensures Edge(c[m], c[m + 1]) in edges
    {
      assert c[m] == p[i + m] && c[m + 1] == p[i + m + 1];
    }
  }

  /** Without dangling sources, every node missing from `qp` has a missing node as predecessor, if each has a missing source. */
  lemma MissedNodesHavePredecessors(nodeIds: set<string>, edges: seq<Edge>, qp: seq<string>)
    requires NoDanglingSources(nodeIds, edges)
    requires forall v :: v in nodeIds && v !in qp ==>
               exists j :: 0 <= j < |edges| && edges[j].target == v && edges[j].source !in qp
    ensures NoStart(edges, nodeIds - Elems(qp))
  {
  }

  /** Without cycles, no non-empty set of nodes has a predecessor inside itself for each of its members. */
  lemma AcyclicHasStart(nodeIds: set<string>, edges: seq<Edge>, r: set<string>)
    requires Acyclic(nodeIds, edges)
    requires r <= nodeIds
    requires NoStart(edges, r)
    ensures r == {}
  {
    if r != {} {
      var w :| w in r;
      var p := WalkBack(edges, r, w, |r|);
      var c := CycleInLongWalk(nodeIds, edges, r, p);
      assert false;
    }
  }

  /** On such a graph the queue phase reaches every node. */
  lemma AcyclicQueuePhaseComplete(ids: seq<string>, edges: seq<Edge>)
    requires Acyclic(Elems(ids), edges)
    requires NoDanglingSources(Elems(ids), edges)
    ensures Elems(ids) <= Elems(QueuePhase(ids, edges))
  {
    var n := Elems(ids);
    var qp := QueuePhase(ids, edges);
    QueuePhaseClosed(ids, edges);
    assert forall v :: v in n ==> v in ids;
    MissedNodesHavePredecessors(n, edges, qp);
    AcyclicHasStart(n, edges, n - Elems(qp));
    assert forall x :: x in n ==> x in (n - Elems(qp)) || x in Elems(qp);
  }

  /**
   * On a graph with no cycle among its nodes and no edge from a missing
   * source into a node, the queue phase emits every node, so the fallback adds
   * nothing and every edge's source precedes its target in the order.
   */
  lemma AcyclicOrderIsTopological(ids: seq<string>, edges: seq<Edge>)
    requires Acyclic(Elems(ids), edges)
    requires NoDanglingSources(Elems(ids), edges)
    ensures ExecutionOrder(ids, edges) == QueuePhase(ids, edges)
    ensures SourcesFirst(edges, ExecutionOrder(ids, edges))
  {
    var qp := QueuePhase(ids, edges);
    AcyclicQueuePhaseComplete(ids, edges);
    QueuePhaseOrdered(ids, edges);
    AppendMissingIsUnreached(qp, ids);
    var keys := Dedup(ids);
    forall i | 0 <= i < |keys|
      ensures keys[i] in qp
    {
      assert keys[i] in Elems(ids);
    }
    UnreachedOfReached(keys, qp);
    assert qp + [] == qp;
  }

  /**
   * No prefix of a sequence in dependency order holds a node of a cycle: the
   * first such node would need its predecessor on the cycle to come earlier.
   */
  lemma {:induction false} CycleAvoidsOrdered(nodeIds: set<string>, edges: seq<Edge>, qp: seq<string>, p: seq<string>, m: nat)
    requires SourcesFirst(edges, qp)
    requires IsCycle(nodeIds, edges, p)
    requires m <= |qp|
    ensures forall i :: 0 <= i < |p| ==> p[i] !in qp[..m]
    decreases m
  {
    if m > 0 {
      CycleAvoidsOrdered(nodeIds, edges, qp, p, m - 1);
      assert qp[..m] == qp[..m - 1] + [qp[m - 1]];
      forall i | 0 <= i < |p|
        ensures p[i] != qp[m - 1]
      {
        // The cycle predecessor of position i; position 0 closes the cycle.
        var j := if i == 0 then |p| - 2 else i - 1;
        assert p[j + 1] == p[i];
        var e :| 0 <= e < |edges| && edges[e] == Edge(p[j], p[j + 1]);
        assert edges[e].source !in qp[..m - 1];
      }
    }
  }

  /**
   * A node on a cycle never enters the queue, because its counter keeps the
   * edge from its predecessor on the cycle.  The fallback places it, after
   * every queue-phase node.
   */
  lemma CycleNodesAreFallback(ids: seq<string>, edges: seq<Edge>, p: seq<string>)
    requires IsCycle(Elems(ids), edges, p)
    ensures forall i :: 0 <= i < |p| ==> p[i] !in QueuePhase(ids, edges)
    ensures |QueuePhase(ids, edges)| <= |ExecutionOrder(ids, edges)|
    ensures forall i :: 0 <= i < |p| ==> p[i] in ExecutionOrder(ids, edges)[|QueuePhase(ids, edges)|..]
  {
    var qp := QueuePhase(ids, edges);
    QueuePhaseOrdered(ids, edges);
    CycleAvoidsOrdered(Elems(ids), edges, qp, p, |qp|);
    assert qp[..|qp|] == qp;
    AppendMissingIsUnreached(qp, ids);
    var rest := Unreached(Dedup(ids), qp);
    assert (qp + rest)[|qp|..] == rest;
    forall i | 0 <= i < |p|
      ensures p[i] in rest
    {
      assert p[i] in Elems(ids);
    }
  }

  /** The first-occurrence order of two different ids is the pair itself. */
  lemma DedupPair(a: string, b: string)
    requires a != b
    ensures Dedup([a, b]) == [a, b]
    ensures Elems([a, b]) == {a, b}
  {
    var ab := [a, b];
    assert ab[..|ab| - 1] == [a] && ab[|ab| - 1] == b;
    assert [a][..|[a]| - 1] == [] && [a][|[a]| - 1] == a;
    assert Dedup([a]) == [a];
    assert Elems(ab) == {a, b};
  }

  /**
   * When every node outside the initial queue has an incoming edge from an
   * id that is no node, the queue phase emits exactly the initial queue.
   */
  lemma QueuePhaseIsSeed(ids: seq<string>, edges: seq<Edge>)
    requires forall v :: v in ids && v !in Seed(ids, edges) ==>
               exists j :: 0 <= j < |edges| && edges[j].target == v && edges[j].source !in ids
    ensures QueuePhase(ids, edges) == Seed(ids, edges)
  {
    var qp := QueuePhase(ids, edges);
    var seed := Seed(ids, edges);
    QueuePhaseNodes(ids, edges);
    QueuePhaseOrdered(ids, edges);
    QueuePhaseSeedFirst(ids, edges);
    forall j | 0 <= j < |edges| && edges[j].source !in ids
      ensures edges[j].target !in qp
    {
      DanglingSourceExcludes(edges, ids, qp, j);
    }
    assert forall i :: 0 <= i < |qp| ==> qp[i] in Elems(seed);
    DistinctWithin(qp, Elems(seed));
    DistinctCard(seed);
    assert qp == qp[..|seed|];
  }

  /** With no edges, two different nodes run in list order. */
  lemma TwoIsolatedNodesKeepListOrder(a: string, b: string)
    requires a != b
    ensures ExecutionOrder([a, b], []) == [a, b]
  {
    var ids := [a, b];
    SeedOfIsolatedPair(a, b);
    QueuePhaseIsSeed(ids, []);
    AppendMissingIsUnreached(ids, ids);
    UnreachedOfReached(Dedup(ids), ids);
    assert ids + [] == ids;
  }

  lemma SeedOfIsolatedPair(a: string, b: string)
    requires a != b
    ensures Dedup([a, b]) == [a, b]
    ensures Seed([a, b], []) == [a, b]
  {
    DedupPair(a, b);
    var ab := [a, b];
    assert ab[..|ab| - 1] == [a] && ab[|ab| - 1] == b;
    assert [a][..|[a]| - 1] == [] && [a][|[a]| - 1] == a;
    assert InDegree([], a) == 0 && InDegree([], b) == 0;
    assert ZeroInDegree([a], []) == [a];
    assert ZeroInDegree(ab, []) == [a, b];
  }

  /**
   * Adding an edge x -> a, whose source x is no node, moves a behind b: the
   * order is not the one obtained by dropping the edge.
   */
  lemma DanglingSourceReordersNodes(a: string, b: string, x: string)
    requires a != b && x != a && x != b
    ensures ExecutionOrder([a, b], [Edge(x, a)]) == [b, a]
  {
    var ids := [a, b];
    var edges := [Edge(x, a)];
    SeedOfDanglingPair(a, b, x);
    assert edges[0].target == a;
    QueuePhaseIsSeed(ids, edges);
    AppendMissingIsUnreached([b], ids);
    UnreachedOfDanglingPair(a, b);
  }

  lemma SeedOfDanglingPair(a: string, b: string, x: string)
    requires a != b && x != a && x != b
    ensures Dedup([a, b]) == [a, b]
    ensures Seed([a, b], [Edge(x, a)]) == [b]
  {
    DedupPair(a, b);
    var edges := [Edge(x, a)];
    assert edges[..|edges| - 1] == [];
    assert InDegree(edges, a) == Pending([], {}, a) + 1 == 1;
    assert InDegree(edges, b) == Pending([], {}, b) + 0 == 0;
    var ab := [a, b];
    assert ab[..|ab| - 1] == [a] && ab[|ab| - 1] == b;
    assert [a][..|[a]| - 1] == [] && [a][|[a]| - 1] == a;
    assert ZeroInDegree([a], edges) == [];
    assert ZeroInDegree(ab, edges) == [b];
  }

  lemma UnreachedOfDanglingPair(a: string, b: string)
    requires a != b
    ensures Unreached([a, b], [b]) == [a]
  {
    var ab := [a, b];
    assert ab[..|ab| - 1] == [a] && ab[|ab| - 1] == b;
    assert [a][..|[a]| - 1] == [] && [a][|[a]| - 1] == a;
    assert Unreached([a], [b]) == [a];
  }

  /**
   * Without `NoDanglingSources` an acyclic graph need not be ordered
   * topologically: with nodes [b, a] and edges x -> a, a -> b, where x is no
   * node, neither node enters the queue, and the fallback runs b before a,
   * against the edge a -> b.
   */
  lemma DanglingSourceBreaksTopological(a: string, b: string, x: string)
    requires a != b && x != a && x != b
    ensures Acyclic(Elems([b, a]), [Edge(x, a), Edge(a, b)])
    ensures ExecutionOrder([b, a], [Edge(x, a), Edge(a, b)]) == [b, a]
    ensures !NodeSourcesFirst(Elems([b, a]), [Edge(x, a), Edge(a, b)], ExecutionOrder([b, a], [Edge(x, a), Edge(a, b)]))
  {
    var ids := [b, a];
    var edges := [Edge(x, a), Edge(a, b)];
    forall p | IsCycle(Elems(ids), edges, p)
      ensures false
    {
      WalkOfBlockedPair(a, b, x, p);
    }
    SeedOfBlockedPair(a, b, x);
    assert QueuePhase(ids, edges) == [];
    AppendMissingIsUnreached([], ids);
    UnreachedOfNone(b, a);
    var order := ExecutionOrder(ids, edges);
    assert edges[1].source in Elems(ids);
    assert edges[1].target == order[0] && edges[1].source !in order[..0];
  }

  /** The only edge between the nodes is a -> b: a walk of them starts at a and ends at b. */
  lemma WalkOfBlockedPair(a: string, b: string, x: string, p: seq<string>)
    requires a != b && x != a && x != b
    requires |p| >= 2 && forall i :: 0 <= i < |p| ==> p[i] in Elems([b, a])
    requires IsWalk([Edge(x, a), Edge(a, b)], p)
    ensures p[0] == a && p[|p| - 1] == b
  {
    assert Edge(p[0], p[1]) in [Edge(x, a), Edge(a, b)];
    assert Edge(p[|p| - 2], p[|p| - 1]) in [Edge(x, a), Edge(a, b)];
  }

  lemma SeedOfBlockedPair(a: string, b: string, x: string)
    requires a != b && x != a && x != b
    ensures Dedup([b, a]) == [b, a]
    ensures Seed([b, a], [Edge(x, a), Edge(a, b)]) == []
  {
    DedupPair(b, a);
    var edges := [Edge(x, a), Edge(a, b)];
    var e1 := edges[..|edges| - 1];
    assert e1 == [Edge(x, a)] && e1[..|e1| - 1] == [];
    assert InDegree(edges, a) == Pending(e1, {}, a) + 0 == Pending([], {}, a) + 1 + 0;
    assert InDegree(edges, b) == Pending(e1, {}, b) + 1;
    var ba := [b, a];
    assert ba[..|ba| - 1] == [b] && ba[|ba| - 1] == a;
    assert [b][..|[b]| - 1] == [] && [b][|[b]| - 1] == b;
    assert ZeroInDegree([b], edges) == [];
    assert ZeroInDegree(ba, edges) == [];
  }

  lemma UnreachedOfNone(b: string, a: string)
    ensures Unreached([b, a], []) == [b, a]
  {
    var ba := [b, a];
    assert ba[..|ba| - 1] == [b] && ba[|ba| - 1] == a;
    assert [b][..|[b]| - 1] == [] && [b][|[b]| - 1] == b;
    assert Unreached([b], []) == [b];
  }
}
