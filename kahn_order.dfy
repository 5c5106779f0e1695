/**
 * The execution order of `getExecutionOrder` as pure functions: in-degree
 * counting, FIFO draining of the zero-in-degree queue (Kahn's algorithm), and
 * the fallback that appends every node the queue never reached.  `Inv` is the
 * invariant of the draining loop; `StepPreservesInv` and `DrainFacts` prove it.
 */
module KahnOrder {
  import opened SeqUtil
  import opened Graph

  /**
   * Number of edges into `v` whose source is not in `done`.  An edge from a
   * source that names no node never leaves this count.
   */
  function Pending(edges: seq<Edge>, done: set<string>, v: string): nat
    decreases |edges|
  {
    if edges == [] then 0
    else
      var e := edges[|edges| - 1];
      Pending(edges[..|edges| - 1], done, v) + (if e.target == v && e.source !in done then 1 else 0)
  }

  /** The in-degree the source computes for a present node: every edge into it, whatever its source. */
  function InDegree(edges: seq<Edge>, v: string): nat {
    Pending(edges, {}, v)
  }

  /** The adjacency list of `u`: the targets of its outgoing edges, in edge order. */
  function Targets(edges: seq<Edge>, u: string): seq<string>
    decreases |edges|
  {
    if edges == [] then []
    else
      var e := edges[|edges| - 1];
      Targets(edges[..|edges| - 1], u) + (if e.source == u then [e.target] else [])
  }

  /** `adj.get(u) || []`: only node ids have an adjacency entry. */
  function Neighbors(nodeIds: set<string>, edges: seq<Edge>, u: string): seq<string> {
    if u in nodeIds then Targets(edges, u) else []
  }

  /** The loop state: the FIFO queue, the order emitted so far and the in-degree counters. */
  datatype Frontier = Frontier(queue: seq<string>, order: seq<string>, inDegree: map<string, int>)

  /**
   * The inner loop over the neighbours of a dequeued node: a neighbour that is
   * not a node is skipped; otherwise its counter is decremented and, when the
   * counter becomes exactly 0, the neighbour is appended to the queue.
   */
  function Relax(nodeIds: set<string>, inDegree: map<string, int>, nbrs: seq<string>, queue: seq<string>)
    : (map<string, int>, seq<string>)
    decreases |nbrs|
  {
    if nbrs == [] then (inDegree, queue)
    else if nbrs[0] !in nodeIds then Relax(nodeIds, inDegree, nbrs[1..], queue)
    else
      var v := nbrs[0];
      var d := (if v in inDegree then inDegree[v] else 0) - 1;
      Relax(nodeIds, inDegree[v := d], nbrs[1..], if d == 0 then queue + [v] else queue)
  }

  /** One iteration of the draining loop: dequeue the head, emit it, relax its neighbours. */
  function Step(nodeIds: set<string>, edges: seq<Edge>, s: Frontier): Frontier
    requires s.queue != []
  {
    var u := s.queue[0];
    var r := Relax(nodeIds, s.inDegree, Neighbors(nodeIds, edges, u), s.queue[1..]);
    Frontier(r.1, s.order + [u], r.0)
  }

  /** The draining loop, run until the queue is empty (or `fuel` steps, which `DrainFacts` shows suffice). */
  function Drain(nodeIds: set<string>, edges: seq<Edge>, s: Frontier, fuel: nat): Frontier
    decreases fuel
  {
    if s.queue == [] || fuel == 0 then s
    else Drain(nodeIds, edges, Step(nodeIds, edges, s), fuel - 1)
  }

  /** The keys of `keys` whose in-degree is 0, in key order: the initial queue. */
  function ZeroInDegree(keys: seq<string>, edges: seq<Edge>): (r: seq<string>)
    ensures forall x :: x in r <==> x in keys && InDegree(edges, x) == 0
    ensures Distinct(keys) ==> Distinct(r)
    decreases |keys|
  {
    if keys == [] then []
    else
      var k := keys[|keys| - 1];
      var r := ZeroInDegree(keys[..|keys| - 1], edges);
      assert forall x :: x in keys <==> x in keys[..|keys| - 1] || x == k;
      if InDegree(edges, k) == 0 then r + [k] else r
  }

  /** The initial queue: zero-in-degree nodes in `Map` insertion order, i.e. first occurrence in the node list. */
  function Seed(ids: seq<string>, edges: seq<Edge>): seq<string> {
    ZeroInDegree(Dedup(ids), edges)
  }

  function Initial(ids: seq<string>, edges: seq<Edge>): Frontier {
    Frontier(Seed(ids, edges), [], map v | v in Elems(ids) :: InDegree(edges, v))
  }

  /** The nodes emitted by the queue phase, in emission order. */
  function QueuePhase(ids: seq<string>, edges: seq<Edge>): seq<string> {
    Drain(Elems(ids), edges, Initial(ids, edges), |Elems(ids)|).order
  }

  /** The fallback loop: append, in list order, every id not yet in `acc`. */
  function AppendMissing(acc: seq<string>, ids: seq<string>): seq<string>
    decreases |ids|
  {
    if ids == [] then acc
    else
      var a := AppendMissing(acc, ids[..|ids| - 1]);
      if ids[|ids| - 1] in a then a else a + [ids[|ids| - 1]]
  }

  /** `getExecutionOrder(nodes, edges)` for the node ids `ids`. */
  function ExecutionOrder(ids: seq<string>, edges: seq<Edge>): seq<string> {
    AppendMissing(QueuePhase(ids, edges), ids)
  }

  /** Every edge into the node at position i has its source strictly earlier. */
  ghost predicate SourcesFirst(edges: seq<Edge>, s: seq<string>) {
    forall i, j :: 0 <= i < |s| && 0 <= j < |edges| && edges[j].target == s[i] ==> edges[j].source in s[..i]
  }

  /**
   * The invariant of the draining loop.  `order + queue` is every node ever
   * enqueued, each once; a counter is the number of edges into its node whose
   * source has not been emitted yet (so it never goes below 0); a node has been
   * enqueued exactly when its counter is 0; and each enqueued node comes after
   * the sources of all its incoming edges.
   */
  ghost predicate Inv(nodeIds: set<string>, edges: seq<Edge>, s: Frontier) {
    var seen := s.order + s.queue;
    && Distinct(seen)
    && (forall i :: 0 <= i < |seen| ==> seen[i] in nodeIds)
    && s.inDegree.Keys == nodeIds
    && (forall v :: v in nodeIds ==> s.inDegree[v] == Pending(edges, Elems(s.order), v))
    && (forall v :: v in nodeIds ==> (v in seen <==> s.inDegree[v] == 0))
    && SourcesFirst(edges, seen)
  }

  /** All edges into `v` come from `done` exactly when none is pending. */
  lemma {:induction false} PendingZero(edges: seq<Edge>, done: set<string>, v: string)
    ensures Pending(edges, done, v) == 0 <==>
            forall j :: 0 <= j < |edges| && edges[j].target == v ==> edges[j].source in done
    decreases |edges|
  {
    if edges != [] {
      var init := edges[..|edges| - 1];
      PendingZero(init, done, v);
      assert forall j :: 0 <= j < |init| ==> edges[j] == init[j];
    }
  }

  /** Emitting `u` removes from the pending count of `v` exactly the edges u -> v. */
  lemma {:induction false} PendingSplit(edges: seq<Edge>, done: set<string>, u: string, v: string)
    requires u !in done
    ensures Pending(edges, done, v) == Pending(edges, done + {u}, v) + multiset(Targets(edges, u))[v]
    decreases |edges|
  {
    if edges != [] {
      PendingSplit(edges[..|edges| - 1], done, u, v);
    }
  }

  /** Each counter is its pending count plus the occurrences of its node among the neighbours still to relax. */
  ghost predicate Tally(nodeIds: set<string>, inDegree: map<string, int>, pending: map<string, nat>, nbrs: seq<string>) {
    && inDegree.Keys == nodeIds
    && (forall v :: v in nodeIds ==> v in pending && inDegree[v] == pending[v] + multiset(nbrs)[v])
  }

  /** `seen` holds each node at most once, only nodes, and exactly the nodes whose counter is 0. */
  ghost predicate Enqueued(nodeIds: set<string>, seen: seq<string>, inDegree: map<string, int>)
    requires inDegree.Keys == nodeIds
  {
    && Distinct(seen)
    && (forall i :: 0 <= i < |seen| ==> seen[i] in nodeIds)
    && (forall v :: v in nodeIds ==> (v in seen <==> inDegree[v] == 0))
  }

  /** Relaxing a first neighbour that is a node takes it off its own tally, which was at least 1. */
  lemma RelaxOneTally(nodeIds: set<string>, pending: map<string, nat>, inDegree: map<string, int>, nbrs: seq<string>)
    requires nbrs != [] && nbrs[0] in nodeIds
    requires Tally(nodeIds, inDegree, pending, nbrs)
    ensures inDegree[nbrs[0]] >= 1
    ensures Tally(nodeIds, inDegree[nbrs[0] := inDegree[nbrs[0]] - 1], pending, nbrs[1..])
  {
    assert nbrs == [nbrs[0]] + nbrs[1..];
    assert multiset(nbrs) == multiset([nbrs[0]]) + multiset(nbrs[1..]);
  }

  /** Relaxing a first neighbour that is a node decrements its counter and enqueues it when the counter reaches 0. */
  lemma RelaxHead(nodeIds: set<string>, inDegree: map<string, int>, nbrs: seq<string>, queue: seq<string>)
    requires nbrs != [] && nbrs[0] in nodeIds && nbrs[0] in inDegree
    ensures var v := nbrs[0];
            var d := inDegree[v] - 1;
            Relax(nodeIds, inDegree, nbrs, queue) == Relax(nodeIds, inDegree[v := d], nbrs[1..], if d == 0 then queue + [v] else queue)
  {
  }

  /** A first neighbour that is not a node is passed over. */
  lemma RelaxSkip(nodeIds: set<string>, inDegree: map<string, int>, nbrs: seq<string>, queue: seq<string>)
    requires nbrs != [] && nbrs[0] !in nodeIds
    ensures Relax(nodeIds, inDegree, nbrs, queue) == Relax(nodeIds, inDegree, nbrs[1..], queue)
  {
  }

  /** A first neighbour that is not a node leaves every tally as it is. */
  lemma TallySkip(nodeIds: set<string>, inDegree: map<string, int>, pending: map<string, nat>, nbrs: seq<string>)
    requires nbrs != [] && nbrs[0] !in nodeIds
    requires Tally(nodeIds, inDegree, pending, nbrs)
    ensures Tally(nodeIds, inDegree, pending, nbrs[1..])
  {
    assert nbrs == [nbrs[0]] + nbrs[1..];
    assert multiset(nbrs) == multiset([nbrs[0]]) + multiset(nbrs[1..]);
  }

  /** Relaxing a first neighbour `v` that is a node: it is enqueued iff its counter reaches 0, and then for the only time. */
  lemma RelaxOne(nodeIds: set<string>, pending: map<string, nat>, order: seq<string>,
                 inDegree: map<string, int>, nbrs: seq<string>, queue: seq<string>)
    requires nbrs != [] && nbrs[0] in nodeIds
    requires Tally(nodeIds, inDegree, pending, nbrs)
    requires Enqueued(nodeIds, order + queue, inDegree)
    ensures var v := nbrs[0];
            var d := inDegree[v] - 1;
            && Tally(nodeIds, inDegree[v := d], pending, nbrs[1..])
            && Enqueued(nodeIds, order + (if d == 0 then queue + [v] else queue), inDegree[v := d])
  {
    RelaxOneTally(nodeIds, pending, inDegree, nbrs);
    var v := nbrs[0];
    var d := inDegree[v] - 1;
    var deg' := inDegree[v := d];
    assert v !in order + queue;
    var seen' := order + (if d == 0 then queue + [v] else queue);
    assert seen' == if d == 0 then (order + queue) + [v] else order + queue;
    forall w | w in nodeIds
      ensures w in seen' <==> deg'[w] == 0
    {
      if w != v {
        assert w in seen' <==> w in order + queue;
      }
    }
  }

  /**
   * Relaxing the remaining neighbours keeps the invariant's counting part:
   * each counter ends at its pending count, the queue is only appended to, and
   * a node is appended exactly when its counter reaches 0, so at most once.
   */
  lemma {:induction false} RelaxFacts(nodeIds: set<string>, pending: map<string, nat>, order: seq<string>,
                                      inDegree: map<string, int>, nbrs: seq<string>, queue: seq<string>,
                                      r: (map<string, int>, seq<string>))
    requires Tally(nodeIds, inDegree, pending, nbrs)
    requires Enqueued(nodeIds, order + queue, inDegree)
    requires r == Relax(nodeIds, inDegree, nbrs, queue)
    ensures Tally(nodeIds, r.0, pending, [])
    ensures |r.1| >= |queue| && r.1[..|queue|] == queue
    ensures Enqueued(nodeIds, order + r.1, r.0)
    decreases |nbrs|
  {
    if nbrs != [] {
      var v := nbrs[0];
      if v !in nodeIds {
        TallySkip(nodeIds, inDegree, pending, nbrs);
        RelaxSkip(nodeIds, inDegree, nbrs, queue);
        RelaxFacts(nodeIds, pending, order, inDegree, nbrs[1..], queue, r);
      } else {
        RelaxOne(nodeIds, pending, order, inDegree, nbrs, queue);
        var d := inDegree[v] - 1;
        var queue' := if d == 0 then queue + [v] else queue;
        RelaxHead(nodeIds, inDegree, nbrs, queue);
        RelaxFacts(nodeIds, pending, order, inDegree[v := d], nbrs[1..], queue', r);
        PrefixOfPrefix(queue, queue', r.1);
      }
    }
  }

  /**
   * Appending nodes none of whose incoming edges is pending once `done` (a
   * prefix of the sequence) is emitted keeps every node after its sources.
   */
  lemma SourcesFirstExtend(edges: seq<Edge>, done: seq<string>, seen: seq<string>, seen': seq<string>)
    requires SourcesFirst(edges, seen)
    requires |done| <= |seen| <= |seen'| && seen'[..|seen|] == seen && seen[..|done|] == done
    requires forall i :: |seen| <= i < |seen'| ==> Pending(edges, Elems(done), seen'[i]) == 0
    ensures SourcesFirst(edges, seen')
  {
    forall i, j | 0 <= i < |seen'| && 0 <= j < |edges| && edges[j].target == seen'[i]
      ensures edges[j].source in seen'[..i]
    {
      if i < |seen| {
        assert seen'[..i] == seen[..i];
      } else {
        PendingZero(edges, Elems(done), seen'[i]);
        assert edges[j].source in done;
        assert seen'[..i][..|done|] == done;
      }
    }
  }

  /** The pending count of every node once the nodes in `done` are emitted. */
  function PendingMap(nodeIds: set<string>, edges: seq<Edge>, done: set<string>): (m: map<string, nat>)
    ensures m.Keys == nodeIds
    ensures forall v :: v in nodeIds ==> m[v] == Pending(edges, done, v)
  {
    map v | v in nodeIds :: Pending(edges, done, v)
  }

  /** Before relaxing, each counter is the count once the dequeued node is emitted plus its edges into the node. */
  lemma StepTally(nodeIds: set<string>, edges: seq<Edge>, s: Frontier)
    requires Inv(nodeIds, edges, s)
    requires s.queue != []
    ensures s.queue[0] !in s.order
    ensures Tally(nodeIds, s.inDegree, PendingMap(nodeIds, edges, Elems(s.order) + {s.queue[0]}),
                  Neighbors(nodeIds, edges, s.queue[0]))
  {
    var u := s.queue[0];
    var seen := s.order + s.queue;
    forall k | 0 <= k < |s.order|
      ensures s.order[k] != u
    {
      assert seen[k] == s.order[k] && seen[|s.order|] == u;
    }
    var done := Elems(s.order);
    assert u in nodeIds by {
      assert seen[|s.order|] == u;
    }
    var nbrs := Neighbors(nodeIds, edges, u);
    assert nbrs == Targets(edges, u);
    var pending := PendingMap(nodeIds, edges, done + {u});
    forall v | v in nodeIds
      ensures s.inDegree[v] == pending[v] + multiset(nbrs)[v]
    {
      PendingSplit(edges, done, u, v);
    }
  }

  /**
   * The counting half of a step: after relaxing the neighbours of the
   * dequeued node, each counter is the number of edges into its node whose
   * source is not yet emitted, and the queue has only grown at its end.
   */
  lemma StepCounts(nodeIds: set<string>, edges: seq<Edge>, s: Frontier)
    requires Inv(nodeIds, edges, s)
    requires s.queue != []
    ensures var order' := s.order + [s.queue[0]];
            var r := Relax(nodeIds, s.inDegree, Neighbors(nodeIds, edges, s.queue[0]), s.queue[1..]);
            && r.0.Keys == nodeIds
            && (forall v :: v in nodeIds ==> r.0[v] == Pending(edges, Elems(order'), v))
            && |r.1| >= |s.queue| - 1 && r.1[..|s.queue| - 1] == s.queue[1..]
            && Enqueued(nodeIds, order' + r.1, r.0)
  {
    var u := s.queue[0];
    var order' := s.order + [u];
    StepTally(nodeIds, edges, s);
    assert s.order + s.queue == order' + s.queue[1..];
    assert Elems(order') == Elems(s.order) + {u};
    var pending := PendingMap(nodeIds, edges, Elems(order'));
    assert Enqueued(nodeIds, order' + s.queue[1..], s.inDegree);
    RelaxFacts(nodeIds, pending, order', s.inDegree, Neighbors(nodeIds, edges, u), s.queue[1..],
               Relax(nodeIds, s.inDegree, Neighbors(nodeIds, edges, u), s.queue[1..]));
    var r := Relax(nodeIds, s.inDegree, Neighbors(nodeIds, edges, u), s.queue[1..]);
    forall v | v in nodeIds
      ensures r.0[v] == Pending(edges, Elems(order'), v)
    {
      var none: seq<string> := [];
      assert multiset(none)[v] == 0;
    }
  }

  /**
   * One step keeps the invariant: the dequeued node is emitted, and the queue
   * only grows at its end (FIFO), so `order + queue` is only ever extended.
   */
  lemma StepPreservesInv(nodeIds: set<string>, edges: seq<Edge>, s: Frontier)
    requires Inv(nodeIds, edges, s)
    requires s.queue != []
    ensures var t := Step(nodeIds, edges, s);
            && Inv(nodeIds, edges, t)
            && t.order == s.order + [s.queue[0]]
            && |t.order + t.queue| >= |s.order + s.queue|
            && (t.order + t.queue)[..|s.order + s.queue|] == s.order + s.queue
  {
    var u := s.queue[0];
    var seen := s.order + s.queue;
    var order' := s.order + [u];
    StepCounts(nodeIds, edges, s);
    var r := Relax(nodeIds, s.inDegree, Neighbors(nodeIds, edges, u), s.queue[1..]);
    var t := Step(nodeIds, edges, s);
    assert t == Frontier(r.1, order', r.0);
    var seen' := order' + r.1;
    assert seen'[..|seen|] == seen by {
      assert seen == order' + s.queue[1..];
    }
    assert seen[..|order'|] == order';
    forall i | |seen| <= i < |seen'|
      ensures Pending(edges, Elems(order'), seen'[i]) == 0
    {
      assert seen'[i] in nodeIds && seen'[i] in seen';
    }
    SourcesFirstExtend(edges, order', seen, seen');
  }

  /** A step from a state with a non-empty queue consumes one unit of fuel, keeps the invariant and extends `order + queue`. */
  lemma DrainStep(nodeIds: set<string>, edges: seq<Edge>, s: Frontier, fuel: nat)
    requires Inv(nodeIds, edges, s)
    requires |s.order| + fuel == |nodeIds|
    requires s.queue != []
    ensures fuel > 0
    ensures var t := Step(nodeIds, edges, s);
            && Inv(nodeIds, edges, t)
            && |t.order| + (fuel - 1) == |nodeIds|
            && |s.order + s.queue| <= |t.order + t.queue|
            && (t.order + t.queue)[..|s.order + s.queue|] == s.order + s.queue
            && Drain(nodeIds, edges, s, fuel) == Drain(nodeIds, edges, t, fuel - 1)
  {
    SeenBound(nodeIds, edges, s);
    StepPreservesInv(nodeIds, edges, s);
  }

  /** A duplicate-free set of enqueued nodes: at most one per node. */
  lemma SeenBound(nodeIds: set<string>, edges: seq<Edge>, s: Frontier)
    requires Inv(nodeIds, edges, s)
    ensures |s.order + s.queue| <= |nodeIds|
  {
    DistinctWithin(s.order + s.queue, nodeIds);
  }

  /**
   * Draining with enough fuel empties the queue, keeps the invariant and only
   * extends `order + queue`: nodes are emitted in the order they were enqueued.
   */
  lemma {:induction false} DrainFacts(nodeIds: set<string>, edges: seq<Edge>, s: Frontier, fuel: nat)
    requires Inv(nodeIds, edges, s)
    requires |s.order| + fuel == |nodeIds|
    ensures var f := Drain(nodeIds, edges, s, fuel);
            && Inv(nodeIds, edges, f)
            && f.queue == []
            && |s.order + s.queue| <= |f.order|
            && f.order[..|s.order + s.queue|] == s.order + s.queue
    decreases fuel
  {
    if s.queue != [] {
      DrainStep(nodeIds, edges, s, fuel);
      var t := Step(nodeIds, edges, s);
      DrainFacts(nodeIds, edges, t, fuel - 1);
      var f := Drain(nodeIds, edges, t, fuel - 1);
      assert Drain(nodeIds, edges, s, fuel) == f;
      PrefixOfPrefix(s.order + s.queue, t.order + t.queue, f.order);
    }
  }

  /** The state before the first dequeue satisfies the invariant. */
  lemma InitialInv(ids: seq<string>, edges: seq<Edge>)
    ensures Inv(Elems(ids), edges, Initial(ids, edges))
  {
    var s := Initial(ids, edges);
    assert Elems(s.order) == {};
    assert s.order + s.queue == s.queue;
    forall i | 0 <= i < |s.queue|
      ensures s.queue[i] in Elems(ids)
      ensures forall j :: 0 <= j < |edges| ==> edges[j].target != s.queue[i]
    {
      assert s.queue[i] in Dedup(ids);
      PendingZero(edges, {}, s.queue[i]);
    }
  }

  /** Counters holding every node's in-degree and a queue holding the seed make up the initial state. */
  lemma CountersAreInitial(ids: seq<string>, edges: seq<Edge>, queue: seq<string>, inDegree: map<string, int>)
    requires inDegree.Keys == Elems(ids)
    requires forall v :: v in inDegree ==> inDegree[v] == InDegree(edges, v)
    requires queue == Seed(ids, edges)
    ensures Frontier(queue, [], inDegree) == Initial(ids, edges)
    ensures Inv(Elems(ids), edges, Frontier(queue, [], inDegree))
  {
    assert inDegree == Initial(ids, edges).inDegree;
    InitialInv(ids, edges);
  }

  /** The state the draining loop ends in: the invariant holds, the queue is empty, and the seed was emitted first. */
  lemma QueuePhaseDrained(ids: seq<string>, edges: seq<Edge>)
    ensures var f := Drain(Elems(ids), edges, Initial(ids, edges), |Elems(ids)|);
            && Inv(Elems(ids), edges, f)
            && f.queue == []
            && |f.order| >= |Seed(ids, edges)| && f.order[..|Seed(ids, edges)|] == Seed(ids, edges)
  {
    var n := Elems(ids);
    var s := Initial(ids, edges);
    InitialInv(ids, edges);
    DrainFacts(n, edges, s, |n|);
    assert s.order + s.queue == Seed(ids, edges);
  }

  /** Every node the queue phase does not emit still has an incoming edge whose source it did not emit. */
  lemma QueuePhaseClosed(ids: seq<string>, edges: seq<Edge>)
    ensures var qp := QueuePhase(ids, edges);
            forall v :: v in ids && v !in qp ==>
              exists j :: 0 <= j < |edges| && edges[j].target == v && edges[j].source !in qp
  {
    var n := Elems(ids);
    QueuePhaseDrained(ids, edges);
    var f := Drain(n, edges, Initial(ids, edges), |n|);
    assert f.order + f.queue == f.order;
    forall v | v in ids && v !in f.order
      ensures exists j :: 0 <= j < |edges| && edges[j].target == v && edges[j].source !in f.order
    {
      assert v in n;
      PendingZero(edges, Elems(f.order), v);
    }
  }

  /** The queue phase emits node ids only, each at most once. */
  lemma QueuePhaseNodes(ids: seq<string>, edges: seq<Edge>)
    ensures var qp := QueuePhase(ids, edges);
            Distinct(qp) && forall i :: 0 <= i < |qp| ==> qp[i] in ids
  {
    var n := Elems(ids);
    QueuePhaseDrained(ids, edges);
    var f := Drain(n, edges, Initial(ids, edges), |n|);
    assert f.order + f.queue == f.order;
  }

  /** The queue phase emits every node after the sources of all edges into it. */
  lemma QueuePhaseOrdered(ids: seq<string>, edges: seq<Edge>)
    ensures SourcesFirst(edges, QueuePhase(ids, edges))
  {
    var n := Elems(ids);
    QueuePhaseDrained(ids, edges);
    var f := Drain(n, edges, Initial(ids, edges), |n|);
    assert f.order + f.queue == f.order;
  }

  /**
   * FIFO from the seed: the queue phase starts with the zero-in-degree nodes
   * in node-list order.
   */
  lemma QueuePhaseSeedFirst(ids: seq<string>, edges: seq<Edge>)
    ensures |QueuePhase(ids, edges)| >= |Seed(ids, edges)|
    ensures QueuePhase(ids, edges)[..|Seed(ids, edges)|] == Seed(ids, edges)
  {
    QueuePhaseDrained(ids, edges);
  }
}
