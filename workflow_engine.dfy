/**
 * The engine's two entry points as the loops they are: `GetExecutionOrder`
 * builds the adjacency lists and in-degree counters, drains the FIFO queue and
 * appends the nodes it never reached; `ExecuteWorkflow` walks that order and
 * reports status events, stopping at the first failure.  Each is proved equal
 * to the functions of `KahnOrder` and `ExecutionTrace`, whose properties are
 * proved there and in `OrderTheorems`.
 */
module WorkflowEngine {
  import opened SeqUtil
  import opened Graph
  import opened KahnOrder
  import opened OrderTheorems
  import opened ExecutionTrace

  /** The adjacency map: an entry per node id, holding the targets of its outgoing edges. */
  method BuildAdjacency(nodes: seq<Node>, edges: seq<Edge>) returns (adj: map<string, seq<string>>)
    ensures adj.Keys == Elems(Ids(nodes))
    ensures forall u :: u in adj ==> adj[u] == Targets(edges, u)
  {
    var ids := Ids(nodes);
    adj := map[];
    var i := 0;
    while i < |nodes|
      invariant 0 <= i <= |nodes|
      invariant adj.Keys == Elems(ids[..i])
      invariant forall u :: u in adj ==> adj[u] == []
    {
      assert ids[..i + 1] == ids[..i] + [nodes[i].id];
      adj := adj[nodes[i].id := []];
      i := i + 1;
    }
    assert ids[..|nodes|] == ids;
    i := 0;
    while i < |edges|
      invariant 0 <= i <= |edges|
      invariant adj.Keys == Elems(ids)
      invariant forall u :: u in adj ==> adj[u] == Targets(edges[..i], u)
    {
      assert edges[..i + 1][..i] == edges[..i];
      var e := edges[i];
      if e.source in adj {
        adj := adj[e.source := adj[e.source] + [e.target]];
      }
      i := i + 1;
    }
    assert edges[..|edges|] == edges;
  }

  /** `nodeIds`: the set of node ids. */
  method NodeIdSet(nodes: seq<Node>) returns (nodeIds: set<string>)
    ensures nodeIds == Elems(Ids(nodes))
  {
    nodeIds := set n | n in nodes :: n.id;
    forall x | x in Elems(Ids(nodes))
      ensures x in nodeIds
    {
      var i :| 0 <= i < |nodes| && Ids(nodes)[i] == x;
      assert nodes[i] in nodes;
    }
  }

  /**
   * The first pass over the nodes: every node id gets a counter of 0, and
   * `keys` records the order in which the ids first became keys.
   */
  method ZeroCounters(nodes: seq<Node>) returns (inDegree: map<string, int>, keys: seq<string>)
    ensures inDegree.Keys == Elems(Ids(nodes))
    ensures forall v :: v in inDegree ==> inDegree[v] == 0
    ensures keys == Dedup(Ids(nodes))
  {
    var ids := Ids(nodes);
    inDegree := map[];
    keys := [];
    var i := 0;
    while i < |nodes|
      invariant 0 <= i <= |nodes|
      invariant inDegree.Keys == Elems(ids[..i])
      invariant forall v :: v in inDegree ==> inDegree[v] == 0
      invariant keys == Dedup(ids[..i])
    {
      var id := ids[i];
      CounterKeysGrow(ids, i, inDegree, keys);
      if id !in inDegree {
        keys := keys + [id];
      }
      inDegree := inDegree[id := 0];
      i := i + 1;
    }
    assert ids[..|nodes|] == ids;
  }

  /** Setting the counter of the next id keeps the keys and the key order in step with the ids seen. */
  lemma CounterKeysGrow(ids: seq<string>, i: nat, inDegree: map<string, int>, keys: seq<string>)
    requires i < |ids|
    requires inDegree.Keys == Elems(ids[..i]) && keys == Dedup(ids[..i])
    ensures inDegree[ids[i] := 0].Keys == Elems(ids[..i + 1])
    ensures (if ids[i] in inDegree then keys else keys + [ids[i]]) == Dedup(ids[..i + 1])
  {
    PrefixGrows(ids, i);
  }

  /** The pass over the edges: each edge whose target is a node adds 1 to the target's counter. */
  method CountEdges(nodeIds: set<string>, edges: seq<Edge>, inDegree0: map<string, int>) returns (inDegree: map<string, int>)
    requires inDegree0.Keys == nodeIds
    requires forall v :: v in inDegree0 ==> inDegree0[v] == 0
    ensures inDegree.Keys == nodeIds
    ensures forall v :: v in inDegree ==> inDegree[v] == InDegree(edges, v)
  {
    inDegree := inDegree0;
    var i := 0;
    while i < |edges|
      invariant 0 <= i <= |edges|
      invariant inDegree.Keys == nodeIds
      invariant forall v :: v in inDegree ==> inDegree[v] == Pending(edges[..i], {}, v)
    {
      assert edges[..i + 1][..i] == edges[..i];
      var t := edges[i].target;
      if t in nodeIds {
        inDegree := inDegree[t := (if t in inDegree then inDegree[t] else 0) + 1];
      }
      i := i + 1;
    }
    assert edges[..|edges|] == edges;
  }

  /** The initial queue: the keys whose counter is 0, in key insertion order. */
  method SeedQueue(inDegree: map<string, int>, keys: seq<string>, ghost edges: seq<Edge>) returns (queue: seq<string>)
    requires forall i :: 0 <= i < |keys| ==> keys[i] in inDegree && inDegree[keys[i]] == InDegree(edges, keys[i])
    ensures queue == ZeroInDegree(keys, edges)
  {
    queue := [];
    var i := 0;
    while i < |keys|
      invariant 0 <= i <= |keys|
      invariant queue == ZeroInDegree(keys[..i], edges)
    {
      assert keys[..i + 1][..i] == keys[..i];
      if inDegree[keys[i]] == 0 {
        queue := queue + [keys[i]];
      }
      i := i + 1;
    }
    assert keys[..|keys|] == keys;
  }

  /**
   * One pass of the inner loop: for each neighbour that is a node, decrement
   * its counter and enqueue it when the counter reaches 0.
   */
  method RelaxNeighbors(nodeIds: set<string>, inDegree0: map<string, int>, nbrs: seq<string>, queue0: seq<string>)
    returns (inDegree: map<string, int>, queue: seq<string>)
    ensures (inDegree, queue) == Relax(nodeIds, inDegree0, nbrs, queue0)
  {
    inDegree, queue := inDegree0, queue0;
    var k := 0;
    while k < |nbrs|
      invariant 0 <= k <= |nbrs|
      invariant Relax(nodeIds, inDegree, nbrs[k..], queue) == Relax(nodeIds, inDegree0, nbrs, queue0)
    {
      var v := nbrs[k];
      assert nbrs[k..][1..] == nbrs[k + 1..];
      if v in nodeIds {
        var deg := (if v in inDegree then inDegree[v] else 0) - 1;
        inDegree := inDegree[v := deg];
        if deg == 0 {
          queue := queue + [v];
        }
      }
      k := k + 1;
    }
  }

  /**
   * The draining loop: dequeue the head, emit it, relax its neighbours, until
   * the queue is empty.
   */
  method DrainQueue(nodeIds: set<string>, edges: seq<Edge>, adj: map<string, seq<string>>,
                    queue0: seq<string>, inDegree0: map<string, int>)
    returns (order: seq<string>)
    requires adj.Keys == nodeIds && forall u :: u in adj ==> adj[u] == Targets(edges, u)
    requires Inv(nodeIds, edges, Frontier(queue0, [], inDegree0))
    ensures order == Drain(nodeIds, edges, Frontier(queue0, [], inDegree0), |nodeIds|).order
  {
    var queue, inDegree := queue0, inDegree0;
    order := [];
    ghost var fuel: nat := |nodeIds|;
    while queue != []
      invariant Inv(nodeIds, edges, Frontier(queue, order, inDegree))
      invariant |order| + fuel == |nodeIds|
      invariant Drain(nodeIds, edges, Frontier(queue, order, inDegree), fuel)
             == Drain(nodeIds, edges, Frontier(queue0, [], inDegree0), |nodeIds|)
      decreases fuel
    {
      ghost var s := Frontier(queue, order, inDegree);
      DrainStep(nodeIds, edges, s, fuel);
      var u := queue[0];
      queue := queue[1..];
      order := order + [u];
      var nbrs := if u in adj then adj[u] else [];
      assert nbrs == Neighbors(nodeIds, edges, u);
      inDegree, queue := RelaxNeighbors(nodeIds, inDegree, nbrs, queue);
      assert Frontier(queue, order, inDegree) == Step(nodeIds, edges, s);
      fuel := fuel - 1;
    }
  }

  /** The fallback loop: append, in node-list order, every node id not yet in the order. */
  method AppendUnvisited(nodes: seq<Node>, order0: seq<string>) returns (order: seq<string>)
    ensures order == AppendMissing(order0, Ids(nodes))
  {
    var ids := Ids(nodes);
    order := order0;
    var i := 0;
    while i < |nodes|
      invariant 0 <= i <= |nodes|
      invariant order == AppendMissing(order0, ids[..i])
    {
      assert ids[..i + 1][..i] == ids[..i];
      if nodes[i].id !in order {
        order := order + [nodes[i].id];
      }
      i := i + 1;
    }
    assert ids[..|nodes|] == ids;
  }

  /**
   * `getExecutionOrder`: the nodes in the order the engine runs them.  Every
   * node occurs exactly once; see `OrderTheorems` for the dependency order.
   */
  method GetExecutionOrder(nodes: seq<Node>, edges: seq<Edge>) returns (order: seq<string>)
    ensures order == ExecutionOrder(Ids(nodes), edges)
    ensures Distinct(order)
    ensures forall x :: x in order <==> x in Ids(nodes)
  {
    ghost var ids := Ids(nodes);
    var adj := BuildAdjacency(nodes, edges);
    var nodeIds := NodeIdSet(nodes);
    var inDegree, keys := ZeroCounters(nodes);
    inDegree := CountEdges(nodeIds, edges, inDegree);
    var queue := SeedQueue(inDegree, keys, edges);
    CountersAreInitial(ids, edges, queue, inDegree);
    var qp := DrainQueue(nodeIds, edges, adj, queue, inDegree);
    assert qp == QueuePhase(ids, edges);
    order := AppendUnvisited(nodes, qp);
    ExecutionOrderIsPermutation(ids, edges);
  }

  /** The execution order names every node once, and only nodes, so `find` succeeds for each of its ids. */
  lemma ExecutionOrderListed(nodes: seq<Node>, edges: seq<Edge>)
    ensures Distinct(ExecutionOrder(Ids(nodes), edges))
    ensures AllListed(ExecutionOrder(Ids(nodes), edges), nodes)
  {
    var order := ExecutionOrder(Ids(nodes), edges);
    ExecutionOrderIsPermutation(Ids(nodes), edges);
    forall i | 0 <= i < |order|
      ensures Find(nodes, order[i]).Some?
    {
      FindListed(nodes, order[i]);
    }
  }

  /**
   * The events of `executeWorkflow`: `running`, `success` for each node of the
   * order up to the first failing one, `running`, `error` for that node, and
   * no event at all for any node after it.
   */
  lemma WorkflowTraceShape(nodes: seq<Node>, edges: seq<Edge>, succeeds: Node -> bool)
    ensures var order := ExecutionOrder(Ids(nodes), edges);
            var t := RunTrace(order, nodes, succeeds);
            var k := Completed(order, nodes, succeeds);
            && |t| == 2 * k + (if k < |order| then 2 else 0)
            && (forall i :: 0 <= i < k ==> t[2 * i] == Event(order[i], Running) && t[2 * i + 1] == Event(order[i], Success))
            && (k < |order| ==> t[2 * k] == Event(order[k], Running) && t[2 * k + 1] == Event(order[k], Error))
            && (forall j :: k < j < |order| ==> forall e :: e in t ==> e.nodeId != order[j])
  {
    var order := ExecutionOrder(Ids(nodes), edges);
    ExecutionOrderListed(nodes, edges);
    TraceShape(order, nodes, succeeds);
    FailureStopsRun(order, nodes, succeeds);
  }

  /**
   * The loop of `executeWorkflow` over an execution order: skip an id with no
   * node, report `running`, run the action, then report `success`, or report
   * `error` and stop.
   */
  method RunOrder(order: seq<string>, nodes: seq<Node>, succeeds: Node -> bool) returns (trace: seq<Event>)
    ensures trace == RunTrace(order, nodes, succeeds)
  {
    trace := [];
    var i := 0;
    while i < |order|
      invariant 0 <= i <= |order|
      invariant trace + RunTrace(order[i..], nodes, succeeds) == RunTrace(order, nodes, succeeds)
    {
      var id := order[i];
      RunTraceStep(order, i, nodes, succeeds, trace);
      var found := Find(nodes, id);
      if found.None? {
        i := i + 1;
        continue;
      }
      var node := found.value;
      trace := trace + [Event(id, Running)];
      if !succeeds(node) {
        trace := trace + [Event(id, Error)];
        return;
      }
      trace := trace + [Event(id, Success)];
      i := i + 1;
    }
    assert order[|order|..] == [];
  }

  /**
   * `executeWorkflow`: the status events reported, in order.  The action of a
   * node is the oracle `succeeds`; an id with no node is skipped; the first
   * failure reports `error` and ends the run.
   */
  method ExecuteWorkflow(nodes: seq<Node>, edges: seq<Edge>, succeeds: Node -> bool) returns (trace: seq<Event>)
    ensures trace == RunTrace(ExecutionOrder(Ids(nodes), edges), nodes, succeeds)
  {
    var order := GetExecutionOrder(nodes, edges);
    trace := RunOrder(order, nodes, succeeds);
  }
}
