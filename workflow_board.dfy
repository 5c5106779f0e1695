/**
 * The node-list reducers of the workflow board: the pre-run reset of every
 * status to `idle`, the status callback that updates the node with the given
 * id, and the merge of edited form data into the selected node.  `RunWorkflow`
 * composes them as the Run button does: reset, then replay the engine's
 * events.  The status of a node is the `status` field of its data record.
 */
module WorkflowBoard {
  import opened SeqUtil
  import opened Graph
  import opened KahnOrder
  import opened ExecutionTrace
  import opened WorkflowEngine

  const StatusKey: string := "status"

  /** The status field of a node, when it holds a status. */
  function StatusOf(n: Node): Option<Status> {
    if StatusKey in n.data && n.data[StatusKey].StatusValue? then Some(n.data[StatusKey].status) else None
  }

  /** The two nodes agree on everything except possibly the status field. */
  predicate SameExceptStatus(a: Node, b: Node) {
    a.id == b.id && a.props == b.props && a.data - {StatusKey} == b.data - {StatusKey}
  }

  /** `{ ...n, data: { ...n.data, status } }` */
  function WithStatus(n: Node, status: Status): (m: Node)
    ensures StatusOf(m) == Some(status)
    ensures SameExceptStatus(m, n)
  {
    var m := n.(data := n.data[StatusKey := StatusValue(status)]);
    assert m.data - {StatusKey} == n.data - {StatusKey};
    m
  }

  /** Setting the status overwrites whatever the status was: nodes that differ only there become equal. */
  lemma WithStatusForgets(a: Node, b: Node, status: Status)
    requires SameExceptStatus(a, b)
    ensures WithStatus(a, status) == WithStatus(b, status)
  {
    var x, y := WithStatus(a, status).data, WithStatus(b, status).data;
    forall k | k in x ensures k in y && x[k] == y[k] {
      if k != StatusKey {
        assert k in a.data - {StatusKey};
      }
    }
    forall k | k in y ensures k in x {
      if k != StatusKey {
        assert k in b.data - {StatusKey};
      }
    }
  }

  /** The pre-run reset: every node gets status `idle`; ids, order, length and every other field are kept. */
  function ResetStatuses(nds: seq<Node>): (r: seq<Node>)
    ensures |r| == |nds|
    ensures forall i :: 0 <= i < |nds| ==> StatusOf(r[i]) == Some(Idle) && SameExceptStatus(r[i], nds[i])
  {
    seq(|nds|, i requires 0 <= i < |nds| => WithStatus(nds[i], Idle))
  }

  /** Resetting twice is resetting once. */
  lemma ResetIdempotent(nds: seq<Node>)
    ensures ResetStatuses(ResetStatuses(nds)) == ResetStatuses(nds)
  {
    var r := ResetStatuses(nds);
    forall i | 0 <= i < |nds|
      ensures ResetStatuses(r)[i] == r[i]
    {
      WithStatusForgets(r[i], nds[i], Idle);
    }
  }

  /** Lists that agree node by node except for statuses reset to the same list. */
  lemma ResetForgetsStatuses(a: seq<Node>, b: seq<Node>)
    requires |a| == |b|
    requires forall i :: 0 <= i < |a| ==> SameExceptStatus(a[i], b[i])
    ensures ResetStatuses(a) == ResetStatuses(b)
  {
    forall i | 0 <= i < |a|
      ensures ResetStatuses(a)[i] == ResetStatuses(b)[i]
    {
      WithStatusForgets(a[i], b[i], Idle);
    }
  }

  /** The status callback: every node whose id is `nodeId` gets `status`; every other node is returned as is. */
  function ApplyStatus(nds: seq<Node>, nodeId: string, status: Status): (r: seq<Node>)
    ensures |r| == |nds|
    ensures forall i :: 0 <= i < |nds| ==>
              if nds[i].id == nodeId then StatusOf(r[i]) == Some(status) && SameExceptStatus(r[i], nds[i])
              else r[i] == nds[i]
  {
    seq(|nds|, i requires 0 <= i < |nds| => if nds[i].id == nodeId then WithStatus(nds[i], status) else nds[i])
  }

  /** The status of the last event for `id`, if any. */
  function LastStatus(events: seq<Event>, id: string): Option<Status>
    decreases |events|
  {
    if events == [] then None
    else if events[|events| - 1].nodeId == id then Some(events[|events| - 1].status)
    else LastStatus(events[..|events| - 1], id)
  }

  /** The node list after the callback has been called once per event, in order. */
  function Replay(nds: seq<Node>, events: seq<Event>): (r: seq<Node>)
    ensures |r| == |nds|
    decreases |events|
  {
    if events == [] then nds
    else
      var e := events[|events| - 1];
      ApplyStatus(Replay(nds, events[..|events| - 1]), e.nodeId, e.status)
  }

  /**
   * Replaying events leaves a node with the status of the last event for its
   * id, and leaves a node with no event exactly as it was; nothing but the
   * status ever changes.
   */
  lemma {:induction false} ReplayLastStatus(nds: seq<Node>, events: seq<Event>)
    ensures var r := Replay(nds, events);
            forall i :: 0 <= i < |nds| ==>
              && SameExceptStatus(r[i], nds[i])
              && (LastStatus(events, nds[i].id).Some? ==> StatusOf(r[i]) == LastStatus(events, nds[i].id))
              && (LastStatus(events, nds[i].id).None? ==> r[i] == nds[i])
    decreases |events|
  {
    if events != [] {
      var init := events[..|events| - 1];
      ReplayLastStatus(nds, init);
      var p := Replay(nds, init);
      var r := Replay(nds, events);
      forall i | 0 <= i < |nds|
        ensures SameExceptStatus(r[i], nds[i])
      {
        assert SameExceptStatus(r[i], p[i]);
      }
    }
  }

  /** The last event for an id in `a + b` is in `b` when `b` has one. */
  lemma {:induction false} LastStatusAppend(a: seq<Event>, b: seq<Event>, id: string)
    ensures LastStatus(a + b, id) == if LastStatus(b, id).Some? then LastStatus(b, id) else LastStatus(a, id)
    decreases |b|
  {
    if b == [] {
      assert a + b == a;
    } else {
      assert (a + b)[..|a + b| - 1] == a + b[..|b| - 1];
      assert (a + b)[|a + b| - 1] == b[|b| - 1];
      LastStatusAppend(a, b[..|b| - 1], id);
    }
  }

  /** The last status of the two events a node reports. */
  lemma LastStatusPair(o: string, first: Status, second: Status, id: string)
    ensures LastStatus([Event(o, first), Event(o, second)], id) == if id == o then Some(second) else None
  {
    var pair := [Event(o, first), Event(o, second)];
    assert pair[..|pair| - 1] == [Event(o, first)];
    assert [Event(o, first)][..0] == [];
    if id != o {
      assert LastStatus(pair, id) == LastStatus([Event(o, first)], id) == LastStatus([], id);
    }
  }

  /** The last status after a node's two events followed by more events. */
  lemma LastStatusAfterPair(o: string, second: Status, rest: seq<Event>, id: string)
    ensures LastStatus([Event(o, Running), Event(o, second)] + rest, id) ==
              if LastStatus(rest, id).Some? then LastStatus(rest, id)
              else if id == o then Some(second)
              else None
  {
    LastStatusAppend([Event(o, Running), Event(o, second)], rest, id);
    LastStatusPair(o, Running, second, id);
  }

  /**
   * The last status a run reports for `id`: `success` for a node completed
   * before the first failure, `error` for the failing node, and none for every
   * other id (later nodes and ids outside the order).
   */
  lemma {:induction false} RunLastStatus(order: seq<string>, nodes: seq<Node>, succeeds: Node -> bool, id: string)
    requires Distinct(order)
    requires AllListed(order, nodes)
    ensures var k := Completed(order, nodes, succeeds);
            LastStatus(RunTrace(order, nodes, succeeds), id) ==
              if id in order[..k] then Some(Success)
              else if k < |order| && id == order[k] then Some(Error)
              else None
    decreases |order|
  {
    if order != [] {
      var k := Completed(order, nodes, succeeds);
      var o := order[0];
      var head := [Event(o, Running), Event(o, Success)];
      if succeeds(Find(nodes, o).value) {
        var rest := order[1..];
        AllListedTail(order, nodes);
        DistinctTail(order);
        RunLastStatus(rest, nodes, succeeds, id);
        LastStatusAfterPair(o, Success, RunTrace(rest, nodes, succeeds), id);
        var k' := Completed(rest, nodes, succeeds);
        assert order[..k] == [o] + rest[..k'];
        if id == o {
          assert order[..k][0] == id;
        } else {
          assert (id in order[..k]) == (id in rest[..k']);
          if k' < |rest| {
            assert rest[k'] == order[k];
          }
        }
      } else {
        LastStatusPair(o, Running, Error, id);
      }
    }
  }

  /**
   * `handleRunWorkflow`: reset every status to `idle`, then apply each event
   * of the engine's run.  The engine runs on the node list as it was before the
   * reset.
   */
  function RunWorkflow(nds: seq<Node>, edges: seq<Edge>, succeeds: Node -> bool): (r: seq<Node>)
    ensures |r| == |nds|
  {
    Replay(ResetStatuses(nds), RunTrace(ExecutionOrder(Ids(nds), edges), nds, succeeds))
  }

  /**
   * After a run, a node's status is `success` when it completed before the
   * first failure, `error` when it is the failing node, and `idle` otherwise;
   * nothing else about any node changes.
   */
  lemma RunWorkflowStatuses(nds: seq<Node>, edges: seq<Edge>, succeeds: Node -> bool)
    ensures var order := ExecutionOrder(Ids(nds), edges);
            var k := Completed(order, nds, succeeds);
            var r := RunWorkflow(nds, edges, succeeds);
            forall i :: 0 <= i < |nds| ==>
              && SameExceptStatus(r[i], nds[i])
              && StatusOf(r[i]) == if nds[i].id in order[..k] then Some(Success)
                                   else if k < |order| && nds[i].id == order[k] then Some(Error)
                                   else Some(Idle)
  {
    var order := ExecutionOrder(Ids(nds), edges);
    var trace := RunTrace(order, nds, succeeds);
    var reset := ResetStatuses(nds);
    var r := RunWorkflow(nds, edges, succeeds);
    ExecutionOrderListed(nds, edges);
    ReplayLastStatus(reset, trace);
    forall i | 0 <= i < |nds|
      ensures SameExceptStatus(r[i], nds[i])
      ensures StatusOf(r[i]) == if nds[i].id in order[..Completed(order, nds, succeeds)] then Some(Success)
                                else if Completed(order, nds, succeeds) < |order| && nds[i].id == order[Completed(order, nds, succeeds)] then Some(Error)
                                else Some(Idle)
    {
      RunLastStatus(order, nds, succeeds, nds[i].id);
      assert SameExceptStatus(r[i], reset[i]) && SameExceptStatus(reset[i], nds[i]);
    }
  }

  /** The outcome of an action does not depend on the node's status field. */
  ghost predicate StatusBlind(succeeds: Node -> bool) {
    forall a, b :: SameExceptStatus(a, b) ==> succeeds(a) == succeeds(b)
  }

  /** `find` on two lists that differ only in statuses finds nodes that differ only in status. */
  lemma {:induction false} FindIgnoresStatus(a: seq<Node>, b: seq<Node>, id: string)
    requires |a| == |b|
    requires forall i :: 0 <= i < |a| ==> SameExceptStatus(a[i], b[i])
    ensures Find(a, id).None? <==> Find(b, id).None?
    ensures Find(a, id).Some? ==> SameExceptStatus(Find(a, id).value, Find(b, id).value)
    decreases |a|
  {
    if a != [] && a[0].id != id {
      assert SameExceptStatus(a[0], b[0]);
      FindIgnoresStatus(a[1..], b[1..], id);
    }
  }

  /** With a status-blind action, a run over two lists that differ only in statuses reports the same events. */
  lemma {:induction false} RunTraceIgnoresStatus(order: seq<string>, a: seq<Node>, b: seq<Node>, succeeds: Node -> bool)
    requires StatusBlind(succeeds)
    requires |a| == |b|
    requires forall i :: 0 <= i < |a| ==> SameExceptStatus(a[i], b[i])
    ensures RunTrace(order, a, succeeds) == RunTrace(order, b, succeeds)
    decreases |order|
  {
    if order != [] {
      FindIgnoresStatus(a, b, order[0]);
      RunTraceIgnoresStatus(order[1..], a, b, succeeds);
    }
  }

  /**
   * Running again on the board a run left behind reports the same events and
   * leaves the board as the first run did, when actions ignore statuses.
   */
  lemma RerunGivesSameResult(nds: seq<Node>, edges: seq<Edge>, succeeds: Node -> bool)
    requires StatusBlind(succeeds)
    ensures var r := RunWorkflow(nds, edges, succeeds);
            && RunTrace(ExecutionOrder(Ids(r), edges), r, succeeds) == RunTrace(ExecutionOrder(Ids(nds), edges), nds, succeeds)
            && RunWorkflow(r, edges, succeeds) == r
  {
    var r := RunWorkflow(nds, edges, succeeds);
    RunWorkflowStatuses(nds, edges, succeeds);
    assert Ids(r) == Ids(nds);
    RunTraceIgnoresStatus(ExecutionOrder(Ids(nds), edges), r, nds, succeeds);
    ResetForgetsStatuses(r, nds);
  }

  /** Every key of `newData` takes its new value; every other key of `prev` keeps its value; no other key appears. */
  predicate Overrides(merged: map<string, Value>, prev: map<string, Value>, newData: map<string, Value>) {
    && merged.Keys == prev.Keys + newData.Keys
    && (forall k :: k in newData ==> merged[k] == newData[k])
    && (forall k :: k in prev && k !in newData ==> merged[k] == prev[k])
  }

  /** `{ ...node.data, ...newData }` */
  function MergeData(prev: map<string, Value>, newData: map<string, Value>): (merged: map<string, Value>)
    ensures Overrides(merged, prev, newData)
  {
    prev + newData
  }

  /** `!selectedNodeId`: no selection, or the empty id. */
  predicate NoSelection(selected: Option<string>) {
    selected.None? || selected.value == ""
  }

  /**
   * `handleNodeDataChange`: with no selection nothing changes; otherwise every
   * node with the selected id has `newData` merged over its data, and every
   * other node, and everything but the data, is unchanged.
   */
  function NodeDataChange(nds: seq<Node>, selected: Option<string>, newData: map<string, Value>): (r: seq<Node>)
    ensures NoSelection(selected) ==> r == nds
    ensures |r| == |nds|
    ensures forall i :: 0 <= i < |nds| ==>
              if !NoSelection(selected) && nds[i].id == selected.value then
                r[i].id == nds[i].id && r[i].props == nds[i].props && Overrides(r[i].data, nds[i].data, newData)
              else r[i] == nds[i]
  {
    if NoSelection(selected) then nds
    else
      seq(|nds|, i requires 0 <= i < |nds| =>
        if nds[i].id == selected.value then nds[i].(data := MergeData(nds[i].data, newData)) else nds[i])
  }

  /** Submitting the same form data twice is submitting it once. */
  lemma NodeDataChangeIdempotent(nds: seq<Node>, selected: Option<string>, newData: map<string, Value>)
    ensures NodeDataChange(NodeDataChange(nds, selected, newData), selected, newData) == NodeDataChange(nds, selected, newData)
  {
    var once := NodeDataChange(nds, selected, newData);
    var twice := NodeDataChange(once, selected, newData);
    forall i | 0 <= i < |nds|
      ensures twice[i] == once[i]
    {
      if !NoSelection(selected) && nds[i].id == selected.value {
        assert twice[i].data == once[i].data;
      }
    }
  }
}
