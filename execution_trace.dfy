/**
 * The status events `executeWorkflow` reports for an execution order: for each
 * id in turn, `running`, then `success` when the node's action succeeds; on the
 * first failure, `error`, and nothing after.  The action is the oracle
 * `succeeds`, applied to the node that `nodes.find` returns.
 */
module ExecutionTrace {
  import opened SeqUtil
  import opened Graph

  /** `nodes.find(n => n.id === id)`: the first node with that id, if any. */
  function Find(nodes: seq<Node>, id: string): (r: Option<Node>)
    ensures r.None? <==> forall i :: 0 <= i < |nodes| ==> nodes[i].id != id
    ensures r.Some? ==> r.value in nodes && r.value.id == id
    decreases |nodes|
  {
    if nodes == [] then None
    else if nodes[0].id == id then Some(nodes[0])
    else
      var r := Find(nodes[1..], id);
      assert forall i :: 1 <= i < |nodes| ==> nodes[i] == nodes[1..][i - 1];
      r
  }

  /** `find` returns the first match: the node at the first index carrying the id. */
  lemma {:induction false} FindFirst(nodes: seq<Node>, id: string, i: nat)
    requires i < |nodes| && nodes[i].id == id
    requires forall k :: 0 <= k < i ==> nodes[k].id != id
    ensures Find(nodes, id) == Some(nodes[i])
    decreases i
  {
    if i > 0 {
      FindFirst(nodes[1..], id, i - 1);
    }
  }

  /** An id of the list is found. */
  lemma FindListed(nodes: seq<Node>, id: string)
    requires id in Ids(nodes)
    ensures Find(nodes, id).Some?
  {
  }

  /** The events of one run over `order`. */
  function RunTrace(order: seq<string>, nodes: seq<Node>, succeeds: Node -> bool): seq<Event>
    decreases |order|
  {
    if order == [] then []
    else
      match Find(nodes, order[0])
      case None => RunTrace(order[1..], nodes, succeeds)
      case Some(n) =>
        if succeeds(n) then [Event(order[0], Running), Event(order[0], Success)] + RunTrace(order[1..], nodes, succeeds)
        else [Event(order[0], Running), Event(order[0], Error)]
  }

  /**
   * One step of a run at position `i`, after the events `done` of the ids
   * before it: the run goes on past a missing node, goes on after `running`,
   * `success`, or ends after `running`, `error`.
   */
  lemma RunTraceStep(order: seq<string>, i: nat, nodes: seq<Node>, succeeds: Node -> bool, done: seq<Event>)
    requires i < |order|
    requires done + RunTrace(order[i..], nodes, succeeds) == RunTrace(order, nodes, succeeds)
    ensures var found := Find(nodes, order[i]);
            var rest := RunTrace(order[i + 1..], nodes, succeeds);
            && (found.None? ==> done + rest == RunTrace(order, nodes, succeeds))
            && (found.Some? && succeeds(found.value) ==>
                  done + [Event(order[i], Running)] + [Event(order[i], Success)] + rest == RunTrace(order, nodes, succeeds))
            && (found.Some? && !succeeds(found.value) ==>
                  done + [Event(order[i], Running)] + [Event(order[i], Error)] == RunTrace(order, nodes, succeeds))
  {
  }

  /** Whether the action of the node with this id succeeds (an id with no node is skipped, so it counts as passed). */
  predicate Passes(nodes: seq<Node>, succeeds: Node -> bool, id: string) {
    match Find(nodes, id)
    case None => true
    case Some(n) => succeeds(n)
  }

  /** The number of leading ids of `order` whose actions succeed: the position of the first failure, if any. */
  function Completed(order: seq<string>, nodes: seq<Node>, succeeds: Node -> bool): (k: nat)
    ensures k <= |order|
    ensures forall i :: 0 <= i < k ==> Passes(nodes, succeeds, order[i])
    ensures k < |order| ==> !Passes(nodes, succeeds, order[k])
    decreases |order|
  {
    if order == [] then 0
    else if !Passes(nodes, succeeds, order[0]) then 0
    else 1 + Completed(order[1..], nodes, succeeds)
  }

  /** Ids that all name a node of the list. */
  predicate AllListed(order: seq<string>, nodes: seq<Node>) {
    forall i :: 0 <= i < |order| ==> Find(nodes, order[i]).Some?
  }

  lemma AllListedTail(order: seq<string>, nodes: seq<Node>)
    requires order != [] && AllListed(order, nodes)
    ensures AllListed(order[1..], nodes)
  {
  }

  /** A run emits two events per completed node, and two more for a failing node. */
  lemma {:induction false} TraceLength(order: seq<string>, nodes: seq<Node>, succeeds: Node -> bool)
    requires AllListed(order, nodes)
    ensures var k := Completed(order, nodes, succeeds);
            |RunTrace(order, nodes, succeeds)| == 2 * k + (if k < |order| then 2 else 0)
    decreases |order|
  {
    if order != [] && succeeds(Find(nodes, order[0]).value) {
      AllListedTail(order, nodes);
      TraceLength(order[1..], nodes, succeeds);
    }
  }

  /** Each node before the first failure reports `running` then `success`, in order. */
  lemma {:induction false} TraceSuccesses(order: seq<string>, nodes: seq<Node>, succeeds: Node -> bool, i: nat)
    requires AllListed(order, nodes)
    requires i < Completed(order, nodes, succeeds)
    ensures var t := RunTrace(order, nodes, succeeds);
            2 * i + 1 < |t| && t[2 * i] == Event(order[i], Running) && t[2 * i + 1] == Event(order[i], Success)
    decreases i
  {
    AllListedTail(order, nodes);
    if i > 0 {
      TraceSuccesses(order[1..], nodes, succeeds, i - 1);
    }
  }

  /** The first failing node reports `running` then `error`. */
  lemma {:induction false} TraceFailure(order: seq<string>, nodes: seq<Node>, succeeds: Node -> bool)
    requires AllListed(order, nodes)
    requires Completed(order, nodes, succeeds) < |order|
    ensures var t := RunTrace(order, nodes, succeeds);
            var k := Completed(order, nodes, succeeds);
            2 * k + 1 < |t| && t[2 * k] == Event(order[k], Running) && t[2 * k + 1] == Event(order[k], Error)
    decreases |order|
  {
    if succeeds(Find(nodes, order[0]).value) {
      AllListedTail(order, nodes);
      TraceFailure(order[1..], nodes, succeeds);
    }
  }

  /**
   * The shape of a run in which every id names a node: `running`, `success`
   * for each node before the first failure, then `running`, `error` for the
   * failing node, and nothing else.
   */
  lemma {:induction false} TraceShape(order: seq<string>, nodes: seq<Node>, succeeds: Node -> bool)
    requires AllListed(order, nodes)
    ensures var t := RunTrace(order, nodes, succeeds);
            var k := Completed(order, nodes, succeeds);
            && |t| == 2 * k + (if k < |order| then 2 else 0)
            && (forall i :: 0 <= i < k ==> t[2 * i] == Event(order[i], Running) && t[2 * i + 1] == Event(order[i], Success))
            && (k < |order| ==> t[2 * k] == Event(order[k], Running) && t[2 * k + 1] == Event(order[k], Error))
  {
    TraceLength(order, nodes, succeeds);
    forall i | 0 <= i < Completed(order, nodes, succeeds) {
      TraceSuccesses(order, nodes, succeeds, i);
    }
    if Completed(order, nodes, succeeds) < |order| {
      TraceFailure(order, nodes, succeeds);
    }
  }

  /** A run never reports `idle`, and reports only ids of the order. */
  lemma {:induction false} TraceMentionsOnlyOrder(order: seq<string>, nodes: seq<Node>, succeeds: Node -> bool)
    ensures forall e :: e in RunTrace(order, nodes, succeeds) ==> e.status != Idle && e.nodeId in order
    decreases |order|
  {
    if order != [] {
      TraceMentionsOnlyOrder(order[1..], nodes, succeeds);
    }
  }

  /** The number of ids a run gets to: the completed ones and, if there is one, the failing one. */
  function Attempted(order: seq<string>, nodes: seq<Node>, succeeds: Node -> bool): (c: nat)
    ensures c <= |order|
    ensures Completed(order, nodes, succeeds) <= c
  {
    var k := Completed(order, nodes, succeeds);
    if k < |order| then k + 1 else k
  }

  /** A run reports only ids it gets to. */
  lemma {:induction false} TraceWithinAttempted(order: seq<string>, nodes: seq<Node>, succeeds: Node -> bool)
    ensures forall e :: e in RunTrace(order, nodes, succeeds) ==> e.nodeId in order[..Attempted(order, nodes, succeeds)]
    decreases |order|
  {
    if order != [] && Passes(nodes, succeeds, order[0]) {
      var rest := order[1..];
      TraceWithinAttempted(rest, nodes, succeeds);
      var c := Attempted(rest, nodes, succeeds);
      assert Attempted(order, nodes, succeeds) == c + 1;
      assert order[..c + 1] == [order[0]] + rest[..c];
    }
  }

  /** Only the first failing id is reported with `error`. */
  lemma {:induction false} ErrorOnlyAtFailure(order: seq<string>, nodes: seq<Node>, succeeds: Node -> bool)
    ensures var k := Completed(order, nodes, succeeds);
            forall e :: e in RunTrace(order, nodes, succeeds) && e.status == Error ==> k < |order| && e.nodeId == order[k]
    decreases |order|
  {
    if order != [] && Passes(nodes, succeeds, order[0]) {
      var rest := order[1..];
      ErrorOnlyAtFailure(rest, nodes, succeeds);
      var k := Completed(rest, nodes, succeeds);
      if k < |rest| {
        assert rest[k] == order[k + 1];
      }
    }
  }

  /**
   * Fail fast: when the action of `order[k]` fails, the run ends with its
   * `error` event, no node after it in the order gets any event, and `error`
   * is reported for no other node.
   */
  lemma {:induction false} FailureStopsRun(order: seq<string>, nodes: seq<Node>, succeeds: Node -> bool)
    requires Distinct(order)
    requires AllListed(order, nodes)
    ensures var t := RunTrace(order, nodes, succeeds);
            var k := Completed(order, nodes, succeeds);
            && (k < |order| ==> |t| > 0 && t[|t| - 1] == Event(order[k], Error))
            && (forall j :: k < j < |order| ==> forall e :: e in t ==> e.nodeId != order[j])
            && (forall e :: e in t && e.status == Error ==> k < |order| && e.nodeId == order[k])
  {
    FailureIsLast(order, nodes, succeeds);
    NothingAfterFailure(order, nodes, succeeds);
    ErrorOnlyAtFailure(order, nodes, succeeds);
  }

  /** A run that fails ends with the `error` event of the failing node. */
  lemma {:induction false} FailureIsLast(order: seq<string>, nodes: seq<Node>, succeeds: Node -> bool)
    requires AllListed(order, nodes)
    ensures var t := RunTrace(order, nodes, succeeds);
            var k := Completed(order, nodes, succeeds);
            k < |order| ==> |t| > 0 && t[|t| - 1] == Event(order[k], Error)
  {
    TraceLength(order, nodes, succeeds);
    if Completed(order, nodes, succeeds) < |order| {
      TraceFailure(order, nodes, succeeds);
    }
  }

  /** No node after the failing one gets any event. */
  lemma {:induction false} NothingAfterFailure(order: seq<string>, nodes: seq<Node>, succeeds: Node -> bool)
    requires Distinct(order)
    ensures var t := RunTrace(order, nodes, succeeds);
            var k := Completed(order, nodes, succeeds);
            forall j :: k < j < |order| ==> forall e :: e in t ==> e.nodeId != order[j]
  {
    var k := Completed(order, nodes, succeeds);
    TraceWithinAttempted(order, nodes, succeeds);
    var prefix := order[..Attempted(order, nodes, succeeds)];
    forall j | k < j < |order|
      ensures order[j] !in prefix
    {
      forall i | 0 <= i < |prefix|
        ensures prefix[i] != order[j]
      {
        assert prefix[i] == order[i] && i < j;
      }
    }
  }

  /** When every action succeeds, each node reports `running` then `success`, in order, and nothing fails. */
  lemma {:induction false} AllSucceed(order: seq<string>, nodes: seq<Node>, succeeds: Node -> bool)
    requires forall i :: 0 <= i < |order| ==> Find(nodes, order[i]).Some? && succeeds(Find(nodes, order[i]).value)
    ensures var t := RunTrace(order, nodes, succeeds);
            && |t| == 2 * |order|
            && forall i :: 0 <= i < |order| ==> t[2 * i] == Event(order[i], Running) && t[2 * i + 1] == Event(order[i], Success)
  {
    TraceShape(order, nodes, succeeds);
  }
}
