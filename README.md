# Workflow execution order and run, modelled in Dafny

This project models the workflow engine of the automation builder and the
workflow board's node-list reducers.

The engine (`src/lib/workflowEngine.ts`) does two things:

- It orders the nodes of a workflow graph. Nodes are ids, and edges are
  source/target pairs that may name ids that are not nodes. The ordering is
  Kahn's breadth-first topological sort, followed by a fallback that appends
  every node the queue never reached, in list order.
- It runs the nodes in that order. Each node reports `running`, and then
  `success` or `error`. The first error stops the run.

The board (`src/components/Workflow/WorkflowBoard.tsx`) does three things:

- Before a run, it resets every node's status to `idle`.
- It applies each status event to the node with that id.
- It merges edited form data into the selected node.

Modules:

- `SeqUtil` holds sequence helpers. `Dedup` is the key order of a JavaScript
  `Map` that is filled in list order.
- `Graph` holds the node, edge, status and event values.
- `KahnOrder` holds the specification functions of the sort. These are the
  counters, one relaxation step, the draining loop, the fallback and the
  whole order. It also holds the loop invariant and the proof that each step
  keeps it.
- `OrderTheorems` holds what the order guarantees:
  - each node exactly once;
  - dependency order for nodes the queue emitted;
  - the effect of edges with dangling ends;
  - on an acyclic graph, a topological order.
- `ExecutionTrace` holds the event sequence of a run and its fail-fast shape.
- `WorkflowEngine` holds `getExecutionOrder` and `executeWorkflow` as the
  loops they are. Each loop is proved equal to its specification function.
- `WorkflowBoard` holds the reducers, and the run as the board applies it.

The action a node performs is the parameter `succeeds: Node -> bool`. It is
applied to the node that `nodes.find` returns for the id. In the source the
action is a fixed delay that cannot fail, so this parameter is the only way
the `error` path can arise in the model.

The engine is meant to treat an edge whose source or target is not a node
as if it were absent. The code does this for a missing target. It does not do
it for a missing source. Such an edge still raises the in-degree of its target
(lines 36-40), and no emitted node ever lowers that count again (lines 53-61).
So the target never enters the queue, and the fallback places it instead.
The model follows the code. `MissingSourceBlocksTarget` and
`DanglingSourceReordersNodes` state this behaviour, and
`IgnoresEdgesToUnknownTargets` states the case of a missing target.
This is also why `AcyclicOrderIsTopological` assumes `NoDanglingSources`.
Without that assumption, "an acyclic graph is ordered with sources first"
does not hold for the code. With nodes `[b, a]` and edges `x→a`, `a→b`, where
`x` is not a node, the order is `[b, a]`. That breaks the edge `a→b` between two nodes, as
`DanglingSourceBreaksTopological` states.

A list with duplicate ids gives one entry per distinct id, not one per list
entry. The counters and the fallback both key on the id.

## Model

| member | source | states |
|---|---|---|
| WorkflowEngine.GetExecutionOrder | src/lib/workflowEngine.ts:17-75 | The loop result equals `ExecutionOrder` of the node ids. It holds no duplicates, and it contains exactly the node ids. |
| WorkflowEngine.BuildAdjacency | src/lib/workflowEngine.ts:20-28 | Every node gets a list of neighbours: the targets of its outgoing edges, in edge order. Ids that are not nodes get no list, so their edges are dropped. |
| WorkflowEngine.NodeIdSet | src/lib/workflowEngine.ts:31 | The lookup set is exactly the set of node ids. |
| WorkflowEngine.ZeroCounters | src/lib/workflowEngine.ts:34-35 | There is one counter per distinct node id, each 0. The keys are in order of first occurrence, which is the `Map` iteration order. |
| WorkflowEngine.CountEdges | src/lib/workflowEngine.ts:36-40 | Each counter ends at the number of edges into its node, whatever their source. |
| WorkflowEngine.SeedQueue | src/lib/workflowEngine.ts:43-46 | The initial queue is the nodes with in-degree 0, in key order. |
| WorkflowEngine.RelaxNeighbors | src/lib/workflowEngine.ts:53-61 | The inner loop's counters and queue equal those of `Relax`. |
| WorkflowEngine.DrainQueue | src/lib/workflowEngine.ts:49-62 | Starting from any state that satisfies `KahnOrder.Inv`, the emitted order equals `Drain` of that state with fuel equal to the number of nodes. `DrainFacts` shows that this fuel never runs out. |
| WorkflowEngine.AppendUnvisited | src/lib/workflowEngine.ts:68-72 | The fallback loop result equals `AppendMissing` of the queue-phase order and the node ids. |
| WorkflowEngine.RunOrder | src/lib/workflowEngine.ts:90-111 | The events emitted equal `RunTrace` of the order. |
| WorkflowEngine.ExecuteWorkflow | src/lib/workflowEngine.ts:81-112 | The events reported are the run of `ExecutionOrder` of the nodes. |
| WorkflowEngine.ExecutionOrderListed | src/lib/workflowEngine.ts:68-72 | The order holds no duplicates, and every id in it names a node, so `find` succeeds for each id. |
| WorkflowEngine.WorkflowTraceShape | src/lib/workflowEngine.ts:81-112 | A workflow run reports `running` then `success` per node, in order, until the first failure. That node reports `running` then `error`, and nothing comes after. |
| KahnOrder.ZeroInDegree | src/lib/workflowEngine.ts:43-46 | The initial queue contains exactly the keys whose in-degree is 0, without duplicates when the keys have none. |
| KahnOrder.PendingZero | src/lib/workflowEngine.ts:36-40 | A node's pending count is 0 exactly when every edge into it comes from an emitted node. |
| KahnOrder.PendingSplit | src/lib/workflowEngine.ts:53-57 | Emitting `u` lowers each pending count by the number of `u`'s edges into that node. |
| KahnOrder.RelaxOne | src/lib/workflowEngine.ts:55-60 | Relaxing a neighbour that is a node lowers its counter by 1, from at least 1. The neighbour is enqueued when its counter reaches 0, and never twice. |
| KahnOrder.RelaxFacts | src/lib/workflowEngine.ts:53-61 | After the inner loop, each counter equals its node's pending count. The queue has only been appended to. A node is queued or emitted exactly when its counter is 0. |
| KahnOrder.StepCounts | src/lib/workflowEngine.ts:50-61 | After one dequeue, each counter is the number of edges into its node whose source is not emitted, and the old queue without its head (the nodes still waiting) is a prefix of the new queue. |
| KahnOrder.StepPreservesInv | src/lib/workflowEngine.ts:49-62 | One iteration keeps the invariant: no duplicates, counters equal pending counts, queued exactly when the counter is 0, sources before targets. It emits the queue head, and `order + queue` only grows at its end (FIFO). |
| KahnOrder.SourcesFirstExtend | src/lib/workflowEngine.ts:58-59 | Appending nodes with no pending incoming edge keeps every enqueued node after all its sources. |
| KahnOrder.DrainStep | src/lib/workflowEngine.ts:49-62 | A non-empty queue implies fuel is left. One step keeps the invariant and uses one unit of fuel. |
| KahnOrder.DrainFacts | src/lib/workflowEngine.ts:49-62 | With fuel equal to the number of nodes not yet emitted, the draining loop empties the queue and keeps the invariant. It emits nodes in the order they were enqueued. |
| KahnOrder.SeenBound | src/lib/workflowEngine.ts:49-62 | No more nodes are ever enqueued than there are nodes. |
| KahnOrder.InitialInv | src/lib/workflowEngine.ts:34-46 | The state before the first dequeue satisfies the invariant. |
| KahnOrder.CountersAreInitial | src/lib/workflowEngine.ts:34-46 | The counters and queue built by the first passes are the initial state of the draining loop. |
| KahnOrder.QueuePhaseDrained | src/lib/workflowEngine.ts:49-62 | The queue phase ends with an empty queue, keeps the invariant, and emits the initial queue first. |
| KahnOrder.QueuePhaseClosed | src/lib/workflowEngine.ts:49-62 | Every node the queue phase leaves out has an incoming edge whose source was not emitted. |
| KahnOrder.QueuePhaseNodes | src/lib/workflowEngine.ts:49-62 | The queue phase emits only node ids, each at most once. |
| KahnOrder.QueuePhaseOrdered | src/lib/workflowEngine.ts:49-62 | In the queue-phase order, every edge into an emitted node has its source earlier. |
| KahnOrder.QueuePhaseSeedFirst | src/lib/workflowEngine.ts:43-51 | The initial queue is emitted first, in its order. |
| OrderTheorems.Unreached | src/lib/workflowEngine.ts:68-72 | The unreached keys are exactly the keys not yet emitted. |
| OrderTheorems.AppendMissingIsUnreached | src/lib/workflowEngine.ts:68-72 | The fallback appends exactly the node ids not yet emitted, in list order, each once. |
| OrderTheorems.FallbackCompletes | src/lib/workflowEngine.ts:68-72 | Appending the unreached ids to a duplicate-free list of node ids gives every distinct node id exactly once. |
| OrderTheorems.ExecutionOrderIsPermutation | src/lib/workflowEngine.ts:17-75 | Whatever the edges are, the order is each distinct node id exactly once. It is the queue-phase nodes followed by the unreached nodes in list order. |
| OrderTheorems.QueuePhaseRespectsDependencies | src/lib/workflowEngine.ts:49-62 | Every edge into a node emitted by the queue phase has its source earlier in the order, and that source is a node. |
| OrderTheorems.MissingSourceBlocksTarget | src/lib/workflowEngine.ts:36-40 | An edge from an id that is no node into a node keeps that node out of the queue phase. It lands in the fallback part of the order. |
| OrderTheorems.IgnoresEdgesToUnknownTargets | src/lib/workflowEngine.ts:36-61 | Dropping the edges whose target is not a node leaves the order unchanged. |
| OrderTheorems.DrainKnownTargets | src/lib/workflowEngine.ts:53-61 | The draining loop is the same with or without edges whose target is not a node. |
| OrderTheorems.RelaxKnownOnly | src/lib/workflowEngine.ts:55 | The inner loop skips neighbours that are not nodes. |
| OrderTheorems.AcyclicQueuePhaseComplete | src/lib/workflowEngine.ts:49-62 | On a graph without cycles, and with every edge into a node coming from a node, the queue phase emits every node. |
| OrderTheorems.AcyclicOrderIsTopological | src/lib/workflowEngine.ts:17-75 | On such a graph the fallback appends nothing, and the order puts every edge's source before its target. |
| OrderTheorems.QueuePhaseIsSeed | src/lib/workflowEngine.ts:49-62 | When every node outside the initial queue has an incoming edge from an id that is not a node, the queue phase emits just the initial queue. |
| OrderTheorems.TwoIsolatedNodesKeepListOrder | src/lib/workflowEngine.ts:17-75 | Two distinct nodes without edges keep their list order. |
| OrderTheorems.CycleNodesAreFallback | src/lib/workflowEngine.ts:49-72 | No node on a cycle is emitted by the queue phase. Every such node is placed by the fallback, after all queue-phase nodes. |
| OrderTheorems.CycleAvoidsOrdered | src/lib/workflowEngine.ts:53-59 | No prefix of a sequence where sources come first holds a node of a cycle. |
| OrderTheorems.DanglingSourceBreaksTopological | src/lib/workflowEngine.ts:36-40 | Take nodes `b` then `a`, and edges `x→a` and `a→b`, where `x` is not a node. The graph has no cycle among its nodes, yet the order is `b` then `a`. So the order fails `NodeSourcesFirst`, sources first counted over edges between two nodes only: the edge `a→b` is not respected. |
| OrderTheorems.DanglingSourceReordersNodes | src/lib/workflowEngine.ts:36-40 | Take nodes `a` then `b` and an edge into `a` from an id that is no node. The order is `b` then `a`. |
| ExecutionTrace.Find | src/lib/workflowEngine.ts:91 | `find` gives nothing exactly when no node has the id. Otherwise it gives a node of the list with that id. |
| ExecutionTrace.FindFirst | src/lib/workflowEngine.ts:91 | `find` gives the first node that carries the id. |
| ExecutionTrace.RunTraceStep | src/lib/workflowEngine.ts:90-111 | One loop iteration does one of three things. It skips an id with no node. It adds `running`, `success` and goes on. It adds `running`, `error` and the run ends. |
| ExecutionTrace.Completed | src/lib/workflowEngine.ts:90-111 | The number of leading ids whose action succeeds: every earlier one passes, and the one at that position fails. |
| ExecutionTrace.TraceShape | src/lib/workflowEngine.ts:90-111 | Each node before the first failure reports `running` then `success`, in order. The failing node reports `running` then `error`. The length is exactly that. |
| ExecutionTrace.TraceMentionsOnlyOrder | src/lib/workflowEngine.ts:90-111 | A run never reports `idle`, and reports only ids of the order. |
| ExecutionTrace.FailureStopsRun | src/lib/workflowEngine.ts:105-110 | The run ends with the failing node's `error`. No later node gets any event, and no other node gets `error`. |
| ExecutionTrace.TraceWithinAttempted | src/lib/workflowEngine.ts:90-111 | A run reports only the ids it gets to: the completed ones and the failing one. |
| ExecutionTrace.ErrorOnlyAtFailure | src/lib/workflowEngine.ts:105-109 | Only the first failing id is reported with `error`. |
| ExecutionTrace.AllSucceed | src/lib/workflowEngine.ts:90-111 | When every action succeeds, each node reports `running` then `success`, in order, and nothing fails. |
| WorkflowBoard.WithStatus | src/components/Workflow/WorkflowBoard.tsx:95 | Setting the status field sets the status and changes nothing else of the node. |
| WorkflowBoard.ResetStatuses | src/components/Workflow/WorkflowBoard.tsx:88 | Every node keeps its position and everything except its status, and its status becomes `idle`. |
| WorkflowBoard.ResetIdempotent | src/components/Workflow/WorkflowBoard.tsx:88 | Resetting twice is resetting once. |
| WorkflowBoard.ResetForgetsStatuses | src/components/Workflow/WorkflowBoard.tsx:88 | Two lists that differ only in statuses reset to the same list. |
| WorkflowBoard.ApplyStatus | src/components/Workflow/WorkflowBoard.tsx:92-98 | Every node with the event's id gets its status, and nothing else changes. Every other node is unchanged. |
| WorkflowBoard.ReplayLastStatus | src/components/Workflow/WorkflowBoard.tsx:92-99 | After all events, a node's status is the last status reported for its id. A node with no events is unchanged. |
| WorkflowBoard.LastStatusAppend | src/components/Workflow/WorkflowBoard.tsx:92-99 | The last status after two batches of events comes from the second batch, unless that batch does not mention the id. |
| WorkflowBoard.RunLastStatus | src/lib/workflowEngine.ts:90-111 | The last status a run reports for an id is `success` when the id completed before the first failure, `error` when it is the failing id, and none otherwise. |
| WorkflowBoard.RunWorkflowStatuses | src/components/Workflow/WorkflowBoard.tsx:86-100 | After Run, a node is `success` when it completed before the first failure, `error` when it failed, and `idle` when the run never reached it. Everything else about the node is unchanged. |
| WorkflowBoard.RerunGivesSameResult | src/components/Workflow/WorkflowBoard.tsx:86-100 | Take an action that does not depend on the status field. Running again on the result reports the same events and gives the same node list. |
| WorkflowBoard.MergeData | src/components/Workflow/WorkflowBoard.tsx:75-78 | The merged data has the keys of both records. A new value overrides the old one, and other old values stay. |
| WorkflowBoard.NodeDataChange | src/components/Workflow/WorkflowBoard.tsx:68-83 | With no selected node (none or the empty id), nothing changes. Otherwise every node with the selected id gets the new data merged over its data, keeping its id and other fields. Every other node is unchanged. |
| WorkflowBoard.NodeDataChangeIdempotent | src/components/Workflow/WorkflowBoard.tsx:68-83 | Applying the same change twice is applying it once. |

## Left out

- The delay, `async`/`await` and `console` output of `executeWorkflow` are left out. The run is a sequence of events; time and interleaving are not modelled.
- In the source the action is a fixed delay that cannot throw, so the `catch` branch is unreachable there. The model makes failure possible through the `succeeds` parameter, so that the fail-fast behaviour can be stated.
- The callback `updateNodeStatus` is modelled as an event list. `Replay` then applies it to the node list.
- React state, hooks, ReactFlow rendering, the side panel and the lazy `import` of the engine are left out.
- The Run button passes the node list it captured before the reset to the engine. The model runs the engine on that list too, and the reset only affects the list the events are applied to.
- The unused `visited` set and the `WorkflowExecutionResult` type (its `output` and `error` fields) are left out, because the code never uses them.
- JavaScript objects and arrays that the source copies with spreads and `map` are modelled as immutable values. Aliasing of node objects is not modelled.
- Node data is a map from field names to values. Only the `status` field is interpreted; every other value is opaque.
- The draining loop is written with a fuel bound equal to the number of nodes. `DrainFacts` proves this bound always suffices, so no behaviour is lost.
- The other parts of the repository are not part of this model: the API routes, the chat pages and components, the action and integration catalogues, the settings and sign-up pages.
