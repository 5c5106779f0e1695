/**
 * The workflow graph as the engine and the board see it: nodes carrying an
 * open data record (where the `status` field lives), dependency edges, and the
 * `(nodeId, status)` events the engine reports.
 */
module Graph {
  import opened SeqUtil

  /** `ExecutionStatus` of the engine: the per-node lifecycle state. */
  datatype Status = Idle | Running | Success | Error

  /**
   * A field value of a node's data record.  The status field holds a status;
   * every other field (slug, title, parameters, ...) is opaque here.
   */
  datatype Value = StatusValue(status: Status) | Opaque(repr: string)

  /**
   * A canvas node: its id, its `data` record (keyed by field name) and the
   * rest of the node object (type, position, ...) as `props`.
   */
  datatype Node = Node(id: string, data: map<string, Value>, props: map<string, Value>)

  /** "target depends on source". Either end may name no node. */
  datatype Edge = Edge(source: string, target: string)

  /** One call of the status callback. */
  datatype Event = Event(nodeId: string, status: Status)

  /** The node ids in list order. */
  function Ids(nodes: seq<Node>): (ids: seq<string>)
    ensures |ids| == |nodes|
    ensures forall i :: 0 <= i < |nodes| ==> ids[i] == nodes[i].id
  {
    seq(|nodes|, i requires 0 <= i < |nodes| => nodes[i].id)
  }
}
