/**
 * The registry of agent connections: which transport currently serves a node,
 * told from the whole series of registrations and disconnects. Each operation
 * holds the registry's lock, so it is one step.
 */
module AgentConnections {
  datatype Kind = WebSocketTlsTcp443 | Http2TlsTcp443 | QuicUdp443 | LongPollHttps

  /** A registered connection; `channel` identifies the channels it was created with. */
  datatype Entry = Entry(transportId: string, kind: Kind, channel: nat)

  type Table = map<string, Entry>

  datatype Op =
    | Register(nodeId: string, entry: Entry)
    | EnsureLongPoll(nodeId: string, transportId: string, channel: nat)
    | Disconnect(nodeId: string)
    | DisconnectTransport(nodeId: string, transportId: string)

  datatype Registration = Existing | Registered | ReplacedExisting

  /** A long poll on the transport that already serves the node goes on with its channels. */
  predicate Continues(t: Table, op: Op) {
    op.EnsureLongPoll? && op.nodeId in t && t[op.nodeId].transportId == op.transportId &&
    t[op.nodeId].kind.LongPollHttps?
  }

  /** The entry that a registration installs. */
  function EntryOf(op: Op): Entry
    requires op.Register? || op.EnsureLongPoll?
  {
    match op
    case Register(_, entry) => entry
    case EnsureLongPoll(_, transportId, channel) => Entry(transportId, LongPollHttps, channel)
  }

  function Apply(t: Table, op: Op): Table {
    match op
    case Register(nodeId, entry) => t[nodeId := entry]
    case EnsureLongPoll(nodeId, _, _) => if Continues(t, op) then t else t[nodeId := EntryOf(op)]
    case Disconnect(nodeId) => t - {nodeId}
    case DisconnectTransport(nodeId, transportId) =>
      if nodeId in t && t[nodeId].transportId == transportId then t - {nodeId} else t
  }

  class AgentConnectionRegistry {
    var connections: Table

    constructor ()
      ensures connections == map[]
    {
      connections := map[];
    }

    method RegisterTransport(nodeId: string, entry: Entry) returns (r: Registration)
      modifies this
      ensures connections == Apply(old(connections), Register(nodeId, entry))
      ensures r == if nodeId in old(connections) then ReplacedExisting else Registered
    {
      r := if nodeId in connections then ReplacedExisting else Registered;
      connections := connections[nodeId := entry];
    }

    method EnsureLongPollTransport(nodeId: string, transportId: string, channel: nat)
      returns (r: Registration, entry: Entry)
      modifies this
      ensures var op := EnsureLongPoll(nodeId, transportId, channel);
              connections == Apply(old(connections), op) && connections[nodeId] == entry &&
              (r.Existing? <==> Continues(old(connections), op)) &&
              (!r.Existing? ==> (r.ReplacedExisting? <==> nodeId in old(connections)))
      ensures entry.transportId == transportId && entry.kind.LongPollHttps?
    {
      if nodeId in connections {
        entry := connections[nodeId];
        if entry.transportId == transportId && entry.kind.LongPollHttps? {
          return Existing, entry;
        }
      }
      entry := Entry(transportId, LongPollHttps, channel);
      r := if nodeId in connections then ReplacedExisting else Registered;
      connections := connections[nodeId := entry];
    }

    method DropNode(nodeId: string)
      modifies this
      ensures connections == Apply(old(connections), Disconnect(nodeId))
    {
      connections := connections - {nodeId};
    }

    method DropTransport(nodeId: string, transportId: string) returns (removed: bool)
      modifies this
      ensures connections == Apply(old(connections), DisconnectTransport(nodeId, transportId))
      ensures removed <==> nodeId in old(connections) && old(connections)[nodeId].transportId == transportId
    {
      removed := nodeId in connections && connections[nodeId].transportId == transportId;
      if removed {
        connections := connections - {nodeId};
      }
    }
  }

  function Run(ops: seq<Op>): Table {
    if ops == [] then map[] else Apply(Run(ops[..|ops| - 1]), ops[|ops| - 1])
  }

  /** Step `i` installs a connection for the node, rather than going on with one. */
  predicate Installs(ops: seq<Op>, nodeId: string, i: nat)
    requires i < |ops|
  {
    (ops[i].Register? || ops[i].EnsureLongPoll?) && ops[i].nodeId == nodeId && !Continues(Run(ops[..i]), ops[i])
  }

  /** The operation leaves a connection of this node in place. */
  predicate Spares(op: Op, nodeId: string, entry: Entry) {
    op.nodeId == nodeId ==>
      match op
      case Register(_, _) => false
      case EnsureLongPoll(_, transportId, _) => entry.transportId == transportId && entry.kind.LongPollHttps?
      case Disconnect(_) => false
      case DisconnectTransport(_, transportId) => entry.transportId != transportId
  }

  /** What step `i` installed has not been replaced or disconnected since. */
  predicate Serves(ops: seq<Op>, nodeId: string, i: nat)
    requires i < |ops|
  {
    Installs(ops, nodeId, i) && forall j | i < j < |ops| :: Spares(ops[j], nodeId, EntryOf(ops[i]))
  }

  /** Every connection in the registry is served by the step that installed it. */
  lemma {:induction false} ConnectionHasSource(ops: seq<Op>, nodeId: string) returns (i: nat)
    requires nodeId in Run(ops)
    ensures i < |ops| && Serves(ops, nodeId, i) && Run(ops)[nodeId] == EntryOf(ops[i])
  {
    var n := |ops| - 1;
    var before, op := ops[..n], ops[n];
    var t := Run(before);
    if (op.Register? || op.EnsureLongPoll?) && op.nodeId == nodeId && !Continues(t, op) {
      i := n;
    } else {
      i := ConnectionHasSource(before, nodeId);
      assert before[..i] == ops[..i];
      assert Spares(op, nodeId, EntryOf(ops[i]));
      forall j | i < j < |ops| ensures Spares(ops[j], nodeId, EntryOf(ops[i])) {
        assert j < n ==> before[j] == ops[j];
      }
    }
  }

  /** And whatever was installed and not replaced or disconnected since is still in the registry, unchanged. */
  lemma {:induction false} SourceHasConnection(ops: seq<Op>, nodeId: string, i: nat)
    requires i < |ops| && Serves(ops, nodeId, i)
    ensures nodeId in Run(ops) && Run(ops)[nodeId] == EntryOf(ops[i])
  {
    var n := |ops| - 1;
    var before := ops[..n];
    if i < n {
      assert before[..i] == ops[..i];
      assert forall j | i < j < n :: before[j] == ops[j];
      SourceHasConnection(before, nodeId, i);
      assert Spares(ops[n], nodeId, EntryOf(ops[i]));
    }
  }

  /** The late cleanup of a transport that another one has replaced removes nothing. */
  lemma {:induction false} StaleCleanupIsHarmless(ops: seq<Op>, nodeId: string, i: nat, stale: string)
    requires i < |ops| && Serves(ops, nodeId, i) && EntryOf(ops[i]).transportId != stale
    ensures Apply(Run(ops), DisconnectTransport(nodeId, stale)) == Run(ops)
  {
    SourceHasConnection(ops, nodeId, i);
  }
}
