/**
 * The long-poll channel of an agent: one connection's command queue, event
 * channel and message ids, and what one poll does to them. Commands are sent
 * between polls, or while a poll waits for one.
 */
module LongPoll {
  import opened Integers
  import opened Wrappers

  const PROTOCOL_VERSION: nat := 1
  const CHANNEL_CAPACITY: nat := 128
  const LONG_POLL_BATCH: nat := 32
  const FIRST_MESSAGE_ID: nat := 2

  type Command = string

  datatype Event =
    | Started(session: string)
    | Output(session: string, data: string)
    | Exited(session: string)
    | Failure(session: string)

  datatype ProtocolError =
    | UnsupportedProtocolVersion
    | MissingMessageId
    | MissingTerminalOutputSequence
    | UnexpectedTerminalOutputSequence

  /** What an agent is told about a frame: malformed, or dropped because the event channel is full. */
  datatype FrameError = InvalidEnvelope(error: ProtocolError) | WrongIdentity | ChannelFull

  datatype Payload =
    | ClientHello
    | ServerHello
    | Ping
    | Pong(pingMessageId: nat)
    | TerminalCommand(command: Command)
    | TerminalEvent(sequence: Option<nat>, event: Event)
    | ErrorReport(text: string)
    | ErrorReply(error: FrameError)

  datatype Envelope =
    Envelope(protocolVersion: nat, messageId: nat, nodeId: string, transportId: string, payload: Payload)
  {
    function Validate(): Option<ProtocolError> {
      if protocolVersion != PROTOCOL_VERSION then Some(UnsupportedProtocolVersion)
      else if messageId == 0 then Some(MissingMessageId)
      else
        match payload
        case TerminalEvent(sequence, event) =>
          if event.Output? && sequence.None? then Some(MissingTerminalOutputSequence)
          else if !event.Output? && sequence.Some? then Some(UnexpectedTerminalOutputSequence)
          else None
        case _ => None
    }
  }

  datatype Handshake = Handshake(nodeId: string, transportId: string)
  datatype Connection = Connection(commands: seq<Command>, events: seq<Event>, nextMessageId: nat)

  const NEW_CONNECTION := Connection([], [], FIRST_MESSAGE_ID)

  datatype Outcome =
    | HeartbeatReceived(pingMessageId: nat)
    | EventReceived(event: Event)
    | Ignored
    | Rejected(error: FrameError)

  /** What becomes of a frame when `waiting` events are already in the channel. */
  function OutcomeOf(h: Handshake, e: Envelope, waiting: nat): Outcome {
    var invalid := e.Validate();
    if invalid.Some? then Rejected(InvalidEnvelope(invalid.value))
    else if e.nodeId != h.nodeId || e.transportId != h.transportId then Rejected(WrongIdentity)
    else
      match e.payload
      case Ping => HeartbeatReceived(e.messageId)
      case TerminalEvent(_, event) => if waiting < CHANNEL_CAPACITY then EventReceived(event) else Rejected(ChannelFull)
      case _ => Ignored
  }

  /** A frame from the agent of this connection, of the only protocol version and with a message id. */
  predicate FromAgent(h: Handshake, e: Envelope) {
    e.protocolVersion == 1 && e.messageId != 0 && e.nodeId == h.nodeId && e.transportId == h.transportId
  }

  predicate ProperPing(h: Handshake, e: Envelope) {
    FromAgent(h, e) && e.payload.Ping?
  }

  /** A terminal event, which has a sequence number exactly if it is output. */
  predicate ProperEvent(h: Handshake, e: Envelope) {
    FromAgent(h, e) && e.payload.TerminalEvent? && (e.payload.sequence.Some? <==> e.payload.event.Output?)
  }

  function NextId(id: nat): nat {
    if id < U64_MAX then id + 1 else U64_MAX
  }

  /** A poll in progress: the connection and the response so far. */
  datatype Batch = Batch(connection: Connection, envelopes: seq<Envelope>)

  function Reply(h: Handshake, b: Batch, payload: Payload): Batch {
    var id := b.connection.nextMessageId;
    Batch(b.connection.(nextMessageId := NextId(id)),
          b.envelopes + [Envelope(PROTOCOL_VERSION, id, h.nodeId, h.transportId, payload)])
  }

  function AfterFrame(h: Handshake, b: Batch, frame: Envelope): Batch {
    match OutcomeOf(h, frame, |b.connection.events|)
    case HeartbeatReceived(id) => Reply(h, b, Pong(id))
    case EventReceived(event) => b.(connection := b.connection.(events := b.connection.events + [event]))
    case Ignored => b
    case Rejected(error) => Reply(h, b, ErrorReply(error))
  }

  /** The hello and the replies to the frames, in order. */
  function AfterFrames(h: Handshake, s: Connection, frames: seq<Envelope>): Batch {
    if frames == [] then Reply(h, Batch(s, []), ServerHello)
    else AfterFrame(h, AfterFrames(h, s, frames[..|frames| - 1]), frames[|frames| - 1])
  }

  function TakeCommand(h: Handshake, b: Batch): Batch
    requires b.connection.commands != []
  {
    var c := b.connection.commands;
    Reply(h, b.(connection := b.connection.(commands := c[1..])), TerminalCommand(c[0]))
  }

  /** Commands are taken until the response is full or the queue is empty. */
  function Fill(h: Handshake, b: Batch): Batch
    decreases |b.connection.commands|
  {
    if |b.envelopes| < LONG_POLL_BATCH && b.connection.commands != [] then Fill(h, TakeCommand(h, b)) else b
  }

  /** A poll with nothing to answer waits for commands if there are none. */
  predicate Waits(b: Batch) {
    |b.envelopes| == 1 && b.connection.commands == []
  }

  function AfterWait(b: Batch, arrivals: seq<Command>): Batch {
    if Waits(b) then b.(connection := b.connection.(commands := arrivals)) else b
  }

  function FirstCommand(h: Handshake, b: Batch): Batch {
    if |b.envelopes| == 1 && b.connection.commands != [] then TakeCommand(h, b) else b
  }

  /** One poll; `arrivals` are the commands sent while it waits, if it does. */
  function Poll(h: Handshake, s: Connection, frames: seq<Envelope>, arrivals: seq<Command>): Batch {
    Fill(h, FirstCommand(h, AfterWait(AfterFrames(h, s, frames), arrivals)))
  }

  lemma {:induction false} FillTakes(h: Handshake, b: Batch)
    ensures Fill(h, b)
         == if |b.envelopes| < LONG_POLL_BATCH && b.connection.commands != [] then Fill(h, TakeCommand(h, b)) else b
  {
  }

  lemma {:induction false} FramesStart(h: Handshake, s: Connection)
    ensures AfterFrames(h, s, []) == Reply(h, Batch(s, []), ServerHello)
  {
  }

  lemma {:induction false} FramesStep(h: Handshake, s: Connection, frames: seq<Envelope>, n: nat)
    requires n < |frames|
    ensures frames[..0] == []
    ensures AfterFrames(h, s, frames[..n + 1]) == AfterFrame(h, AfterFrames(h, s, frames[..n]), frames[n])
  {
    assert frames[..n + 1][..n] == frames[..n];
  }

  class LongPollConnection {
    var commands: seq<Command>
    var events: seq<Event>
    var nextMessageId: nat

    constructor ()
      ensures Contents() == NEW_CONNECTION
    {
      commands, events, nextMessageId := [], [], FIRST_MESSAGE_ID;
    }

    ghost function Contents(): Connection
      reads this
    {
      Connection(commands, events, nextMessageId)
    }

    method NextLongPollMessageId() returns (id: nat)
      modifies `nextMessageId
      ensures id == old(nextMessageId) && nextMessageId == NextId(id)
    {
      id := nextMessageId;
      nextMessageId := NextId(id);
    }

    method HandleAgentTransportEnvelope(h: Handshake, e: Envelope) returns (outcome: Outcome)
      modifies `events
      ensures ProperPing(h, e) ==> outcome == HeartbeatReceived(e.messageId) && events == old(events)
      ensures ProperEvent(h, e) && |old(events)| < 128 ==>
                outcome == EventReceived(e.payload.event) && events == old(events) + [e.payload.event]
      ensures ProperEvent(h, e) && |old(events)| >= 128 ==> outcome == Rejected(ChannelFull) && events == old(events)
      ensures e.nodeId != h.nodeId || e.transportId != h.transportId ==> outcome.Rejected? && events == old(events)
      ensures outcome == OutcomeOf(h, e, |old(events)|)
      ensures events == if outcome.EventReceived? then old(events) + [outcome.event] else old(events)
    {
      var invalid := e.Validate();
      if invalid.Some? {
        return Rejected(InvalidEnvelope(invalid.value));
      }
      if e.nodeId != h.nodeId || e.transportId != h.transportId {
        return Rejected(WrongIdentity);
      }
      match e.payload {
        case Ping =>
          return HeartbeatReceived(e.messageId);
        case TerminalEvent(_, event) =>
          if |events| >= CHANNEL_CAPACITY {
            return Rejected(ChannelFull);
          }
          events := events + [event];
          return EventReceived(event);
        case _ =>
          return Ignored;
      }
    }

    method CommandEnvelope(h: Handshake, command: Command) returns (e: Envelope)
      modifies `nextMessageId
      ensures e == Envelope(PROTOCOL_VERSION, old(nextMessageId), h.nodeId, h.transportId, TerminalCommand(command))
      ensures nextMessageId == NextId(old(nextMessageId))
    {
      var id := NextLongPollMessageId();
      e := Envelope(PROTOCOL_VERSION, id, h.nodeId, h.transportId, TerminalCommand(command));
    }

    method AppendLongPollCommands(h: Handshake, envelopes: seq<Envelope>, arrivals: seq<Command>)
      returns (all: seq<Envelope>)
      modifies `commands, `nextMessageId
      ensures Batch(Contents(), all) == Fill(h, FirstCommand(h, AfterWait(Batch(old(Contents()), envelopes), arrivals)))
    {
      hide Fill;
      all := envelopes;
      if |all| == 1 {
        if commands == [] {
          commands := arrivals;
        }
        if commands != [] {
          var command := commands[0];
          commands := commands[1..];
          var e := CommandEnvelope(h, command);
          all := all + [e];
        }
      }
      ghost var start := Batch(Contents(), all);
      while |all| < LONG_POLL_BATCH && commands != []
        invariant Fill(h, start) == Fill(h, Batch(Contents(), all))
        invariant events == old(events)
        decreases |commands|
      {
        FillTakes(h, Batch(Contents(), all));
        var command := commands[0];
        commands := commands[1..];
        var e := CommandEnvelope(h, command);
        all := all + [e];
      }
      FillTakes(h, Batch(Contents(), all));
    }

    method HandleLongPollRequest(h: Handshake, frames: seq<Envelope>, arrivals: seq<Command>)
      returns (envelopes: seq<Envelope>)
      modifies this
      ensures Batch(Contents(), envelopes) == Poll(h, old(Contents()), frames, arrivals)
    {
      hide Fill, OutcomeOf, AfterFrames;
      var id := NextLongPollMessageId();
      envelopes := [Envelope(PROTOCOL_VERSION, id, h.nodeId, h.transportId, ServerHello)];
      FramesStart(h, old(Contents()));
      for n := 0 to |frames|
        invariant Batch(Contents(), envelopes) == AfterFrames(h, old(Contents()), frames[..n])
      {
        FramesStep(h, old(Contents()), frames, n);
        var outcome := HandleAgentTransportEnvelope(h, frames[n]);
        match outcome {
          case HeartbeatReceived(pingMessageId) =>
            id := NextLongPollMessageId();
            envelopes := envelopes + [Envelope(PROTOCOL_VERSION, id, h.nodeId, h.transportId, Pong(pingMessageId))];
          case EventReceived(_) =>
          case Ignored =>
          case Rejected(error) =>
            id := NextLongPollMessageId();
            envelopes := envelopes + [Envelope(PROTOCOL_VERSION, id, h.nodeId, h.transportId, ErrorReply(error))];
        }
      }
      assert frames[..|frames|] == frames;
      envelopes := AppendLongPollCommands(h, envelopes, arrivals);
    }
  }
}
