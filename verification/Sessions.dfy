/**
 * Terminal sessions: their life cycle, and what every operation of the session
 * registry does to the table of sessions. Each operation holds the registry's
 * lock from start to end, so it is one step.
 */
module Sessions {
  import opened Integers
  import opened Wrappers

  type SessionId = string

  const OUTPUT_REPLAY_CAPACITY: nat := 128

  datatype SessionState =
    | Created | Starting | Active | Detached | Reattaching | Terminating | Terminated | Failed | Expired
  {
    predicate CanTransitionTo(next: SessionState) {
      match this
      case Created => next.Starting?
      case Starting => next.Active? || next.Failed?
      case Active => next.Detached? || next.Terminating? || next.Failed? || next.Expired?
      case Detached => next.Reattaching? || next.Terminating? || next.Failed? || next.Expired?
      case Reattaching => next.Active? || next.Terminating? || next.Failed?
      case Terminating => next.Terminated?
      case Failed => next.Terminated?
      case Expired => next.Terminated?
      case Terminated => false
    }

    /** The same table, read backwards. */
    predicate ComesFrom(before: SessionState) {
      match this
      case Created => false
      case Starting => before in {Created}
      case Active => before in {Starting, Reattaching}
      case Detached => before in {Active}
      case Reattaching => before in {Detached}
      case Terminating => before in {Active, Detached, Reattaching}
      case Terminated => before in {Terminating, Failed, Expired}
      case Failed => before in {Starting, Active, Detached, Reattaching}
      case Expired => before in {Active, Detached}
    }

    predicate IsReattachable() {
      Active? || Detached? || Reattaching?
    }

    predicate IsTerminal() {
      Terminated? || Failed? || Expired?
    }
  }

  datatype Size = Size(cols: nat, rows: nat)

  /** The messages a browser receives; the payload of a notice is not looked at. */
  datatype Message =
    | Output(sessionId: SessionId, sequence: nat, data: string)
    | Notice(sessionId: SessionId, text: string)
    | Error(session: Option<SessionId>, text: string)
    | Pong(nonce: string)

  /** A local terminal process or the command channel of a remote agent. */
  datatype Backend = Local(process: nat) | Remote(commands: nat)

  datatype Session = Session(
    backend: Backend,
    channel: nat,
    replay: seq<Message>,
    nextOutputSequence: nat,
    reconnectToken: string,
    state: SessionState,
    lastActivity: nat,
    createdAt: nat,
    size: Size,
    actorEmail: string,
    nodeId: Option<string>)

  type Table = map<SessionId, Session>

  datatype Config = Config(maxSessions: nat, maxSessionsPerUser: nat, maxSessionsPerNode: nat)

  datatype LimitError = GlobalCapacity | PerUser | PerNode

  /** What `insert` and `insert_remote` ask for; `token`, `channel` and `now` are drawn by the registry. */
  datatype InsertRequest = InsertRequest(
    sessionId: SessionId,
    backend: Backend,
    size: Size,
    actorEmail: string,
    nodeId: Option<string>,
    token: string,
    channel: nat,
    now: nat)

  // ------------------------------------------------------------------- counting

  function UserSessions(t: Table, actorEmail: string): set<SessionId> {
    set id | id in t && t[id].actorEmail == actorEmail && !t[id].state.IsTerminal()
  }

  function NodeSessions(t: Table, nodeId: Option<string>): set<SessionId> {
    set id | id in t && t[id].nodeId == nodeId && !t[id].state.IsTerminal()
  }

  // ----------------------------------------------------------------- operations

  /** Why an insert is refused, if it is: the limits are checked in this order. */
  function InsertError(config: Config, t: Table, r: InsertRequest): Option<LimitError> {
    if config.maxSessions <= |t| then Some(GlobalCapacity)
    else if config.maxSessionsPerUser <= |UserSessions(t, r.actorEmail)| then Some(PerUser)
    else if config.maxSessionsPerNode <= |NodeSessions(t, r.nodeId)| then Some(PerNode)
    else None
  }

  function NewSession(r: InsertRequest): Session {
    Session(r.backend, r.channel, [], 1, r.token, Starting, r.now, r.now, r.size, r.actorEmail, r.nodeId)
  }

  function AfterInsert(config: Config, t: Table, r: InsertRequest): Table {
    if InsertError(config, t, r).None? then t[r.sessionId := NewSession(r)] else t
  }

  function AfterSetState(t: Table, id: SessionId, state: SessionState): Table {
    if id in t && (t[id].state.CanTransitionTo(state) || t[id].state == state) then t[id := t[id].(state := state)]
    else t
  }

  predicate CanReattach(t: Table, id: SessionId, token: string, actorEmail: string) {
    id in t && t[id].actorEmail == actorEmail && t[id].state.IsReattachable() && t[id].reconnectToken == token
  }

  function AfterReattach(t: Table, id: SessionId, token: string, actorEmail: string, newToken: string,
                         now: nat): Table
  {
    if CanReattach(t, id, token, actorEmail)
    then t[id := t[id].(reconnectToken := newToken, state := Reattaching, lastActivity := now)]
    else t
  }

  function PushReplay(replay: seq<Message>, message: Message): seq<Message> {
    (if |replay| == OUTPUT_REPLAY_CAPACITY then replay[1..] else replay) + [message]
  }

  function NextSequence(sequence: nat): nat {
    if sequence < U64_MAX then sequence + 1 else U64_MAX
  }

  /** The output message the registry numbers and remembers. */
  function NumberedOutput(t: Table, id: SessionId, data: string): Message
    requires id in t
  {
    Output(id, t[id].nextOutputSequence, data)
  }

  function AfterRecordOutput(t: Table, id: SessionId, data: string): Table {
    if id !in t then t
    else
      t[id := t[id].(
        nextOutputSequence := NextSequence(t[id].nextOutputSequence),
        replay := PushReplay(t[id].replay, NumberedOutput(t, id, data)))]
  }

  /** The session a message is remembered for. */
  function MessageSession(m: Message): Option<SessionId> {
    match m
    case Output(id, _, _) => Some(id)
    case Notice(id, _) => Some(id)
    case Error(session, _) => session
    case Pong(_) => None
  }

  function AfterRemember(t: Table, m: Message): Table {
    match MessageSession(m)
    case None => t
    case Some(id) => if id in t then t[id := t[id].(replay := PushReplay(t[id].replay, m))] else t
  }

  function Without(t: Table, id: SessionId): Table {
    t - {id}
  }

  function Elapsed(since: nat, now: nat): nat {
    if since <= now then now - since else 0
  }

  predicate HasExpired(s: Session, now: nat, maxDuration: nat, idleTimeout: nat) {
    !s.state.IsTerminal() &&
    (maxDuration <= Elapsed(s.createdAt, now) || (s.state.Detached? && idleTimeout <= Elapsed(s.lastActivity, now)))
  }

  function ExpiredIds(t: Table, now: nat, maxDuration: nat, idleTimeout: nat): set<SessionId> {
    set id | id in t && HasExpired(t[id], now, maxDuration, idleTimeout)
  }

  function NodeIds(t: Table, nodeId: string): set<SessionId> {
    set id | id in t && t[id].nodeId == Some(nodeId) && !t[id].state.IsTerminal()
  }

  /** A call of one of the registry's operations, with what it draws from outside. */
  datatype Op =
    | Insert(request: InsertRequest)
    | SetState(id: SessionId, state: SessionState)
    | Reattach(id: SessionId, token: string, actorEmail: string, newToken: string, now: nat)
    | Touch(id: SessionId, now: nat)
    | SetSize(id: SessionId, size: Size)
    | RecordOutput(id: SessionId, data: string)
    | Remember(message: Message)
    | Remove(id: SessionId)
    | DrainExpired(now: nat, maxDuration: nat, idleTimeout: nat)
    | CloseForNode(nodeId: string)

  function Apply(config: Config, t: Table, op: Op): Table {
    match op
    case Insert(r) => AfterInsert(config, t, r)
    case SetState(id, state) => AfterSetState(t, id, state)
    case Reattach(id, token, actorEmail, newToken, now) => AfterReattach(t, id, token, actorEmail, newToken, now)
    case Touch(id, now) => if id in t then t[id := t[id].(lastActivity := now)] else t
    case SetSize(id, size) => if id in t then t[id := t[id].(size := size)] else t
    case RecordOutput(id, data) => AfterRecordOutput(t, id, data)
    case Remember(m) => AfterRemember(t, m)
    case Remove(id) => Without(t, id)
    case DrainExpired(now, maxDuration, idleTimeout) => t - ExpiredIds(t, now, maxDuration, idleTimeout)
    case CloseForNode(nodeId) => t - NodeIds(t, nodeId)
  }

  /** The table after a run of operations that starts with no sessions. */
  function Run(config: Config, ops: seq<Op>): Table {
    if ops == [] then map[]
    else Apply(config, Run(config, ops[..|ops| - 1]), ops[|ops| - 1])
  }
}
