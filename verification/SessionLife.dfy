/**
 * The life of a session, state by state and time by time: what an insert asks
 * for, which moves are possible, and when a session is drained.
 */
module SessionLife {
  import opened Wrappers
  import opened Sessions
  import R = SessionRuns

  // ---------------------------------------------------------------------- inserts

  /** The session still counts against the limits. */
  predicate Counts(s: Session) {
    s.state !in {Terminated, Failed, Expired}
  }

  function Of(t: Table, actorEmail: string): set<SessionId> {
    set id | id in t && t[id].actorEmail == actorEmail && Counts(t[id])
  }

  function On(t: Table, nodeId: Option<string>): set<SessionId> {
    set id | id in t && t[id].nodeId == nodeId && Counts(t[id])
  }

  lemma SameCounts(t: Table, r: InsertRequest)
    ensures Of(t, r.actorEmail) == UserSessions(t, r.actorEmail) && On(t, r.nodeId) == NodeSessions(t, r.nodeId)
  {
  }

  /**
   * An insert succeeds exactly when there are fewer sessions than the limit in
   * all, and fewer that still count of its user and on its node; the first
   * limit reached is the error. It changes nothing but its own session.
   */
  lemma InsertDecided(config: Config, t: Table, r: InsertRequest)
    ensures var all, user, node :=
              |t| < config.maxSessions,
              |Of(t, r.actorEmail)| < config.maxSessionsPerUser,
              |On(t, r.nodeId)| < config.maxSessionsPerNode;
            InsertError(config, t, r) == (if !all then Some(GlobalCapacity) else if !user then Some(PerUser)
                                          else if !node then Some(PerNode) else None) &&
            (Apply(config, t, Insert(r)) == t || (all && user && node)) &&
            (all && user && node ==>
               var t' := Apply(config, t, Insert(r));
               t'.Keys == t.Keys + {r.sessionId} &&
               (forall id | id in t && id != r.sessionId :: t'[id] == t[id]) &&
               var s := t'[r.sessionId];
               s.state == Starting && s.replay == [] && s.nextOutputSequence == 1 && s.reconnectToken == r.token &&
               s.backend == r.backend && s.channel == r.channel && s.size == r.size &&
               s.actorEmail == r.actorEmail && s.nodeId == r.nodeId)
  {
    SameCounts(t, r);
    hide Of, On, UserSessions, NodeSessions;
  }

  // ------------------------------------------------------------------------ moves

  /** The registry moves a session to a state exactly from that state and from those before it. */
  lemma MovesExactlyWhen(t: Table, id: SessionId, state: SessionState)
    requires id in t
    ensures var t' := AfterSetState(t, id, state);
            t'.Keys == t.Keys && (forall other | other in t && other != id :: t'[other] == t[other]) &&
            (t'[id].state == state <==>
               t[id].state == state ||
               match state
               case Created => false
               case Starting => t[id].state == Created
               case Active => t[id].state in {Starting, Reattaching}
               case Detached => t[id].state == Active
               case Reattaching => t[id].state == Detached
               case Terminating => t[id].state in {Active, Detached, Reattaching}
               case Terminated => t[id].state in {Terminating, Failed, Expired}
               case Failed => t[id].state in {Starting, Active, Detached, Reattaching}
               case Expired => t[id].state in {Active, Detached}) &&
            (t'[id].state != state ==> t' == t)
  {
  }

  function Ran(config: Config, t: Table, ops: seq<Op>): Table {
    if ops == [] then t else Apply(config, Ran(config, t, ops[..|ops| - 1]), ops[|ops| - 1])
  }

  /** The state of a session after some operations. */
  function StateAfter(config: Config, t: Table, ops: seq<Op>, id: SessionId): Option<SessionState> {
    var t' := Ran(config, t, ops);
    if id in t' then Some(t'[id].state) else None
  }

  lemma RanOneMore(config: Config, t: Table, ops: seq<Op>, op: Op)
    ensures Ran(config, t, ops + [op]) == Apply(config, Ran(config, t, ops), op)
  {
    hide Apply;
    assert (ops + [op])[..|ops|] == ops;
  }

  /** The moves of a session that is opened, left, come back to and closed. */
  function LifeOps(r: InsertRequest, newToken: string, now: nat): seq<Op> {
    var id := r.sessionId;
    [Insert(r), SetState(id, Active), SetState(id, Detached), Reattach(id, r.token, r.actorEmail, newToken, now),
     SetState(id, Active), SetState(id, Terminating), SetState(id, Terminated)]
  }

  /** The state after the insert and `k` more of these moves. */
  function LifeState(k: nat): SessionState
    requires k < 7
  {
    [Starting, Active, Detached, Reattaching, Active, Terminating, Terminated][k]
  }

  predicate Opens(t: Table, id: SessionId, token: string, actorEmail: string) {
    id in t && t[id].reconnectToken == token && t[id].actorEmail == actorEmail
  }

  lemma Begins(config: Config, t: Table, r: InsertRequest)
    requires InsertError(config, t, r).None?
    ensures Ran(config, t, []) == t
    ensures var t' := Apply(config, t, Insert(r));
            Opens(t', r.sessionId, r.token, r.actorEmail) && t'[r.sessionId].state == Starting
  {
  }

  lemma LifeStep(config: Config, t: Table, r: InsertRequest, newToken: string, now: nat, k: nat)
    requires k < 6 && r.sessionId in t
    requires t[r.sessionId].state == LifeState(k)
    requires k < 3 ==> Opens(t, r.sessionId, r.token, r.actorEmail)
    ensures var t' := Apply(config, t, LifeOps(r, newToken, now)[k + 1]);
            r.sessionId in t' &&
            t'[r.sessionId].state == LifeState(k + 1) &&
            (k < 2 ==> Opens(t', r.sessionId, r.token, r.actorEmail))
  {
    match k
    case 0 =>
    case 1 =>
    case 2 =>
    case 3 =>
    case 4 =>
    case _ =>
  }

  lemma {:induction false} LifeUpTo(config: Config, t: Table, r: InsertRequest, newToken: string, now: nat, k: nat)
    requires InsertError(config, t, r).None? && k < 7
    ensures var t' := Ran(config, t, LifeOps(r, newToken, now)[..k + 1]);
            r.sessionId in t' && t'[r.sessionId].state == LifeState(k) &&
            (k < 3 ==> Opens(t', r.sessionId, r.token, r.actorEmail))
  {
    hide InsertError, Ran, Opens;
    var ops := LifeOps(r, newToken, now);
    assert ops[..k + 1] == ops[..k] + [ops[k]];
    RanOneMore(config, t, ops[..k], ops[k]);
    if k == 0 {
      Begins(config, t, r);
      assert ops[..0] == [];
    } else {
      LifeUpTo(config, t, r, newToken, now, k - 1);
      LifeStep(config, Ran(config, t, ops[..k]), r, newToken, now, k - 1);
    }
  }

  /**
   * Such a session is Starting, Active, Detached, Reattaching, Active,
   * Terminating and Terminated, one after the other, whatever else is in the table.
   */
  lemma LifeOfASession(config: Config, t: Table, r: InsertRequest, newToken: string, now: nat)
    requires InsertError(config, t, r).None?
    ensures forall k: nat | k < 7 ::
              StateAfter(config, t, LifeOps(r, newToken, now)[..k + 1], r.sessionId) == Some(LifeState(k))
  {
    hide InsertError, Ran, Opens;
    forall k: nat | k < 7
      ensures StateAfter(config, t, LifeOps(r, newToken, now)[..k + 1], r.sessionId) == Some(LifeState(k))
    {
      LifeUpTo(config, t, r, newToken, now, k);
    }
  }

  // ------------------------------------------------------------------------ times

  /** When the session that has this id was inserted. */
  function InsertedAt(config: Config, ops: seq<Op>, id: SessionId): nat {
    if ops == [] then 0
    else
      var before, op := ops[..|ops| - 1], ops[|ops| - 1];
      if R.Inserts(config, Run(config, before), op, id) then op.request.now else InsertedAt(config, before, id)
  }

  /** When it was last used: inserted, reattached to, or touched. */
  function UsedAt(config: Config, ops: seq<Op>, id: SessionId): nat {
    if ops == [] then 0
    else
      var before, op := ops[..|ops| - 1], ops[|ops| - 1];
      if R.Inserts(config, Run(config, before), op, id) then op.request.now
      else if R.Reattaches(config, ops, |ops| - 1) && op.id == id then op.now
      else if op.Touch? && op.id == id then op.now
      else UsedAt(config, before, id)
  }

  /** The size it was last given. */
  function SizeOf(config: Config, ops: seq<Op>, id: SessionId): (size: Option<Size>) {
    if ops == [] then None
    else
      var before, op := ops[..|ops| - 1], ops[|ops| - 1];
      if R.Inserts(config, Run(config, before), op, id) then Some(op.request.size)
      else if op.SetSize? && op.id == id then Some(op.size)
      else SizeOf(config, before, id)
  }

  lemma StepTimes(config: Config, t: Table, op: Op, id: SessionId)
    requires id in Apply(config, t, op)
    ensures var s' := Apply(config, t, op)[id];
            if R.Inserts(config, t, op, id)
            then s'.createdAt == op.request.now && s'.lastActivity == op.request.now && s'.size == op.request.size
            else
              id in t && s'.createdAt == t[id].createdAt &&
              s'.lastActivity == (if op.Reattach? && op.id == id && CanReattach(t, id, op.token, op.actorEmail)
                                  then op.now
                                  else if op.Touch? && op.id == id then op.now else t[id].lastActivity) &&
              s'.size == (if op.SetSize? && op.id == id then op.size else t[id].size)
  {
  }

  /** A session carries the time of its insert, of its last use, and the size it was last given. */
  lemma {:induction false} SessionTimes(config: Config, ops: seq<Op>, id: SessionId)
    requires id in Run(config, ops)
    ensures var s := Run(config, ops)[id];
            s.createdAt == InsertedAt(config, ops, id) && s.lastActivity == UsedAt(config, ops, id) &&
            SizeOf(config, ops, id) == Some(s.size)
  {
    hide Apply, R.Inserts, CanReattach;
    var before, op := ops[..|ops| - 1], ops[|ops| - 1];
    var t := Run(config, before);
    StepTimes(config, t, op, id);
    if !R.Inserts(config, t, op, id) {
      SessionTimes(config, before, id);
    }
  }

  /** At least so much time lies between the two instants; none does before the first one. */
  predicate HasPassed(since: nat, duration: nat, now: nat) {
    duration == 0 || since + duration <= now
  }

  /**
   * Over every run, a drain takes out exactly the sessions that still count and
   * were inserted the maximum duration ago, or are detached and were last used
   * the idle timeout ago.
   */
  lemma DrainedExactlyWhen(config: Config, ops: seq<Op>, now: nat, maxDuration: nat, idleTimeout: nat, id: SessionId)
    requires id in Run(config, ops)
    ensures var t := Run(config, ops);
            var t' := Apply(config, t, DrainExpired(now, maxDuration, idleTimeout));
            (id !in t' <==>
               t[id].state !in {Terminated, Failed, Expired} &&
               (HasPassed(InsertedAt(config, ops, id), maxDuration, now) ||
                (t[id].state == Detached && HasPassed(UsedAt(config, ops, id), idleTimeout, now)))) &&
            (id in t' ==> t'[id] == t[id])
  {
    hide Run, InsertedAt, UsedAt, SizeOf;
    SessionTimes(config, ops, id);
  }

  /** Closing the sessions of a node takes out exactly those of that node that still count. */
  lemma ClosedExactlyWhen(config: Config, t: Table, nodeId: string, id: SessionId)
    requires id in t
    ensures var t' := Apply(config, t, CloseForNode(nodeId));
            (id !in t' <==> t[id].nodeId == Some(nodeId) && t[id].state !in {Terminated, Failed, Expired}) &&
            (id in t' ==> t'[id] == t[id])
  {
  }

  // ---------------------------------------------------------------------- messages

  /** The last 128 of a ring with one more message. */
  function Pushed(replay: seq<Message>, m: Message): seq<Message> {
    var all := replay + [m];
    if |all| <= 128 then all else all[|all| - 128..]
  }

  /** A message is remembered for the session that it names, and an output, a notice or an error may name one. */
  lemma RememberedExactlyFor(config: Config, t: Table, m: Message, id: SessionId)
    requires id in t && |t[id].replay| <= 128
    ensures var t' := Apply(config, t, Remember(m));
            t'.Keys == t.Keys &&
            t'[id] == if (m.Output? && m.sessionId == id) || (m.Notice? && m.sessionId == id) ||
                         (m.Error? && m.session == Some(id))
                      then t[id].(replay := Pushed(t[id].replay, m)) else t[id]
  {
  }

  /** An output that the registry records is numbered with the session's next number and remembered. */
  lemma RecordedExactlyFor(config: Config, t: Table, recorded: SessionId, data: string, id: SessionId)
    requires id in t && |t[id].replay| <= 128
    ensures var t', n := Apply(config, t, RecordOutput(recorded, data)), t[id].nextOutputSequence;
            t'.Keys == t.Keys &&
            t'[id]
            == if id != recorded then t[id]
               else t[id].(replay := Pushed(t[id].replay, Output(id, n, data)),
                           nextOutputSequence := if n < 0xFFFF_FFFF_FFFF_FFFF then n + 1 else 0xFFFF_FFFF_FFFF_FFFF)
  {
  }
}
