/** The session registry: one locked table of sessions that its methods update in place. */
module SessionRegistry {
  import opened Wrappers
  import opened Sessions

  /** What a browser that reattaches is given. */
  datatype ReattachTarget = ReattachTarget(
    backend: Backend,
    channel: nat,
    replay: seq<Message>,
    size: Size,
    reconnectToken: string,
    nodeId: Option<string>)

  /** A session that was taken out of the table. */
  datatype Closed = Closed(id: SessionId, actorEmail: string, channel: nat, backend: Backend)

  function ClosedSession(t: Table, id: SessionId): Closed
    requires id in t
  {
    Closed(id, t[id].actorEmail, t[id].channel, t[id].backend)
  }

  /** The report names each of the sessions `ids` exactly once, as it is in the table. */
  predicate Reports(t: Table, ids: set<SessionId>, closed: seq<Closed>)
    requires ids <= t.Keys
  {
    |closed| == |ids| &&
    (forall i, j | 0 <= i < j < |closed| :: closed[i].id != closed[j].id) &&
    (forall id | id in ids :: ClosedSession(t, id) in closed) &&
    forall i | 0 <= i < |closed| :: closed[i].id in ids && closed[i] == ClosedSession(t, closed[i].id)
  }

  lemma NothingReported(t: Table)
    ensures Reports(t, {}, [])
  {
  }

  lemma ReportsMore(t: Table, ids: set<SessionId>, closed: seq<Closed>, id: SessionId)
    requires ids <= t.Keys && Reports(t, ids, closed) && id in t && id !in ids
    ensures Reports(t, ids + {id}, closed + [Closed(id, t[id].actorEmail, t[id].channel, t[id].backend)])
  {
    var more := closed + [ClosedSession(t, id)];
    assert more[|closed|] == ClosedSession(t, id);
    forall other | other in ids + {id} ensures ClosedSession(t, other) in more {
      if other != id {
        assert ClosedSession(t, other) in closed;
      }
    }
  }

  lemma WithoutMore(t: Table, done: set<SessionId>, id: SessionId, marked: Session)
    ensures Without((t - done)[id := marked], id) == t - (done + {id})
  {
  }

  class TerminalSessionRegistry {
    var sessions: Table

    constructor ()
      ensures sessions == map[]
    {
      sessions := map[];
    }

    method InsertBackend(config: Config, r: InsertRequest) returns (error: Option<LimitError>)
      modifies this
      ensures error == InsertError(config, old(sessions), r)
      ensures sessions == Apply(config, old(sessions), Insert(r))
    {
      if config.maxSessions <= |sessions| {
        return Some(GlobalCapacity);
      }
      var userCount := |UserSessions(sessions, r.actorEmail)|;
      if config.maxSessionsPerUser <= userCount {
        return Some(PerUser);
      }
      var nodeCount := |NodeSessions(sessions, r.nodeId)|;
      if config.maxSessionsPerNode <= nodeCount {
        return Some(PerNode);
      }
      sessions := sessions[r.sessionId := NewSession(r)];
      return None;
    }

    method ChangeState(id: SessionId, state: SessionState)
      modifies this
      ensures var before := old(sessions);
              sessions
              == if id in before && (before[id].state == state || state.ComesFrom(before[id].state))
                 then before[id := before[id].(state := state)] else before
      ensures sessions == AfterSetState(old(sessions), id, state)
    {
      if id in sessions {
        var session := sessions[id];
        if !session.state.CanTransitionTo(state) && session.state != state {
          return;
        }
        sessions := sessions[id := session.(state := state)];
      }
    }

    method Detach(id: SessionId)
      modifies this
      ensures sessions == AfterSetState(old(sessions), id, Detached)
    {
      ChangeState(id, Detached);
    }

    method ReattachTo(id: SessionId, token: string, actorEmail: string, newToken: string, now: nat)
      returns (target: Option<ReattachTarget>)
      modifies this
      ensures sessions == AfterReattach(old(sessions), id, token, actorEmail, newToken, now)
      ensures target.Some? <==> CanReattach(old(sessions), id, token, actorEmail)
      ensures target.Some? ==>
                var s := old(sessions)[id];
                target.value == ReattachTarget(s.backend, s.channel, s.replay, s.size, newToken, s.nodeId)
    {
      if id !in sessions {
        return None;
      }
      var tracked := sessions[id];
      if tracked.actorEmail != actorEmail || !tracked.state.IsReattachable() {
        return None;
      }
      if tracked.reconnectToken != token {
        return None;
      }
      tracked := tracked.(reconnectToken := newToken);
      tracked := tracked.(state := Reattaching);
      tracked := tracked.(lastActivity := now);
      sessions := sessions[id := tracked];
      return Some(ReattachTarget(tracked.backend, tracked.channel, tracked.replay, tracked.size,
                                 tracked.reconnectToken, tracked.nodeId));
    }

    method TouchSession(id: SessionId, now: nat)
      modifies this
      ensures forall config :: sessions == Apply(config, old(sessions), Touch(id, now))
    {
      if id in sessions {
        sessions := sessions[id := sessions[id].(lastActivity := now)];
      }
    }

    method Resize(id: SessionId, size: Size)
      modifies this
      ensures forall config :: sessions == Apply(config, old(sessions), SetSize(id, size))
    {
      if id in sessions {
        sessions := sessions[id := sessions[id].(size := size)];
      }
    }

    method Record(id: SessionId, data: string) returns (message: Option<Message>)
      modifies this
      ensures sessions == AfterRecordOutput(old(sessions), id, data)
      ensures message == if id in old(sessions) then Some(NumberedOutput(old(sessions), id, data)) else None
    {
      if id !in sessions {
        return None;
      }
      var session := sessions[id];
      var output := Output(id, session.nextOutputSequence, data);
      session := session.(nextOutputSequence := NextSequence(session.nextOutputSequence));
      session := session.(replay := PushReplay(session.replay, output));
      sessions := sessions[id := session];
      return Some(output);
    }

    method RememberServerMessage(message: Message)
      modifies this
      ensures sessions == AfterRemember(old(sessions), message)
    {
      var owner := MessageSession(message);
      if owner.None? {
        return;
      }
      if owner.value in sessions {
        var session := sessions[owner.value];
        sessions := sessions[owner.value := session.(replay := PushReplay(session.replay, message))];
      }
    }

    method RemoveTracked(id: SessionId) returns (removed: Option<Session>)
      modifies this
      ensures sessions == Without(old(sessions), id)
      ensures removed == if id in old(sessions) then Some(old(sessions)[id]) else None
    {
      if id in sessions {
        removed := Some(sessions[id]);
        sessions := sessions - {id};
      } else {
        assert sessions - {id} == sessions;
        removed := None;
      }
    }

    /** Marks a session and removes it at once, so that no other caller sees the mark. */
    method Terminate(id: SessionId) returns (backend: Option<Backend>)
      modifies this
      ensures sessions == old(sessions) - {id}
      ensures backend == if id in old(sessions) then Some(old(sessions)[id].backend) else None
    {
      if id in sessions {
        sessions := sessions[id := sessions[id].(state := Terminating)];
      }
      var removed := RemoveTracked(id);
      assert Without(sessions, id) == Without(old(sessions), id);
      backend := match removed case Some(s) => Some(s.backend) case None => None;
    }

    /** Marks and removes the given sessions one by one, in some order. */
    method CloseAll(ids: set<SessionId>, mark: SessionState) returns (closed: seq<Closed>)
      requires ids <= sessions.Keys
      modifies this
      ensures sessions == old(sessions) - ids
      ensures Reports(old(sessions), ids, closed)
    {
      hide Reports, ClosedSession, Without;
      var left := ids;
      ghost var done := {};
      closed := [];
      NothingReported(sessions);
      while left != {}
        invariant done + left == ids && done !! left
        invariant sessions == old(sessions) - done
        invariant Reports(old(sessions), done, closed)
        decreases |left|
      {
        var id :| id in left;
        WithoutMore(old(sessions), done, id, sessions[id].(state := mark));
        sessions := sessions[id := sessions[id].(state := mark)];
        var removed := RemoveTracked(id);
        ReportsMore(old(sessions), done, closed, id);
        closed := closed + [Closed(id, removed.value.actorEmail, removed.value.channel, removed.value.backend)];
        left, done := left - {id}, done + {id};
      }
    }

    method DrainExpiredSessions(now: nat, maxDuration: nat, idleTimeout: nat) returns (closed: seq<Closed>)
      modifies this
      ensures forall config :: sessions == Apply(config, old(sessions), DrainExpired(now, maxDuration, idleTimeout))
      ensures Reports(old(sessions), ExpiredIds(old(sessions), now, maxDuration, idleTimeout), closed)
    {
      var expired := ExpiredIds(sessions, now, maxDuration, idleTimeout);
      closed := CloseAll(expired, Expired);
    }

    method CloseSessionsForNode(nodeId: string) returns (closed: seq<Closed>)
      modifies this
      ensures forall config :: sessions == Apply(config, old(sessions), CloseForNode(nodeId))
      ensures Reports(old(sessions), NodeIds(old(sessions), nodeId), closed)
    {
      var toClose := NodeIds(sessions, nodeId);
      closed := CloseAll(toClose, Terminating);
    }
  }
}
