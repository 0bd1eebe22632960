/**
 * What holds over every run of the session registry: the quotas, the life
 * cycle, the replay ring and output numbering, and single use of reconnect
 * tokens.
 */
module SessionRuns {
  import opened Integers
  import opened Wrappers
  import opened Sessions

  // ------------------------------------------------------------------ life cycle

  /** How one operation may change a session that stays in the table. */
  predicate Evolves(op: Op, s: Session, s': Session) {
    s'.actorEmail == s.actorEmail && s'.nodeId == s.nodeId && s'.channel == s.channel &&
    (s'.state == s.state || s'.state.ComesFrom(s.state) ||
     (op.Reattach? && s.state in {Active, Detached, Reattaching} && s'.state.Reattaching?))
  }

  predicate Inserts(config: Config, t: Table, op: Op, id: SessionId) {
    op.Insert? && op.request.sessionId == id && InsertError(config, t, op.request).None?
  }

  /** Every observable state change is an edge of the table, a self-loop or the reattach move. */
  lemma StepFollowsTable(config: Config, t: Table, op: Op, id: SessionId)
    requires id in Apply(config, t, op) && !Inserts(config, t, op, id)
    ensures id in t && Evolves(op, t[id], Apply(config, t, op)[id])
  {
  }

  lemma EvolvingStaysTerminal(op: Op, s: Session, s': Session)
    requires Evolves(op, s, s') && s.state.IsTerminal()
    ensures s'.state.IsTerminal()
  {
  }

  /** The session stays in the table, and is not replaced, from step `i` to step `j`. */
  predicate Survives(config: Config, ops: seq<Op>, id: SessionId, i: nat, j: nat)
    requires i <= j <= |ops|
    decreases j
  {
    id in Run(config, ops[..j]) &&
    (i == j || (Survives(config, ops, id, i, j - 1) && !Inserts(config, Run(config, ops[..j - 1]), ops[j - 1], id)))
  }

  lemma {:induction false} RunStep(config: Config, ops: seq<Op>, n: nat)
    requires n < |ops|
    ensures Run(config, ops[..n + 1]) == Apply(config, Run(config, ops[..n]), ops[n])
  {
    assert ops[..n + 1][..n] == ops[..n];
  }

  /** A terminal session never becomes non-terminal again, over any run. */
  lemma {:induction false} TerminalForever(config: Config, ops: seq<Op>, id: SessionId, i: nat, j: nat)
    requires i <= j <= |ops| && Survives(config, ops, id, i, j)
    ensures id in Run(config, ops[..i]) && id in Run(config, ops[..j])
    ensures Run(config, ops[..i])[id].state in {Terminated, Failed, Expired} ==>
              Run(config, ops[..j])[id].state in {Terminated, Failed, Expired}
    decreases j
  {
    hide Run, Apply;
    if i < j {
      TerminalForever(config, ops, id, i, j - 1);
      RunStep(config, ops, j - 1);
      var t := Run(config, ops[..j - 1]);
      StepFollowsTable(config, t, ops[j - 1], id);
      if t[id].state.IsTerminal() {
        EvolvingStaysTerminal(ops[j - 1], t[id], Run(config, ops[..j])[id]);
      }
    }
  }

  // ----------------------------------------------------------------------- quotas

  /** No limit of the configuration is exceeded. */
  ghost predicate WithinQuotas(config: Config, t: Table) {
    |t| <= config.maxSessions &&
    (forall actor: string :: |UserSessions(t, actor)| <= config.maxSessionsPerUser) &&
    (forall node: Option<string> :: |NodeSessions(t, node)| <= config.maxSessionsPerNode)
  }

  lemma SubsetIsSmaller<T>(a: set<T>, b: set<T>)
    requires a <= b
    ensures |a| <= |b|
  {
    assert b == a + (b - a);
  }

  /** A session counts for its user and its node only if it did before. */
  predicate CountsNoMore(s: Session, s': Session) {
    s'.actorEmail == s.actorEmail && s'.nodeId == s.nodeId && (s.state.IsTerminal() ==> s'.state.IsTerminal())
  }

  lemma FewerWithinQuotas(config: Config, t: Table, t': Table)
    requires WithinQuotas(config, t)
    requires forall id | id in t' :: id in t && CountsNoMore(t[id], t'[id])
    ensures WithinQuotas(config, t')
  {
    SubsetIsSmaller(t'.Keys, t.Keys);
    forall actor: string ensures |UserSessions(t', actor)| <= config.maxSessionsPerUser {
      SubsetIsSmaller(UserSessions(t', actor), UserSessions(t, actor));
    }
    forall node: Option<string> ensures |NodeSessions(t', node)| <= config.maxSessionsPerNode {
      SubsetIsSmaller(NodeSessions(t', node), NodeSessions(t, node));
    }
  }

  /** An operation that is not a successful insert adds to no count. */
  lemma NoInsertNoGrowth(config: Config, t: Table, op: Op)
    requires op.Insert? ==> InsertError(config, t, op.request).Some?
    requires WithinQuotas(config, t)
    ensures WithinQuotas(config, Apply(config, t, op))
  {
    hide Apply, WithinQuotas;
    var t' := Apply(config, t, op);
    forall id | id in t' ensures id in t && CountsNoMore(t[id], t'[id]) {
      StepFollowsTable(config, t, op, id);
      if t[id].state.IsTerminal() {
        EvolvingStaysTerminal(op, t[id], t'[id]);
      }
    }
    FewerWithinQuotas(config, t, t');
  }

  /** An insert, even one that overwrites a session, adds at most one to the counts it checked. */
  lemma InsertWithinQuotas(config: Config, t: Table, r: InsertRequest)
    requires InsertError(config, t, r).None? && WithinQuotas(config, t)
    ensures WithinQuotas(config, AfterInsert(config, t, r))
  {
    var t' := AfterInsert(config, t, r);
    var id := r.sessionId;
    assert t'.Keys == t.Keys + {id};
    forall actor: string ensures |UserSessions(t', actor)| <= config.maxSessionsPerUser {
      if actor == r.actorEmail {
        SubsetIsSmaller(UserSessions(t', actor), UserSessions(t, actor) + {id});
      } else {
        SubsetIsSmaller(UserSessions(t', actor), UserSessions(t, actor));
      }
    }
    forall node: Option<string> ensures |NodeSessions(t', node)| <= config.maxSessionsPerNode {
      if node == r.nodeId {
        SubsetIsSmaller(NodeSessions(t', node), NodeSessions(t, node) + {id});
      } else {
        SubsetIsSmaller(NodeSessions(t', node), NodeSessions(t, node));
      }
    }
  }

  lemma EmptyWithinQuotas(config: Config)
    ensures WithinQuotas(config, map[])
  {
    forall actor: string ensures |UserSessions(map[], actor)| == 0 {
      assert UserSessions(map[], actor) == {};
    }
    forall node: Option<string> ensures |NodeSessions(map[], node)| == 0 {
      assert NodeSessions(map[], node) == {};
    }
  }

  lemma InsertApplies(config: Config, t: Table, r: InsertRequest)
    ensures Apply(config, t, Insert(r)) == AfterInsert(config, t, r)
  {
  }

  /** In every reachable table the quotas hold. */
  lemma {:induction false} QuotasHold(config: Config, ops: seq<Op>)
    ensures WithinQuotas(config, Run(config, ops))
  {
    hide Apply, WithinQuotas;
    if ops == [] {
      EmptyWithinQuotas(config);
    } else {
      var before := ops[..|ops| - 1];
      var op := ops[|ops| - 1];
      QuotasHold(config, before);
      if op.Insert? && InsertError(config, Run(config, before), op.request).None? {
        InsertWithinQuotas(config, Run(config, before), op.request);
        InsertApplies(config, Run(config, before), op.request);
      } else {
        NoInsertNoGrowth(config, Run(config, before), op);
      }
    }
  }

  // ------------------------------------------------------- replay ring and numbering

  /** Everything ever pushed for a session, and the outputs the registry numbered for it. */
  datatype History = History(pushed: seq<Message>, numbered: seq<Message>)

  function Pushed(t: Table, op: Op, id: SessionId): seq<Message> {
    if id !in t then []
    else if op.RecordOutput? && op.id == id then [NumberedOutput(t, id, op.data)]
    else if op.Remember? && MessageSession(op.message) == Some(id) then [op.message]
    else []
  }

  function Numbered(t: Table, op: Op, id: SessionId): seq<Message> {
    if id in t && op.RecordOutput? && op.id == id then [NumberedOutput(t, id, op.data)] else []
  }

  /** The history of the session that has this id at the end of the run, since it was inserted. */
  function HistoryOf(config: Config, ops: seq<Op>, id: SessionId): History {
    if ops == [] then History([], [])
    else
      var before := ops[..|ops| - 1];
      var op := ops[|ops| - 1];
      var t := Run(config, before);
      if Inserts(config, t, op, id) then History([], [])
      else
        var h := HistoryOf(config, before, id);
        History(h.pushed + Pushed(t, op, id), h.numbered + Numbered(t, op, id))
  }

  function LastMessages(log: seq<Message>): seq<Message> {
    if |log| <= 128 then log else log[|log| - 128..]
  }

  lemma PushKeepsLast(log: seq<Message>, m: Message)
    ensures PushReplay(LastMessages(log), m) == LastMessages(log + [m])
  {
  }

  /** The number the registry gives to the `n`-th output, counting from 1. */
  function SequenceOf(n: nat): nat {
    if n < U64_MAX then n else U64_MAX
  }

  ghost predicate RefinesHistory(s: Session, id: SessionId, h: History) {
    s.replay == LastMessages(h.pushed) &&
    s.nextOutputSequence == SequenceOf(|h.numbered| + 1) &&
    forall i | 0 <= i < |h.numbered| ::
      h.numbered[i].Output? && h.numbered[i].sessionId == id && h.numbered[i].sequence == SequenceOf(i + 1)
  }

  lemma StepRefinesHistory(config: Config, t: Table, op: Op, id: SessionId, h: History)
    requires id in t && id in Apply(config, t, op) && !Inserts(config, t, op, id)
    requires RefinesHistory(t[id], id, h)
    ensures RefinesHistory(Apply(config, t, op)[id], id,
                           History(h.pushed + Pushed(t, op, id), h.numbered + Numbered(t, op, id)))
  {
    var s' := Apply(config, t, op)[id];
    var pushed := Pushed(t, op, id);
    if pushed == [] {
      assert h.pushed + pushed == h.pushed && h.numbered + Numbered(t, op, id) == h.numbered;
      assert s'.replay == t[id].replay && s'.nextOutputSequence == t[id].nextOutputSequence;
    } else {
      PushKeepsLast(h.pushed, pushed[0]);
      assert s'.replay == PushReplay(t[id].replay, pushed[0]);
      if !op.RecordOutput? {
        assert h.numbered + Numbered(t, op, id) == h.numbered;
      }
    }
  }

  lemma NewSessionHistory(r: InsertRequest)
    ensures RefinesHistory(NewSession(r), r.sessionId, History([], []))
  {
  }

  /**
   * The ring always holds the last 128 messages pushed for the session, and
   * the registry's outputs are numbered 1, 2, 3, ... without a gap below the
   * 64-bit limit, however other remembered messages come between them.
   */
  lemma {:induction false} RingHoldsLastMessages(config: Config, ops: seq<Op>, id: SessionId)
    requires id in Run(config, ops)
    ensures RefinesHistory(Run(config, ops)[id], id, HistoryOf(config, ops, id))
  {
    hide Apply, RefinesHistory;
    var before := ops[..|ops| - 1];
    var op := ops[|ops| - 1];
    var t := Run(config, before);
    if Inserts(config, t, op, id) {
      InsertApplies(config, t, op.request);
      NewSessionHistory(op.request);
    } else {
      StepFollowsTable(config, t, op, id);
      RingHoldsLastMessages(config, before, id);
      StepRefinesHistory(config, t, op, id, HistoryOf(config, before, id));
    }
  }

  /** The numbered outputs are among the pushed messages, in the same order. */
  function OutputsOf(log: seq<Message>): seq<Message> {
    if log == [] then []
    else OutputsOf(log[..|log| - 1]) + (if log[|log| - 1].Output? then [log[|log| - 1]] else [])
  }

  predicate RemembersOutput(ops: seq<Op>, id: SessionId) {
    exists i | 0 <= i < |ops| :: ops[i].Remember? && ops[i].message.Output? && ops[i].message.sessionId == id
  }

  /** When no output is remembered from elsewhere, the pushed outputs are the numbered ones. */
  lemma {:induction false} PushedOutputsAreNumbered(config: Config, ops: seq<Op>, id: SessionId)
    requires !RemembersOutput(ops, id)
    ensures OutputsOf(HistoryOf(config, ops, id).pushed) == HistoryOf(config, ops, id).numbered
  {
    hide Apply, Run;
    if ops != [] {
      var before := ops[..|ops| - 1];
      var op := ops[|ops| - 1];
      assert forall i | 0 <= i < |before| :: before[i] == ops[i];
      PushedOutputsAreNumbered(config, before, id);
      var t := Run(config, before);
      var h := HistoryOf(config, before, id);
      var pushed := Pushed(t, op, id);
      if pushed == [] {
        assert h.pushed + pushed == h.pushed;
      } else {
        assert (h.pushed + pushed)[..|h.pushed|] == h.pushed;
      }
    }
  }

  // ------------------------------------------------------------------ reconnect tokens

  /** The token an operation draws. */
  function Issued(op: Op): set<string> {
    match op
    case Insert(r) => {r.token}
    case Reattach(_, _, _, newToken, _) => {newToken}
    case _ => {}
  }

  /** No token is drawn twice. */
  predicate TokensAreFresh(ops: seq<Op>) {
    forall i, j | 0 <= i < j < |ops| :: Issued(ops[i]) * Issued(ops[j]) == {}
  }

  function IssuedBy(ops: seq<Op>): set<string> {
    if ops == [] then {} else IssuedBy(ops[..|ops| - 1]) + Issued(ops[|ops| - 1])
  }

  /** Step `i` of the run is a reattach that succeeds. */
  predicate Reattaches(config: Config, ops: seq<Op>, i: nat) {
    i < |ops| && ops[i].Reattach? &&
    CanReattach(Run(config, ops[..i]), ops[i].id, ops[i].token, ops[i].actorEmail)
  }

  /** The tokens that successful reattaches have presented. */
  function Consumed(config: Config, ops: seq<Op>): set<string> {
    if ops == [] then {}
    else
      var before := ops[..|ops| - 1];
      var op := ops[|ops| - 1];
      Consumed(config, before) +
      (if op.Reattach? && CanReattach(Run(config, before), op.id, op.token, op.actorEmail) then {op.token} else {})
  }

  /** The tokens that now open a session were issued, differ, and were never presented successfully. */
  ghost predicate TokensSound(t: Table, issued: set<string>, consumed: set<string>) {
    consumed <= issued &&
    (forall id | id in t :: t[id].reconnectToken in issued && t[id].reconnectToken !in consumed) &&
    (forall a, b | a in t && b in t && a != b :: t[a].reconnectToken != t[b].reconnectToken)
  }

  lemma FewerTokens(t: Table, t': Table, issued: set<string>, consumed: set<string>)
    requires TokensSound(t, issued, consumed)
    requires forall id | id in t' :: id in t && t'[id].reconnectToken == t[id].reconnectToken
    ensures TokensSound(t', issued, consumed)
  {
  }

  /** One session gets a new token, and the tokens that have been used up since are open no more. */
  lemma OneNewToken(t: Table, t': Table, id: SessionId, token: string,
                    issued: set<string>, consumed: set<string>, used: set<string>)
    requires TokensSound(t, issued, consumed) && token !in issued
    requires id in t' && t'[id].reconnectToken == token
    requires forall other | other in t' && other != id ::
               other in t && t'[other].reconnectToken == t[other].reconnectToken && t[other].reconnectToken !in used
    requires used <= issued
    ensures TokensSound(t', issued + {token}, consumed + used)
  {
  }

  lemma OtherOpKeepsTokens(config: Config, t: Table, op: Op, id: SessionId)
    requires !op.Insert? && !op.Reattach? && id in Apply(config, t, op)
    ensures id in t && Apply(config, t, op)[id].reconnectToken == t[id].reconnectToken
  {
  }

  lemma MoreIssued(t: Table, issued: set<string>, consumed: set<string>, token: string)
    requires TokensSound(t, issued, consumed)
    ensures TokensSound(t, issued + {token}, consumed)
  {
  }

  lemma InsertKeepsTokens(config: Config, t: Table, op: Op, issued: set<string>, consumed: set<string>)
    requires TokensSound(t, issued, consumed) && op.Insert? && op.request.token !in issued
    ensures TokensSound(Apply(config, t, op), issued + {op.request.token}, consumed)
  {
    hide TokensSound, InsertError;
    var t' := Apply(config, t, op);
    if InsertError(config, t, op.request).None? {
      OneNewToken(t, t', op.request.sessionId, op.request.token, issued, consumed, {});
      assert consumed + {} == consumed;
    } else {
      MoreIssued(t, issued, consumed, op.request.token);
    }
  }

  lemma OpenToken(t: Table, issued: set<string>, consumed: set<string>, id: SessionId)
    requires TokensSound(t, issued, consumed) && id in t
    ensures t[id].reconnectToken in issued
    ensures forall other | other in t && other != id :: t[other].reconnectToken != t[id].reconnectToken
  {
  }

  lemma ReattachKeepsTokens(config: Config, t: Table, op: Op, issued: set<string>, consumed: set<string>)
    requires TokensSound(t, issued, consumed) && op.Reattach? && op.newToken !in issued
    ensures TokensSound(Apply(config, t, op), issued + {op.newToken},
                        consumed + (if CanReattach(t, op.id, op.token, op.actorEmail) then {op.token} else {}))
  {
    hide TokensSound;
    var t' := Apply(config, t, op);
    if CanReattach(t, op.id, op.token, op.actorEmail) {
      OpenToken(t, issued, consumed, op.id);
      OneNewToken(t, t', op.id, op.newToken, issued, consumed, {op.token});
    } else {
      MoreIssued(t, issued, consumed, op.newToken);
      assert consumed + {} == consumed;
    }
  }

  lemma StepKeepsTokens(config: Config, t: Table, op: Op, issued: set<string>, consumed: set<string>)
    requires TokensSound(t, issued, consumed) && Issued(op) * issued == {}
    ensures TokensSound(Apply(config, t, op), issued + Issued(op),
                        consumed + (if op.Reattach? && CanReattach(t, op.id, op.token, op.actorEmail)
                                    then {op.token} else {}))
  {
    hide TokensSound, Apply, CanReattach;
    if op.Insert? {
      assert op.request.token in Issued(op) * issued <==> op.request.token in issued;
      InsertKeepsTokens(config, t, op, issued, consumed);
      assert issued + Issued(op) == issued + {op.request.token};
      assert consumed + {} == consumed;
    } else if op.Reattach? {
      assert op.newToken in Issued(op) * issued <==> op.newToken in issued;
      assert issued + Issued(op) == issued + {op.newToken};
      ReattachKeepsTokens(config, t, op, issued, consumed);
    } else {
      forall id | id in Apply(config, t, op)
        ensures id in t && Apply(config, t, op)[id].reconnectToken == t[id].reconnectToken
      {
        OtherOpKeepsTokens(config, t, op, id);
      }
      FewerTokens(t, Apply(config, t, op), issued, consumed);
      assert Issued(op) == {};
      assert issued + {} == issued;
      assert consumed + {} == consumed;
    }
  }

  lemma {:induction false} FreshIsNew(ops: seq<Op>, op: Op)
    requires forall i | 0 <= i < |ops| :: Issued(ops[i]) * Issued(op) == {}
    ensures Issued(op) * IssuedBy(ops) == {}
  {
    if ops != [] {
      FreshIsNew(ops[..|ops| - 1], op);
      assert Issued(ops[|ops| - 1]) * Issued(op) == {};
    }
  }

  lemma NoTokensSound()
    ensures TokensSound(map[], {}, {})
  {
  }

  lemma {:induction false} TokensStaySound(config: Config, ops: seq<Op>)
    requires TokensAreFresh(ops)
    ensures TokensSound(Run(config, ops), IssuedBy(ops), Consumed(config, ops))
  {
    hide Apply, TokensSound, Issued;
    if ops == [] {
      NoTokensSound();
    } else {
      var before := ops[..|ops| - 1];
      var op := ops[|ops| - 1];
      TokensStaySound(config, before);
      FreshIsNew(before, op);
      StepKeepsTokens(config, Run(config, before), op, IssuedBy(before), Consumed(config, before));
    }
  }

  lemma {:induction false} ConsumedRemembers(config: Config, ops: seq<Op>, i: nat)
    requires Reattaches(config, ops, i)
    ensures ops[i].token in Consumed(config, ops)
  {
    hide Run;
    var n := |ops| - 1;
    if i < n {
      var before := ops[..n];
      assert before[..i] == ops[..i];
      ConsumedRemembers(config, before, i);
    }
  }

  /**
   * Over every run with fresh tokens, a reconnect token admits at most one
   * successful reattach, to whatever session.
   */
  lemma TokenAdmitsOnce(config: Config, ops: seq<Op>, i: nat, j: nat)
    requires TokensAreFresh(ops) && i < j
    requires Reattaches(config, ops, i) && Reattaches(config, ops, j)
    ensures ops[i].token != ops[j].token
  {
    hide Run;
    var before := ops[..j];
    assert before[..i] == ops[..i];
    assert TokensAreFresh(before);
    TokensStaySound(config, before);
    ConsumedRemembers(config, before, i);
  }

  /**
   * With a fresh token drawn, a reattach takes effect exactly for the owner who
   * presents the current token of a session in a reattachable state; and it
   * leaves every other session alone.
   */
  lemma ReattachIsGuarded(config: Config, t: Table, op: Op)
    requires op.Reattach? && (op.id in t ==> op.newToken != t[op.id].reconnectToken)
    ensures Apply(config, t, op) != t <==>
              op.id in t && t[op.id].actorEmail == op.actorEmail && t[op.id].state in {Active, Detached, Reattaching} &&
              t[op.id].reconnectToken == op.token
    ensures Apply(config, t, op) != t ==>
              Apply(config, t, op)[op.id].state.Reattaching? &&
              Apply(config, t, op)[op.id].reconnectToken == op.newToken
    ensures Apply(config, t, op).Keys == t.Keys
    ensures forall id | id != op.id && id in t :: Apply(config, t, op)[id] == t[id]
  {
    if CanReattach(t, op.id, op.token, op.actorEmail) {
      assert Apply(config, t, op)[op.id].reconnectToken == op.newToken;
    }
  }

  /** Step `i` installs a session under this id. */
  predicate InsertsAt(config: Config, ops: seq<Op>, id: SessionId, i: nat)
    requires i < |ops|
  {
    Inserts(config, Run(config, ops[..i]), ops[i], id)
  }

  /** Step `i` is a successful reattach to this id. */
  predicate ReattachesAt(config: Config, ops: seq<Op>, id: SessionId, i: nat)
    requires i < |ops|
  {
    Reattaches(config, ops, i) && ops[i].id == id
  }

  /** Step `k` is the last before `n` to install a session under the id, and `m` the last to draw its token. */
  predicate Origin(config: Config, ops: seq<Op>, id: SessionId, n: nat, k: nat, m: nat) {
    k <= m < n <= |ops| && InsertsAt(config, ops, id, k) &&
    (forall j | k < j < n :: !InsertsAt(config, ops, id, j)) &&
    (m == k || ReattachesAt(config, ops, id, m)) &&
    (forall j | m < j < n :: !ReattachesAt(config, ops, id, j))
  }

  /** The token that step `m` draws. */
  function Drawn(op: Op): string {
    match op
    case Insert(r) => r.token
    case Reattach(_, _, _, newToken, _) => newToken
    case _ => ""
  }

  lemma StepKeepsOwner(config: Config, t: Table, op: Op, id: SessionId)
    requires id in Apply(config, t, op) && !Inserts(config, t, op, id)
    ensures id in t && Apply(config, t, op)[id].actorEmail == t[id].actorEmail
    ensures Apply(config, t, op)[id].reconnectToken
         == if op.Reattach? && op.id == id && CanReattach(t, id, op.token, op.actorEmail) then op.newToken
            else t[id].reconnectToken
  {
  }

  lemma InsertedOwner(config: Config, t: Table, op: Op, id: SessionId)
    requires Inserts(config, t, op, id)
    ensures id in Apply(config, t, op) && Apply(config, t, op)[id].actorEmail == op.request.actorEmail
    ensures Apply(config, t, op)[id].reconnectToken == op.request.token
  {
  }

  lemma OriginOfPrefix(config: Config, ops: seq<Op>, id: SessionId, n: nat, k: nat, m: nat)
    requires n <= |ops| && Origin(config, ops[..n], id, n, k, m)
    ensures Origin(config, ops, id, n, k, m)
  {
    hide Run, Inserts, CanReattach;
    forall j: nat | j < n
      ensures InsertsAt(config, ops[..n], id, j) <==> InsertsAt(config, ops, id, j)
      ensures ReattachesAt(config, ops[..n], id, j) <==> ReattachesAt(config, ops, id, j)
    {
      assert ops[..n][..j] == ops[..j];
    }
  }

  lemma InsertIsInsert(config: Config, t: Table, op: Op, id: SessionId)
    requires Inserts(config, t, op, id)
    ensures op.Insert? && op.request.sessionId == id
  {
  }

  /**
   * A session belongs to the actor of its insert, and opens with the token drawn last, by its insert
   * or a reattach to it.
   */
  lemma {:induction false} SessionOrigin(config: Config, ops: seq<Op>, id: SessionId) returns (k: nat, m: nat)
    requires id in Run(config, ops)
    ensures Origin(config, ops, id, |ops|, k, m)
    ensures Run(config, ops)[id].actorEmail == ops[k].request.actorEmail
    ensures Run(config, ops)[id].reconnectToken == Drawn(ops[m])
  {
    hide Apply, Inserts, CanReattach;
    var n := |ops| - 1;
    var before, op := ops[..n], ops[n];
    var t := Run(config, before);
    if Inserts(config, t, op, id) {
      k, m := n, n;
      InsertedOwner(config, t, op, id);
      InsertIsInsert(config, t, op, id);
    } else {
      StepKeepsOwner(config, t, op, id);
      k, m := SessionOrigin(config, before, id);
      OriginOfPrefix(config, ops, id, n, k, m);
      if ReattachesAt(config, ops, id, n) {
        m := n;
      }
    }
  }

  /**
   * Over every run, a successful reattach is by the actor of the insert that
   * installed the session, and presents the token drawn by that insert or by
   * the latest successful reattach to the session since.
   */
  lemma ReattachByOwnerWithLatestToken(config: Config, ops: seq<Op>, i: nat) returns (k: nat, m: nat)
    requires Reattaches(config, ops, i)
    ensures Origin(config, ops, ops[i].id, i, k, m)
    ensures ops[i].actorEmail == ops[k].request.actorEmail && ops[i].token == Drawn(ops[m])
  {
    hide Run, Apply, Inserts;
    var before := ops[..i];
    k, m := SessionOrigin(config, before, ops[i].id);
    OriginOfPrefix(config, ops, ops[i].id, i, k, m);
  }
}
