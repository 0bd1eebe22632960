/**
 * A long-poll connection while polls overlap: each frame, each command taken
 * and each lock is a step, and between any two of them commands are sent,
 * events are taken out of their channel and other polls go on.
 */
module LongPollSteps {
  import opened Integers
  import opened Wrappers
  import opened LongPoll
  import R = LongPollRuns

  /** A poll in progress: its response so far and what became of each of its frames. */
  datatype Open = Open(h: Handshake, envelopes: seq<Envelope>, outcomes: seq<Outcome>)

  /**
   * The connection, the polls in progress, the one that holds the lock on the
   * command queue, the finished polls in order, and all commands sent, events
   * forwarded, events taken and message ids issued.
   */
  datatype System = System(
    connection: Connection,
    polls: map<nat, Open>,
    holder: Option<nat>,
    finished: seq<Open>,
    sent: seq<Command>,
    forwarded: seq<Event>,
    taken: seq<Event>,
    issued: seq<nat>)

  const INITIAL := System(NEW_CONNECTION, map[], None, [], [], [], [], [])

  datatype Step =
    | Send(command: Command)
    | TakeEvent
    | Begin(poll: nat, h: Handshake)
    | Frame(poll: nat, frame: Envelope)
    | Lock(poll: nat)
    | TakeOne(poll: nat)
    | Finish(poll: nat)

  /** A poll takes commands only while it holds the lock, and ends when its response is full or the queue is empty. */
  predicate Enabled(s: System, step: Step) {
    match step
    case Send(_) => |s.connection.commands| < CHANNEL_CAPACITY
    case TakeEvent => s.connection.events != []
    case Begin(p, _) => p !in s.polls
    case Frame(p, _) => p in s.polls && s.holder != Some(p)
    case Lock(p) => p in s.polls && s.holder == None
    case TakeOne(p) =>
      p in s.polls && s.holder == Some(p) && s.connection.commands != [] && |s.polls[p].envelopes| < LONG_POLL_BATCH
    case Finish(p) =>
      p in s.polls && s.holder == Some(p) &&
      (s.connection.commands == [] || |s.polls[p].envelopes| >= LONG_POLL_BATCH)
  }

  function After(s: System, step: Step): System
    requires Enabled(s, step)
  {
    var c := s.connection;
    match step
    case Send(command) => s.(connection := c.(commands := c.commands + [command]), sent := s.sent + [command])
    case TakeEvent => s.(connection := c.(events := c.events[1..]), taken := s.taken + [c.events[0]])
    case Begin(p, h) =>
      var b := Reply(h, Batch(c, []), ServerHello);
      s.(connection := b.connection, polls := s.polls[p := Open(h, b.envelopes, [])],
         issued := s.issued + [c.nextMessageId])
    case Frame(p, frame) =>
      var q := s.polls[p];
      var outcome := OutcomeOf(q.h, frame, |c.events|);
      var b := AfterFrame(q.h, Batch(c, q.envelopes), frame);
      s.(connection := b.connection, polls := s.polls[p := Open(q.h, b.envelopes, q.outcomes + [outcome])],
         forwarded := s.forwarded + (if outcome.EventReceived? then [outcome.event] else []),
         issued := s.issued + (if R.ReplyFor(outcome) == [] then [] else [c.nextMessageId]))
    case Lock(p) => s.(holder := Some(p))
    case TakeOne(p) =>
      var q := s.polls[p];
      var b := TakeCommand(q.h, Batch(c, q.envelopes));
      s.(connection := b.connection, polls := s.polls[p := q.(envelopes := b.envelopes)],
         issued := s.issued + [c.nextMessageId])
    case Finish(p) => s.(polls := s.polls - {p}, holder := None, finished := s.finished + [s.polls[p]])
  }

  // ------------------------------------------------------------------ the invariants

  /** The commands of the finished responses, in the order in which these were finished. */
  function Delivered(finished: seq<Open>): seq<Command> {
    if finished == [] then []
    else Delivered(finished[..|finished| - 1]) + R.CommandsIn(finished[|finished| - 1].envelopes)
  }

  /** The commands in the response of the poll that holds the lock. */
  function InHand(s: System): seq<Command> {
    match s.holder
    case None => []
    case Some(p) => if p in s.polls then R.CommandsIn(s.polls[p].envelopes) else []
  }

  /** No command is lost, repeated or reordered, and only the holder of the lock has any. */
  ghost predicate CommandsKept(s: System) {
    s.sent == Delivered(s.finished) + InHand(s) + s.connection.commands &&
    |s.connection.commands| <= 128 && (s.holder.Some? ==> s.holder.value in s.polls) &&
    forall p | p in s.polls && s.holder != Some(p) :: R.CommandsIn(s.polls[p].envelopes) == []
  }

  /** Nor is any event, and there are never more of them than the channel holds. */
  predicate EventsKept(s: System) {
    s.forwarded == s.taken + s.connection.events && |s.connection.events| <= 128
  }

  predicate IdsCounted(s: System) {
    R.Counted(s.issued, 0) && s.connection.nextMessageId == R.NthId(|s.issued|)
  }

  /** The ids rise, up to the largest one, and are below the next one. */
  predicate Rises(ids: seq<nat>, next: nat) {
    next <= U64_MAX &&
    (forall i, j | 0 <= i < j < |ids| :: ids[i] < ids[j] || ids[i] == U64_MAX) &&
    (forall i | 0 <= i < |ids| :: ids[i] < next || ids[i] == U64_MAX)
  }

  /** Every frame of the poll is accounted for in order, its response is bounded and its ids rise. */
  predicate Sound(q: Open, next: nat) {
    R.Answers(q.envelopes) == [ServerHello] + R.Replies(q.outcomes) &&
    1 <= |q.envelopes| <= Max(32, 1 + |q.outcomes|) &&
    |q.envelopes| <= 1 + |q.outcomes| + |R.CommandsIn(q.envelopes)| &&
    Rises(R.Ids(q.envelopes), next)
  }

  ghost predicate PollsSound(s: System) {
    (forall p | p in s.polls :: Sound(s.polls[p], s.connection.nextMessageId)) &&
    (forall i | 0 <= i < |s.finished| :: Sound(s.finished[i], s.connection.nextMessageId))
  }

  ghost predicate Good(s: System) {
    CommandsKept(s) && EventsKept(s) && IdsCounted(s) && PollsSound(s)
  }

  // ---------------------------------------------------------------------- the proofs

  lemma NextIdOf(k: nat)
    ensures NextId(R.NthId(k)) == R.NthId(k + 1)
  {
  }

  lemma CountedMore(s: System, id: nat)
    requires IdsCounted(s) && id == s.connection.nextMessageId
    ensures R.Counted(s.issued + [id], 0) && NextId(id) == R.NthId(|s.issued| + 1) && id <= U64_MAX
  {
    NextIdOf(|s.issued|);
    R.CountedAppend(s.issued, [id]);
  }

  lemma RisesLater(ids: seq<nat>, next: nat)
    requires Rises(ids, next)
    ensures Rises(ids, NextId(next)) && Rises(ids + [next], NextId(next))
  {
  }

  lemma SoundLater(q: Open, next: nat)
    requires Sound(q, next)
    ensures Sound(q, NextId(next))
  {
    hide Max, NextId;
    RisesLater(R.Ids(q.envelopes), next);
  }

  /** One more reply of the poll, for its next outcome. */
  lemma ReplySound(c: Connection, q: Open, payload: Payload, outcome: Outcome)
    requires Sound(q, c.nextMessageId) && R.ReplyFor(outcome) == [payload]
    requires R.CommandsIn(q.envelopes) == []
    ensures var b := Reply(q.h, Batch(c, q.envelopes), payload);
            Sound(Open(q.h, b.envelopes, q.outcomes + [outcome]), b.connection.nextMessageId) &&
            R.CommandsIn(b.envelopes) == []
  {
    hide Reply, NextId, Rises, R.Answers, R.CommandsIn, R.Ids, R.Replies;
    R.ReplyAdds(q.h, Batch(c, q.envelopes), payload);
    R.OutcomeAdds(q.outcomes, outcome);
    RisesLater(R.Ids(q.envelopes), c.nextMessageId);
    assert [ServerHello] + R.Replies(q.outcomes) + [payload] == [ServerHello] + (R.Replies(q.outcomes) + [payload]);
  }

  lemma FrameSound(c: Connection, q: Open, frame: Envelope)
    requires Sound(q, c.nextMessageId) && R.CommandsIn(q.envelopes) == []
    ensures var outcome, b := OutcomeOf(q.h, frame, |c.events|), AfterFrame(q.h, Batch(c, q.envelopes), frame);
            Sound(Open(q.h, b.envelopes, q.outcomes + [outcome]), b.connection.nextMessageId) &&
            R.CommandsIn(b.envelopes) == [] && b.connection.commands == c.commands &&
            b.connection.events == c.events + (if outcome.EventReceived? then [outcome.event] else []) &&
            b.connection.nextMessageId
            == (if R.ReplyFor(outcome) == [] then c.nextMessageId else NextId(c.nextMessageId))
  {
    hide OutcomeOf, NextId, Rises, R.Answers, R.CommandsIn, R.Ids, R.Replies;
    var outcome := OutcomeOf(q.h, frame, |c.events|);
    match outcome
    case HeartbeatReceived(id) => ReplySound(c, q, Pong(id), outcome);
    case Rejected(error) => ReplySound(c, q, ErrorReply(error), outcome);
    case _ =>
      R.OutcomeAdds(q.outcomes, outcome);
      assert [ServerHello] + (R.Replies(q.outcomes) + []) == [ServerHello] + R.Replies(q.outcomes);
  }

  lemma TakeSound(c: Connection, q: Open)
    requires Sound(q, c.nextMessageId) && c.commands != [] && |q.envelopes| < LONG_POLL_BATCH
    ensures var b := TakeCommand(q.h, Batch(c, q.envelopes));
            Sound(q.(envelopes := b.envelopes), NextId(c.nextMessageId)) &&
            R.CommandsIn(b.envelopes) == R.CommandsIn(q.envelopes) + [c.commands[0]] &&
            b.connection == Connection(c.commands[1..], c.events, NextId(c.nextMessageId))
  {
    hide Reply, NextId, Rises, R.Answers, R.CommandsIn, R.Ids, R.Replies;
    R.ReplyAdds(q.h, Batch(c.(commands := c.commands[1..]), q.envelopes), TerminalCommand(c.commands[0]));
    RisesLater(R.Ids(q.envelopes), c.nextMessageId);
  }

  lemma HelloSound(c: Connection, h: Handshake)
    requires c.nextMessageId <= U64_MAX
    ensures var b := Reply(h, Batch(c, []), ServerHello);
            Sound(Open(h, b.envelopes, []), NextId(c.nextMessageId)) && R.CommandsIn(b.envelopes) == [] &&
            b.connection == c.(nextMessageId := NextId(c.nextMessageId))
  {
    R.ReplyAdds(h, Batch(c, []), ServerHello);
    R.NoCommands();
    assert R.Answers([]) == [] && R.Replies([]) == [];
    assert [ServerHello] + [] == [ServerHello];
    hide Reply, R.Answers, R.CommandsIn, R.Ids, R.Replies;
    RisesLater([], c.nextMessageId);
    assert [] + [c.nextMessageId] == [c.nextMessageId];
  }

  lemma ChannelStepGood(s: System, step: Step)
    requires Good(s) && Enabled(s, step) && (step.Send? || step.TakeEvent?)
    ensures Good(After(s, step))
  {
    hide Sound, Delivered, R.CommandsIn, R.Counted, R.NthId;
    var t := After(s, step);
    assert InHand(t) == InHand(s);
  }

  lemma LockGood(s: System, step: Step)
    requires Good(s) && Enabled(s, step) && step.Lock?
    ensures Good(After(s, step))
  {
    hide Sound, Delivered, R.CommandsIn, R.Counted, R.NthId;
    var t := After(s, step);
    assert InHand(t) == [] == InHand(s);
  }

  lemma DeliveredMore(finished: seq<Open>, q: Open)
    ensures Delivered(finished + [q]) == Delivered(finished) + R.CommandsIn(q.envelopes)
  {
    hide R.CommandsIn;
    assert (finished + [q])[..|finished|] == finished;
  }

  lemma FinishedCommandsKept(s: System, step: Step)
    requires CommandsKept(s) && Enabled(s, step) && step.Finish?
    ensures CommandsKept(After(s, step))
  {
    hide Delivered, R.CommandsIn;
    DeliveredMore(s.finished, s.polls[step.poll]);
    var t := After(s, step);
    assert InHand(t) == [] && InHand(s) == R.CommandsIn(s.polls[step.poll].envelopes);
    assert Delivered(t.finished) + [] == Delivered(s.finished) + InHand(s);
  }

  lemma FinishedOthersKept(s: System, step: Step)
    requires EventsKept(s) && IdsCounted(s) && Enabled(s, step) && step.Finish?
    ensures EventsKept(After(s, step)) && IdsCounted(After(s, step))
  {
    hide R.Counted, R.NthId;
  }

  lemma FinishGood(s: System, step: Step)
    requires Good(s) && Enabled(s, step) && step.Finish?
    ensures Good(After(s, step))
  {
    hide Sound, CommandsKept, EventsKept, IdsCounted;
    FinishedCommandsKept(s, step);
    FinishedOthersKept(s, step);
    var t := After(s, step);
    forall i | 0 <= i < |t.finished| ensures Sound(t.finished[i], t.connection.nextMessageId) {
      assert i < |s.finished| ==> t.finished[i] == s.finished[i];
      assert i == |s.finished| ==> t.finished[i] == s.polls[step.poll];
    }
  }

  lemma OthersSound(s: System, t: System, p: nat)
    requires PollsSound(s) && t.finished == s.finished && p in t.polls && t.polls == s.polls[p := t.polls[p]]
    requires t.connection.nextMessageId == s.connection.nextMessageId ||
             t.connection.nextMessageId == NextId(s.connection.nextMessageId)
    requires Sound(t.polls[p], t.connection.nextMessageId)
    ensures PollsSound(t)
  {
    hide Sound, NextId;
    var next := s.connection.nextMessageId;
    forall r | r in t.polls ensures Sound(t.polls[r], t.connection.nextMessageId) {
      if r != p {
        SoundLater(s.polls[r], next);
      }
    }
    forall i | 0 <= i < |t.finished| ensures Sound(t.finished[i], t.connection.nextMessageId) {
      SoundLater(s.finished[i], next);
    }
  }

  lemma BeginGood(s: System, step: Step)
    requires Good(s) && Enabled(s, step) && step.Begin?
    ensures Good(After(s, step))
  {
    hide Sound, Delivered, R.CommandsIn, R.Counted, R.NthId, Reply, NextId;
    var t := After(s, step);
    CountedMore(s, s.connection.nextMessageId);
    HelloSound(s.connection, step.h);
    OthersSound(s, t, step.poll);
    assert InHand(t) == InHand(s);
  }

  /** An event is forwarded only if there is room for it. */
  lemma FrameFits(h: Handshake, frame: Envelope, waiting: nat)
    ensures OutcomeOf(h, frame, waiting).EventReceived? ==> waiting < CHANNEL_CAPACITY
  {
  }

  lemma FrameGood(s: System, step: Step)
    requires Good(s) && Enabled(s, step) && step.Frame?
    ensures Good(After(s, step))
  {
    hide Sound, Delivered, R.CommandsIn, R.Counted, R.NthId, R.ReplyFor, AfterFrame, NextId;
    var t, q, c := After(s, step), s.polls[step.poll], s.connection;
    FrameSound(c, q, step.frame);
    CountedMore(s, c.nextMessageId);
    OthersSound(s, t, step.poll);
    assert InHand(t) == InHand(s);
    FrameFits(q.h, step.frame, |c.events|);
    hide OutcomeOf;
    assert s.issued + [] == s.issued;
    assert s.forwarded + [] == s.forwarded && c.events + [] == c.events;
    var more := if OutcomeOf(q.h, step.frame, |c.events|).EventReceived?
                then [OutcomeOf(q.h, step.frame, |c.events|).event] else [];
    assert (s.taken + c.events) + more == s.taken + (c.events + more);
  }

  lemma TakeOneGood(s: System, step: Step)
    requires Good(s) && Enabled(s, step) && step.TakeOne?
    ensures Good(After(s, step))
  {
    hide Sound, Delivered, R.CommandsIn, R.Counted, R.NthId, TakeCommand, NextId;
    var t, q, c := After(s, step), s.polls[step.poll], s.connection;
    TakeSound(c, q);
    CountedMore(s, c.nextMessageId);
    OthersSound(s, t, step.poll);
    assert InHand(t) == InHand(s) + [c.commands[0]];
    assert c.commands == [c.commands[0]] + c.commands[1..];
    assert Delivered(s.finished) + InHand(s) + c.commands
        == Delivered(s.finished) + (InHand(s) + [c.commands[0]]) + c.commands[1..];
  }

  /** Every step keeps all of it. */
  lemma StepGood(s: System, step: Step)
    requires Good(s) && Enabled(s, step)
    ensures Good(After(s, step))
  {
    hide Good, Enabled, After;
    match step
    case Send(_) => ChannelStepGood(s, step);
    case TakeEvent => ChannelStepGood(s, step);
    case Begin(_, _) => BeginGood(s, step);
    case Frame(_, _) => FrameGood(s, step);
    case Lock(_) => LockGood(s, step);
    case TakeOne(_) => TakeOneGood(s, step);
    case Finish(_) => FinishGood(s, step);
  }

  lemma InitiallyGood()
    ensures Good(INITIAL)
  {
  }

  predicate Possible(states: seq<System>, steps: seq<Step>) {
    |states| == |steps| + 1 && states[0] == INITIAL &&
    forall i | 0 <= i < |steps| :: Enabled(states[i], steps[i]) && states[i + 1] == After(states[i], steps[i])
  }

  /**
   * In every interleaving of polls, sends and terminals: the commands of the
   * finished responses in order, then those of the response that holds the
   * lock, then those queued are the commands sent; the events taken and those
   * waiting are the events forwarded; the ids issued are 2, 3, 4 and so on; and
   * every response answers each of its frames, is bounded, and has rising ids.
   */
  lemma {:induction false} AlwaysGood(states: seq<System>, steps: seq<Step>, n: nat)
    requires Possible(states, steps) && n <= |steps|
    ensures Good(states[n])
  {
    hide Good, Enabled, After;
    if n == 0 {
      InitiallyGood();
    } else {
      AlwaysGood(states, steps, n - 1);
      StepGood(states[n - 1], steps[n - 1]);
    }
  }
}
