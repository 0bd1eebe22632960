/** What holds of a long-poll connection over every series of sends and polls. */
module LongPollRuns {
  import opened Integers
  import opened LongPoll

  // ---------------------------------------------------------------------- one poll

  /** What a response holds besides commands, in order. */
  function Answers(envelopes: seq<Envelope>): seq<Payload> {
    if envelopes == [] then []
    else
      var before, last := Answers(envelopes[..|envelopes| - 1]), envelopes[|envelopes| - 1].payload;
      if last.TerminalCommand? then before else before + [last]
  }

  function Ids(envelopes: seq<Envelope>): seq<nat> {
    if envelopes == [] then [] else Ids(envelopes[..|envelopes| - 1]) + [envelopes[|envelopes| - 1].messageId]
  }

  /** The commands that a response carries, in order. */
  function CommandsIn(envelopes: seq<Envelope>): seq<Command> {
    if envelopes == [] then []
    else
      var before, last := CommandsIn(envelopes[..|envelopes| - 1]), envelopes[|envelopes| - 1].payload;
      if last.TerminalCommand? then before + [last.command] else before
  }

  /** One outcome for each frame. */
  function Outcomes(h: Handshake, s: Connection, frames: seq<Envelope>): (outcomes: seq<Outcome>)
    ensures |outcomes| == |frames|
  {
    if frames == [] then []
    else
      var before := frames[..|frames| - 1];
      Outcomes(h, s, before) + [OutcomeOf(h, frames[|frames| - 1], |AfterFrames(h, s, before).connection.events|)]
  }

  function ReplyFor(outcome: Outcome): seq<Payload> {
    match outcome
    case HeartbeatReceived(id) => [Pong(id)]
    case Rejected(error) => [ErrorReply(error)]
    case _ => []
  }

  /** What is answered to frames with these outcomes. */
  function Replies(outcomes: seq<Outcome>): seq<Payload> {
    if outcomes == [] then [] else Replies(outcomes[..|outcomes| - 1]) + ReplyFor(outcomes[|outcomes| - 1])
  }

  /** The events forwarded of frames with these outcomes. */
  function Forwarded(outcomes: seq<Outcome>): seq<Event> {
    if outcomes == [] then []
    else
      var before, last := Forwarded(outcomes[..|outcomes| - 1]), outcomes[|outcomes| - 1];
      if last.EventReceived? then before + [last.event] else before
  }

  lemma ReplyAdds(h: Handshake, b: Batch, payload: Payload)
    ensures var r := Reply(h, b, payload);
            Answers(r.envelopes)
            == (if payload.TerminalCommand? then Answers(b.envelopes) else Answers(b.envelopes) + [payload]) &&
            Ids(r.envelopes) == Ids(b.envelopes) + [b.connection.nextMessageId] &&
            CommandsIn(r.envelopes)
            == (if payload.TerminalCommand? then CommandsIn(b.envelopes) + [payload.command]
                else CommandsIn(b.envelopes)) &&
            |r.envelopes| == |b.envelopes| + 1 &&
            r.connection == b.connection.(nextMessageId := NextId(b.connection.nextMessageId))
  {
    var r := Reply(h, b, payload);
    assert r.envelopes[..|b.envelopes|] == b.envelopes;
  }

  lemma FrameAnswered(h: Handshake, b: Batch, frame: Envelope)
    ensures var r, outcome := AfterFrame(h, b, frame), OutcomeOf(h, frame, |b.connection.events|);
            Answers(r.envelopes) == Answers(b.envelopes) + ReplyFor(outcome) &&
            r.connection.events == b.connection.events + (if outcome.EventReceived? then [outcome.event] else []) &&
            r.connection.commands == b.connection.commands && CommandsIn(r.envelopes) == CommandsIn(b.envelopes) &&
            |b.envelopes| <= |r.envelopes| <= |b.envelopes| + 1
  {
    hide Reply, OutcomeOf, Answers, CommandsIn;
    match OutcomeOf(h, frame, |b.connection.events|)
    case HeartbeatReceived(id) => ReplyAdds(h, b, Pong(id));
    case EventReceived(_) =>
    case Ignored =>
    case Rejected(error) => ReplyAdds(h, b, ErrorReply(error));
  }

  lemma {:induction false} NoFrames(h: Handshake, s: Connection)
    ensures var b, outcomes := AfterFrames(h, s, []), Outcomes(h, s, []);
            Answers(b.envelopes) == [ServerHello] && Replies(outcomes) == [] && Forwarded(outcomes) == [] &&
            b.connection.events == s.events && b.connection.commands == s.commands && CommandsIn(b.envelopes) == [] &&
            |b.envelopes| == 1
  {
    hide Reply;
    ReplyAdds(h, Batch(s, []), ServerHello);
  }

  lemma FrameStep(h: Handshake, s: Connection, frames: seq<Envelope>)
    requires frames != []
    ensures var before, frame := frames[..|frames| - 1], frames[|frames| - 1];
            var b := AfterFrames(h, s, before);
            AfterFrames(h, s, frames) == AfterFrame(h, b, frame) &&
            Outcomes(h, s, frames) == Outcomes(h, s, before) + [OutcomeOf(h, frame, |b.connection.events|)]
  {
    hide OutcomeOf;
  }

  lemma {:induction false} OutcomeAdds(outcomes: seq<Outcome>, o: Outcome)
    ensures Replies(outcomes + [o]) == Replies(outcomes) + ReplyFor(o)
    ensures Forwarded(outcomes + [o]) == Forwarded(outcomes) + (if o.EventReceived? then [o.event] else [])
  {
    assert (outcomes + [o])[..|outcomes|] == outcomes;
  }

  /** Every frame is accounted for once, in order: answered with a pong or an error, forwarded, or ignored. */
  lemma {:induction false} FramesAccounted(h: Handshake, s: Connection, frames: seq<Envelope>)
    ensures var b, outcomes := AfterFrames(h, s, frames), Outcomes(h, s, frames);
            Answers(b.envelopes) == [ServerHello] + Replies(outcomes) &&
            b.connection.events == s.events + Forwarded(outcomes) &&
            b.connection.commands == s.commands && CommandsIn(b.envelopes) == [] &&
            1 <= |b.envelopes| <= 1 + |frames|
  {
    hide *;
    if frames == [] {
      NoFrames(h, s);
    } else {
      var before, frame := frames[..|frames| - 1], frames[|frames| - 1];
      FramesAccounted(h, s, before);
      FrameStep(h, s, frames);
      FrameAnswered(h, AfterFrames(h, s, before), frame);
      var b, outcome := AfterFrames(h, s, before), OutcomeOf(h, frame, |AfterFrames(h, s, before).connection.events|);
      OutcomeAdds(Outcomes(h, s, before), outcome);
      assert Answers(AfterFrames(h, s, frames).envelopes)
          == [ServerHello] + (Replies(Outcomes(h, s, before)) + ReplyFor(outcome));
    }
  }

  lemma TakeMoves(h: Handshake, b: Batch)
    requires b.connection.commands != []
    ensures var t, c := TakeCommand(h, b), b.connection.commands;
            t.connection.commands == c[1..] &&
            CommandsIn(b.envelopes) + c == CommandsIn(t.envelopes) + c[1..] &&
            Answers(t.envelopes) == Answers(b.envelopes) &&
            t.connection.events == b.connection.events &&
            b.envelopes <= t.envelopes && |t.envelopes| == |b.envelopes| + 1
  {
    hide CommandsIn, Answers;
    var c := b.connection.commands;
    ReplyAdds(h, b.(connection := b.connection.(commands := c[1..])), TerminalCommand(c[0]));
    assert c == [c[0]] + c[1..];
  }

  /** Commands move from the queue to the end of the response, until that is full or the queue empty. */
  lemma {:induction false} FillMoves(h: Handshake, b: Batch)
    ensures var r := Fill(h, b);
            CommandsIn(b.envelopes) + b.connection.commands == CommandsIn(r.envelopes) + r.connection.commands &&
            Answers(r.envelopes) == Answers(b.envelopes) && b.envelopes <= r.envelopes &&
            r.connection.events == b.connection.events &&
            (|r.envelopes| > LONG_POLL_BATCH ==> r == b) &&
            (r.connection.commands != [] ==> |r.envelopes| >= LONG_POLL_BATCH)
    decreases |b.connection.commands|
  {
    hide CommandsIn, Answers, TakeCommand;
    if |b.envelopes| < LONG_POLL_BATCH && b.connection.commands != [] {
      TakeMoves(h, b);
      FillMoves(h, TakeCommand(h, b));
    }
  }

  /** The commands that join the queue during a poll. */
  function Joining(h: Handshake, s: Connection, frames: seq<Envelope>, arrivals: seq<Command>): seq<Command> {
    if Waits(AfterFrames(h, s, frames)) then arrivals else []
  }

  /**
   * One poll: no command is lost, repeated or reordered; the answers come first,
   * one for each frame that calls for one, and every other frame was forwarded
   * or ignored; and the response is bounded, and full if commands are left.
   */
  lemma {:induction false} PollConserves(h: Handshake, s: Connection, frames: seq<Envelope>, arrivals: seq<Command>)
    ensures var r, outcomes := Poll(h, s, frames, arrivals), Outcomes(h, s, frames);
            s.commands + Joining(h, s, frames, arrivals) == CommandsIn(r.envelopes) + r.connection.commands &&
            Answers(r.envelopes) == [ServerHello] + Replies(outcomes) &&
            AfterFrames(h, s, frames).envelopes <= r.envelopes &&
            r.connection.events == s.events + Forwarded(outcomes) &&
            |r.envelopes| <= Max(32, 1 + |frames|) &&
            (r.connection.commands != [] ==> |r.envelopes| >= 32)
  {
    hide Fill, AfterFrames, TakeCommand, CommandsIn, Answers, Outcomes, Replies, Forwarded;
    FramesAccounted(h, s, frames);
    var b := AfterFrames(h, s, frames);
    var w := AfterWait(b, arrivals);
    assert w.connection.commands == s.commands + Joining(h, s, frames, arrivals);
    if w.connection.commands != [] {
      TakeMoves(h, w);
    }
    FillMoves(h, FirstCommand(h, w));
  }

  function IgnoredOf(outcomes: seq<Outcome>): seq<Outcome> {
    if outcomes == [] then []
    else
      var before, last := IgnoredOf(outcomes[..|outcomes| - 1]), outcomes[|outcomes| - 1];
      if last.Ignored? then before + [last] else before
  }

  /** Pongs and errors, forwarded events and ignored frames add up to the frames. */
  lemma {:induction false} FramesAddUp(outcomes: seq<Outcome>)
    ensures |outcomes| == |Replies(outcomes)| + |Forwarded(outcomes)| + |IgnoredOf(outcomes)|
  {
    if outcomes != [] {
      FramesAddUp(outcomes[..|outcomes| - 1]);
    }
  }

  // ---------------------------------------------------------------------- all polls

  /** What happens to one connection; a terminal takes events out of its channel. */
  datatype Step =
    | Send(command: Command)
    | PollOnce(h: Handshake, frames: seq<Envelope>, arrivals: seq<Command>)
    | TakeEvent

  /** A send waits for room in the queue, no more can arrive than there is room for, and an event must be there. */
  predicate Enabled(s: Connection, step: Step) {
    match step
    case Send(_) => |s.commands| < CHANNEL_CAPACITY
    case PollOnce(_, _, arrivals) => |arrivals| <= CHANNEL_CAPACITY
    case TakeEvent => s.events != []
  }

  function After(s: Connection, step: Step): Connection {
    match step
    case Send(command) => s.(commands := s.commands + [command])
    case PollOnce(h, frames, arrivals) => Poll(h, s, frames, arrivals).connection
    case TakeEvent => if s.events == [] then s else s.(events := s.events[1..])
  }

  function Response(s: Connection, step: Step): seq<Envelope> {
    match step
    case PollOnce(h, frames, arrivals) => Poll(h, s, frames, arrivals).envelopes
    case _ => []
  }

  function Run(steps: seq<Step>): Connection {
    if steps == [] then NEW_CONNECTION else After(Run(steps[..|steps| - 1]), steps[|steps| - 1])
  }

  predicate Possible(steps: seq<Step>) {
    steps == [] || (Possible(steps[..|steps| - 1]) && Enabled(Run(steps[..|steps| - 1]), steps[|steps| - 1]))
  }

  function SentBy(s: Connection, step: Step): seq<Command> {
    match step
    case Send(command) => [command]
    case PollOnce(h, frames, arrivals) => Joining(h, s, frames, arrivals)
    case TakeEvent => []
  }

  /** The commands sent so far, between polls and while polls waited. */
  function Sent(steps: seq<Step>): seq<Command> {
    if steps == [] then []
    else Sent(steps[..|steps| - 1]) + SentBy(Run(steps[..|steps| - 1]), steps[|steps| - 1])
  }

  /** The commands that responses have carried so far. */
  function Delivered(steps: seq<Step>): seq<Command> {
    if steps == [] then []
    else Delivered(steps[..|steps| - 1]) + CommandsIn(Response(Run(steps[..|steps| - 1]), steps[|steps| - 1]))
  }

  lemma NoCommands()
    ensures CommandsIn([]) == [] && Ids([]) == []
  {
  }

  lemma StepConserves(s: Connection, step: Step)
    ensures s.commands + SentBy(s, step) == CommandsIn(Response(s, step)) + After(s, step).commands
  {
    NoCommands();
    hide Poll, Joining, CommandsIn;
    if step.PollOnce? {
      PollConserves(step.h, s, step.frames, step.arrivals);
    }
  }

  lemma Regroup(a: seq<Command>, b: seq<Command>, c: seq<Command>, d: seq<Command>, e: seq<Command>)
    requires b + c == d + e
    ensures (a + b) + c == (a + d) + e
  {
    assert (a + b) + c == a + (b + c);
    assert (a + d) + e == a + (d + e);
  }

  /**
   * Over any series of polls, the commands delivered and those still queued are the commands sent, in
   * order, once each.
   */
  lemma {:induction false} CommandsConserved(steps: seq<Step>)
    ensures Sent(steps) == Delivered(steps) + Run(steps).commands
  {
    if steps != [] {
      var before, step := steps[..|steps| - 1], steps[|steps| - 1];
      CommandsConserved(before);
      StepConserves(Run(before), step);
      hide After, CommandsIn, Response, SentBy;
      Regroup(Delivered(before), Run(before).commands, SentBy(Run(before), step),
              CommandsIn(Response(Run(before), step)), Run(steps).commands);
    }
  }

  lemma {:induction false} EventsBounded(h: Handshake, s: Connection, frames: seq<Envelope>)
    requires |s.events| <= CHANNEL_CAPACITY
    ensures |AfterFrames(h, s, frames).connection.events| <= CHANNEL_CAPACITY
  {
    if frames != [] {
      EventsBounded(h, s, frames[..|frames| - 1]);
    }
  }

  lemma {:induction false} PollEvents(h: Handshake, s: Connection, frames: seq<Envelope>, arrivals: seq<Command>)
    ensures Poll(h, s, frames, arrivals).connection.events == AfterFrames(h, s, frames).connection.events
  {
    hide Poll, AfterFrames, Outcomes, Forwarded, CommandsIn, Answers;
    PollConserves(h, s, frames, arrivals);
    FramesAccounted(h, s, frames);
  }

  /** The frame handler never lets the event channel hold more than its capacity, whatever is polled. */
  lemma {:induction false} EventsNeverOverflow(steps: seq<Step>)
    ensures |Run(steps).events| <= 128
  {
    if steps != [] {
      var before, step := steps[..|steps| - 1], steps[|steps| - 1];
      EventsNeverOverflow(before);
      if step.PollOnce? {
        EventsBounded(step.h, Run(before), step.frames);
        PollEvents(step.h, Run(before), step.frames, step.arrivals);
      }
    }
  }

  /** And no poll makes the command queue longer than its senders may. */
  lemma {:induction false} CommandsNeverOverflow(steps: seq<Step>)
    requires Possible(steps)
    ensures |Run(steps).commands| <= 128
  {
    if steps != [] {
      var before, step := steps[..|steps| - 1], steps[|steps| - 1];
      CommandsNeverOverflow(before);
      if step.PollOnce? {
        hide Poll, AfterFrames, CommandsIn, Answers, Outcomes, Forwarded;
        PollConserves(step.h, Run(before), step.frames, step.arrivals);
        FramesAccounted(step.h, Run(before), step.frames);
        var r := Poll(step.h, Run(before), step.frames, step.arrivals);
        assert |Run(before).commands + Joining(step.h, Run(before), step.frames, step.arrivals)| <= CHANNEL_CAPACITY;
        assert |r.connection.commands| <= |CommandsIn(r.envelopes) + r.connection.commands|;
      }
    }
  }

  // --------------------------------------------------------------------- message ids

  /** The ids of all envelopes sent, in order. */
  function Issued(steps: seq<Step>): seq<nat> {
    if steps == [] then []
    else Issued(steps[..|steps| - 1]) + Ids(Response(Run(steps[..|steps| - 1]), steps[|steps| - 1]))
  }

  /** The id of the `k`th envelope of a connection: counted from two, saturating at 64 bits. */
  function NthId(k: nat): nat {
    if 2 + k < U64_MAX then 2 + k else U64_MAX
  }

  predicate Counted(ids: seq<nat>, start: nat) {
    forall i | 0 <= i < |ids| :: ids[i] == NthId(start + i)
  }

  /** A poll in progress that started with the `start`th envelope has used the ids that follow, and no others. */
  predicate InStep(b: Batch, start: nat) {
    Counted(Ids(b.envelopes), start) && |Ids(b.envelopes)| == |b.envelopes| &&
    b.connection.nextMessageId == NthId(start + |b.envelopes|)
  }

  lemma ReplyInStep(h: Handshake, b: Batch, payload: Payload, start: nat)
    requires InStep(b, start)
    ensures InStep(Reply(h, b, payload), start)
  {
    hide Ids, Reply;
    ReplyAdds(h, b, payload);
  }

  lemma {:induction false} FramesInStep(h: Handshake, s: Connection, frames: seq<Envelope>, start: nat)
    requires s.nextMessageId == NthId(start)
    ensures InStep(AfterFrames(h, s, frames), start)
  {
    if frames == [] {
      assert InStep(Batch(s, []), start) by {
        NoCommands();
      }
      hide InStep;
      ReplyInStep(h, Batch(s, []), ServerHello, start);
    } else {
      var b, frame := AfterFrames(h, s, frames[..|frames| - 1]), frames[|frames| - 1];
      FramesInStep(h, s, frames[..|frames| - 1], start);
      hide Reply, OutcomeOf, Ids;
      match OutcomeOf(h, frame, |b.connection.events|)
      case HeartbeatReceived(id) => ReplyInStep(h, b, Pong(id), start);
      case EventReceived(_) =>
      case Ignored =>
      case Rejected(error) => ReplyInStep(h, b, ErrorReply(error), start);
    }
  }

  lemma TakeInStep(h: Handshake, b: Batch, start: nat)
    requires InStep(b, start) && b.connection.commands != []
    ensures InStep(TakeCommand(h, b), start)
  {
    hide Reply;
    var c := b.connection.commands;
    ReplyInStep(h, b.(connection := b.connection.(commands := c[1..])), TerminalCommand(c[0]), start);
  }

  lemma {:induction false} FillInStep(h: Handshake, b: Batch, start: nat)
    requires InStep(b, start)
    ensures InStep(Fill(h, b), start)
    decreases |b.connection.commands|
  {
    hide InStep;
    if |b.envelopes| < LONG_POLL_BATCH && b.connection.commands != [] {
      TakeInStep(h, b, start);
      FillInStep(h, TakeCommand(h, b), start);
    }
  }

  lemma PollInStep(h: Handshake, s: Connection, frames: seq<Envelope>, arrivals: seq<Command>, start: nat)
    requires s.nextMessageId == NthId(start)
    ensures InStep(Poll(h, s, frames, arrivals), start)
  {
    hide AfterFrames, Fill, TakeCommand, Ids;
    FramesInStep(h, s, frames, start);
    var w := AfterWait(AfterFrames(h, s, frames), arrivals);
    assert InStep(w, start);
    hide InStep;
    if w.connection.commands != [] {
      TakeInStep(h, w, start);
    }
    FillInStep(h, FirstCommand(h, w), start);
  }

  lemma CountedAppend(a: seq<nat>, b: seq<nat>)
    requires Counted(a, 0) && Counted(b, |a|)
    ensures Counted(a + b, 0)
  {
    hide NthId;
    forall i | 0 <= i < |a + b| ensures (a + b)[i] == NthId(i) {
      assert i >= |a| ==> (a + b)[i] == b[i - |a|] == NthId(|a| + (i - |a|));
    }
  }

  /** Over any series of polls the ids are 2, 3, 4 and so on up to the largest, with none skipped. */
  lemma {:induction false} IdsCount(steps: seq<Step>)
    ensures Counted(Issued(steps), 0) && Run(steps).nextMessageId == NthId(|Issued(steps)|)
  {
    if steps != [] {
      var before, step := steps[..|steps| - 1], steps[|steps| - 1];
      IdsCount(before);
      hide Poll, Ids;
      if step.PollOnce? {
        var r := Poll(step.h, Run(before), step.frames, step.arrivals);
        PollInStep(step.h, Run(before), step.frames, step.arrivals, |Issued(before)|);
        CountedAppend(Issued(before), Ids(r.envelopes));
      } else {
        NoCommands();
        assert Issued(steps) == Issued(before);
      }
    }
  }

  /** So ids strictly increase until the largest id, and every id before it is used at most once. */
  lemma {:induction false} IdsIncrease(steps: seq<Step>, i: nat, j: nat)
    requires i < j < |Issued(steps)|
    ensures var ids := Issued(steps);
            ids[i] <= ids[j] && (ids[i] == ids[j] <==> ids[i] == U64_MAX) && ids[0] == 2
  {
    hide Issued;
    IdsCount(steps);
  }
}
