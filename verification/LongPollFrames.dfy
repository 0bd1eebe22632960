/**
 * What a long poll makes of the frames it brings, told by the frames alone:
 * which are answered, which are forwarded, which are refused and why, and which
 * commands go back.
 */
module LongPollFrames {
  import opened Integers
  import opened Wrappers
  import opened LongPoll
  import R = LongPollRuns

  // -------------------------------------------------------------------- one frame

  predicate MissesSequence(e: Envelope) {
    e.payload.TerminalEvent? && e.payload.event.Output? && e.payload.sequence.None?
  }

  predicate HasNeedlessSequence(e: Envelope) {
    e.payload.TerminalEvent? && !e.payload.event.Output? && e.payload.sequence.Some?
  }

  predicate FromElsewhere(h: Handshake, e: Envelope) {
    e.nodeId != h.nodeId || e.transportId != h.transportId
  }

  /** Every outcome, and every reason to refuse, has exactly these frames; the first reason that applies is given. */
  lemma OutcomeExactlyWhen(h: Handshake, e: Envelope, waiting: nat)
    ensures var o := OutcomeOf(h, e, waiting);
            (o.HeartbeatReceived? <==> ProperPing(h, e)) && (o.HeartbeatReceived? ==> o.pingMessageId == e.messageId) &&
            (o.EventReceived? <==> ProperEvent(h, e) && waiting < 128) &&
            (o.EventReceived? ==> o.event == e.payload.event) &&
            (o == Rejected(ChannelFull) <==> ProperEvent(h, e) && waiting >= 128) &&
            (o.Ignored? <==> FromAgent(h, e) && !e.payload.Ping? && !e.payload.TerminalEvent?)
    ensures var o, current := OutcomeOf(h, e, waiting), e.protocolVersion == 1 && e.messageId != 0;
            (o == Rejected(InvalidEnvelope(UnsupportedProtocolVersion)) <==> e.protocolVersion != 1) &&
            (o == Rejected(InvalidEnvelope(MissingMessageId)) <==> e.protocolVersion == 1 && e.messageId == 0) &&
            (o == Rejected(InvalidEnvelope(MissingTerminalOutputSequence)) <==> current && MissesSequence(e)) &&
            (o == Rejected(InvalidEnvelope(UnexpectedTerminalOutputSequence)) <==> current && HasNeedlessSequence(e)) &&
            (o == Rejected(WrongIdentity) <==>
               current && !MissesSequence(e) && !HasNeedlessSequence(e) && FromElsewhere(h, e))
  {
  }

  // --------------------------------------------------------------------- one poll

  /** The message ids that the pongs among some payloads answer, in order. */
  function Pongs(payloads: seq<Payload>): seq<nat> {
    if payloads == [] then []
    else
      var before, last := Pongs(payloads[..|payloads| - 1]), payloads[|payloads| - 1];
      if last.Pong? then before + [last.pingMessageId] else before
  }

  function Payloads(envelopes: seq<Envelope>): (payloads: seq<Payload>)
    ensures |payloads| == |envelopes| && forall i | 0 <= i < |envelopes| :: payloads[i] == envelopes[i].payload
  {
    seq(|envelopes|, i requires 0 <= i < |envelopes| => envelopes[i].payload)
  }

  /** The message ids of the proper pings among the frames, in order. */
  function Pings(h: Handshake, frames: seq<Envelope>): seq<nat> {
    if frames == [] then []
    else
      var before, last := Pings(h, frames[..|frames| - 1]), frames[|frames| - 1];
      if ProperPing(h, last) then before + [last.messageId] else before
  }

  /** The proper terminal events among the frames, in order. */
  function Events(h: Handshake, frames: seq<Envelope>): seq<Event> {
    if frames == [] then []
    else
      var before, last := Events(h, frames[..|frames| - 1]), frames[|frames| - 1];
      if ProperEvent(h, last) then before + [last.payload.event] else before
  }

  lemma {:induction false} PongsAdd(a: seq<Payload>, b: seq<Payload>)
    ensures Pongs(a + b) == Pongs(a) + Pongs(b)
  {
    if b == [] {
      assert a + b == a;
    } else {
      PongsAdd(a, b[..|b| - 1]);
      assert (a + b)[..|a + b| - 1] == a + b[..|b| - 1];
    }
  }

  lemma {:induction false} PongsAmongAnswers(envelopes: seq<Envelope>)
    ensures Pongs(Payloads(envelopes)) == Pongs(R.Answers(envelopes))
  {
    if envelopes != [] {
      var before, last := envelopes[..|envelopes| - 1], envelopes[|envelopes| - 1].payload;
      PongsAmongAnswers(before);
      assert Payloads(envelopes)[..|envelopes| - 1] == Payloads(before);
      if !last.TerminalCommand? {
        assert (R.Answers(before) + [last])[..|R.Answers(before)|] == R.Answers(before);
      }
    }
  }

  lemma PongsOfReply(h: Handshake, e: Envelope, waiting: nat)
    ensures Pongs(R.ReplyFor(OutcomeOf(h, e, waiting))) == if ProperPing(h, e) then [e.messageId] else []
  {
    OutcomeExactlyWhen(h, e, waiting);
    hide OutcomeOf, ProperPing;
    var o := OutcomeOf(h, e, waiting);
    match o
    case HeartbeatReceived(id) => assert [Pong(id)][..0] == [];
    case Rejected(error) => assert [ErrorReply(error)][..0] == [];
    case _ =>
  }

  lemma {:induction false} RepliesPong(h: Handshake, s: Connection, frames: seq<Envelope>)
    ensures Pongs(R.Replies(R.Outcomes(h, s, frames))) == Pings(h, frames)
  {
    if frames != [] {
      var before, last := frames[..|frames| - 1], frames[|frames| - 1];
      var waiting := |AfterFrames(h, s, before).connection.events|;
      hide OutcomeOf, AfterFrames, Pongs, R.ReplyFor, ProperPing;
      RepliesPong(h, s, before);
      R.OutcomeAdds(R.Outcomes(h, s, before), OutcomeOf(h, last, waiting));
      PongsAdd(R.Replies(R.Outcomes(h, s, before)), R.ReplyFor(OutcomeOf(h, last, waiting)));
      PongsOfReply(h, last, waiting);
    } else {
      assert R.Replies([]) == [];
    }
  }

  /** The pongs of a response answer exactly the proper pings of the request, in order. */
  lemma PongsAnswerPings(h: Handshake, s: Connection, frames: seq<Envelope>, arrivals: seq<Command>)
    ensures Pongs(Payloads(Poll(h, s, frames, arrivals).envelopes)) == Pings(h, frames)
  {
    assert Pongs([ServerHello]) == Pongs([]) == [] by {
      assert [ServerHello][..0] == [];
    }
    hide Poll, Pongs, R.Answers, R.Replies, R.Outcomes, R.Forwarded, AfterFrames, R.CommandsIn;
    var r := Poll(h, s, frames, arrivals);
    R.PollConserves(h, s, frames, arrivals);
    PongsAmongAnswers(r.envelopes);
    PongsAdd([ServerHello], R.Replies(R.Outcomes(h, s, frames)));
    RepliesPong(h, s, frames);
  }

  /** As many of the events as there is room for among 128. */
  function Fitting(waiting: nat, events: seq<Event>): seq<Event> {
    if waiting + |events| <= 128 then events else if waiting <= 128 then events[..128 - waiting] else []
  }

  lemma {:induction false} EventsAfterFrames(h: Handshake, s: Connection, frames: seq<Envelope>)
    ensures AfterFrames(h, s, frames).connection.events == s.events + Fitting(|s.events|, Events(h, frames))
  {
    if frames == [] {
      R.NoFrames(h, s);
    } else {
      var before, last := frames[..|frames| - 1], frames[|frames| - 1];
      var b := AfterFrames(h, s, before);
      EventsAfterFrames(h, s, before);
      hide AfterFrames, OutcomeOf, AfterFrame, ProperEvent, R.Outcomes;
      R.FrameStep(h, s, frames);
      R.FrameAnswered(h, b, last);
      OutcomeExactlyWhen(h, last, |b.connection.events|);
    }
  }

  /** The events forwarded are the first proper ones of the request, as many as there was room for. */
  lemma FirstEventsForwarded(h: Handshake, s: Connection, frames: seq<Envelope>, arrivals: seq<Command>)
    ensures Poll(h, s, frames, arrivals).connection.events == s.events + Fitting(|s.events|, Events(h, frames))
  {
    hide Poll, AfterFrames, Fitting, Events;
    R.PollEvents(h, s, frames, arrivals);
    EventsAfterFrames(h, s, frames);
  }

  // --------------------------------------------------------------------- commands

  /** The commands at hand when the response is filled: those queued, or those that arrive while the poll waits. */
  function AtHand(s: Connection, replies: nat, arrivals: seq<Command>): seq<Command> {
    if replies == 0 && s.commands == [] then arrivals else s.commands
  }

  /** The first commands, as many as a response of 32 envelopes still has room for after the hello and the replies. */
  function Taken(replies: nat, commands: seq<Command>): seq<Command> {
    if 1 + replies + |commands| <= 32 then commands else if replies < 31 then commands[..31 - replies] else []
  }

  lemma TakeCounts(h: Handshake, b: Batch)
    requires b.connection.commands != []
    ensures var t := TakeCommand(h, b);
            |t.envelopes| == |b.envelopes| + 1 && t.connection.commands == b.connection.commands[1..]
  {
  }

  lemma {:induction false} FillCounts(h: Handshake, b: Batch)
    ensures var r := Fill(h, b);
            |r.envelopes| + |r.connection.commands| == |b.envelopes| + |b.connection.commands| &&
            |r.envelopes| <= Max(32, |b.envelopes|)
    decreases |b.connection.commands|
  {
    hide TakeCommand;
    if |b.envelopes| < LONG_POLL_BATCH && b.connection.commands != [] {
      TakeCounts(h, b);
      FillCounts(h, TakeCommand(h, b));
    }
  }

  lemma {:induction false} FillTakesFirst(h: Handshake, b: Batch)
    requires |b.envelopes| >= 1 && R.CommandsIn(b.envelopes) == []
    ensures R.CommandsIn(Fill(h, b).envelopes) == Taken(|b.envelopes| - 1, b.connection.commands)
  {
    hide R.CommandsIn, Fill, R.Answers;
    var r := Fill(h, b);
    var taken := R.CommandsIn(r.envelopes);
    R.FillMoves(h, b);
    FillCounts(h, b);
    assert taken + r.connection.commands == b.connection.commands;
    assert taken == b.connection.commands[..|taken|];
  }

  lemma FirstCommandIsFilled(h: Handshake, b: Batch)
    ensures Fill(h, FirstCommand(h, b)) == Fill(h, b)
  {
    hide Fill;
    FillTakes(h, b);
  }

  /** A response without commands consists of its answers. */
  lemma {:induction false} AnswersOnly(envelopes: seq<Envelope>)
    ensures |R.Answers(envelopes)| + |R.CommandsIn(envelopes)| == |envelopes|
  {
    if envelopes != [] {
      AnswersOnly(envelopes[..|envelopes| - 1]);
    }
  }

  /** A response carries the first commands at hand, up to 32 envelopes in all, after its hello and its replies. */
  lemma CommandsDelivered(h: Handshake, s: Connection, frames: seq<Envelope>, arrivals: seq<Command>)
    ensures var sent := Poll(h, s, frames, arrivals).envelopes;
            var replies := |R.Answers(sent)| - 1;
            replies >= 0 && R.CommandsIn(sent) == Taken(replies, AtHand(s, replies, arrivals))
  {
    hide Fill, FirstCommand, AfterFrames, R.CommandsIn, R.Answers, R.Outcomes, R.Forwarded, R.Replies, Taken;
    R.FramesAccounted(h, s, frames);
    R.PollConserves(h, s, frames, arrivals);
    AnswersOnly(AfterFrames(h, s, frames).envelopes);
    var w := AfterWait(AfterFrames(h, s, frames), arrivals);
    FirstCommandIsFilled(h, w);
    FillTakesFirst(h, w);
  }

  /** Everything sent is addressed to the agent of the connection, in the only protocol version. */
  predicate Addressed(h: Handshake, envelopes: seq<Envelope>) {
    forall i | 0 <= i < |envelopes| ::
      envelopes[i].protocolVersion == 1 && envelopes[i].nodeId == h.nodeId && envelopes[i].transportId == h.transportId
  }

  lemma {:induction false} FramesAddressed(h: Handshake, s: Connection, frames: seq<Envelope>)
    ensures Addressed(h, AfterFrames(h, s, frames).envelopes)
  {
    if frames != [] {
      hide OutcomeOf;
      FramesAddressed(h, s, frames[..|frames| - 1]);
    }
  }

  lemma {:induction false} FillAddressed(h: Handshake, b: Batch)
    requires Addressed(h, b.envelopes)
    ensures Addressed(h, Fill(h, b).envelopes)
    decreases |b.connection.commands|
  {
    if |b.envelopes| < LONG_POLL_BATCH && b.connection.commands != [] {
      FillAddressed(h, TakeCommand(h, b));
    }
  }

  lemma ResponseAddressed(h: Handshake, s: Connection, frames: seq<Envelope>, arrivals: seq<Command>)
    ensures Addressed(h, Poll(h, s, frames, arrivals).envelopes)
  {
    hide Addressed, Fill, FirstCommand, AfterFrames;
    FramesAddressed(h, s, frames);
    var w := AfterWait(AfterFrames(h, s, frames), arrivals);
    FirstCommandIsFilled(h, w);
    FillAddressed(h, w);
  }
}
