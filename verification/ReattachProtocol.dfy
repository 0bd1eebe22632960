/**
 * One local terminal session as a concurrent system: a single reader records
 * output under the registry's lock and broadcasts it outside the lock, while
 * browsers reattach, subscribing and taking the replay under the lock. In
 * every interleaving a browser that does not lag misses no output.
 */
module ReattachProtocol {
  import opened Integers
  import opened Wrappers
  import opened Sessions

  const OUTPUT_CHANNEL_CAPACITY: nat := 64

  /** Between the lock and the broadcast the reader holds one recorded message. */
  datatype Reader = Idle | Holding(message: Message)

  /**
   * A subscribed browser: the replay it was given, what it has received since
   * and what waits for it. `joined` is how many outputs had been recorded when
   * it subscribed and `repeats` whether one of them was still to be broadcast;
   * they only serve to say what it receives.
   */
  datatype Receiver = Receiver(
    replay: seq<Message>, received: seq<Message>, waiting: seq<Message>, lagged: bool, joined: nat, repeats: bool)

  /** `log` holds the outputs recorded for the session, in order. */
  datatype System = System(table: Table, reader: Reader, log: seq<Message>, receivers: map<nat, Receiver>)

  datatype Event =
    | Registry(op: Op)
    | Record(data: string)
    | Broadcast
    | Announce(message: Message)
    | Join(client: nat, token: string, actorEmail: string, newToken: string, now: nat)
    | Receive(client: nat)
    | Leave(client: nat)

  /** What other tasks do: they neither insert under this session's id nor produce its output. */
  predicate Foreign(id: SessionId, op: Op) {
    match op
    case Insert(r) => r.sessionId != id
    case RecordOutput(other, _) => other != id
    case Reattach(other, _, _, _, _) => other != id
    case Remember(m) => !(m.Output? && m.sessionId == id)
    case _ => true
  }

  predicate Enabled(id: SessionId, s: System, e: Event) {
    match e
    case Registry(op) => Foreign(id, op)
    case Record(_) => s.reader.Idle?
    case Broadcast => s.reader.Holding?
    case Announce(m) => !m.Output?
    case Join(client, _, _, _, _) => client !in s.receivers
    case Receive(client) => client in s.receivers && s.receivers[client].waiting != []
    case Leave(_) => true
  }

  /** The channel keeps the newest messages of a receiver that falls behind. */
  function Push(r: Receiver, m: Message): Receiver {
    if |r.waiting| < OUTPUT_CHANNEL_CAPACITY then r.(waiting := r.waiting + [m])
    else r.(waiting := r.waiting[1..] + [m], lagged := true)
  }

  function PushAll(receivers: map<nat, Receiver>, m: Message): map<nat, Receiver> {
    map client | client in receivers :: Push(receivers[client], m)
  }

  function Next(config: Config, id: SessionId, s: System, e: Event): System
    requires Enabled(id, s, e)
  {
    match e
    case Registry(op) => s.(table := Apply(config, s.table, op))
    case Record(data) =>
      if id in s.table then
        s.(table := AfterRecordOutput(s.table, id, data),
           reader := Holding(NumberedOutput(s.table, id, data)),
           log := s.log + [NumberedOutput(s.table, id, data)])
      else s
    case Broadcast => s.(receivers := PushAll(s.receivers, s.reader.message), reader := Idle)
    case Announce(m) => s.(receivers := PushAll(s.receivers, m))
    case Join(client, token, actorEmail, newToken, now) =>
      if CanReattach(s.table, id, token, actorEmail) then
        var r := Receiver(s.table[id].replay, [], [], false, |s.log|, s.reader.Holding?);
        s.(table := AfterReattach(s.table, id, token, actorEmail, newToken, now), receivers := s.receivers[client := r])
      else s
    case Receive(client) =>
      var r := s.receivers[client];
      s.(receivers := s.receivers[client := r.(received := r.received + [r.waiting[0]], waiting := r.waiting[1..])])
    case Leave(client) => s.(receivers := s.receivers - {client})
  }

  /** The session has just been inserted, and its first browser subscribes before the reader starts. */
  predicate Start(id: SessionId, s: System) {
    id in s.table && s.table[id].replay == [] && s.table[id].nextOutputSequence == 1 &&
    s.reader.Idle? && s.log == [] && s.receivers == map[0 := Receiver([], [], [], false, 0, false)]
  }

  /** The states of a run, one event apart. */
  predicate Steps(config: Config, id: SessionId, states: seq<System>, events: seq<Event>) {
    |states| == |events| + 1 && Start(id, states[0]) &&
    forall i | 0 <= i < |events| ::
      Enabled(id, states[i], events[i]) && states[i + 1] == Next(config, id, states[i], events[i])
  }

  // ---------------------------------------------------------------------- outputs

  /** The outputs among the messages, in order. */
  function Outputs(messages: seq<Message>): (outputs: seq<Message>)
    ensures forall i | 0 <= i < |outputs| :: outputs[i].Output?
  {
    if messages == [] then []
    else (if messages[0].Output? then [messages[0]] else []) + Outputs(messages[1..])
  }

  lemma {:induction false} UnfoldOutputs(m: seq<Message>)
    ensures Outputs(m) == if m == [] then [] else (if m[0].Output? then [m[0]] else []) + Outputs(m[1..])
  {
  }

  lemma Append3(a: seq<Message>, b: seq<Message>, c: seq<Message>)
    ensures a + (b + c) == (a + b) + c
  {
  }

  lemma FirstOfConcat(a: seq<Message>, b: seq<Message>)
    requires a != []
    ensures (a + b) != [] && (a + b)[0] == a[0] && (a + b)[1..] == a[1..] + b
  {
  }

  lemma {:induction false} OutputsConcat(a: seq<Message>, b: seq<Message>)
    ensures Outputs(a + b) == Outputs(a) + Outputs(b)
  {
    UnfoldOutputs(a);
    UnfoldOutputs(a + b);
    hide Outputs;
    if a == [] {
      assert a + b == b;
    } else {
      FirstOfConcat(a, b);
      OutputsConcat(a[1..], b);
      Append3(if a[0].Output? then [a[0]] else [], Outputs(a[1..]), Outputs(b));
    }
  }

  /** The recorded outputs are numbered from one. */
  ghost predicate LogGood(id: SessionId, log: seq<Message>) {
    forall i | 0 <= i < |log| :: log[i].Output? && log[i].sessionId == id && log[i].sequence == i + 1
  }

  /** The outputs among the messages are the recorded ones from `a` up to `b`. */
  predicate Covers(messages: seq<Message>, log: seq<Message>, a: nat, b: nat) {
    a <= b <= |log| && Outputs(messages) == log[a..b]
  }

  /** The ring holds the outputs recorded up to `b`: all of them, or as many as there is room for. */
  predicate RingFrom(replay: seq<Message>, log: seq<Message>, a: nat, b: nat) {
    Covers(replay, log, a, b) && |replay| <= OUTPUT_REPLAY_CAPACITY && (a == 0 || |replay| == OUTPUT_REPLAY_CAPACITY)
  }

  ghost predicate RingGood(replay: seq<Message>, log: seq<Message>, b: nat) {
    exists a: nat :: RingFrom(replay, log, a, b)
  }

  /** A longer log changes nothing of what is covered. */
  lemma CoversLater(messages: seq<Message>, log: seq<Message>, a: nat, b: nat, m: Message)
    requires Covers(messages, log, a, b)
    ensures Covers(messages, log + [m], a, b)
  {
    assert (log + [m])[a..b] == log[a..b];
  }

  lemma RingLater(replay: seq<Message>, log: seq<Message>, b: nat, m: Message)
    requires RingGood(replay, log, b)
    ensures RingGood(replay, log + [m], b)
  {
    var a: nat :| RingFrom(replay, log, a, b);
    CoversLater(replay, log, a, b, m);
    assert RingFrom(replay, log + [m], a, b);
  }

  lemma SingleOutput(m: Message)
    ensures Outputs([m]) == if m.Output? then [m] else []
  {
    assert [m][1..] == [];
  }

  lemma CoversOutput(messages: seq<Message>, log: seq<Message>, a: nat, b: nat)
    requires Covers(messages, log, a, b) && b < |log| && log[b].Output?
    ensures Covers(messages + [log[b]], log, a, b + 1)
  {
    hide Outputs;
    OutputsConcat(messages, [log[b]]);
    SingleOutput(log[b]);
    assert log[a..b] + [log[b]] == log[a..b + 1];
  }

  lemma CoversOther(messages: seq<Message>, log: seq<Message>, a: nat, b: nat, m: Message)
    requires Covers(messages, log, a, b) && !m.Output?
    ensures Covers(messages + [m], log, a, b)
  {
    hide Outputs;
    OutputsConcat(messages, [m]);
    SingleOutput(m);
  }

  /** The first message of a full ring makes room. */
  lemma CoversDropFirst(messages: seq<Message>, log: seq<Message>, a: nat, b: nat) returns (a': nat)
    requires Covers(messages, log, a, b) && messages != []
    ensures Covers(messages[1..], log, a', b)
  {
    UnfoldOutputs(messages);
    if messages[0].Output? {
      a' := a + 1;
      assert Outputs(messages)[1..] == Outputs(messages[1..]);
      assert log[a..b][1..] == log[a + 1..b];
    } else {
      a' := a;
    }
  }

  lemma RingPush(replay: seq<Message>, log: seq<Message>, b: nat, m: Message)
    requires RingGood(replay, log, b)
    requires !m.Output? || (b < |log| && m == log[b])
    ensures RingGood(PushReplay(replay, m), log, if m.Output? then b + 1 else b)
  {
    hide Covers;
    var a: nat :| RingFrom(replay, log, a, b);
    var kept := replay;
    if |replay| == OUTPUT_REPLAY_CAPACITY {
      kept := replay[1..];
      a := CoversDropFirst(replay, log, a, b);
    }
    assert PushReplay(replay, m) == kept + [m];
    if m.Output? {
      CoversOutput(kept, log, a, b);
      assert RingFrom(kept + [m], log, a, b + 1);
    } else {
      CoversOther(kept, log, a, b, m);
      assert RingFrom(kept + [m], log, a, b);
    }
  }

  // ------------------------------------------------------------------ the invariant

  /** How many outputs have been broadcast. */
  function Sent(s: System): int {
    if s.reader.Holding? then |s.log| - 1 else |s.log|
  }

  ghost predicate RegistryGood(id: SessionId, s: System) {
    id in s.table ==>
      s.table[id].nextOutputSequence == |s.log| + 1 && RingGood(s.table[id].replay, s.log, |s.log|)
  }

  predicate ReaderGood(s: System) {
    s.reader.Holding? ==> s.log != [] && s.reader.message == s.log[|s.log| - 1]
  }

  /** How many outputs had been recorded before the first one that the receiver gets after its replay. */
  function LiveFrom(r: Receiver): int {
    if r.repeats then r.joined - 1 else r.joined
  }

  ghost predicate ReceiverGood(r: Receiver, log: seq<Message>, sent: int) {
    RingGood(r.replay, log, r.joined) && 0 <= LiveFrom(r) && 0 <= sent &&
    (!r.lagged ==> Covers(r.received + r.waiting, log, LiveFrom(r), sent))
  }

  ghost predicate Good(id: SessionId, s: System) {
    LogGood(id, s.log) && RegistryGood(id, s) && ReaderGood(s) &&
    forall client | client in s.receivers :: ReceiverGood(s.receivers[client], s.log, Sent(s))
  }

  lemma StartIsGood(id: SessionId, s: System)
    requires Start(id, s)
    ensures Good(id, s)
  {
    var none: seq<Message> := [];
    assert RingFrom(none, none, 0, 0);
    assert none + none == none;
  }

  lemma ReceiverLater(r: Receiver, log: seq<Message>, sent: int, m: Message)
    requires ReceiverGood(r, log, sent)
    ensures ReceiverGood(r, log + [m], sent)
  {
    hide RingGood, Covers;
    RingLater(r.replay, log, r.joined, m);
    if !r.lagged {
      CoversLater(r.received + r.waiting, log, LiveFrom(r), sent, m);
    }
  }

  lemma PushOutput(r: Receiver, log: seq<Message>, sent: nat)
    requires ReceiverGood(r, log, sent) && sent < |log| && log[sent].Output?
    ensures ReceiverGood(Push(r, log[sent]), log, sent + 1)
  {
    hide RingGood, Covers;
    if !Push(r, log[sent]).lagged {
      assert r.received + (r.waiting + [log[sent]]) == (r.received + r.waiting) + [log[sent]];
      CoversOutput(r.received + r.waiting, log, LiveFrom(r), sent);
    }
  }

  lemma PushOther(r: Receiver, log: seq<Message>, sent: int, m: Message)
    requires ReceiverGood(r, log, sent) && !m.Output?
    ensures ReceiverGood(Push(r, m), log, sent)
  {
    hide RingGood, Covers;
    if !Push(r, m).lagged {
      assert r.received + (r.waiting + [m]) == (r.received + r.waiting) + [m];
      CoversOther(r.received + r.waiting, log, LiveFrom(r), sent, m);
    }
  }

  /** Whatever other tasks do in the registry, this session's numbering and ring stay sound. */
  lemma ForeignKeepsRegistry(config: Config, id: SessionId, s: System, op: Op)
    requires RegistryGood(id, s) && Foreign(id, op)
    ensures RegistryGood(id, s.(table := Apply(config, s.table, op)))
  {
    hide RingGood;
    var t := Apply(config, s.table, op);
    if id in t {
      assert id in s.table && t[id].nextOutputSequence == s.table[id].nextOutputSequence;
      if op.Remember? && MessageSession(op.message) == Some(id) {
        RingPush(s.table[id].replay, s.log, |s.log|, op.message);
      } else {
        assert t[id].replay == s.table[id].replay;
      }
    }
  }

  lemma RecordKeepsGood(config: Config, id: SessionId, s: System, data: string)
    requires Good(id, s) && s.reader.Idle? && |s.log| + 1 < U64_MAX
    ensures Good(id, Next(config, id, s, Record(data)))
  {
    hide RingGood, ReceiverGood;
    if id in s.table {
      var m := NumberedOutput(s.table, id, data);
      RingLater(s.table[id].replay, s.log, |s.log|, m);
      RingPush(s.table[id].replay, s.log + [m], |s.log|, m);
      forall client | client in s.receivers ensures ReceiverGood(s.receivers[client], s.log + [m], |s.log|) {
        ReceiverLater(s.receivers[client], s.log, |s.log|, m);
      }
    }
  }

  lemma JoinKeepsGood(config: Config, id: SessionId, s: System, e: Event)
    requires Good(id, s) && e.Join? && Enabled(id, s, e)
    ensures Good(id, Next(config, id, s, e))
  {
    hide RingGood;
    if CanReattach(s.table, id, e.token, e.actorEmail) {
      var r := Receiver(s.table[id].replay, [], [], false, |s.log|, s.reader.Holding?);
      assert r.received + r.waiting == [];
      assert Covers([], s.log, LiveFrom(r), Sent(s));
    }
  }

  lemma ReceiveKeepsGood(r: Receiver, log: seq<Message>, sent: int)
    requires ReceiverGood(r, log, sent) && r.waiting != []
    ensures ReceiverGood(r.(received := r.received + [r.waiting[0]], waiting := r.waiting[1..]), log, sent)
  {
    hide RingGood, Covers;
    assert (r.received + [r.waiting[0]]) + r.waiting[1..] == r.received + r.waiting;
  }

  lemma NextIsGood(config: Config, id: SessionId, s: System, e: Event)
    requires Good(id, s) && Enabled(id, s, e) && |s.log| + 1 < U64_MAX
    ensures Good(id, Next(config, id, s, e))
    ensures |Next(config, id, s, e).log| <= |s.log| + 1
  {
    hide RingGood, ReceiverGood, Apply;
    match e
    case Registry(op) => ForeignKeepsRegistry(config, id, s, op);
    case Record(data) => RecordKeepsGood(config, id, s, data);
    case Broadcast =>
      forall client | client in s.receivers
        ensures ReceiverGood(Push(s.receivers[client], s.reader.message), s.log, |s.log|)
      {
        PushOutput(s.receivers[client], s.log, |s.log| - 1);
      }
    case Announce(m) =>
      forall client | client in s.receivers ensures ReceiverGood(Push(s.receivers[client], m), s.log, Sent(s)) {
        PushOther(s.receivers[client], s.log, Sent(s), m);
      }
    case Join(_, _, _, _, _) => JoinKeepsGood(config, id, s, e);
    case Receive(client) => ReceiveKeepsGood(s.receivers[client], s.log, Sent(s));
    case Leave(_) =>
  }

  lemma {:induction false} AlwaysGood(config: Config, id: SessionId, states: seq<System>, events: seq<Event>, n: nat)
    requires Steps(config, id, states, events) && n <= |events| && |events| + 1 < U64_MAX
    ensures Good(id, states[n]) && |states[n].log| <= n
  {
    hide Good, Next, Enabled;
    if n == 0 {
      StartIsGood(id, states[0]);
    } else {
      AlwaysGood(config, id, states, events, n - 1);
      NextIsGood(config, id, states[n - 1], events[n - 1]);
    }
  }

  // -------------------------------------------------------------------- the theorem

  /**
   * Reattach loses nothing. In every interleaving, for a browser that never
   * lags past the channel capacity, the outputs of its replay are the recorded
   * ones from some `a` up to those recorded when it joined, all of them unless
   * the ring was full; and the outputs it receives or has waiting are the
   * recorded ones from there, or from one earlier, up to the last broadcast.
   */
  lemma ReattachLosesNothing(config: Config, id: SessionId, states: seq<System>, events: seq<Event>,
                             n: nat, client: nat) returns (a: nat)
    requires Steps(config, id, states, events) && n <= |events| && |events| + 1 < U64_MAX
    requires client in states[n].receivers && !states[n].receivers[client].lagged
    ensures var s := states[n];
            var r := s.receivers[client];
            a <= r.joined <= |s.log| && 0 <= LiveFrom(r) <= Sent(s) &&
            Outputs(r.replay) == s.log[a..r.joined] && (a == 0 || |r.replay| == OUTPUT_REPLAY_CAPACITY) &&
            Outputs(r.received + r.waiting) == s.log[LiveFrom(r)..Sent(s)] && LogGood(id, s.log)
  {
    hide Next, Enabled, Outputs;
    AlwaysGood(config, id, states, events, n);
    var s := states[n];
    var r := s.receivers[client];
    assert ReceiverGood(r, s.log, Sent(s));
    a :| RingFrom(r.replay, s.log, a, r.joined);
  }

  function Numbers(outputs: seq<Message>): (numbers: seq<nat>)
    requires forall i | 0 <= i < |outputs| :: outputs[i].Output?
    ensures |numbers| == |outputs| && forall i | 0 <= i < |outputs| :: numbers[i] == outputs[i].sequence
  {
    if outputs == [] then [] else [outputs[0].sequence] + Numbers(outputs[1..])
  }

  /** The numbers of the outputs a browser sees: in its replay, received and waiting. */
  function Seen(r: Receiver): seq<nat> {
    Numbers(Outputs(r.replay) + Outputs(r.received + r.waiting))
  }

  /** Each number follows the one before it, except that one number may come twice in a row. */
  predicate NoGaps(xs: seq<nat>) {
    (forall i | 0 < i < |xs| :: xs[i] == xs[i - 1] + 1 || xs[i] == xs[i - 1]) &&
    (forall i, j | 0 < i < j < |xs| && xs[i] == xs[i - 1] :: xs[j] != xs[j - 1])
  }

  predicate Repeats(xs: seq<nat>) {
    exists i | 0 < i < |xs| :: xs[i] == xs[i - 1]
  }

  /** The numbers from `a + 1` to `b` and then those from `c + 1` to `d`. */
  predicate TwoRanges(xs: seq<nat>, a: nat, b: nat, c: nat, d: nat) {
    a <= b && c <= d && |xs| == (b - a) + (d - c) &&
    forall i | 0 <= i < |xs| :: xs[i] == if i < b - a then a + 1 + i else c + 1 + (i - (b - a))
  }

  /** How one number follows another in two ranges. */
  lemma RangeStep(xs: seq<nat>, a: nat, b: nat, c: nat, d: nat, i: nat)
    requires TwoRanges(xs, a, b, c, d) && b - 1 <= c <= b && 0 < i < |xs|
    ensures xs[i] == xs[i - 1] + if i == b - a && c == b - 1 then 0 else 1
  {
  }

  /** Numbers that go up by one at every place, except perhaps at `k`, where one may come twice. */
  lemma StepsJoin(xs: seq<nat>, k: nat, twice: bool)
    requires forall i | 0 < i < |xs| :: xs[i] == xs[i - 1] + if twice && i == k then 0 else 1
    ensures NoGaps(xs)
    ensures Repeats(xs) <==> twice && 0 < k < |xs|
  {
    if twice && 0 < k < |xs| {
      assert xs[k] == xs[k - 1];
    }
  }

  lemma RangesJoin(xs: seq<nat>, a: nat, b: nat, c: nat, d: nat)
    requires TwoRanges(xs, a, b, c, d) && b - 1 <= c <= b
    ensures NoGaps(xs)
    ensures Repeats(xs) <==> c == b - 1 && a < b && c < d
    ensures c < d ==> xs[|xs| - 1] == d
  {
    hide NoGaps, Repeats;
    assert |xs| == (b - a) + (d - c);
    assert c < d ==> xs[|xs| - 1] == d;
    hide TwoRanges;
    forall i | 0 < i < |xs| ensures xs[i] == xs[i - 1] + if c == b - 1 && i == b - a then 0 else 1 {
      RangeStep(xs, a, b, c, d, i);
    }
    StepsJoin(xs, b - a, c == b - 1);
  }

  lemma SeenNumbers(id: SessionId, r: Receiver, log: seq<Message>, a: nat, sent: nat)
    requires LogGood(id, log) && a <= r.joined <= |log| && 0 <= LiveFrom(r) <= sent <= |log|
    requires Outputs(r.replay) == log[a..r.joined] && Outputs(r.received + r.waiting) == log[LiveFrom(r)..sent]
    ensures TwoRanges(Seen(r), a, r.joined, LiveFrom(r), sent)
  {
    hide Outputs, Numbers;
    var all, n := log[a..r.joined] + log[LiveFrom(r)..sent], r.joined - a;
    forall i | 0 <= i < |all|
      ensures all[i].sequence == if i < n then a + 1 + i else LiveFrom(r) + 1 + (i - n)
    {
      assert i < n ==> all[i] == log[a + i];
      assert i >= n ==> all[i] == log[LiveFrom(r) + (i - n)];
    }
  }

  /**
   * So the numbers it sees are consecutive, apart from at most one repeat, and
   * reach up to the last broadcast. There is a repeat exactly if it joined
   * between the lock and the broadcast of an output that the ring still held
   * and that has been broadcast since.
   */
  lemma SeenWithoutGaps(config: Config, id: SessionId, states: seq<System>, events: seq<Event>,
                        n: nat, client: nat)
    requires Steps(config, id, states, events) && n <= |events| && |events| + 1 < U64_MAX
    requires client in states[n].receivers && !states[n].receivers[client].lagged
    ensures var s := states[n];
            var r := s.receivers[client];
            var live := Outputs(r.received + r.waiting);
            NoGaps(Seen(r)) &&
            (live != [] ==> Seen(r)[|Seen(r)| - 1] == Sent(s)) && (live == [] <==> Sent(s) == LiveFrom(r)) &&
            (Repeats(Seen(r)) <==> r.repeats && Outputs(r.replay) != [] && live != [])
  {
    hide Outputs, Numbers, Next, Enabled, LogGood, Seen;
    var a := ReattachLosesNothing(config, id, states, events, n, client);
    var s := states[n];
    var r := s.receivers[client];
    SeenNumbers(id, r, s.log, a, Sent(s));
    RangesJoin(Seen(r), a, r.joined, LiveFrom(r), Sent(s));
  }

  /** A browser first receives the last output of its replay if that was in flight, and the next one otherwise. */
  lemma RepeatOnlyInFlight(config: Config, id: SessionId, states: seq<System>, events: seq<Event>,
                           n: nat, client: nat)
    requires Steps(config, id, states, events) && n <= |events| && |events| + 1 < U64_MAX
    requires client in states[n].receivers && !states[n].receivers[client].lagged
    ensures var s := states[n];
            var r := s.receivers[client];
            var held, live := Outputs(r.replay), Outputs(r.received + r.waiting);
            (live != [] ==> live[0].sequence == if r.repeats then r.joined else r.joined + 1) &&
            (held != [] ==> held[|held| - 1].sequence == r.joined) &&
            (held != [] && live != [] ==> (held[|held| - 1] == live[0] <==> r.repeats))
  {
    hide Outputs, Next, Enabled;
    var a := ReattachLosesNothing(config, id, states, events, n, client);
    var s := states[n];
    var r := s.receivers[client];
    assert Outputs(r.received + r.waiting) != [] ==> Outputs(r.received + r.waiting)[0] == s.log[LiveFrom(r)];
    assert Outputs(r.replay) != [] ==> Outputs(r.replay)[|Outputs(r.replay)| - 1] == s.log[r.joined - 1];
  }
}
