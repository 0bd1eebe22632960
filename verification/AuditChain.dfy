/**
 * The hash chain of the audit log: which events a hash covers, and what the
 * last hash of a verified log commits to. SHA-256 is a function on strings
 * about which nothing is assumed but, where stated, that it shows no collision
 * on the strings at hand.
 */
module AuditChain {
  import opened Wrappers
  import opened Hex
  import D = Decimal

  function Zeros(n: nat): (d: seq<byte>)
    ensures |d| == n && forall i | 0 <= i < n :: d[i] == 0
  {
    if n == 0 then [] else Zeros(n - 1) + [0]
  }

  type Digest = d: seq<byte> | |d| == 32 witness Zeros(32)

  datatype AuditEventKind =
    | UserLoginSuccess | UserLoginFailed | UserLogout | UserMfaChallenge | UserMfaSuccess
    | TerminalOpened | TerminalDetached | TerminalReattached | TerminalTerminated | TerminalClosed | TerminalFailed
    | AgentTransportNegotiated | AgentConnected | AgentDisconnected | AgentAuthenticationFailed
    | NodeEnrolled | NodeCredentialRotated | NodeRevoked
    | RouteSelected | RouteFailed
  {
    function Name(): string {
      match this
      case UserLoginSuccess => "user.login.success"
      case UserLoginFailed => "user.login.failed"
      case UserLogout => "user.logout"
      case UserMfaChallenge => "user.mfa.challenge"
      case UserMfaSuccess => "user.mfa.success"
      case TerminalOpened => "terminal.opened"
      case TerminalDetached => "terminal.detached"
      case TerminalReattached => "terminal.reattached"
      case TerminalTerminated => "terminal.terminated"
      case TerminalClosed => "terminal.closed"
      case TerminalFailed => "terminal.failed"
      case AgentTransportNegotiated => "agent.transport.negotiated"
      case AgentConnected => "agent.connected"
      case AgentDisconnected => "agent.disconnected"
      case AgentAuthenticationFailed => "agent.authentication.failed"
      case NodeEnrolled => "node.enrolled"
      case NodeCredentialRotated => "node.credential.rotated"
      case NodeRevoked => "node.revoked"
      case RouteSelected => "route.selected"
      case RouteFailed => "route.failed"
    }
  }

  datatype AuditEvent = AuditEvent(
    id: nat,
    kind: AuditEventKind,
    actorEmail: Option<string>,
    message: string,
    createdAt: nat,
    previousHash: string,
    eventHash: string)

  /** Sixty-four zeros: the previous hash of the first event. */
  const GENESIS_HASH: string := Encode(Zeros(32))

  /** An absent actor is written as an empty one. */
  function ActorText(actor: Option<string>): string {
    match actor
    case None => ""
    case Some(a) => a
  }

  /** The string that is hashed: the fields, joined by colons. */
  function Canonical(id: nat, kind: string, actor: string, message: string, createdAt: nat,
                     previousHash: string): string
  {
    previousHash + ":" + D.Print(id) + ":" + kind + ":" + actor + ":" + message + ":" + D.Print(createdAt)
  }

  function CanonicalOf(e: AuditEvent): string {
    Canonical(e.id, e.kind.Name(), ActorText(e.actorEmail), e.message, e.createdAt, e.previousHash)
  }

  function EventHash(sha: string -> Digest, e: AuditEvent): string {
    Encode(sha(CanonicalOf(e)))
  }

  /** The hexadecimal form of a digest, two characters a byte. */
  method HexSha256(digest: Digest) returns (out: string)
    ensures out == Encode(digest)
  {
    hide Encode, HexByte;
    out := "";
    EncodeNothing();
    for n := 0 to |digest|
      invariant out == Encode(digest[..n])
    {
      EncodeAppend(digest[..n], digest[n]);
      assert digest[..n] + [digest[n]] == digest[..n + 1];
      HexByteDigits(digest[n]);
      out := out + [Digit(digest[n] / 16)];
      out := out + [Digit(digest[n] % 16)];
    }
    assert digest[..|digest|] == digest;
  }

  // ---------------------------------------------------------- unique readability

  predicate ColonFree(s: string) {
    forall i | 0 <= i < |s| :: s[i] != ':'
  }

  /** The first colon ends a colon-free first field. */
  lemma FirstField(a: string, x: string, b: string, y: string)
    requires ColonFree(a) && ColonFree(b)
    requires a + (":" + x) == b + (":" + y)
    ensures a == b && x == y
  {
    var s, t := a + (":" + x), b + (":" + y);
    assert s[|a|] == ':' && t[|b|] == ':';
    assert forall i | 0 <= i < |a| :: s[i] == a[i];
    assert forall i | 0 <= i < |b| :: t[i] == b[i];
    assert |a| == |b|;
    assert a == s[..|a|] && b == t[..|b|];
    assert x == s[|a| + 1..] && y == t[|b| + 1..];
  }

  /** The last colon begins a colon-free last field. */
  lemma LastField(x: string, a: string, y: string, b: string)
    requires ColonFree(a) && ColonFree(b)
    requires x + (":" + a) == y + (":" + b)
    ensures x == y && a == b
  {
    var s, t := x + (":" + a), y + (":" + b);
    assert s[|x|] == ':' && t[|y|] == ':';
    assert forall i | |x| < i < |s| :: s[i] == a[i - |x| - 1];
    assert forall i | |y| < i < |t| :: t[i] == b[i - |y| - 1];
    assert |x| == |y|;
    assert x == s[..|x|] && y == t[..|y|];
    assert a == s[|x| + 1..] && b == t[|y| + 1..];
  }

  lemma {:induction false} PrintColonFree(n: nat)
    ensures ColonFree(D.Print(n))
  {
    hide D.Print;
  }

  lemma Regroup(prev: string, id: string, kind: string, middle: string, time: string)
    ensures prev + ":" + id + ":" + kind + ":" + middle + ":" + time
         == prev + (":" + (id + (":" + (kind + (":" + (middle + (":" + time)))))))
  {
  }

  lemma Middle(prev: string, id: string, kind: string, actor: string, message: string, time: string)
    ensures prev + ":" + id + ":" + kind + ":" + actor + ":" + message + ":" + time
         == prev + ":" + id + ":" + kind + ":" + (actor + ":" + message) + ":" + time
  {
  }

  /**
   * Two canonical strings are equal exactly when the previous hash, id, kind
   * and time agree and actor, colon and message read the same together. The
   * message may hold any number of colons.
   */
  lemma CanonicalReadable(
    id: nat, kind: string, actor: string, message: string, time: nat, prev: string,
    id': nat, kind': string, actor': string, message': string, time': nat, prev': string)
    requires ColonFree(prev) && ColonFree(prev') && ColonFree(kind) && ColonFree(kind')
    ensures Canonical(id, kind, actor, message, time, prev) == Canonical(id', kind', actor', message', time', prev')
       <==> prev == prev' && id == id' && kind == kind' && time == time' &&
            actor + ":" + message == actor' + ":" + message'
  {
    hide D.Print;
    var i, i', t, t' := D.Print(id), D.Print(id'), D.Print(time), D.Print(time');
    var m, m' := actor + ":" + message, actor' + ":" + message';
    Middle(prev, i, kind, actor, message, t);
    Middle(prev', i', kind', actor', message', t');
    Regroup(prev, i, kind, m, t);
    Regroup(prev', i', kind', m', t');
    PrintColonFree(id);
    PrintColonFree(id');
    PrintColonFree(time);
    PrintColonFree(time');
    if Canonical(id, kind, actor, message, time, prev) == Canonical(id', kind', actor', message', time', prev') {
      FirstField(prev, i + (":" + (kind + (":" + (m + (":" + t))))),
                 prev', i' + (":" + (kind' + (":" + (m' + (":" + t'))))));
      FirstField(i, kind + (":" + (m + (":" + t))), i', kind' + (":" + (m' + (":" + t'))));
      FirstField(kind, m + (":" + t), kind', m' + (":" + t'));
      LastField(m, t, m', t');
      D.PrintInjective(id, id');
      D.PrintInjective(time, time');
    }
  }

  /** With colon-free actors the actor and the message are read back too. */
  lemma ActorAndMessageReadable(actor: string, message: string, actor': string, message': string)
    requires ColonFree(actor) && ColonFree(actor')
    ensures actor + ":" + message == actor' + ":" + message' <==> actor == actor' && message == message'
  {
    if actor + ":" + message == actor' + ":" + message' {
      assert actor + ":" + message == actor + (":" + message);
      assert actor' + ":" + message' == actor' + (":" + message');
      FirstField(actor, message, actor', message');
    }
  }

  /** The hashed string is uniquely readable when the previous hash, the kind and the actor hold no colon. */
  lemma CanonicalUniquelyReadable(
    id: nat, kind: string, actor: string, message: string, time: nat, prev: string,
    id': nat, kind': string, actor': string, message': string, time': nat, prev': string)
    requires ColonFree(prev) && ColonFree(prev') && ColonFree(kind) && ColonFree(kind')
    requires ColonFree(actor) && ColonFree(actor')
    requires Canonical(id, kind, actor, message, time, prev) == Canonical(id', kind', actor', message', time', prev')
    ensures prev == prev' && id == id' && kind == kind' && actor == actor' && message == message' && time == time'
  {
    hide ColonFree, Canonical;
    CanonicalReadable(id, kind, actor, message, time, prev, id', kind', actor', message', time', prev');
    ActorAndMessageReadable(actor, message, actor', message');
  }

  // ------------------------------------------------------------------- kind names

  lemma LongNameWithoutColon(kind: AuditEventKind)
    requires kind.TerminalOpened? || kind.TerminalDetached? || kind.TerminalReattached? || kind.TerminalTerminated? ||
             kind.TerminalClosed? || kind.TerminalFailed? || kind.AgentTransportNegotiated? || kind.AgentConnected? ||
             kind.AgentDisconnected? || kind.AgentAuthenticationFailed?
    ensures ':' !in kind.Name()
  {
    match kind
    case TerminalOpened =>
    case TerminalDetached =>
    case TerminalReattached =>
    case TerminalTerminated =>
    case TerminalClosed =>
    case TerminalFailed =>
    case AgentTransportNegotiated =>
    case AgentConnected =>
    case AgentDisconnected =>
    case AgentAuthenticationFailed =>
  }

  lemma NameWithoutColon(kind: AuditEventKind)
    ensures ':' !in kind.Name()
  {
    match kind
    case UserLoginSuccess =>
    case UserLoginFailed =>
    case UserLogout =>
    case UserMfaChallenge =>
    case UserMfaSuccess =>
    case NodeEnrolled =>
    case NodeCredentialRotated =>
    case NodeRevoked =>
    case RouteSelected =>
    case RouteFailed =>
    case _ => LongNameWithoutColon(kind);
  }

  lemma NameColonFree(kind: AuditEventKind)
    ensures ColonFree(kind.Name())
  {
    NameWithoutColon(kind);
  }

  /** Which kind a name stands for, told from its length and two of its letters. */
  function KindNamed(name: string): Option<AuditEventKind> {
    if |name| < 10 then None
    else if name[0] == 'u' then
      (if name[5] == 'l' then
         (if |name| == 11 then Some(UserLogout)
          else if |name| == 18 then Some(UserLoginSuccess)
          else Some(UserLoginFailed))
       else if |name| == 18 then Some(UserMfaChallenge) else Some(UserMfaSuccess))
    else if name[0] == 't' then
      (if |name| == 17 then Some(TerminalDetached)
       else if |name| == 19 then (if name[9] == 'r' then Some(TerminalReattached) else Some(TerminalTerminated))
       else if name[9] == 'o' then Some(TerminalOpened)
       else if name[9] == 'c' then Some(TerminalClosed)
       else if name[9] == 'r' then Some(TerminalReattached)
       else Some(TerminalFailed))
    else if name[0] == 'a' then
      (if |name| == 26 then Some(AgentTransportNegotiated)
       else if |name| == 15 then Some(AgentConnected)
       else if |name| == 18 then Some(AgentDisconnected)
       else Some(AgentAuthenticationFailed))
    else if name[0] == 'n' then
      (if |name| == 13 then Some(NodeEnrolled)
       else if |name| == 23 then Some(NodeCredentialRotated)
       else Some(NodeRevoked))
    else if |name| == 14 then Some(RouteSelected)
    else Some(RouteFailed)
  }

  lemma NameDetermines(kind: AuditEventKind)
    ensures KindNamed(kind.Name()) == Some(kind)
  {
  }

  lemma NameInjective(a: AuditEventKind, b: AuditEventKind)
    requires a.Name() == b.Name()
    ensures a == b
  {
    NameDetermines(a);
    NameDetermines(b);
  }

  // ------------------------------------------------------------------------ chains

  /** The hash a new event would be linked to. */
  function LastHash(events: seq<AuditEvent>): string {
    if events == [] then GENESIS_HASH else events[|events| - 1].eventHash
  }

  /** Event `i` is linked to the one before it and carries the hash of its own fields. */
  predicate Linked(sha: string -> Digest, events: seq<AuditEvent>, i: nat)
    requires i < |events|
  {
    events[i].previousHash == LastHash(events[..i]) && events[i].eventHash == EventHash(sha, events[i])
  }

  predicate Intact(sha: string -> Digest, events: seq<AuditEvent>) {
    forall i: nat | i < |events| :: Linked(sha, events, i)
  }

  lemma LastHashSteps(events: seq<AuditEvent>, n: nat)
    requires n <= |events|
    ensures LastHash(events[..n]) == if n == 0 then GENESIS_HASH else events[n - 1].eventHash
  {
    hide Encode, Zeros;
  }

  lemma LinkedWhen(sha: string -> Digest, events: seq<AuditEvent>, i: nat)
    requires i < |events|
    ensures Linked(sha, events, i) <==>
            events[i].previousHash == LastHash(events[..i]) && events[i].eventHash == EventHash(sha, events[i])
  {
    hide LastHash, EventHash;
  }

  method VerifyChain(sha: string -> Digest, events: seq<AuditEvent>) returns (intact: bool)
    ensures intact <==> Intact(sha, events)
  {
    hide LastHash, EventHash, Linked;
    var expectedPrevious := GENESIS_HASH;
    LastHashSteps(events, 0);
    for n := 0 to |events|
      invariant expectedPrevious == LastHash(events[..n])
      invariant forall i: nat | i < n :: Linked(sha, events, i)
    {
      var event := events[n];
      LinkedWhen(sha, events, n);
      if event.previousHash != expectedPrevious {
        return false;
      }
      if event.eventHash != EventHash(sha, event) {
        return false;
      }
      expectedPrevious := event.eventHash;
      LastHashSteps(events, n + 1);
    }
    return true;
  }

  /** The hash shows no collision between the two logs, and never yields the genesis value. */
  ghost predicate NoCollision(sha: string -> Digest, a: seq<AuditEvent>, b: seq<AuditEvent>) {
    (forall i, j | 0 <= i < |a| && 0 <= j < |b| ::
       sha(CanonicalOf(a[i])) == sha(CanonicalOf(b[j])) ==> CanonicalOf(a[i]) == CanonicalOf(b[j])) &&
    (forall i | 0 <= i < |a| :: EventHash(sha, a[i]) != GENESIS_HASH) &&
    (forall j | 0 <= j < |b| :: EventHash(sha, b[j]) != GENESIS_HASH)
  }

  /** The same event, up to where the actor ends and the message begins. */
  predicate SameContent(x: AuditEvent, y: AuditEvent) {
    x.id == y.id && x.kind == y.kind && x.createdAt == y.createdAt &&
    x.previousHash == y.previousHash && x.eventHash == y.eventHash &&
    ActorText(x.actorEmail) + ":" + x.message == ActorText(y.actorEmail) + ":" + y.message
  }

  /** The same event, with an absent actor and an empty one identified. */
  predicate SameEvent(x: AuditEvent, y: AuditEvent) {
    x.id == y.id && x.kind == y.kind && x.createdAt == y.createdAt &&
    x.previousHash == y.previousHash && x.eventHash == y.eventHash &&
    ActorText(x.actorEmail) == ActorText(y.actorEmail) && x.message == y.message
  }

  lemma HashColonFree(sha: string -> Digest, events: seq<AuditEvent>)
    requires Intact(sha, events)
    ensures ColonFree(LastHash(events))
  {
    hide Encode;
    if events != [] {
      var e := events[|events| - 1];
      assert Linked(sha, events, |events| - 1);
      assert e.eventHash == Encode(sha(CanonicalOf(e)));
    }
  }

  lemma SameHashSameContent(sha: string -> Digest, x: AuditEvent, y: AuditEvent)
    requires x.eventHash == y.eventHash == EventHash(sha, x) == EventHash(sha, y)
    requires ColonFree(x.previousHash) && ColonFree(y.previousHash)
    requires sha(CanonicalOf(x)) == sha(CanonicalOf(y)) ==> CanonicalOf(x) == CanonicalOf(y)
    ensures SameContent(x, y)
  {
    hide Encode, Canonical;
    EncodeInjective(sha(CanonicalOf(x)), sha(CanonicalOf(y)));
    NameColonFree(x.kind);
    NameColonFree(y.kind);
    CanonicalReadable(x.id, x.kind.Name(), ActorText(x.actorEmail), x.message, x.createdAt, x.previousHash,
                      y.id, y.kind.Name(), ActorText(y.actorEmail), y.message, y.createdAt, y.previousHash);
    NameInjective(x.kind, y.kind);
  }

  lemma IntactPrefix(sha: string -> Digest, events: seq<AuditEvent>, n: nat)
    requires Intact(sha, events) && n <= |events|
    ensures Intact(sha, events[..n])
  {
    hide LastHash, EventHash;
    forall i: nat | i < n ensures Linked(sha, events[..n], i) {
      assert events[..n][..i] == events[..i];
      assert Linked(sha, events, i);
    }
  }

  lemma IntactAfter(sha: string -> Digest, events: seq<AuditEvent>, e: AuditEvent)
    requires Intact(sha, events) && e.previousHash == LastHash(events) && e.eventHash == EventHash(sha, e)
    ensures Intact(sha, events + [e])
  {
    hide EventHash;
    var all := events + [e];
    forall i: nat | i < |all| ensures Linked(sha, all, i) {
      if i < |events| {
        assert Linked(sha, events, i);
        assert all[..i] == events[..i];
      } else {
        assert all[..i] == events;
      }
    }
  }

  /** The last event of an intact log: what it is linked to and what its hash is. */
  lemma LastLink(sha: string -> Digest, events: seq<AuditEvent>)
    requires Intact(sha, events) && events != []
    ensures var n := |events| - 1;
            events[n].previousHash == LastHash(events[..n]) && ColonFree(events[n].previousHash) &&
            Intact(sha, events[..n]) &&
            LastHash(events) == events[n].eventHash == EventHash(sha, events[n])
  {
    hide EventHash, ColonFree;
    var n := |events| - 1;
    assert Linked(sha, events, n);
    IntactPrefix(sha, events, n);
    HashColonFree(sha, events[..n]);
  }

  lemma NoCollisionPrefix(sha: string -> Digest, a: seq<AuditEvent>, b: seq<AuditEvent>, m: nat, n: nat)
    requires NoCollision(sha, a, b) && m <= |a| && n <= |b|
    ensures NoCollision(sha, a[..m], b[..n])
  {
    hide EventHash, CanonicalOf;
  }

  lemma NoCollisionAt(sha: string -> Digest, a: seq<AuditEvent>, b: seq<AuditEvent>, i: nat, j: nat)
    requires NoCollision(sha, a, b) && i < |a| && j < |b|
    ensures sha(CanonicalOf(a[i])) == sha(CanonicalOf(b[j])) ==> CanonicalOf(a[i]) == CanonicalOf(b[j])
  {
    hide EventHash, CanonicalOf;
  }

  lemma NeverGenesis(sha: string -> Digest, a: seq<AuditEvent>, b: seq<AuditEvent>)
    requires Intact(sha, a) && Intact(sha, b) && NoCollision(sha, a, b) && LastHash(a) == LastHash(b)
    ensures a == [] <==> b == []
  {
    hide EventHash, Encode, Zeros;
    assert a != [] ==> Linked(sha, a, |a| - 1);
    assert b != [] ==> Linked(sha, b, |b| - 1);
  }

  lemma SameContentLinks(x: AuditEvent, y: AuditEvent)
    requires SameContent(x, y)
    ensures x.previousHash == y.previousHash
  {
    hide ActorText;
  }

  /** The final hash of a verified log commits to its length and to every event in it. */
  lemma {:induction false} FinalHashCommits(sha: string -> Digest, a: seq<AuditEvent>, b: seq<AuditEvent>)
    requires Intact(sha, a) && Intact(sha, b) && NoCollision(sha, a, b)
    requires LastHash(a) == LastHash(b)
    ensures |a| == |b| && forall i | 0 <= i < |a| :: SameContent(a[i], b[i])
    decreases |a|
  {
    hide *;
    NeverGenesis(sha, a, b);
    if a != [] && b != [] {
      var m, n := |a| - 1, |b| - 1;
      LastLink(sha, a);
      LastLink(sha, b);
      NoCollisionAt(sha, a, b, m, n);
      SameHashSameContent(sha, a[m], b[n]);
      NoCollisionPrefix(sha, a, b, m, n);
      SameContentLinks(a[m], b[n]);
      FinalHashCommits(sha, a[..m], b[..n]);
      forall i | 0 <= i < |a| ensures SameContent(a[i], b[i]) {
        assert i < m ==> a[i] == a[..m][i] && b[i] == b[..n][i];
      }
    }
  }

  /** When no actor holds a colon, the final hash commits to the events themselves. */
  lemma FinalHashCommitsToEvents(sha: string -> Digest, a: seq<AuditEvent>, b: seq<AuditEvent>)
    requires Intact(sha, a) && Intact(sha, b) && NoCollision(sha, a, b)
    requires LastHash(a) == LastHash(b)
    requires forall i | 0 <= i < |a| :: ColonFree(ActorText(a[i].actorEmail))
    requires forall i | 0 <= i < |b| :: ColonFree(ActorText(b[i].actorEmail))
    ensures |a| == |b| && forall i | 0 <= i < |a| :: SameEvent(a[i], b[i])
  {
    hide Intact, NoCollision, LastHash;
    FinalHashCommits(sha, a, b);
    forall i | 0 <= i < |a| ensures SameEvent(a[i], b[i]) {
      assert SameContent(a[i], b[i]);
      ActorAndMessageReadable(ActorText(a[i].actorEmail), a[i].message, ActorText(b[i].actorEmail), b[i].message);
    }
  }

  // ------------------------------------------------------------------------ layout

  /** The first event is linked to sixty-four zeros. */
  lemma GenesisIsZeros()
    ensures |GENESIS_HASH| == 64 && forall i | 0 <= i < 64 :: GENESIS_HASH[i] == '0'
  {
    var zeros := Zeros(32);
    hide Zeros, Encode;
    forall i | 0 <= i < 64 ensures GENESIS_HASH[i] == '0' {
      EncodedDigits(zeros, i / 2);
      assert i == 2 * (i / 2) || i == 2 * (i / 2) + 1;
    }
  }

  lemma TwelveAndMore()
    ensures D.Print(12) == "12" && D.Print(345) == "345"
  {
    assert D.Print(1) == "1" && D.Print(3) == "3" && D.Print(34) == "34";
  }

  /** What is hashed for an event, to the last byte. */
  lemma CanonicalLayout(previous: string, actor: string, message: string, hash: string)
    ensures CanonicalOf(AuditEvent(12, UserLoginSuccess, Some(actor), message, 345, previous, hash))
         == previous + ":" + "12" + ":" + "user.login.success" + ":" + actor + ":" + message + ":" + "345"
    ensures CanonicalOf(AuditEvent(12, RouteFailed, None, message, 345, previous, hash))
         == previous + ":" + "12" + ":" + "route.failed" + ":" + "" + ":" + message + ":" + "345"
  {
    TwelveAndMore();
    hide D.Print;
  }

  predicate SixtyFourZeros(s: string) {
    |s| == 64 && forall i | 0 <= i < 64 :: s[i] == '0'
  }

  /** The first event follows zeros and each other one the hash before it, and each carries the hash of its fields. */
  predicate Chains(sha: string -> Digest, events: seq<AuditEvent>, i: nat)
    requires i < |events|
  {
    var e := events[i];
    (if i == 0 then SixtyFourZeros(e.previousHash) else e.previousHash == events[i - 1].eventHash) &&
    e.eventHash == Encode(sha(e.previousHash + ":" + D.Print(e.id) + ":" + e.kind.Name() + ":" +
                              (if e.actorEmail.Some? then e.actorEmail.value else "") + ":" + e.message + ":" +
                              D.Print(e.createdAt)))
  }

  lemma ChainsWhenLinked(sha: string -> Digest, events: seq<AuditEvent>, i: nat)
    requires i < |events|
    ensures Linked(sha, events, i) <==> Chains(sha, events, i)
  {
    hide LastHash, Encode, D.Print, AuditEventKind.Name;
    GenesisIsZeros();
    LastHashSteps(events, i);
    var previous := events[i].previousHash;
    if i == 0 && SixtyFourZeros(previous) {
      assert previous == GENESIS_HASH;
    }
  }

  /** What makes a log intact, written out. */
  lemma IntactExactlyWhen(sha: string -> Digest, events: seq<AuditEvent>)
    ensures Intact(sha, events) <==> forall i: nat | i < |events| :: Chains(sha, events, i)
  {
    hide Linked, Chains;
    forall i: nat | i < |events| ensures Linked(sha, events, i) <==> Chains(sha, events, i) {
      ChainsWhenLinked(sha, events, i);
    }
  }

  /** The names as they stand in the hashed strings, by subject. */
  lemma NameSpelled(kind: AuditEventKind)
    ensures match kind
            case UserLoginSuccess => kind.Name() == "user.login.success"
            case UserLoginFailed => kind.Name() == "user.login.failed"
            case UserLogout => kind.Name() == "user.logout"
            case UserMfaChallenge => kind.Name() == "user.mfa.challenge"
            case UserMfaSuccess => kind.Name() == "user.mfa.success"
            case TerminalOpened => kind.Name() == "terminal.opened"
            case TerminalDetached => kind.Name() == "terminal.detached"
            case TerminalReattached => kind.Name() == "terminal.reattached"
            case TerminalTerminated => kind.Name() == "terminal.terminated"
            case TerminalClosed => kind.Name() == "terminal.closed"
            case TerminalFailed => kind.Name() == "terminal.failed"
            case AgentTransportNegotiated => kind.Name() == "agent.transport.negotiated"
            case AgentConnected => kind.Name() == "agent.connected"
            case AgentDisconnected => kind.Name() == "agent.disconnected"
            case AgentAuthenticationFailed => kind.Name() == "agent.authentication.failed"
            case NodeEnrolled => kind.Name() == "node.enrolled"
            case NodeCredentialRotated => kind.Name() == "node.credential.rotated"
            case NodeRevoked => kind.Name() == "node.revoked"
            case RouteSelected => kind.Name() == "route.selected"
            case RouteFailed => kind.Name() == "route.failed"
  {
  }
}
