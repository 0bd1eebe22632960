/**
 * Which changes of a log `verify_chain` notices: an altered event, removed
 * events, an inserted event.
 */
module AuditTampering {
  import opened AuditChain
  import opened Wrappers

  // ------------------------------------------------------------------- altered events

  lemma AlteredLink(sha: string -> Digest, events: seq<AuditEvent>, i: nat, e: AuditEvent, k: nat)
    requires Intact(sha, events) && i < |events| && k < |events|
    ensures Linked(sha, events[i := e], k) <==>
            if k == i then e.previousHash == events[i].previousHash && e.eventHash == EventHash(sha, e)
            else k == i + 1 ==> e.eventHash == events[i].eventHash
  {
    assert Linked(sha, events, k);
    hide Linked, EventHash, LastHash;
    LinkedWhen(sha, events, k);
    LinkedWhen(sha, events[i := e], k);
    LastHashSteps(events, k);
    LastHashSteps(events[i := e], k);
  }

  /** An altered event is accepted if it is linked and sealed and its successor is linked to it. */
  lemma AlteredIntact(sha: string -> Digest, events: seq<AuditEvent>, i: nat, e: AuditEvent)
    requires Intact(sha, events) && i < |events|
    ensures Intact(sha, events[i := e]) <==>
            e.previousHash == events[i].previousHash && e.eventHash == EventHash(sha, e) &&
            (i + 1 < |events| ==> e.eventHash == events[i].eventHash)
  {
    hide Linked, EventHash;
    var altered := events[i := e];
    forall k: nat | k < |events|
      ensures Linked(sha, altered, k) <==>
              if k == i then e.previousHash == events[i].previousHash && e.eventHash == EventHash(sha, e)
              else k == i + 1 ==> e.eventHash == events[i].eventHash
    {
      AlteredLink(sha, events, i, e, k);
    }
    assert Linked(sha, altered, i) <==> e.previousHash == events[i].previousHash && e.eventHash == EventHash(sha, e);
    assert i + 1 < |events| ==> (Linked(sha, altered, i + 1) <==> e.eventHash == events[i].eventHash);
  }

  lemma PreviousColonFree(sha: string -> Digest, events: seq<AuditEvent>, i: nat)
    requires Intact(sha, events) && i < |events|
    ensures ColonFree(events[i].previousHash) && events[i].eventHash == EventHash(sha, events[i])
  {
    hide LastHash, EventHash, ColonFree;
    assert Linked(sha, events, i);
    IntactPrefix(sha, events, i);
    HashColonFree(sha, events[..i]);
  }

  lemma SameContentSameHash(sha: string -> Digest, x: AuditEvent, y: AuditEvent)
    requires SameContent(x, y) && ColonFree(x.previousHash)
    ensures EventHash(sha, x) == EventHash(sha, y)
  {
    hide Canonical, ColonFree;
    NameColonFree(x.kind);
    CanonicalReadable(x.id, x.kind.Name(), ActorText(x.actorEmail), x.message, x.createdAt, x.previousHash,
                      y.id, y.kind.Name(), ActorText(y.actorEmail), y.message, y.createdAt, y.previousHash);
  }

  /** The canonical strings of the two events do not collide. */
  ghost predicate NoClash(sha: string -> Digest, x: AuditEvent, y: AuditEvent) {
    sha(CanonicalOf(x)) == sha(CanonicalOf(y)) ==> CanonicalOf(x) == CanonicalOf(y)
  }

  /**
   * An altered event is accepted exactly when it has the same content, up to
   * where actor and message meet, or is the last one and has been sealed anew.
   */
  lemma AlteredAcceptedExactlyWhen(sha: string -> Digest, events: seq<AuditEvent>, i: nat, e: AuditEvent)
    requires Intact(sha, events) && i < |events|
    requires NoClash(sha, events[i], e)
    ensures Intact(sha, events[i := e]) <==>
            SameContent(events[i], e) ||
            (i == |events| - 1 && e.previousHash == events[i].previousHash && e.eventHash == EventHash(sha, e))
  {
    hide Intact, EventHash, CanonicalOf, ColonFree, ActorText;
    AlteredIntact(sha, events, i, e);
    PreviousColonFree(sha, events, i);
    if SameContent(events[i], e) {
      SameContentSameHash(sha, events[i], e);
    } else if Intact(sha, events[i := e]) && i + 1 < |events| {
      SameHashSameContent(sha, events[i], e);
    }
  }

  /** The actor is empty, or the actor or the message holds a colon. */
  predicate Malleable(e: AuditEvent) {
    ActorText(e.actorEmail) == "" || !ColonFree(ActorText(e.actorEmail)) || !ColonFree(e.message)
  }

  lemma OneColon(a: string, m: string, b: string, n: string)
    requires ColonFree(a) && ColonFree(m) && a + ":" + m == b + ":" + n
    ensures a == b && m == n
  {
    var s := a + ":" + m;
    assert s[|a|] == ':' && (b + ":" + n)[|b|] == ':';
    forall k | 0 <= k < |s| && k != |a| ensures s[k] != ':' {
      assert k < |a| ==> s[k] == a[k];
      assert k > |a| ==> s[k] == m[k - |a| - 1];
    }
    assert |a| == |b|;
    assert a == s[..|a|] && b == (b + ":" + n)[..|b|];
    assert m == s[|a| + 1..] && n == (b + ":" + n)[|b| + 1..];
  }

  /** An event that is not malleable shares its content with no other. */
  lemma OnlyMalleableShares(x: AuditEvent, e: AuditEvent)
    requires SameContent(x, e) && !Malleable(x)
    ensures e == x
  {
    hide ColonFree;
    OneColon(ActorText(x.actorEmail), x.message, ActorText(e.actorEmail), e.message);
  }

  /** A text with a colon, cut there. */
  lemma CutAtColon(s: string) returns (a: string, b: string)
    requires !ColonFree(s)
    ensures s == a + ":" + b
  {
    var k :| 0 <= k < |s| && s[k] == ':';
    a, b := s[..k], s[k + 1..];
  }

  lemma MoveColon(a: string, b: string, c: string)
    ensures a + ":" + (b + ":" + c) == (a + ":" + b) + ":" + c
  {
  }

  /** A malleable event shares its content with another one. */
  lemma MalleableShares(x: AuditEvent) returns (e: AuditEvent)
    requires Malleable(x)
    ensures e != x && SameContent(x, e)
  {
    hide ColonFree;
    if x.actorEmail == None {
      e := x.(actorEmail := Some(""));
    } else if x.actorEmail == Some("") {
      e := x.(actorEmail := None);
    } else if !ColonFree(x.message) {
      var b, c := CutAtColon(x.message);
      MoveColon(x.actorEmail.value, b, c);
      e := x.(actorEmail := Some(x.actorEmail.value + ":" + b), message := c);
      assert |c| < |x.message|;
    } else {
      var a, b := CutAtColon(x.actorEmail.value);
      MoveColon(a, b, x.message);
      e := x.(actorEmail := Some(a), message := b + ":" + x.message);
      assert |e.message| > |x.message|;
    }
  }

  predicate SameFields(x: AuditEvent, y: AuditEvent) {
    x.id == y.id && x.kind == y.kind && x.actorEmail == y.actorEmail && x.message == y.message &&
    x.createdAt == y.createdAt
  }

  /** The same fields, linked to a hash and with the hash of its own fields. */
  function Sealed(sha: string -> Digest, e: AuditEvent, previousHash: string): AuditEvent {
    var unsealed := e.(previousHash := previousHash);
    unsealed.(eventHash := EventHash(sha, unsealed))
  }

  lemma SealedIsSealed(sha: string -> Digest, e: AuditEvent, previousHash: string)
    ensures var r := Sealed(sha, e, previousHash);
            SameFields(e, r) && r.previousHash == previousHash && r.eventHash == EventHash(sha, r)
  {
    var unsealed := e.(previousHash := previousHash);
    assert CanonicalOf(Sealed(sha, e, previousHash)) == CanonicalOf(unsealed);
  }

  /** The log is still accepted with `e` in place of event `i`. */
  predicate Accepted(sha: string -> Digest, events: seq<AuditEvent>, i: nat, e: AuditEvent)
    requires i < |events|
  {
    Intact(sha, events[i := e])
  }

  lemma SameContentSameLinks(x: AuditEvent, y: AuditEvent)
    requires SameContent(x, y)
    ensures x.previousHash == y.previousHash && x.eventHash == y.eventHash
  {
  }

  /** Another event in the same place, with the hash of its own fields. */
  lemma SealedAnew(sha: string -> Digest, x: AuditEvent) returns (e: AuditEvent)
    ensures e != x && e.previousHash == x.previousHash && e.eventHash == EventHash(sha, e)
  {
    hide EventHash;
    SealedIsSealed(sha, x.(message := x.message + "."), x.previousHash);
    e := Sealed(sha, x.(message := x.message + "."), x.previousHash);
  }

  /**
   * If an event is not the last one and not malleable, every alteration of it
   * that does not collide with it is noticed; and otherwise there is one that
   * is accepted, whatever the hash.
   */
  lemma {:induction false} AlterationNoticedExactlyWhen(sha: string -> Digest, events: seq<AuditEvent>, i: nat)
    requires Intact(sha, events) && i < |events|
    ensures i < |events| - 1 && !Malleable(events[i]) ==>
              forall e | e != events[i] && NoClash(sha, events[i], e) :: !Accepted(sha, events, i, e)
    ensures i == |events| - 1 || Malleable(events[i]) ==>
              exists e :: e != events[i] && Accepted(sha, events, i, e)
  {
    hide Intact, EventHash, CanonicalOf, SameContent, Malleable, ColonFree;
    if Malleable(events[i]) {
      var e := MalleableShares(events[i]);
      PreviousColonFree(sha, events, i);
      SameContentSameHash(sha, events[i], e);
      SameContentSameLinks(events[i], e);
      AlteredIntact(sha, events, i, e);
      assert Accepted(sha, events, i, e);
    } else if i == |events| - 1 {
      var e := SealedAnew(sha, events[i]);
      AlteredIntact(sha, events, i, e);
      assert Accepted(sha, events, i, e);
    } else {
      forall e | e != events[i] && NoClash(sha, events[i], e) ensures !Accepted(sha, events, i, e) {
        AlteredAcceptedExactlyWhen(sha, events, i, e);
        if SameContent(events[i], e) {
          OnlyMalleableShares(events[i], e);
        }
      }
    }
  }

  /** A colon moves from the message into the actor, and the altered log is accepted. */
  lemma ColonInActorIsAmbiguous(sha: string -> Digest, events: seq<AuditEvent>, i: nat, a: string, b: string, c: string)
    requires Intact(sha, events) && i < |events|
    requires events[i].actorEmail == Some(a) && events[i].message == b + ":" + c
    ensures var e := events[i].(actorEmail := Some(a + ":" + b), message := c);
            e != events[i] && Intact(sha, events[i := e])
  {
    var e := events[i].(actorEmail := Some(a + ":" + b), message := c);
    MoveColon(a, b, c);
    assert |e.message| < |events[i].message|;
    hide Intact, ColonFree, EventHash;
    PreviousColonFree(sha, events, i);
    SameContentSameHash(sha, events[i], e);
    AlteredIntact(sha, events, i, e);
  }

  /** An absent actor becomes an empty one, and the altered log is accepted although no actor holds a colon. */
  lemma AbsentActorIsAmbiguous(sha: string -> Digest, events: seq<AuditEvent>, i: nat)
    requires Intact(sha, events) && i < |events| && events[i].actorEmail == None
    ensures var e := events[i].(actorEmail := Some(""));
            e != events[i] && Intact(sha, events[i := e])
  {
    var e := events[i].(actorEmail := Some(""));
    hide Intact, ColonFree, EventHash;
    PreviousColonFree(sha, events, i);
    SameContentSameHash(sha, events[i], e);
    AlteredIntact(sha, events, i, e);
  }

  // --------------------------------------------------------- removed and inserted events

  /** The removal of events `i` up to `j` is noticed exactly when it leaves an event after them. */
  lemma RemovalNoticedExactlyWhen(sha: string -> Digest, events: seq<AuditEvent>, i: nat, j: nat)
    requires Intact(sha, events) && i < j <= |events| && NoCollision(sha, events, events)
    ensures !Intact(sha, events[..i] + events[j..]) <==> j < |events|
  {
    hide Linked, EventHash, NoCollision, LastHash;
    var rest := events[..i] + events[j..];
    IntactPrefix(sha, events, i);
    if j == |events| {
      assert rest == events[..i];
    } else if Intact(sha, rest) {
      assert Linked(sha, rest, i) && Linked(sha, events, j);
      LinkedWhen(sha, rest, i);
      LinkedWhen(sha, events, j);
      assert rest[..i] == events[..i] && rest[i] == events[j];
      IntactPrefix(sha, events, j);
      NoCollisionPrefix(sha, events, events, i, j);
      FinalHashCommits(sha, events[..i], events[..j]);
    }
  }

  /** No event of an intact log has the hash of another one. */
  lemma HashesDiffer(sha: string -> Digest, events: seq<AuditEvent>, i: nat, j: nat)
    requires Intact(sha, events) && NoCollision(sha, events, events) && i < |events| && j < |events|
    requires events[i].eventHash == events[j].eventHash
    ensures i == j
  {
    hide Linked, EventHash, NoCollision, LastHash;
    IntactPrefix(sha, events, i + 1);
    IntactPrefix(sha, events, j + 1);
    LastHashSteps(events, i + 1);
    LastHashSteps(events, j + 1);
    NoCollisionPrefix(sha, events, events, i + 1, j + 1);
    FinalHashCommits(sha, events[..i + 1], events[..j + 1]);
  }

  lemma NoCollisionAmong(sha: string -> Digest, a: seq<AuditEvent>, b: seq<AuditEvent>, n: nat)
    requires NoCollision(sha, a, a) && n <= |a| && forall k | 0 <= k < |b| :: b[k] in a
    ensures NoCollision(sha, b, a[..n])
  {
    hide EventHash, CanonicalOf;
    forall i, j | 0 <= i < |b| && 0 <= j < n
      ensures sha(CanonicalOf(b[i])) == sha(CanonicalOf(a[..n][j])) ==> CanonicalOf(b[i]) == CanonicalOf(a[..n][j])
    {
      var k :| 0 <= k < |a| && a[k] == b[i];
    }
    forall i | 0 <= i < |b| ensures EventHash(sha, b[i]) != GENESIS_HASH {
      var k :| 0 <= k < |a| && a[k] == b[i];
    }
  }

  /**
   * Events of an intact log, taken in any order, any number of times or not at
   * all, are accepted exactly if they are the log or its beginning.
   */
  lemma RearrangedAcceptedExactlyWhen(sha: string -> Digest, a: seq<AuditEvent>, b: seq<AuditEvent>)
    requires Intact(sha, a) && NoCollision(sha, a, a) && forall k | 0 <= k < |b| :: b[k] in a
    ensures Intact(sha, b) <==> |b| <= |a| && b == a[..|b|]
  {
    hide Linked, EventHash, NoCollision, LastHash, SameContent;
    if |b| <= |a| && b == a[..|b|] {
      IntactPrefix(sha, a, |b|);
    } else if Intact(sha, b) && b != [] {
      var j :| 0 <= j < |a| && a[j] == b[|b| - 1];
      IntactPrefix(sha, a, j + 1);
      LastHashSteps(a, j + 1);
      LastHashSteps(b, |b|);
      assert b[..|b|] == b;
      NoCollisionAmong(sha, a, b, j + 1);
      FinalHashCommits(sha, b, a[..j + 1]);
      forall k | 0 <= k < |b| ensures b[k] == a[k] {
        var m :| 0 <= m < |a| && a[m] == b[k];
        assert SameContent(b[k], a[..j + 1][k]);
        SameContentSameLinks(b[k], a[k]);
        HashesDiffer(sha, a, m, k);
      }
    }
  }

  /** So a reordered log is accepted only if nothing has moved. */
  lemma ReorderingNoticed(sha: string -> Digest, a: seq<AuditEvent>, b: seq<AuditEvent>)
    requires Intact(sha, a) && NoCollision(sha, a, a) && multiset(a) == multiset(b)
    ensures Intact(sha, b) <==> b == a
  {
    hide Intact, NoCollision;
    assert |multiset(a)| == |a| && |multiset(b)| == |b|;
    forall k | 0 <= k < |b| ensures b[k] in a {
      assert b[k] in multiset(b);
    }
    RearrangedAcceptedExactlyWhen(sha, a, b);
    assert a[..|a|] == a;
  }

  /** And a log with a copy of one of its events in it never is. */
  lemma DuplicateNoticed(sha: string -> Digest, a: seq<AuditEvent>, i: nat, k: nat)
    requires Intact(sha, a) && NoCollision(sha, a, a) && i <= |a| && k < |a|
    ensures !Intact(sha, a[..i] + [a[k]] + a[i..])
  {
    hide Intact, NoCollision;
    RearrangedAcceptedExactlyWhen(sha, a, a[..i] + [a[k]] + a[i..]);
  }

  lemma SameLast(a: seq<AuditEvent>, b: seq<AuditEvent>)
    requires a != [] && b != [] && a[|a| - 1] == b[|b| - 1]
    ensures LastHash(a) == LastHash(b)
  {
  }

  /** An inserted event is accepted exactly when it is appended, linked and sealed. */
  lemma InsertionAcceptedExactlyWhen(sha: string -> Digest, events: seq<AuditEvent>, i: nat, e: AuditEvent)
    requires Intact(sha, events) && i <= |events|
    requires NoCollision(sha, events[..i] + [e] + events[i..], events)
    ensures Intact(sha, events[..i] + [e] + events[i..]) <==>
            i == |events| && e.previousHash == LastHash(events) && e.eventHash == EventHash(sha, e)
  {
    hide Linked, EventHash, NoCollision, LastHash;
    var longer := events[..i] + [e] + events[i..];
    if i == |events| {
      assert longer == events + [e];
      assert longer[..i] == events;
      if Intact(sha, longer) {
        assert Linked(sha, longer, i);
        LinkedWhen(sha, longer, i);
      } else if e.previousHash == LastHash(events) && e.eventHash == EventHash(sha, e) {
        IntactAfter(sha, events, e);
      }
    } else if Intact(sha, longer) {
      SameLast(longer, events);
      FinalHashCommits(sha, longer, events);
    }
  }

  // ------------------------------------------------------------------- changed logs

  lemma SameLinks(sha: string -> Digest, a: seq<AuditEvent>, b: seq<AuditEvent>, i: nat)
    requires Intact(sha, a) && i < |a| == |b| && forall k | 0 <= k < |a| :: SameContent(a[k], b[k])
    ensures Linked(sha, b, i)
  {
    hide Linked, EventHash, ActorText, ColonFree, LastHash;
    assert Linked(sha, a, i);
    PreviousColonFree(sha, a, i);
    SameContentSameHash(sha, a[i], b[i]);
    LinkedWhen(sha, a, i);
    LinkedWhen(sha, b, i);
    LastHashSteps(a, i);
    LastHashSteps(b, i);
    assert SameContent(a[i], b[i]) && (i > 0 ==> SameContent(a[i - 1], b[i - 1]));
  }

  /** Any change that keeps the last hash is accepted exactly when it keeps the number of events and their content. */
  lemma ChangeAcceptedExactlyWhen(sha: string -> Digest, a: seq<AuditEvent>, b: seq<AuditEvent>)
    requires Intact(sha, a) && NoCollision(sha, a, b) && LastHash(a) == LastHash(b)
    ensures Intact(sha, b) <==> |a| == |b| && forall i | 0 <= i < |a| :: SameContent(a[i], b[i])
  {
    hide Linked, EventHash, NoCollision, LastHash, SameContent;
    if Intact(sha, b) {
      FinalHashCommits(sha, a, b);
    } else if |a| == |b| && forall i | 0 <= i < |a| :: SameContent(a[i], b[i]) {
      forall i: nat | i < |b| ensures Linked(sha, b, i) {
        SameLinks(sha, a, b, i);
      }
    }
  }

  /** The same events, each linked and sealed anew. */
  function Reseal(sha: string -> Digest, events: seq<AuditEvent>): seq<AuditEvent> {
    if events == [] then []
    else
      var before := Reseal(sha, events[..|events| - 1]);
      before + [Sealed(sha, events[|events| - 1], LastHash(before))]
  }

  predicate SameLog(a: seq<AuditEvent>, b: seq<AuditEvent>) {
    |a| == |b| && forall i | 0 <= i < |a| :: SameFields(a[i], b[i])
  }

  /** A change that does not keep the last hash may be anything: every log is accepted once it is sealed anew. */
  lemma {:induction false} ResealedAccepted(sha: string -> Digest, events: seq<AuditEvent>)
    ensures Intact(sha, Reseal(sha, events)) && SameLog(events, Reseal(sha, events))
  {
    hide Sealed, SameFields, LastHash, EventHash, Linked;
    if events != [] {
      var before, e := events[..|events| - 1], events[|events| - 1];
      ResealedAccepted(sha, before);
      SealedIsSealed(sha, e, LastHash(Reseal(sha, before)));
      IntactAfter(sha, Reseal(sha, before), Sealed(sha, e, LastHash(Reseal(sha, before))));
      assert forall i | 0 <= i < |before| :: events[i] == before[i];
    }
  }
}
