/** The append-only audit log: redact, hash, link and store under one lock. */
module AuditLog {
  import opened Integers
  import opened Wrappers
  import opened AuditChain
  import opened Hex
  import opened Utf8
  import R = RedactionSpec
  import Passes = RedactionPasses
  import Redactor

  /** The stored hash is not one of the hashed fields. */
  lemma HashIgnoresItself(sha: string -> Digest, e: AuditEvent, hash: string)
    ensures EventHash(sha, e.(eventHash := hash)) == EventHash(sha, e)
  {
  }

  lemma NextIdFollows(n: nat)
    ensures ((1 + n) % U64_RANGE + 1) % U64_RANGE == (2 + n) % U64_RANGE
  {
  }

  class Log {
    const sha: string -> Digest
    var events: seq<AuditEvent>
    var lastHash: string
    var nextId: nat

    /** The chain is intact, the ids count from 1, and no message has anything left to redact. */
    ghost predicate Valid()
      reads this
    {
      Intact(sha, events) && lastHash == LastHash(events) &&
      nextId == (1 + |events|) % U64_RANGE &&
      (forall i | 0 <= i < |events| :: events[i].id == (1 + i) % U64_RANGE) &&
      (forall i | 0 <= i < |events| :: R.Redact(events[i].message) == events[i].message)
    }

    constructor (sha: string -> Digest)
      ensures Valid() && events == [] && this.sha == sha
    {
      hide R.Redact, EventHash, Encode;
      this.sha := sha;
      events := [];
      lastHash := GENESIS_HASH;
      nextId := 1;
    }

    /** Appends one event; ids are 64-bit and wrap around. */
    method Record(kind: AuditEventKind, actorEmail: Option<string>, input: string, createdAt: nat)
      requires Valid() && ValidUtf8(input)
      modifies this
      ensures Valid()
      ensures exists e :: events == old(events) + [e] &&
                e.kind == kind && e.actorEmail == actorEmail && e.createdAt == createdAt &&
                e.message == R.Redact(input) && e.id == old(nextId) && e.previousHash == old(lastHash)
    {
      hide R.Redact, ValidUtf8, Passes.Clean, EventHash;
      var id := nextId;
      nextId := (nextId + 1) % U64_RANGE;
      var previousHash := lastHash;
      var redacted, _ := Redactor.RedactSensitive(input);
      var message := redacted.text;
      Passes.RedactIdempotent(input);
      var unsealed := AuditEvent(id, kind, actorEmail, message, createdAt, previousHash, "");
      var e := unsealed.(eventHash := EventHash(sha, unsealed));
      HashIgnoresItself(sha, unsealed, e.eventHash);
      lastHash := e.eventHash;
      IntactAfter(sha, events, e);
      NextIdFollows(|events|);
      events := events + [e];
    }

    method VerifyIntegrity() returns (intact: bool)
      requires Valid()
      ensures intact
    {
      intact := VerifyChain(sha, events);
    }
  }
}
