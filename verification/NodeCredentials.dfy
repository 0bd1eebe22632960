/**
 * When an enrolment token and a node credential are accepted, told by the
 * operations so far: what was created, issued and revoked, and when.
 */
module NodeCredentials {
  import opened Integers
  import opened Wrappers
  import opened Nodes
  import opened NodeRuns
  import D = Decimal

  // ---------------------------------------------------------------- enrolment tokens

  /** What has become of the last token created with a hash. */
  datatype Ticket = NoTicket | Unspent(until: nat) | Spent

  predicate EnrolsAt(sha: string -> string, commands: seq<Command>, i: nat, hash: nat)
    requires i < |commands|
  {
    Enrolls(sha, Run(sha, commands[..i]), commands[i], hash)
  }

  function TicketOf(sha: string -> string, commands: seq<Command>, hash: nat): Ticket {
    if commands == [] then NoTicket
    else
      var n := |commands| - 1;
      var c := commands[n];
      if c.CreateToken? && c.hash == hash then Unspent(c.clock.now + c.ttl)
      else if EnrolsAt(sha, commands, n, hash) then Spent
      else TicketOf(sha, commands[..n], hash)
  }

  function TicketIn(s: Registry, hash: nat): Ticket {
    if hash !in s.tokens then NoTicket
    else if s.tokens[hash].usedByNodeId.Some? then Spent
    else Unspent(s.tokens[hash].expiresAt)
  }

  lemma StepTicket(sha: string -> string, s: Registry, c: Command, hash: nat)
    ensures TicketIn(After(sha, s, c), hash)
         == if c.CreateToken? && c.hash == hash then Unspent(c.clock.now + c.ttl)
            else if Enrolls(sha, s, c, hash) then Spent
            else TicketIn(s, hash)
  {
    hide NodeName, Position, Fingerprint, Proof, ConnectionRefusal, RotationRefusal, PreviousFingerprint, NewCredential;
  }

  lemma NoTickets(hash: nat)
    ensures TicketIn(INITIAL, hash) == NoTicket
  {
  }

  lemma {:induction false} TicketKept(sha: string -> string, commands: seq<Command>, hash: nat)
    ensures TicketIn(Run(sha, commands), hash) == TicketOf(sha, commands, hash)
  {
    hide After, Enrolls, TicketIn;
    if commands == [] {
      assert TicketIn(INITIAL, hash) == NoTicket by {
        NoTickets(hash);
      }
    } else {
      var n := |commands| - 1;
      TicketKept(sha, commands[..n], hash);
      RunStep(sha, commands);
      StepTicket(sha, Run(sha, commands[..n]), commands[n], hash);
    }
  }

  lemma EnrolmentReply(sha: string -> string, s: Registry, c: Command)
    requires c.Enroll?
    ensures ReplyTo(sha, s, c)
         == match TicketIn(s, c.hash)
            case NoTicket => EnrollmentRefused(InvalidToken)
            case Spent => EnrollmentRefused(TokenUsed)
            case Unspent(until) =>
              if c.clock.now < until
              then NodeEnrolled("node-" + D.Print(s.nextNodeId), "sha256:" + sha(c.secret))
              else EnrollmentRefused(TokenExpired)
    ensures ReplyTo(sha, s, c).EnrollmentRefused? ==> After(sha, s, c) == s
  {
  }

  /**
   * Over every run, a token enrols a node exactly when it was created, has not
   * enrolled a node since, and its lifetime has not passed; else it is known
   * why not. The node's name counts the enrolments, in 64 bits.
   */
  lemma EnrolmentDecided(sha: string -> string, commands: seq<Command>, c: Command)
    requires c.Enroll?
    ensures ReplyTo(sha, Run(sha, commands), c)
         == match TicketOf(sha, commands, c.hash)
            case NoTicket => EnrollmentRefused(InvalidToken)
            case Spent => EnrollmentRefused(TokenUsed)
            case Unspent(until) =>
              if c.clock.now < until
              then NodeEnrolled("node-" + D.Print((1 + |Run(sha, commands).nodes|) % 0x1_0000_0000_0000_0000),
                                "sha256:" + sha(c.secret))
              else EnrollmentRefused(TokenExpired)
  {
    hide Run, ReplyTo, TicketOf, TicketIn, D.Print;
    TicketKept(sha, commands, c.hash);
    EnrolmentReply(sha, Run(sha, commands), c);
    AlwaysNumbered(sha, commands);
  }

  /** An accepted enrolment adds a node with what was asked for, its credential and its first heartbeat. */
  lemma EnrolmentRecorded(sha: string -> string, s: Registry, c: Command)
    requires c.Enroll? && ReplyTo(sha, s, c).NodeEnrolled?
    ensures var t, id, name := After(sha, s, c), s.nextNodeId, "node-" + D.Print(s.nextNodeId);
            t.nodes == s.nodes + [NodeRecord(id, name, c.displayName, c.host, Enrolled)] &&
            t.heartbeats == s.heartbeats + [Heartbeat(id, Enrolled, c.clock.now)] &&
            |t.credentials| == |s.credentials| + 1 && t.credentials[..|s.credentials|] == s.credentials &&
            t.tokens.Keys == s.tokens.Keys && t.tokens[c.hash].usedByNodeId == Some(id)
  {
    hide D.Print, Position, Proof, Fingerprint;
  }

  // --------------------------------------------------------------------- credentials

  /** Step `i` gives the node a credential: it enrols the node, or rotates its credential. */
  predicate Issues(sha: string -> string, commands: seq<Command>, i: nat, nodeId: string)
    requires i < |commands|
  {
    var c, r := commands[i], ReplyTo(sha, Run(sha, commands[..i]), commands[i]);
    (c.Enroll? && r.NodeEnrolled? && r.nodeId == nodeId) || (c.Rotate? && c.nodeId == nodeId && r.CredentialRotated?)
  }

  /** A heartbeat or a login that shows the fingerprint and the proof made from a secret. */
  predicate Shows(sha: string -> string, c: Command, secret: string) {
    (c.Beat? || c.Authenticate?) && c.fingerprint == "sha256:" + sha(secret) &&
    c.proof == "sha256:" + sha("sunbolt-agent-auth-v1\0" + c.nodeId + "\0" + secret)
  }

  /** The secret of step `i` was issued to the node that connects, and is the one that it shows. */
  predicate Backs(sha: string -> string, commands: seq<Command>, i: nat, c: Command)
    requires i < |commands| && (c.Beat? || c.Authenticate?)
  {
    Issues(sha, commands, i, c.nodeId) && Shows(sha, c, commands[i].secret)
  }

  predicate RevokesAt(commands: seq<Command>, i: nat, nodeId: string)
    requires i < |commands|
  {
    commands[i].Revoke? && commands[i].nodeId == nodeId
  }

  lemma AuthAppend(credentials: seq<Credential>, c: Credential, node: nat, proof: string, fingerprint: string)
    ensures var found := AuthenticatedCredential(credentials, node, proof, fingerprint);
            AuthenticatedCredential(credentials + [c], node, proof, fingerprint)
            == if found.Some? then found else if Presents(c, node, proof, fingerprint) then Some(c) else None
  {
    if credentials != [] {
      AuthAppend(credentials[1..], c, node, proof, fingerprint);
      assert (credentials + [c])[1..] == credentials[1..] + [c];
    }
  }

  lemma NameOfId(s: Registry, p: nat)
    requires Numbered(s) && p < |s.nodes|
    ensures s.nodes[p].nodeId == NodeName(s.nodes[p].id)
  {
  }

  /** What a step that issues a credential adds. */
  lemma IssueAdds(sha: string -> string, s: Registry, c: Command)
    requires Numbered(s) && Added(sha, s, c).Some?
    ensures var a := Added(sha, s, c).value;
            (c.Enroll? || c.Rotate?) && a.fingerprint == "sha256:" + sha(c.secret) &&
            a.proof == "sha256:" + sha("sunbolt-agent-auth-v1\0" + NodeName(a.nodeId) + "\0" + c.secret) &&
            a.createdAt == c.clock.now && a.expiresAt == c.clock.now + 90 * 24 * 60 * 60 &&
            (c.Enroll? ==> ReplyTo(sha, s, c).NodeEnrolled? && ReplyTo(sha, s, c).nodeId == NodeName(a.nodeId)) &&
            (c.Rotate? ==> ReplyTo(sha, s, c).CredentialRotated? && c.nodeId == NodeName(a.nodeId))
  {
    hide NodeName, Numbered, AuthenticatedCredential, LatestCredential, EnrollmentRefusal;
    if c.Rotate? {
      var p := Position(s.nodes, c.nodeId);
      if p < |s.nodes| {
        NameOfId(s, p);
      }
    }
  }

  lemma NoIssueNoAddition(sha: string -> string, s: Registry, c: Command)
    requires Added(sha, s, c).None?
    ensures After(sha, s, c).credentials == s.credentials
    ensures !(c.Enroll? && ReplyTo(sha, s, c).NodeEnrolled?) && !(c.Rotate? && ReplyTo(sha, s, c).CredentialRotated?)
  {
    hide NodeName, Position, AuthenticatedCredential, LatestCredential;
  }

  lemma StepAddsCredential(sha: string -> string, s: Registry, c: Command)
    ensures var added := Added(sha, s, c);
            After(sha, s, c).credentials == if added.Some? then s.credentials + [added.value] else s.credentials
  {
    hide After, Added, HasNode, PreviousFingerprint;
    StepAdds(sha, s, c, 0);
  }

  /** The first step that backs a connection, if there is one. */
  predicate FirstBacks(sha: string -> string, commands: seq<Command>, i: nat, c: Command)
    requires c.Beat? || c.Authenticate?
  {
    i < |commands| && Backs(sha, commands, i, c) && forall j: nat | j < i :: !Backs(sha, commands, j, c)
  }

  predicate NoneBacks(sha: string -> string, commands: seq<Command>, c: Command)
    requires c.Beat? || c.Authenticate?
  {
    forall j: nat | j < |commands| :: !Backs(sha, commands, j, c)
  }

  lemma BacksInPrefix(sha: string -> string, commands: seq<Command>, n: nat, j: nat, c: Command)
    requires j < n <= |commands| && (c.Beat? || c.Authenticate?)
    ensures Backs(sha, commands[..n], j, c) <==> Backs(sha, commands, j, c)
  {
    hide Run, ReplyTo;
    assert commands[..n][..j] == commands[..j];
  }

  /** The step that issues a credential backs a connection exactly if the connection presents that credential. */
  lemma BacksWhenPresented(sha: string -> string, commands: seq<Command>, c: Command, id: nat)
    requires commands != [] && (c.Beat? || c.Authenticate?) && NodeName(id) == c.nodeId
    ensures var n := |commands| - 1;
            var added := Added(sha, Run(sha, commands[..n]), commands[n]);
            Backs(sha, commands, n, c) <==> added.Some? && Presents(added.value, id, c.proof, c.fingerprint)
    ensures var n := |commands| - 1;
            var added := Added(sha, Run(sha, commands[..n]), commands[n]);
            added.Some? ==> added.value.expiresAt == commands[n].clock.now + 90 * 24 * 60 * 60
  {
    hide NodeName, Run, Added, ReplyTo, Numbered;
    var n := |commands| - 1;
    var s := Run(sha, commands[..n]);
    AlwaysNumbered(sha, commands[..n]);
    if Added(sha, s, commands[n]).Some? {
      IssueAdds(sha, s, commands[n]);
      var a := Added(sha, s, commands[n]).value;
      if NodeName(a.nodeId) == c.nodeId {
        NodeNameInjective(a.nodeId, id);
      }
    } else {
      NoIssueNoAddition(sha, s, commands[n]);
    }
  }

  /** The credential that a connection presents. */
  function Presented(sha: string -> string, commands: seq<Command>, c: Command, id: nat): Option<Credential>
    requires c.Beat? || c.Authenticate?
  {
    AuthenticatedCredential(Run(sha, commands).credentials, id, c.proof, c.fingerprint)
  }

  lemma NothingPresented(sha: string -> string, c: Command, id: nat)
    requires c.Beat? || c.Authenticate?
    ensures Presented(sha, [], c, id) == None
  {
  }

  lemma StepPresented(sha: string -> string, commands: seq<Command>, c: Command, id: nat)
    requires commands != [] && (c.Beat? || c.Authenticate?) && NodeName(id) == c.nodeId
    ensures var n := |commands| - 1;
            var before, now := Presented(sha, commands[..n], c, id), Presented(sha, commands, c, id);
            if before.Some? then now == before
            else if Backs(sha, commands, n, c)
            then now.Some? && now.value.expiresAt == commands[n].clock.now + 90 * 24 * 60 * 60
            else now.None?
  {
    hide NodeName, Run, Added, After, Backs, Presents, AuthenticatedCredential;
    var n := |commands| - 1;
    var s := Run(sha, commands[..n]);
    RunStep(sha, commands);
    StepAddsCredential(sha, s, commands[n]);
    BacksWhenPresented(sha, commands, c, id);
    if Added(sha, s, commands[n]).Some? {
      AuthAppend(s.credentials, Added(sha, s, commands[n]).value, id, c.proof, c.fingerprint);
    }
  }

  /** The first step that backs a connection is found again in a longer run. */
  lemma FirstBacksOneMore(sha: string -> string, commands: seq<Command>, c: Command, i: nat)
    requires commands != [] && (c.Beat? || c.Authenticate?)
    ensures var n := |commands| - 1;
            (FirstBacks(sha, commands[..n], i, c) ==> FirstBacks(sha, commands, i, c)) &&
            (NoneBacks(sha, commands[..n], c) && Backs(sha, commands, n, c) ==> FirstBacks(sha, commands, n, c)) &&
            (NoneBacks(sha, commands[..n], c) && !Backs(sha, commands, n, c) ==> NoneBacks(sha, commands, c))
  {
    hide Backs;
    var n := |commands| - 1;
    forall j: nat | j < n ensures Backs(sha, commands[..n], j, c) <==> Backs(sha, commands, j, c) {
      BacksInPrefix(sha, commands, n, j, c);
    }
  }

  lemma FirstIsEarlier(sha: string -> string, commands: seq<Command>, i: nat, c: Command)
    requires (c.Beat? || c.Authenticate?) && FirstBacks(sha, commands, i, c)
    ensures i < |commands|
  {
    hide Backs;
  }

  /** The credential that a connection presents is that of the first step that backs it. */
  lemma {:induction false} CredentialFound(sha: string -> string, commands: seq<Command>, c: Command, id: nat)
    returns (i: nat)
    requires (c.Beat? || c.Authenticate?) && NodeName(id) == c.nodeId
    ensures var found := Presented(sha, commands, c, id);
            (found.None? ==> NoneBacks(sha, commands, c)) &&
            (found.Some? ==>
               FirstBacks(sha, commands, i, c) &&
               found.value.expiresAt == commands[i].clock.now + 90 * 24 * 60 * 60)
  {
    hide NodeName, Presented, Backs;
    i := 0;
    if commands == [] {
      NothingPresented(sha, c, id);
    } else {
      hide FirstBacks, NoneBacks;
      var n := |commands| - 1;
      i := CredentialFound(sha, commands[..n], c, id);
      StepPresented(sha, commands, c, id);
      FirstBacksOneMore(sha, commands, c, i);
      if Presented(sha, commands[..n], c, id).None? {
        i := n;
      } else {
        FirstIsEarlier(sha, commands[..n], i, c);
      }
    }
  }

  // ------------------------------------------------------------------------ service

  predicate Known(s: Registry, nodeId: string) {
    Position(s.nodes, nodeId) < |s.nodes|
  }

  predicate EnrolsNode(sha: string -> string, s: Registry, c: Command, nodeId: string) {
    c.Enroll? && ReplyTo(sha, s, c).NodeEnrolled? && ReplyTo(sha, s, c).nodeId == nodeId
  }

  predicate EnrolsNodeAt(sha: string -> string, commands: seq<Command>, i: nat, nodeId: string)
    requires i < |commands|
  {
    EnrolsNode(sha, Run(sha, commands[..i]), commands[i], nodeId)
  }

  predicate RevokesNode(sha: string -> string, s: Registry, c: Command, nodeId: string) {
    c.Revoke? && c.nodeId == nodeId && ReplyTo(sha, s, c) == Accepted
  }

  predicate RevokesNodeAt(sha: string -> string, commands: seq<Command>, i: nat, nodeId: string)
    requires i < |commands|
  {
    RevokesNode(sha, Run(sha, commands[..i]), commands[i], nodeId)
  }

  function NewNode(s: Registry, c: Command): NodeRecord
    requires c.Enroll?
  {
    NodeRecord(s.nextNodeId, NodeName(s.nextNodeId), c.displayName, c.host, Enrolled)
  }

  lemma EnrolmentAdds(sha: string -> string, s: Registry, c: Command, nodeId: string)
    requires c.Enroll?
    ensures var t := After(sha, s, c);
            if ReplyTo(sha, s, c).NodeEnrolled?
            then t.nodes == s.nodes + [NewNode(s, c)] && ReplyTo(sha, s, c).nodeId == NodeName(s.nextNodeId)
            else t == s
  {
    hide NodeName, Position, Proof, Fingerprint;
  }

  lemma {:induction false} PositionOfOneMore(nodes: seq<NodeRecord>, node: NodeRecord, nodeId: string)
    ensures Position(nodes + [node], nodeId)
         == if Position(nodes, nodeId) < |nodes| then Position(nodes, nodeId)
            else if node.nodeId == nodeId then |nodes| else |nodes| + 1
  {
    if nodes != [] {
      PositionOfOneMore(nodes[1..], node, nodeId);
      assert (nodes + [node])[1..] == nodes[1..] + [node];
    }
  }

  lemma EnrolmentStep(sha: string -> string, s: Registry, c: Command, nodeId: string)
    requires c.Enroll?
    ensures var t := After(sha, s, c);
            (Known(t, nodeId) <==> Known(s, nodeId) || EnrolsNode(sha, s, c, nodeId)) &&
            (IsRevoked(t, nodeId) <==> IsRevoked(s, nodeId))
  {
    hide NodeName, Position, After, ReplyTo;
    EnrolmentAdds(sha, s, c, nodeId);
    if ReplyTo(sha, s, c).NodeEnrolled? {
      PositionOfOneMore(s.nodes, NewNode(s, c), nodeId);
    }
  }

  /** The same nodes by name. */
  lemma {:induction false} SameNames(a: seq<NodeRecord>, b: seq<NodeRecord>, nodeId: string)
    requires |a| == |b| && forall i | 0 <= i < |a| :: a[i].nodeId == b[i].nodeId
    ensures Position(a, nodeId) == Position(b, nodeId)
  {
    if a != [] {
      SameNames(a[1..], b[1..], nodeId);
    }
  }

  /** What an operation other than an enrolment does to the status of the nodes: only a revocation revokes. */
  lemma OtherStatuses(sha: string -> string, s: Registry, c: Command, i: nat)
    requires !c.Enroll? && i < |s.nodes|
    ensures var t := After(sha, s, c);
            |t.nodes| == |s.nodes| && t.nodes[i].nodeId == s.nodes[i].nodeId &&
            (t.nodes[i].status == Revoked <==>
               s.nodes[i].status == Revoked || (c.Revoke? && i == Position(s.nodes, c.nodeId)))
  {
    hide Position, Proof, Fingerprint, AuthenticatedCredential, LatestCredential;
  }

  lemma RevocationReply(sha: string -> string, s: Registry, c: Command)
    ensures c.Revoke? ==> (ReplyTo(sha, s, c) == Accepted <==> Known(s, c.nodeId))
  {
    hide Position;
  }

  lemma OtherStep(sha: string -> string, s: Registry, c: Command, nodeId: string)
    requires !c.Enroll?
    ensures var t := After(sha, s, c);
            (Known(t, nodeId) <==> Known(s, nodeId)) &&
            (IsRevoked(t, nodeId) <==> IsRevoked(s, nodeId) || RevokesNode(sha, s, c, nodeId))
  {
    RevocationReply(sha, s, c);
    hide Position, After, ReplyTo;
    var t := After(sha, s, c);
    OthersKeepNames(sha, s, c);
    SameNames(s.nodes, t.nodes, nodeId);
    if Known(s, nodeId) {
      OtherStatuses(sha, s, c, Position(s.nodes, nodeId));
    }
  }

  lemma NothingKnown(nodeId: string)
    ensures !Known(INITIAL, nodeId) && !IsRevoked(INITIAL, nodeId)
  {
  }

  lemma StandingStep(sha: string -> string, s: Registry, c: Command, nodeId: string)
    ensures var t := After(sha, s, c);
            (Known(t, nodeId) <==> Known(s, nodeId) || EnrolsNode(sha, s, c, nodeId)) &&
            (IsRevoked(t, nodeId) <==> IsRevoked(s, nodeId) || RevokesNode(sha, s, c, nodeId))
  {
    if c.Enroll? {
      hide Known, IsRevoked, After, ReplyTo;
      EnrolmentStep(sha, s, c, nodeId);
    } else {
      hide Known, IsRevoked, After, ReplyTo;
      OtherStep(sha, s, c, nodeId);
    }
  }

  /** A node is known exactly if it was enrolled, and revoked exactly if a revocation of it was accepted. */
  lemma {:induction false} StandingDecided(sha: string -> string, commands: seq<Command>, nodeId: string)
    ensures var s := Run(sha, commands);
            (Known(s, nodeId) <==> exists i: nat | i < |commands| :: EnrolsNodeAt(sha, commands, i, nodeId)) &&
            (IsRevoked(s, nodeId) <==> exists i: nat | i < |commands| :: RevokesNodeAt(sha, commands, i, nodeId))
  {
    hide Known, IsRevoked, After, EnrolsNode, RevokesNode;
    if commands == [] {
      NothingKnown(nodeId);
    } else {
      hide Run;
      var n := |commands| - 1;
      StandingDecided(sha, commands[..n], nodeId);
      RunStep(sha, commands);
      StandingStep(sha, Run(sha, commands[..n]), commands[n], nodeId);
      forall i: nat | i < n
        ensures EnrolsNodeAt(sha, commands[..n], i, nodeId) <==> EnrolsNodeAt(sha, commands, i, nodeId)
        ensures RevokesNodeAt(sha, commands[..n], i, nodeId) <==> RevokesNodeAt(sha, commands, i, nodeId)
      {
        assert commands[..n][..i] == commands[..i];
      }
      assert EnrolsNodeAt(sha, commands, n, nodeId) <==> EnrolsNode(sha, Run(sha, commands[..n]), commands[n], nodeId);
      assert RevokesNodeAt(sha, commands, n, nodeId) <==>
             RevokesNode(sha, Run(sha, commands[..n]), commands[n], nodeId);
    }
  }

  lemma ConnectionReply(sha: string -> string, s: Registry, c: Command)
    requires c.Beat? || c.Authenticate?
    ensures var r := ReplyTo(sha, s, c);
            if !Known(s, c.nodeId) then r == Refused(UnknownNode)
            else if IsRevoked(s, c.nodeId) then r == Refused(NodeIsRevoked)
            else
              var id := s.nodes[Position(s.nodes, c.nodeId)].id;
              match AuthenticatedCredential(s.credentials, id, c.proof, c.fingerprint)
              case None => r == Refused(InvalidCredential)
              case Some(credential) =>
                r == if c.clock.now < credential.expiresAt then Accepted else Refused(CredentialExpired)
    ensures ReplyTo(sha, s, c) != Accepted ==> After(sha, s, c) == s
  {
    hide Position, AuthenticatedCredential;
  }

  /**
   * Over every run it is decided what a heartbeat or a login is answered. A
   * node that was never enrolled is unknown; one whose revocation was accepted
   * is refused; a secret never issued to it is invalid; and one that was is
   * accepted for ninety days after it was first issued, and expired from then on.
   */
  lemma ConnectionDecided(sha: string -> string, commands: seq<Command>, c: Command)
    requires c.Beat? || c.Authenticate?
    ensures var r := ReplyTo(sha, Run(sha, commands), c);
            var enrolled := exists i: nat | i < |commands| :: EnrolsNodeAt(sha, commands, i, c.nodeId);
            var revoked := exists i: nat | i < |commands| :: RevokesNodeAt(sha, commands, i, c.nodeId);
            (r == Refused(UnknownNode) <==> !enrolled) &&
            (r == Refused(NodeIsRevoked) <==> enrolled && revoked) &&
            (r == Refused(InvalidCredential) <==> enrolled && !revoked && NoneBacks(sha, commands, c)) &&
            (enrolled && !revoked ==>
               forall i: nat | FirstBacks(sha, commands, i, c) ::
                 r == if c.clock.now < commands[i].clock.now + 90 * 24 * 60 * 60 then Accepted
                      else Refused(CredentialExpired))
  {
    var s := Run(sha, commands);
    hide Run, EnrolsNode, RevokesNode, Backs, After, ReplyTo, NodeName;
    StandingDecided(sha, commands, c.nodeId);
    ConnectionReply(sha, s, c);
    if Known(s, c.nodeId) {
      AlwaysNumbered(sha, commands);
      var p := Position(s.nodes, c.nodeId);
      NameOfId(s, p);
      var k := CredentialFound(sha, commands, c, s.nodes[p].id);
    }
  }

  lemma {:induction false} NodesGrowAlong(sha: string -> string, commands: seq<Command>, n: nat)
    requires n <= |commands|
    ensures |Run(sha, commands[..n]).nodes| <= |Run(sha, commands).nodes|
  {
    hide Run, After;
    if n < |commands| {
      var m := |commands| - 1;
      assert commands[..m][..n] == commands[..n];
      NodesGrowAlong(sha, commands[..m], n);
      RunStep(sha, commands);
      NodesGrow(sha, Run(sha, commands[..m]), commands[m]);
    } else {
      assert commands[..n] == commands;
    }
  }

  lemma RotationReply(sha: string -> string, s: Registry, c: Command)
    requires c.Rotate?
    ensures ReplyTo(sha, s, c)
         == if !Known(s, c.nodeId) then Refused(UnknownNode)
            else if IsRevoked(s, c.nodeId) then Refused(NodeIsRevoked)
            else CredentialRotated("sha256:" + sha(c.secret),
                                   PreviousFingerprint(s, s.nodes[Position(s.nodes, c.nodeId)].id))
    ensures ReplyTo(sha, s, c).Refused? ==> After(sha, s, c) == s
  {
    hide Position, LatestCredential;
  }

  lemma RevokedIsKnown(s: Registry, nodeId: string)
    requires IsRevoked(s, nodeId)
    ensures Known(s, nodeId)
  {
  }

  /** Over every run, a rotation is accepted exactly for a node that was enrolled and not revoked. */
  lemma RotationDecided(sha: string -> string, commands: seq<Command>, c: Command)
    requires c.Rotate?
    ensures var r := ReplyTo(sha, Run(sha, commands), c);
            var enrolled := exists i: nat | i < |commands| :: EnrolsNodeAt(sha, commands, i, c.nodeId);
            var revoked := exists i: nat | i < |commands| :: RevokesNodeAt(sha, commands, i, c.nodeId);
            (r == Refused(UnknownNode) <==> !enrolled) && (r == Refused(NodeIsRevoked) <==> enrolled && revoked) &&
            (enrolled && !revoked ==> r.CredentialRotated? && r.fingerprint == "sha256:" + sha(c.secret))
  {
    hide Run, EnrolsNode, RevokesNode, After, ReplyTo, IsRevoked, Known;
    StandingDecided(sha, commands, c.nodeId);
    RotationReply(sha, Run(sha, commands), c);
    if IsRevoked(Run(sha, commands), c.nodeId) {
      RevokedIsKnown(Run(sha, commands), c.nodeId);
    }
  }

  /** A step that issues a credential finds its node in service, or enrols it under a new name. */
  lemma NotRevokedWhenIssued(sha: string -> string, s: Registry, c: Command, nodeId: string)
    requires Numbered(s) && |After(sha, s, c).nodes| <= U64_RANGE
    requires (c.Enroll? && ReplyTo(sha, s, c).NodeEnrolled? && ReplyTo(sha, s, c).nodeId == nodeId) ||
             (c.Rotate? && c.nodeId == nodeId && ReplyTo(sha, s, c).CredentialRotated?)
    ensures !IsRevoked(s, nodeId) && (c.Rotate? ==> Known(s, nodeId))
  {
    hide After, ReplyTo, NodeName, Position;
    if c.Rotate? {
      RotationReply(sha, s, c);
    } else {
      EnrolmentAdds(sha, s, c, nodeId);
      FreshId(s);
      var p := Position(s.nodes, nodeId);
      if p < |s.nodes| {
        NameOfId(s, p);
        NodeNameInjective(s.nodes[p].id, s.nextNodeId);
        assert false;
      }
    }
  }

  /**
   * While node ids have not wrapped around, a credential issued at step `i` is
   * accepted at every time before ninety days have passed, and expired from
   * then on, if its node has not been revoked since and its secret is new.
   */
  lemma IssuedCredentialAccepted(sha: string -> string, commands: seq<Command>, i: nat, c: Command)
    requires (c.Beat? || c.Authenticate?) && FirstBacks(sha, commands, i, c)
    requires |Run(sha, commands).nodes| <= 0x1_0000_0000_0000_0000
    requires forall j: nat | i < j < |commands| :: !RevokesAt(commands, j, c.nodeId)
    ensures ReplyTo(sha, Run(sha, commands), c)
         == if c.clock.now < commands[i].clock.now + 90 * 24 * 60 * 60 then Accepted else Refused(CredentialExpired)
  {
    hide Run, After, ReplyTo, Known, IsRevoked, Shows;
    var nodeId, s := c.nodeId, Run(sha, commands[..i]);
    assert commands[..i + 1][..i] == commands[..i];
    RunStep(sha, commands[..i + 1]);
    NodesGrowAlong(sha, commands, i + 1);
    AlwaysNumbered(sha, commands[..i]);
    NotRevokedWhenIssued(sha, s, commands[i], nodeId);
    StandingDecided(sha, commands[..i], nodeId);
    forall j: nat | j < i
      ensures RevokesNodeAt(sha, commands[..i], j, nodeId) <==> RevokesNodeAt(sha, commands, j, nodeId)
      ensures EnrolsNodeAt(sha, commands[..i], j, nodeId) <==> EnrolsNodeAt(sha, commands, j, nodeId)
    {
      assert commands[..i][..j] == commands[..j];
    }
    forall j: nat | i <= j < |commands| ensures !RevokesNodeAt(sha, commands, j, nodeId) {
      assert i < j ==> !RevokesAt(commands, j, nodeId);
    }
    assert commands[i].Enroll? ==> EnrolsNodeAt(sha, commands, i, nodeId);
    hide Issues, Numbered;
    ConnectionDecided(sha, commands, c);
  }

  // ------------------------------------------------------------------------- effects

  /** An accepted heartbeat or login puts its node online, keeps a heartbeat, and changes nothing else but the host. */
  lemma ConnectionRecorded(sha: string -> string, s: Registry, c: Command)
    requires (c.Beat? || c.Authenticate?) && ReplyTo(sha, s, c) == Accepted
    ensures var t, p := After(sha, s, c), Position(s.nodes, c.nodeId);
            p < |s.nodes| && s.nodes[p].nodeId == c.nodeId &&
            t == s.(nodes := t.nodes, heartbeats := s.heartbeats + [Heartbeat(s.nodes[p].id, Online, c.clock.now)]) &&
            |t.nodes| == |s.nodes| && (forall i | 0 <= i < |s.nodes| && i != p :: t.nodes[i] == s.nodes[i]) &&
            t.nodes[p]
            == s.nodes[p].(status := Online,
                           host := if c.Beat? then c.host else s.nodes[p].host.(agentVersion := c.agentVersion))
  {
    hide Position, AuthenticatedCredential;
  }

  // ---------------------------------------------------------------------- token ids

  function TokensCreated(commands: seq<Command>): nat {
    if commands == [] then 0
    else TokensCreated(commands[..|commands| - 1]) + (if commands[|commands| - 1].CreateToken? then 1 else 0)
  }

  lemma StepTokenId(sha: string -> string, s: Registry, c: Command)
    ensures After(sha, s, c).nextTokenId
         == if c.CreateToken? then (s.nextTokenId + 1) % 0x1_0000_0000_0000_0000 else s.nextTokenId
    ensures c.CreateToken? ==> ReplyTo(sha, s, c) == TokenCreated(s.nextTokenId)
  {
    hide NodeName, Position, Proof, Fingerprint, AuthenticatedCredential, LatestCredential;
  }

  lemma {:induction false} NextTokenId(sha: string -> string, commands: seq<Command>)
    ensures Run(sha, commands).nextTokenId == (1 + TokensCreated(commands)) % 0x1_0000_0000_0000_0000
  {
    hide After;
    if commands != [] {
      var n := |commands| - 1;
      NextTokenId(sha, commands[..n]);
      RunStep(sha, commands);
      StepTokenId(sha, Run(sha, commands[..n]), commands[n]);
      hide Run;
    }
  }

  /** Token ids are counted from one, in 64 bits. */
  lemma TokenIdsCount(sha: string -> string, commands: seq<Command>, c: Command)
    requires c.CreateToken?
    ensures ReplyTo(sha, Run(sha, commands), c)
         == TokenCreated((1 + TokensCreated(commands)) % 0x1_0000_0000_0000_0000)
  {
    hide Run, After, ReplyTo;
    NextTokenId(sha, commands);
    StepTokenId(sha, Run(sha, commands), c);
  }

  // --------------------------------------------------------------- latest credentials

  /** By the monotonic clock, then the wall clock, then because only `b` comes from a rotation. */
  predicate CreatedBefore(a: Credential, b: Credential) {
    a.createdAt < b.createdAt ||
    (a.createdAt == b.createdAt && a.createdAtUnixSecs < b.createdAtUnixSecs) ||
    (a.createdAt == b.createdAt && a.createdAtUnixSecs == b.createdAtUnixSecs &&
     a.rotatedFrom.None? && b.rotatedFrom.Some?)
  }

  /** None of the node's credentials was created after the one at `i`, and all further on in the list before it. */
  predicate LatestAt(credentials: seq<Credential>, node: nat, i: nat) {
    i < |credentials| && credentials[i].nodeId == node &&
    (forall j | 0 <= j < |credentials| && credentials[j].nodeId == node ::
       !CreatedBefore(credentials[i], credentials[j])) &&
    (forall j | i < j < |credentials| && credentials[j].nodeId == node :: CreatedBefore(credentials[j], credentials[i]))
  }

  lemma LatestOneMore(credentials: seq<Credential>, node: nat, i: nat)
    requires credentials != [] && LatestAt(credentials[..|credentials| - 1], node, i)
    ensures var n := |credentials| - 1;
            if credentials[n].nodeId == node && NotLater(credentials[i], credentials[n])
            then LatestAt(credentials, node, n)
            else LatestAt(credentials, node, i)
  {
    var before, n := credentials[..|credentials| - 1], |credentials| - 1;
    assert forall j | 0 <= j < n :: credentials[j] == before[j];
  }

  /** The registry takes that one for the latest, however the clocks go. */
  lemma {:induction false} LatestExactly(credentials: seq<Credential>, node: nat) returns (i: nat)
    ensures match LatestCredential(credentials, node)
            case None => forall j | 0 <= j < |credentials| :: credentials[j].nodeId != node
            case Some(c) => LatestAt(credentials, node, i) && credentials[i] == c
  {
    i := 0;
    if credentials != [] {
      var n := |credentials| - 1;
      var before := credentials[..n];
      i := LatestExactly(before, node);
      if LatestCredential(before, node).Some? {
        LatestOneMore(credentials, node, i);
        if credentials[n].nodeId == node && NotLater(credentials[i], credentials[n]) {
          i := n;
        }
      } else if credentials[n].nodeId == node {
        i := n;
        assert forall j | 0 <= j < n :: credentials[j] == before[j];
      } else {
        assert forall j | 0 <= j < n :: credentials[j] == before[j];
      }
    }
  }
}
