/** What holds of the node registry over every run of its operations. */
module NodeRuns {
  import opened Integers
  import opened Wrappers
  import opened Nodes
  import D = Decimal

  /** The registry after a series of operations. */
  function RunFrom(sha: string -> string, s: Registry, commands: seq<Command>): Registry {
    if commands == [] then s
    else After(sha, RunFrom(sha, s, commands[..|commands| - 1]), commands[|commands| - 1])
  }

  function Run(sha: string -> string, commands: seq<Command>): Registry {
    RunFrom(sha, INITIAL, commands)
  }

  lemma RunStep(sha: string -> string, commands: seq<Command>)
    requires commands != []
    ensures Run(sha, commands) == After(sha, Run(sha, commands[..|commands| - 1]), commands[|commands| - 1])
  {
    hide After;
  }

  // ----------------------------------------------------------------- unique node ids

  /** Ids are counted from one in 64 bits, and names are made of ids. */
  predicate Numbered(s: Registry) {
    s.nextNodeId == (1 + |s.nodes|) % U64_RANGE &&
    (forall i | 0 <= i < |s.nodes| ::
       s.nodes[i].id == (1 + i) % U64_RANGE && s.nodes[i].nodeId == NodeName(s.nodes[i].id))
  }

  lemma EnrolNumbered(sha: string -> string, s: Registry, c: Command)
    requires Numbered(s) && c.Enroll?
    ensures Numbered(After(sha, s, c))
  {
    hide NodeName, NewCredential, EnrollmentRefusal;
  }

  lemma OthersKeepNames(sha: string -> string, s: Registry, c: Command)
    requires !c.Enroll?
    ensures var t := After(sha, s, c);
            t.nextNodeId == s.nextNodeId && |t.nodes| == |s.nodes| &&
            forall i | 0 <= i < |s.nodes| :: t.nodes[i].id == s.nodes[i].id && t.nodes[i].nodeId == s.nodes[i].nodeId
  {
    hide Position, NewCredential, AuthenticatedCredential, PreviousFingerprint;
  }

  lemma StepNumbered(sha: string -> string, s: Registry, c: Command)
    requires Numbered(s)
    ensures Numbered(After(sha, s, c))
  {
    hide NodeName, After;
    if c.Enroll? {
      EnrolNumbered(sha, s, c);
    } else {
      OthersKeepNames(sha, s, c);
    }
  }

  lemma InitiallyNumbered()
    ensures Numbered(INITIAL)
  {
  }

  lemma {:induction false} AlwaysNumbered(sha: string -> string, commands: seq<Command>)
    ensures Numbered(Run(sha, commands))
  {
    hide Numbered, After;
    if commands == [] {
      assert Numbered(INITIAL) by {
        InitiallyNumbered();
      }
    } else {
      AlwaysNumbered(sha, commands[..|commands| - 1]);
      RunStep(sha, commands);
      StepNumbered(sha, Run(sha, commands[..|commands| - 1]), commands[|commands| - 1]);
    }
  }

  lemma NodeNameInjective(a: nat, b: nat)
    requires NodeName(a) == NodeName(b)
    ensures a == b
  {
    hide D.Print;
    assert D.Print(a) == NodeName(a)[5..];
    assert D.Print(b) == NodeName(b)[5..];
    D.PrintInjective(a, b);
  }

  predicate UniqueIds(nodes: seq<NodeRecord>) {
    forall i, j | 0 <= i < j < |nodes| :: nodes[i].id != nodes[j].id && nodes[i].nodeId != nodes[j].nodeId
  }

  /** No two nodes share an id or a name exactly as long as no more than 2^64 nodes have been enrolled. */
  lemma IdsUniqueExactlyWhen(sha: string -> string, commands: seq<Command>)
    ensures var nodes := Run(sha, commands).nodes; UniqueIds(nodes) <==> |nodes| <= U64_RANGE
  {
    hide Run, NodeName;
    AlwaysNumbered(sha, commands);
    var nodes := Run(sha, commands).nodes;
    if |nodes| > U64_RANGE {
      assert nodes[0].id == nodes[U64_RANGE].id;
    } else {
      forall i, j | 0 <= i < j < |nodes| ensures nodes[i].id != nodes[j].id && nodes[i].nodeId != nodes[j].nodeId {
        if nodes[i].nodeId == nodes[j].nodeId {
          NodeNameInjective(nodes[i].id, nodes[j].id);
        }
      }
    }
  }

  // ----------------------------------------------------------------------- one-time tokens

  predicate Enrolls(sha: string -> string, s: Registry, c: Command, hash: nat) {
    c.Enroll? && c.hash == hash && ReplyTo(sha, s, c).NodeEnrolled?
  }

  /** How many nodes a token hash has enrolled. */
  function Enrolments(sha: string -> string, commands: seq<Command>, hash: nat): nat {
    if commands == [] then 0
    else
      var before := commands[..|commands| - 1];
      Enrolments(sha, before, hash) + (if Enrolls(sha, Run(sha, before), commands[|commands| - 1], hash) then 1 else 0)
  }

  /** How often a token with this hash has been created. */
  function Creations(commands: seq<Command>, hash: nat): nat {
    if commands == [] then 0
    else
      var c := commands[|commands| - 1];
      Creations(commands[..|commands| - 1], hash) + (if c.CreateToken? && c.hash == hash then 1 else 0)
  }

  function Unused(s: Registry, hash: nat): nat {
    if hash in s.tokens && s.tokens[hash].usedByNodeId.None? then 1 else 0
  }

  lemma StepUnused(sha: string -> string, s: Registry, c: Command, hash: nat)
    ensures Unused(After(sha, s, c), hash) + (if Enrolls(sha, s, c, hash) then 1 else 0)
         <= Unused(s, hash) + (if c.CreateToken? && c.hash == hash then 1 else 0)
  {
    hide NodeName, Position, Fingerprint, Proof, ConnectionRefusal, RotationRefusal, PreviousFingerprint, NewCredential;
  }

  lemma InitiallyUnused(hash: nat)
    ensures Unused(INITIAL, hash) == 0
  {
  }

  /** A token hash enrols at most one node for every token created with it, so at most one when hashes are distinct. */
  lemma {:induction false} TokenEnrolsOnce(sha: string -> string, commands: seq<Command>, hash: nat)
    ensures Enrolments(sha, commands, hash) + Unused(Run(sha, commands), hash) <= Creations(commands, hash)
  {
    hide Unused, Enrolls, After;
    if commands == [] {
      assert Unused(INITIAL, hash) == 0 by {
        InitiallyUnused(hash);
      }
    } else {
      var before := commands[..|commands| - 1];
      TokenEnrolsOnce(sha, before, hash);
      RunStep(sha, commands);
      StepUnused(sha, Run(sha, before), commands[|commands| - 1], hash);
    }
  }

  // --------------------------------------------------------------------------- revocation

  predicate IsRevoked(s: Registry, nodeId: string) {
    var p := Position(s.nodes, nodeId);
    p < |s.nodes| && s.nodes[p].status == Revoked
  }

  lemma {:induction false} PositionStays(a: seq<NodeRecord>, b: seq<NodeRecord>, nodeId: string)
    requires |a| <= |b| && forall i | 0 <= i < |a| :: a[i].nodeId == b[i].nodeId
    requires Position(a, nodeId) < |a|
    ensures Position(b, nodeId) == Position(a, nodeId)
  {
    hide Position;
    var p, q := Position(a, nodeId), Position(b, nodeId);
    assert b[p].nodeId == nodeId;
    assert q < |a| ==> a[q].nodeId == nodeId;
  }

  /** Names stay where they are, and no operation takes a revoked node out of that state. */
  lemma StepKeepsNodes(sha: string -> string, s: Registry, c: Command)
    ensures var t := After(sha, s, c);
            |s.nodes| <= |t.nodes| &&
            (forall i | 0 <= i < |s.nodes| ::
               t.nodes[i].nodeId == s.nodes[i].nodeId && t.nodes[i].id == s.nodes[i].id &&
               (s.nodes[i].status == Revoked ==> t.nodes[i].status == Revoked))
  {
    hide NodeName, Position, Fingerprint, Proof, PreviousFingerprint, NewCredential, EnrollmentRefusal,
         AuthenticatedCredential;
  }

  lemma StepKeepsRevoked(sha: string -> string, s: Registry, c: Command, nodeId: string)
    requires IsRevoked(s, nodeId)
    ensures IsRevoked(After(sha, s, c), nodeId)
  {
    hide After, Position;
    StepKeepsNodes(sha, s, c);
    PositionStays(s.nodes, After(sha, s, c).nodes, nodeId);
  }

  /** A revocation takes effect exactly when the node is known. */
  lemma RevokeTakesEffect(sha: string -> string, s: Registry, nodeId: string, clock: Clock)
    ensures IsRevoked(After(sha, s, Revoke(nodeId, clock)), nodeId) <==>
            ReplyTo(sha, s, Revoke(nodeId, clock)) == Accepted
  {
    hide Position;
    var p, t := Position(s.nodes, nodeId), After(sha, s, Revoke(nodeId, clock));
    if p < |s.nodes| {
      PositionStays(s.nodes, t.nodes, nodeId);
    }
  }

  predicate ConnectsOrRotates(c: Command, nodeId: string) {
    (c.Beat? && c.nodeId == nodeId) || (c.Authenticate? && c.nodeId == nodeId) || (c.Rotate? && c.nodeId == nodeId)
  }

  lemma RevokedIsRefused(sha: string -> string, s: Registry, c: Command, nodeId: string)
    requires IsRevoked(s, nodeId)
    ensures ConnectsOrRotates(c, nodeId) ==> ReplyTo(sha, s, c) == Refused(NodeIsRevoked) && After(sha, s, c) == s
  {
    hide Position, AuthenticatedCredential;
  }

  /** After a revocation the node stays revoked, and every heartbeat, login and rotation for it is refused. */
  lemma {:induction false} RevokedForever(sha: string -> string, s: Registry, later: seq<Command>, c: Command,
                                          nodeId: string)
    requires IsRevoked(s, nodeId)
    ensures IsRevoked(RunFrom(sha, s, later), nodeId)
    ensures ConnectsOrRotates(c, nodeId) ==> ReplyTo(sha, RunFrom(sha, s, later), c) == Refused(NodeIsRevoked)
    ensures ConnectsOrRotates(c, nodeId) ==> After(sha, RunFrom(sha, s, later), c) == RunFrom(sha, s, later)
  {
    hide Position, IsRevoked, After;
    if later != [] {
      RevokedForever(sha, s, later[..|later| - 1], c, nodeId);
      StepKeepsRevoked(sha, RunFrom(sha, s, later[..|later| - 1]), later[|later| - 1], nodeId);
    }
    RevokedIsRefused(sha, RunFrom(sha, s, later), c, nodeId);
  }

  // --------------------------------------------------------------------------- connections

  /** Why a node's status changes: an unexpired credential of that node was presented, or it was revoked. */
  lemma StatusMoves(sha: string -> string, s: Registry, c: Command, i: nat)
    requires i < |s.nodes|
    ensures var node, node' := s.nodes[i], After(sha, s, c).nodes[i];
            node'.status == node.status || (node'.status == Revoked && c.Revoke? && c.nodeId == node.nodeId) ||
            (node'.status == Online && node.status != Revoked && (c.Beat? || c.Authenticate?) &&
             c.nodeId == node.nodeId &&
             exists credential | credential in s.credentials ::
               Presents(credential, node.id, c.proof, c.fingerprint) && c.clock.now < credential.expiresAt)
  {
    hide NodeName, Position, Fingerprint, Proof, PreviousFingerprint, NewCredential, EnrollmentRefusal,
         AuthenticatedCredential, Presents;
    if c.Beat? || c.Authenticate? {
      var p := Position(s.nodes, c.nodeId);
      if p < |s.nodes| {
        var found := AuthenticatedCredential(s.credentials, s.nodes[p].id, c.proof, c.fingerprint);
      }
    }
  }

  // ----------------------------------------------------------------------- credential chains

  /** The credentials of one node, oldest first. */
  function Credentials(credentials: seq<Credential>, node: nat): seq<Credential> {
    if credentials == [] then []
    else
      var c, before := credentials[|credentials| - 1], Credentials(credentials[..|credentials| - 1], node);
      if c.nodeId == node then before + [c] else before
  }

  /** The first credential comes from enrolment, and every other one names the one before it. */
  predicate Chained(cs: seq<Credential>) {
    cs == [] ||
    var n := |cs| - 1;
    Chained(cs[..n]) && if n == 0 then cs[n].rotatedFrom.None? else cs[n].rotatedFrom == Some(cs[n - 1].fingerprint)
  }

  /** Reading a chain link by link. */
  lemma {:induction false} ChainLink(cs: seq<Credential>, i: nat)
    requires Chained(cs) && i < |cs|
    ensures if i == 0 then cs[i].rotatedFrom.None? else cs[i].rotatedFrom == Some(cs[i - 1].fingerprint)
  {
    if i < |cs| - 1 {
      ChainLink(cs[..|cs| - 1], i);
    }
  }

  predicate NoLater(a: Clock, b: Clock) {
    a.now <= b.now && a.unixSecs <= b.unixSecs
  }

  /** Neither clock goes backwards. */
  predicate Timely(commands: seq<Command>) {
    forall i, j | 0 <= i < j < |commands| :: NoLater(commands[i].clock, commands[j].clock)
  }

  predicate MadeBy(credentials: seq<Credential>, clock: Clock) {
    forall i | 0 <= i < |credentials| ::
      credentials[i].createdAt <= clock.now && credentials[i].createdAtUnixSecs <= clock.unixSecs
  }

  predicate HasNode(s: Registry, node: nat) {
    exists i | 0 <= i < |s.nodes| :: s.nodes[i].id == node
  }

  /** The chain of one node, and that its end is what the registry takes for the latest credential. */
  predicate Good(s: Registry, node: nat) {
    var cs := Credentials(s.credentials, node);
    Chained(cs) && (cs != [] <==> HasNode(s, node)) &&
    LatestCredential(s.credentials, node) == if cs == [] then None else Some(cs[|cs| - 1])
  }

  lemma {:induction false} Append(credentials: seq<Credential>, c: Credential, node: nat)
    ensures Credentials(credentials + [c], node)
         == if c.nodeId == node then Credentials(credentials, node) + [c] else Credentials(credentials, node)
    ensures var best := LatestCredential(credentials, node);
            LatestCredential(credentials + [c], node)
            == if c.nodeId == node && (best.None? || NotLater(best.value, c)) then Some(c) else best
  {
    assert (credentials + [c])[..|credentials|] == credentials;
  }

  lemma {:induction false} CredentialsMadeBy(credentials: seq<Credential>, node: nat, clock: Clock)
    requires MadeBy(credentials, clock)
    ensures MadeBy(Credentials(credentials, node), clock)
  {
    if credentials != [] {
      CredentialsMadeBy(credentials[..|credentials| - 1], node, clock);
    }
  }

  /** The credential that an operation adds, if any. */
  function Added(sha: string -> string, s: Registry, c: Command): Option<Credential> {
    match c
    case Enroll(hash, _, _, secret, clock) =>
      if EnrollmentRefusal(s, hash, clock.now).Some? then None
      else Some(NewCredential(sha, s.nextNodeId, NodeName(s.nextNodeId), secret, clock, None))
    case Rotate(nodeId, secret, clock) =>
      if RotationRefusal(s, nodeId).Some? then None
      else
        var id := s.nodes[Position(s.nodes, nodeId)].id;
        Some(NewCredential(sha, id, nodeId, secret, clock, PreviousFingerprint(s, id)))
    case _ => None
  }

  lemma StepAdds(sha: string -> string, s: Registry, c: Command, node: nat)
    ensures var t, added := After(sha, s, c), Added(sha, s, c);
            t.credentials == (if added.Some? then s.credentials + [added.value] else s.credentials) &&
            (HasNode(t, node) <==> HasNode(s, node) || (c.Enroll? && added.Some? && added.value.nodeId == node)) &&
            (added.Some? ==>
               added.value.createdAt == c.clock.now && added.value.createdAtUnixSecs == c.clock.unixSecs) &&
            (added.Some? && c.Enroll? ==> added.value.nodeId == s.nextNodeId && added.value.rotatedFrom == None) &&
            (added.Some? && !c.Enroll? ==>
               HasNode(s, added.value.nodeId) && added.value.rotatedFrom == PreviousFingerprint(s, added.value.nodeId))
  {
    hide NodeName, Position, Fingerprint, Proof, PreviousFingerprint, EnrollmentRefusal, AuthenticatedCredential;
    StepKeepsNodes(sha, s, c);
    var t := After(sha, s, c);
    assert c.Enroll? && Added(sha, s, c).Some? ==> t.nodes[|s.nodes|].id == s.nextNodeId;
    assert HasNode(s, node) ==> HasNode(t, node) by {
      if HasNode(s, node) {
        var i :| 0 <= i < |s.nodes| && s.nodes[i].id == node;
        assert t.nodes[i].id == node;
      }
    }
  }

  /** One more credential continues the chain if it names the latest one, when there is one, and is no earlier. */
  lemma {:induction false} ChainContinues(credentials: seq<Credential>, c: Credential)
    requires var cs := Credentials(credentials, c.nodeId);
             Chained(cs) && c.rotatedFrom == (if cs == [] then None else Some(cs[|cs| - 1].fingerprint)) &&
             LatestCredential(credentials, c.nodeId) == (if cs == [] then None else Some(cs[|cs| - 1])) &&
             (cs != [] ==> NotLater(cs[|cs| - 1], c))
    ensures var cs := Credentials(credentials + [c], c.nodeId);
            Chained(cs) && cs != [] && LatestCredential(credentials + [c], c.nodeId) == Some(cs[|cs| - 1])
  {
    hide Credentials, LatestCredential, NotLater;
    Append(credentials, c, c.nodeId);
    var cs, all := Credentials(credentials, c.nodeId), Credentials(credentials + [c], c.nodeId);
    assert all[..|all| - 1] == cs;
  }

  lemma NodesGrow(sha: string -> string, s: Registry, c: Command)
    ensures |s.nodes| <= |After(sha, s, c).nodes|
    ensures Added(sha, s, c).Some? && c.Enroll? ==> |After(sha, s, c).nodes| == |s.nodes| + 1
  {
    hide NodeName, Position, Fingerprint, Proof, PreviousFingerprint, NewCredential, EnrollmentRefusal,
         AuthenticatedCredential;
  }

  lemma FreshId(s: Registry)
    requires Numbered(s) && |s.nodes| < U64_RANGE
    ensures !HasNode(s, s.nextNodeId)
  {
    hide NodeName;
  }

  lemma StepGood(sha: string -> string, s: Registry, c: Command, node: nat)
    requires Good(s, node) && Numbered(s) && |After(sha, s, c).nodes| <= U64_RANGE && MadeBy(s.credentials, c.clock)
    ensures Good(After(sha, s, c), node)
  {
    hide After, NewCredential, Numbered, EnrollmentRefusal, RotationRefusal, NodeName, Position, Credentials,
         LatestCredential, HasNode, Added, Chained;
    StepAdds(sha, s, c, node);
    var added, t := Added(sha, s, c), After(sha, s, c);
    if added.Some? && added.value.nodeId == node {
      var cs := Credentials(s.credentials, node);
      CredentialsMadeBy(s.credentials, node, c.clock);
      assert cs != [] ==> cs[|cs| - 1].createdAt <= c.clock.now && cs[|cs| - 1].createdAtUnixSecs <= c.clock.unixSecs;
      NodesGrow(sha, s, c);
      if c.Enroll? {
        FreshId(s);
        assert cs == [];
      } else {
        assert HasNode(s, node);
        assert cs != [];
      }
      ChainContinues(s.credentials, added.value);
    } else if added.Some? {
      Append(s.credentials, added.value, node);
    }
  }

  lemma StepMadeBy(sha: string -> string, s: Registry, c: Command, later: Clock)
    requires MadeBy(s.credentials, c.clock) && NoLater(c.clock, later)
    ensures MadeBy(After(sha, s, c).credentials, later)
  {
    hide After, Added, PreviousFingerprint, HasNode;
    StepAdds(sha, s, c, 0);
  }

  lemma {:induction false} RunMadeBy(sha: string -> string, commands: seq<Command>, later: Clock)
    requires Timely(commands) && forall i | 0 <= i < |commands| :: NoLater(commands[i].clock, later)
    ensures MadeBy(Run(sha, commands).credentials, later)
  {
    hide After;
    if commands == [] {
      assert Run(sha, commands) == INITIAL;
    } else {
      var before, c := commands[..|commands| - 1], commands[|commands| - 1];
      RunMadeBy(sha, before, c.clock);
      RunStep(sha, commands);
      hide MadeBy;
      StepMadeBy(sha, Run(sha, before), c, later);
    }
  }

  lemma InitiallyGood(node: nat)
    ensures Good(INITIAL, node)
  {
  }

  /**
   * When the clocks do not go backwards and ids have not wrapped around, every
   * node's credentials form one chain: the first was given at enrolment, and
   * each later one names the one immediately before it.
   */
  lemma {:induction false} CredentialsFormAChain(sha: string -> string, commands: seq<Command>, node: nat)
    requires Timely(commands) && |Run(sha, commands).nodes| <= U64_RANGE
    ensures Good(Run(sha, commands), node)
    decreases |commands|
  {
    hide Good, After, Numbered, MadeBy;
    if commands == [] {
      InitiallyGood(node);
    } else {
      var before, c := commands[..|commands| - 1], commands[|commands| - 1];
      RunStep(sha, commands);
      NodesGrow(sha, Run(sha, before), c);
      CredentialsFormAChain(sha, before, node);
      AlwaysNumbered(sha, before);
      RunMadeBy(sha, before, c.clock);
      StepGood(sha, Run(sha, before), c, node);
    }
  }
}
