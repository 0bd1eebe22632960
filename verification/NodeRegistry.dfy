/** The node registry: tokens, nodes, credentials and heartbeats, updated in place. */
module NodeRegistry {
  import opened Wrappers
  import opened Nodes

  class NodeEnrollmentRegistry {
    const sha: string -> string
    var tokensByHash: map<nat, EnrollmentToken>
    var nodes: seq<NodeRecord>
    var credentials: seq<Credential>
    var heartbeats: seq<Heartbeat>
    var nextTokenId: nat
    var nextNodeId: nat

    constructor (sha: string -> string)
      ensures this.sha == sha && Contents() == INITIAL
    {
      this.sha := sha;
      tokensByHash, nodes, credentials, heartbeats := map[], [], [], [];
      nextTokenId, nextNodeId := 1, 1;
    }

    ghost function Contents(): Registry
      reads this
    {
      Registry(tokensByHash, nodes, credentials, heartbeats, nextTokenId, nextNodeId)
    }

    method CreateEnrollmentToken(hash: nat, userId: nat, ttl: nat, clock: Clock) returns (id: nat)
      modifies this
      ensures var c := CreateToken(hash, userId, ttl, clock);
              Contents() == After(sha, old(Contents()), c) && TokenCreated(id) == ReplyTo(sha, old(Contents()), c)
    {
      id := nextTokenId;
      nextTokenId := Next(nextTokenId);
      tokensByHash := tokensByHash[hash := EnrollmentToken(id, userId, clock.now + ttl, None)];
    }

    method EnrollNode(hash: nat, displayName: string, host: HostInfo, secret: string, clock: Clock)
      returns (reply: Reply)
      modifies this
      ensures var c := Enroll(hash, displayName, host, secret, clock);
              Contents() == After(sha, old(Contents()), c) && reply == ReplyTo(sha, old(Contents()), c)
    {
      hide NodeName, Fingerprint, Proof;
      if hash !in tokensByHash {
        return EnrollmentRefused(InvalidToken);
      }
      var token := tokensByHash[hash];
      if token.usedByNodeId.Some? {
        return EnrollmentRefused(TokenUsed);
      }
      if token.expiresAt <= clock.now {
        return EnrollmentRefused(TokenExpired);
      }
      var id := nextNodeId;
      nextNodeId := Next(nextNodeId);
      var nodeId := NodeName(id);
      tokensByHash := tokensByHash[hash := token.(usedByNodeId := Some(id))];
      nodes := nodes + [NodeRecord(id, nodeId, displayName, host, Enrolled)];
      credentials := credentials + [NewCredential(sha, id, nodeId, secret, clock, None)];
      heartbeats := heartbeats + [Heartbeat(id, Enrolled, clock.now)];
      return NodeEnrolled(nodeId, Fingerprint(sha, secret));
    }

    method RecordHeartbeat(nodeId: string, fingerprint: string, proof: string, host: HostInfo, clock: Clock)
      returns (reply: Reply)
      modifies this
      ensures var c := Beat(nodeId, fingerprint, proof, host, clock);
              Contents() == After(sha, old(Contents()), c) && reply == ReplyTo(sha, old(Contents()), c)
    {
      hide Position, AuthenticatedCredential;
      var p := Position(nodes, nodeId);
      if p == |nodes| {
        return Refused(UnknownNode);
      }
      if nodes[p].status == Revoked {
        return Refused(NodeIsRevoked);
      }
      var credential := AuthenticatedCredential(credentials, nodes[p].id, proof, fingerprint);
      if credential.None? {
        return Refused(InvalidCredential);
      }
      if credential.value.expiresAt <= clock.now {
        return Refused(CredentialExpired);
      }
      nodes := nodes[p := nodes[p].(host := host, status := Online)];
      heartbeats := heartbeats + [Heartbeat(nodes[p].id, Online, clock.now)];
      return Accepted;
    }

    method AuthenticateTransport(nodeId: string, fingerprint: string, proof: string, agentVersion: string, clock: Clock)
      returns (reply: Reply)
      modifies this
      ensures var c := Authenticate(nodeId, fingerprint, proof, agentVersion, clock);
              Contents() == After(sha, old(Contents()), c) && reply == ReplyTo(sha, old(Contents()), c)
    {
      hide Position, AuthenticatedCredential;
      var p := Position(nodes, nodeId);
      if p == |nodes| {
        return Refused(UnknownNode);
      }
      if nodes[p].status == Revoked {
        return Refused(NodeIsRevoked);
      }
      var credential := AuthenticatedCredential(credentials, nodes[p].id, proof, fingerprint);
      if credential.None? {
        return Refused(InvalidCredential);
      }
      if credential.value.expiresAt <= clock.now {
        return Refused(CredentialExpired);
      }
      nodes := nodes[p := nodes[p].(host := nodes[p].host.(agentVersion := agentVersion), status := Online)];
      heartbeats := heartbeats + [Heartbeat(nodes[p].id, Online, clock.now)];
      return Accepted;
    }

    method RevokeNode(nodeId: string, clock: Clock) returns (reply: Reply)
      modifies this
      ensures var c := Revoke(nodeId, clock);
              Contents() == After(sha, old(Contents()), c) && reply == ReplyTo(sha, old(Contents()), c)
    {
      hide Position;
      var p := Position(nodes, nodeId);
      if p == |nodes| {
        return Refused(UnknownNode);
      }
      nodes := nodes[p := nodes[p].(status := Revoked)];
      return Accepted;
    }

    method RotateCredential(nodeId: string, secret: string, clock: Clock) returns (reply: Reply)
      modifies this
      ensures var c := Rotate(nodeId, secret, clock);
              Contents() == After(sha, old(Contents()), c) && reply == ReplyTo(sha, old(Contents()), c)
    {
      hide Position, LatestCredential, Fingerprint, Proof;
      var p := Position(nodes, nodeId);
      if p == |nodes| {
        return Refused(UnknownNode);
      }
      if nodes[p].status == Revoked {
        return Refused(NodeIsRevoked);
      }
      var latest := LatestCredential(credentials, nodes[p].id);
      var previous := if latest.Some? then Some(latest.value.fingerprint) else None;
      credentials := credentials + [NewCredential(sha, nodes[p].id, nodeId, secret, clock, previous)];
      return CredentialRotated(Fingerprint(sha, secret), previous);
    }
  }
}
