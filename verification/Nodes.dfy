/**
 * Node enrolment: one-time tokens, nodes, their credentials and heartbeats, and
 * what every operation of the registry does to them. Each operation holds the
 * registry's lock, so it is one step. SHA-256 is a function about which nothing
 * is assumed; times, secrets and token hashes are inputs.
 */
module Nodes {
  import opened Integers
  import opened Wrappers
  import D = Decimal

  const NODE_CREDENTIAL_TTL: nat := 90 * 24 * 60 * 60

  datatype EnrollmentToken = EnrollmentToken(id: nat, createdByUserId: nat, expiresAt: nat, usedByNodeId: Option<nat>)

  datatype NodeStatus = Enrolled | Online | Offline | Revoked

  datatype HostInfo = HostInfo(hostname: string, os: string, architecture: string, agentVersion: string)

  datatype NodeRecord = NodeRecord(id: nat, nodeId: string, displayName: string, host: HostInfo, status: NodeStatus)

  datatype Credential = Credential(
    nodeId: nat,
    fingerprint: string,
    proof: string,
    createdAt: nat,
    createdAtUnixSecs: int,
    expiresAt: nat,
    rotatedFrom: Option<string>)

  datatype Heartbeat = Heartbeat(nodeId: nat, status: NodeStatus, receivedAt: nat)

  datatype Registry = Registry(
    tokens: map<nat, EnrollmentToken>,
    nodes: seq<NodeRecord>,
    credentials: seq<Credential>,
    heartbeats: seq<Heartbeat>,
    nextTokenId: nat,
    nextNodeId: nat)

  const INITIAL := Registry(map[], [], [], [], 1, 1)

  /** The clocks, monotonic and wall, at the time of an operation. */
  datatype Clock = Clock(now: nat, unixSecs: int)

  datatype Command =
    | CreateToken(hash: nat, userId: nat, ttl: nat, clock: Clock)
    | Enroll(hash: nat, displayName: string, host: HostInfo, secret: string, clock: Clock)
    | Beat(nodeId: string, fingerprint: string, proof: string, host: HostInfo, clock: Clock)
    | Authenticate(nodeId: string, fingerprint: string, proof: string, agentVersion: string, clock: Clock)
    | Revoke(nodeId: string, clock: Clock)
    | Rotate(nodeId: string, secret: string, clock: Clock)

  datatype EnrollmentError = InvalidToken | TokenUsed | TokenExpired
  datatype ConnectionError = UnknownNode | InvalidCredential | CredentialExpired | NodeIsRevoked

  datatype Reply =
    | TokenCreated(id: nat)
    | NodeEnrolled(nodeId: string, fingerprint: string)
    | EnrollmentRefused(enrollmentError: EnrollmentError)
    | Accepted
    | CredentialRotated(fingerprint: string, previous: Option<string>)
    | Refused(error: ConnectionError)

  function Next(counter: nat): nat {
    (counter + 1) % U64_RANGE
  }

  function NodeName(id: nat): string {
    "node-" + D.Print(id)
  }

  function Fingerprint(sha: string -> string, secret: string): string {
    "sha256:" + sha(secret)
  }

  function Proof(sha: string -> string, nodeId: string, secret: string): string {
    Fingerprint(sha, "sunbolt-agent-auth-v1\0" + nodeId + "\0" + secret)
  }

  /** The index of the first node of that name, or the number of nodes. */
  function Position(nodes: seq<NodeRecord>, nodeId: string): (p: nat)
    ensures p <= |nodes|
    ensures p < |nodes| ==> nodes[p].nodeId == nodeId
    ensures forall i | 0 <= i < p :: nodes[i].nodeId != nodeId
  {
    if nodes == [] || nodes[0].nodeId == nodeId then 0 else 1 + Position(nodes[1..], nodeId)
  }

  predicate Presents(c: Credential, node: nat, proof: string, fingerprint: string) {
    c.nodeId == node && c.fingerprint == fingerprint && c.proof == proof
  }

  /** The first credential of the node with this proof and fingerprint. */
  function AuthenticatedCredential(credentials: seq<Credential>, node: nat, proof: string, fingerprint: string)
    : (r: Option<Credential>)
    ensures r.Some? ==> r.value in credentials && Presents(r.value, node, proof, fingerprint)
    ensures r.None? ==> forall i | 0 <= i < |credentials| :: !Presents(credentials[i], node, proof, fingerprint)
  {
    if credentials == [] then None
    else if Presents(credentials[0], node, proof, fingerprint) then Some(credentials[0])
    else AuthenticatedCredential(credentials[1..], node, proof, fingerprint)
  }

  /** Credentials are compared by creation time, then wall time, then whether they come from a rotation. */
  predicate NotLater(a: Credential, b: Credential) {
    a.createdAt < b.createdAt ||
    (a.createdAt == b.createdAt &&
     (a.createdAtUnixSecs < b.createdAtUnixSecs ||
      (a.createdAtUnixSecs == b.createdAtUnixSecs && (a.rotatedFrom.None? || b.rotatedFrom.Some?))))
  }

  /** A node's latest credential; of several equally late ones, the last. */
  function LatestCredential(credentials: seq<Credential>, node: nat): Option<Credential> {
    if credentials == [] then None
    else
      var c, best := credentials[|credentials| - 1], LatestCredential(credentials[..|credentials| - 1], node);
      if c.nodeId != node then best
      else if best.None? || NotLater(best.value, c) then Some(c)
      else best
  }

  /** Why a connection of the node is refused, if it is. */
  function ConnectionRefusal(s: Registry, nodeId: string, fingerprint: string, proof: string, now: nat)
    : Option<ConnectionError>
  {
    var p := Position(s.nodes, nodeId);
    if p == |s.nodes| then Some(UnknownNode)
    else if s.nodes[p].status == Revoked then Some(NodeIsRevoked)
    else
      match AuthenticatedCredential(s.credentials, s.nodes[p].id, proof, fingerprint)
      case None => Some(InvalidCredential)
      case Some(credential) => if credential.expiresAt <= now then Some(CredentialExpired) else None
  }

  function EnrollmentRefusal(s: Registry, hash: nat, now: nat): Option<EnrollmentError> {
    if hash !in s.tokens then Some(InvalidToken)
    else if s.tokens[hash].usedByNodeId.Some? then Some(TokenUsed)
    else if s.tokens[hash].expiresAt <= now then Some(TokenExpired)
    else None
  }

  function RotationRefusal(s: Registry, nodeId: string): Option<ConnectionError> {
    var p := Position(s.nodes, nodeId);
    if p == |s.nodes| then Some(UnknownNode)
    else if s.nodes[p].status == Revoked then Some(NodeIsRevoked)
    else None
  }

  function PreviousFingerprint(s: Registry, node: nat): Option<string> {
    match LatestCredential(s.credentials, node)
    case None => None
    case Some(c) => Some(c.fingerprint)
  }

  function NewCredential(sha: string -> string, id: nat, nodeId: string, secret: string, clock: Clock,
                         rotatedFrom: Option<string>): Credential
  {
    Credential(id, Fingerprint(sha, secret), Proof(sha, nodeId, secret), clock.now, clock.unixSecs,
               clock.now + NODE_CREDENTIAL_TTL, rotatedFrom)
  }

  function Connected(s: Registry, p: nat, host: HostInfo, now: nat): Registry
    requires p < |s.nodes|
  {
    s.(nodes := s.nodes[p := s.nodes[p].(host := host, status := Online)],
       heartbeats := s.heartbeats + [Heartbeat(s.nodes[p].id, Online, now)])
  }

  /** The registry after an operation. */
  function After(sha: string -> string, s: Registry, c: Command): Registry {
    match c
    case CreateToken(hash, userId, ttl, clock) =>
      s.(tokens := s.tokens[hash := EnrollmentToken(s.nextTokenId, userId, clock.now + ttl, None)],
         nextTokenId := Next(s.nextTokenId))
    case Enroll(hash, displayName, host, secret, clock) =>
      if EnrollmentRefusal(s, hash, clock.now).Some? then s
      else
        var id := s.nextNodeId;
        Registry(
          s.tokens[hash := s.tokens[hash].(usedByNodeId := Some(id))],
          s.nodes + [NodeRecord(id, NodeName(id), displayName, host, Enrolled)],
          s.credentials + [NewCredential(sha, id, NodeName(id), secret, clock, None)],
          s.heartbeats + [Heartbeat(id, Enrolled, clock.now)],
          s.nextTokenId,
          Next(id))
    case Beat(nodeId, fingerprint, proof, host, clock) =>
      if ConnectionRefusal(s, nodeId, fingerprint, proof, clock.now).Some? then s
      else Connected(s, Position(s.nodes, nodeId), host, clock.now)
    case Authenticate(nodeId, fingerprint, proof, agentVersion, clock) =>
      if ConnectionRefusal(s, nodeId, fingerprint, proof, clock.now).Some? then s
      else
        var p := Position(s.nodes, nodeId);
        Connected(s, p, s.nodes[p].host.(agentVersion := agentVersion), clock.now)
    case Revoke(nodeId, _) =>
      var p := Position(s.nodes, nodeId);
      if p == |s.nodes| then s else s.(nodes := s.nodes[p := s.nodes[p].(status := Revoked)])
    case Rotate(nodeId, secret, clock) =>
      if RotationRefusal(s, nodeId).Some? then s
      else
        var id := s.nodes[Position(s.nodes, nodeId)].id;
        s.(credentials := s.credentials + [NewCredential(sha, id, nodeId, secret, clock, PreviousFingerprint(s, id))])
  }

  /** What the caller of an operation is told. */
  function ReplyTo(sha: string -> string, s: Registry, c: Command): Reply {
    match c
    case CreateToken(_, _, _, _) => TokenCreated(s.nextTokenId)
    case Enroll(hash, _, _, secret, clock) =>
      (match EnrollmentRefusal(s, hash, clock.now)
       case Some(error) => EnrollmentRefused(error)
       case None => NodeEnrolled(NodeName(s.nextNodeId), Fingerprint(sha, secret)))
    case Beat(nodeId, fingerprint, proof, _, clock) =>
      (match ConnectionRefusal(s, nodeId, fingerprint, proof, clock.now)
       case Some(error) => Refused(error)
       case None => Accepted)
    case Authenticate(nodeId, fingerprint, proof, _, clock) =>
      (match ConnectionRefusal(s, nodeId, fingerprint, proof, clock.now)
       case Some(error) => Refused(error)
       case None => Accepted)
    case Revoke(nodeId, _) =>
      if Position(s.nodes, nodeId) == |s.nodes| then Refused(UnknownNode) else Accepted
    case Rotate(nodeId, secret, _) =>
      (match RotationRefusal(s, nodeId)
       case Some(error) => Refused(error)
       case None =>
         CredentialRotated(Fingerprint(sha, secret), PreviousFingerprint(s, s.nodes[Position(s.nodes, nodeId)].id)))
  }
}
