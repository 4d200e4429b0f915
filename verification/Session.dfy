/** What each side of the peer handshake does with what it receives. */
module Session {
  import opened Prelude
  import opened Contacts
  import opened SessionWire
  import opened SessionMessages
  import R = Revocation
  import G = RevocationGossip

  // ---------- what is not computed here ----------

  /** Device signatures: what a key signs verifies for it. */
  datatype Scheme = Scheme(sign: (Key, Bytes) -> Bytes, verifies: (Key, Bytes, Bytes) -> bool)

  ghost predicate Correct(s: Scheme) {
    forall key, message :: IsProof(s.sign(key, message)) && s.verifies(key, message, s.sign(key, message))
  }

  type Signatures = s: Scheme | Correct(s) witness Scheme((_, _) => seq(PROOF_BYTES, _ => 0), (_, _, _) => true)

  const DEVICE: Signatures

  /** A device's reachability claims: signing may refuse, and says what it was asked to. */
  type ClaimSigner = f: (SignedMembership, Key, NodeId, Address, nat) -> Option<Claim> |
    forall m, key, subject, address, now :: f(m, key, subject, address, now).Some? ==>
      var claim := f(m, key, subject, address, now).value;
      claim.subject == subject && claim.reporter == NODE_OF_KEY(key) && claim.address == address
    witness ((_, _, _, _, _) => None)

  const SIGN_CLAIM: ClaimSigner
  const CLAIM_VERIFIES: (Claim, Key, nat) -> bool

  // ---------- one run's parameters ----------

  /** The local device on one connection: `binding` is the connection's exporter
      value and `remote` the socket at its other end. */
  datatype Setup = Setup(
    contact: Contact, key: Key, root: Key, revocations: R.SignedRevocations, now: nat, binding: Bytes, remote: Address)

  predicate TypedSetup(s: Setup) {
    |s.binding| == EXPORTER_BYTES && TypedAddress(s.remote)
  }

  datatype Peer = Peer(contact: Contact, observedLocal: Address, expiresAt: nat, claim: Claim)

  function NodeOf(contact: Contact): NodeId {
    contact.endpoint.record.node
  }

  function DeviceKey(contact: Contact): Key {
    contact.membership.certificate.deviceKey
  }

  function HelloSigned(message: Bytes): Bytes {
    SessionDomains();
    Domain(CLIENT_HELLO_PROOF, message)
  }

  function ServerSigned(message: Bytes): Bytes {
    SessionDomains();
    Domain(SERVER_PROOF, message)
  }

  function ClientSigned(message: Bytes): Bytes {
    SessionDomains();
    Domain(CLIENT_PROOF_NAME, message)
  }

  function Require(condition: bool, error: SessionError): Result<(), SessionError> {
    if condition then Ok(()) else Err(error)
  }

  // ---------- the outbound side ----------

  function OutboundTerms(s: Setup, nonce: Bytes, hello: ServerHello): Terms {
    Terms(s.contact, hello.contact, nonce, hello.serverNonce, s.binding, hello.observed)
  }

  function CheckLocal(s: Setup): Result<(), SessionError> {
    var _ :- Require(G.VerifySnapshot(s.revocations, s.root).Ok?, UnauthorizedContact);
    Require(Verify(s.contact, s.root, s.now), UnauthorizedContact)
  }

  function StartOutbound(s: Setup, expected: Contact, nonce: Bytes): Result<Bytes, SessionError>
    requires IsNonce(nonce)
  {
    var _ :- CheckLocal(s);
    var _ :- Require(VerifyHistorical(expected, s.root), UnauthorizedContact);
    var _ :- Require(NodeOf(s.contact) == NODE_OF_KEY(s.key) && !R.Contains(s.revocations, NODE_OF_KEY(s.key))
                     && !R.Contains(s.revocations, NodeOf(expected)), UnauthorizedContact);
    var transcript :- HelloTranscript(s.contact, nonce, s.binding);
    EncodeClientHello(ClientHello(s.contact, nonce, DEVICE.sign(s.key, HelloSigned(transcript))))
  }

  /** Everything that is checked before the client signs its proof. */
  function CheckServer(s: Setup, expected: Contact, nonce: Bytes, hello: ServerHello): (result: Result<Bytes, SessionError>)
    requires TypedSetup(s) && IsNonce(nonce) && TypedServerHello(hello)
    ensures result.Ok? ==> Transcript(OutboundTerms(s, nonce, hello)) == result
  {
    hide Verify, G.VerifySnapshot, Transcript;
    var node := NodeOf(hello.contact);
    var _ :- Require(Verify(hello.contact, s.root, s.now), UnauthorizedContact);
    var _ :- Require(hello.clientNonce == nonce && node == NodeOf(expected)
                     && hello.contact.endpoint.record.transportKey == expected.endpoint.record.transportKey
                     && !R.Contains(s.revocations, node), UnexpectedServer);
    var transcript :- Transcript(OutboundTerms(s, nonce, hello));
    var _ :- Require(KEY_DECODES(DeviceKey(hello.contact)), UnauthorizedContact);
    var _ :- Require(DEVICE.verifies(DeviceKey(hello.contact), ServerSigned(transcript), hello.signature), InvalidProof);
    var _ :- Require(CLAIM_VERIFIES(hello.claim, s.root, s.now), UnauthorizedContact);
    var _ :- Require(hello.claim.subject == NODE_OF_KEY(s.key) && hello.claim.reporter == node && hello.claim.address == hello.observed,
                     UnauthorizedContact);
    Ok(transcript)
  }

  /** The server's hello accepted, and what the client then signs. */
  function AcceptServer(s: Setup, expected: Contact, nonce: Bytes, frame: Bytes): (result: Result<(ServerHello, Bytes), SessionError>)
    requires TypedSetup(s) && IsNonce(nonce)
    ensures result.Ok? ==> DecodeServerHello(frame) == Ok(result.value.0) && CheckServer(s, expected, nonce, result.value.0).Ok?
    ensures result.Ok? ==> TypedServerHello(result.value.0) && ClientBytes(s, nonce, result.value.0) == Ok(result.value.1)
  {
    hide DecodeServerHello, CheckServer, Transcript, ExtendedTranscript;
    var hello :- DecodeServerHello(frame);
    var _ :- CheckServer(s, expected, nonce, hello);
    var extended :- ClientBytes(s, nonce, hello);
    Ok((hello, extended))
  }

  /** The bytes the client's proof signs: the transcript and the server's address. */
  function ClientBytes(s: Setup, nonce: Bytes, hello: ServerHello): Result<Bytes, SessionError>
    requires TypedSetup(s) && IsNonce(nonce) && TypedServerHello(hello)
  {
    var transcript :- Transcript(OutboundTerms(s, nonce, hello));
    ExtendedTranscript(transcript, s.remote)
  }

  function ReplyToServer(s: Setup, hello: ServerHello, extended: Bytes): Result<Bytes, SessionError>
    requires TypedSetup(s) && TypedServerHello(hello)
  {
    match SIGN_CLAIM(s.contact.membership, s.key, NodeOf(hello.contact), s.remote, s.now)
    case None => Err(UnauthorizedContact)
    case Some(claim) => EncodeClientProof(ClientProof(hello.serverNonce, s.remote, claim, DEVICE.sign(s.key, ClientSigned(extended))))
  }

  function FinishOutbound(nonce: Bytes, hello: ServerHello, frame: Bytes): Result<Peer, SessionError> {
    var acknowledged :- DecodeServerAck(frame);
    var _ :- Require(acknowledged == nonce, InvalidProof);
    Ok(Peer(hello.contact, hello.observed, hello.contact.endpoint.record.expiresAt, hello.claim))
  }

  // ---------- the inbound side ----------

  datatype Answer = Answer(hello: ClientHello, nonce: Bytes)

  function InboundTerms(s: Setup, answer: Answer): Terms {
    Terms(answer.hello.contact, s.contact, answer.hello.nonce, answer.nonce, s.binding, s.remote)
  }

  function StartInbound(s: Setup): Result<(), SessionError> {
    var _ :- CheckLocal(s);
    Require(NodeOf(s.contact) == NODE_OF_KEY(s.key) && !R.Contains(s.revocations, NODE_OF_KEY(s.key)), UnauthorizedContact)
  }

  function CheckClient(s: Setup, hello: ClientHello): (result: Result<(), SessionError>)
    requires TypedSetup(s) && TypedClientHello(hello)
    ensures result.Ok? ==> Verify(hello.contact, s.root, s.now) && !R.Contains(s.revocations, NodeOf(hello.contact))
  {
    hide Verify;
    var _ :- Require(Verify(hello.contact, s.root, s.now), UnauthorizedContact);
    var _ :- Require(!R.Contains(s.revocations, NodeOf(hello.contact)), Revoked);
    var _ :- Require(KEY_DECODES(DeviceKey(hello.contact)), UnauthorizedContact);
    var transcript :- HelloTranscript(hello.contact, hello.nonce, s.binding);
    Require(DEVICE.verifies(DeviceKey(hello.contact), HelloSigned(transcript), hello.signature), InvalidProof)
  }

  /** The hello's signature verifies for the contact's device, over the hello domain
      and the bytes for this contact, nonce and connection. */
  predicate HelloProven(s: Setup, hello: ClientHello) {
    && HelloTranscript(hello.contact, hello.nonce, s.binding).Ok?
    && DEVICE.verifies(hello.contact.membership.certificate.deviceKey,
                       HelloSigned(HelloTranscript(hello.contact, hello.nonce, s.binding).value), hello.signature)
  }

  /** What an inbound call checks before it answers. */
  lemma CheckClientExactly(s: Setup, hello: ClientHello)
    requires TypedSetup(s) && TypedClientHello(hello)
    ensures CheckClient(s, hello).Ok? <==>
            && Verify(hello.contact, s.root, s.now) && hello.contact.endpoint.record.node !in s.revocations.list.revokedNodes
            && KEY_DECODES(hello.contact.membership.certificate.deviceKey) && HelloProven(s, hello)
    ensures CheckClient(s, hello).Err? ==>
              CheckClient(s, hello).error == if !Verify(hello.contact, s.root, s.now) then UnauthorizedContact
                                             else if hello.contact.endpoint.record.node in s.revocations.list.revokedNodes then Revoked
                                             else if HelloTranscript(hello.contact, hello.nonce, s.binding).Ok? &&
                                                     KEY_DECODES(hello.contact.membership.certificate.deviceKey) then InvalidProof
                                             else UnauthorizedContact
  {
    hide Verify, HelloSigned, HelloTranscript;
    HelloTranscriptError(hello.contact, hello.nonce, s.binding);
  }

  lemma HelloTranscriptError(contact: Contact, nonce: Bytes, binding: Bytes)
    ensures HelloTranscript(contact, nonce, binding).Err? ==> HelloTranscript(contact, nonce, binding) == Err(UnauthorizedContact)
  {
  }

  /** What an outbound call checks before it proves itself. */
  lemma CheckServerExactly(s: Setup, expected: Contact, nonce: Bytes, hello: ServerHello)
    requires TypedSetup(s) && IsNonce(nonce) && TypedServerHello(hello)
    ensures var terms := Terms(s.contact, hello.contact, nonce, hello.serverNonce, s.binding, hello.observed);
            CheckServer(s, expected, nonce, hello).Ok? <==>
            && Verify(hello.contact, s.root, s.now) && hello.clientNonce == nonce
            && hello.contact.endpoint.record.node == expected.endpoint.record.node
            && hello.contact.endpoint.record.transportKey == expected.endpoint.record.transportKey
            && hello.contact.endpoint.record.node !in s.revocations.list.revokedNodes
            && KEY_DECODES(hello.contact.membership.certificate.deviceKey)
            && Transcript(terms).Ok? && DEVICE.verifies(hello.contact.membership.certificate.deviceKey, ServerSigned(Transcript(terms).value), hello.signature)
            && CLAIM_VERIFIES(hello.claim, s.root, s.now) && hello.claim.subject == NODE_OF_KEY(s.key)
            && hello.claim.reporter == hello.contact.endpoint.record.node && hello.claim.address == hello.observed
  {
    hide Verify, ServerSigned, Transcript;
  }

  datatype Answered = Answered(answer: Answer, claim: Claim, transcript: Bytes)

  /** The client's hello accepted, and what the server then signs. */
  function AnswerClient(s: Setup, nonce: Bytes, frame: Bytes): (result: Result<Answered, SessionError>)
    requires TypedSetup(s) && IsNonce(nonce)
    ensures result.Ok? ==>
              var answer := result.value.answer;
              && TypedClientHello(answer.hello) && DecodeClientHello(frame) == Ok(answer.hello)
              && CheckClient(s, answer.hello).Ok? && answer.nonce == nonce
              && Transcript(InboundTerms(s, answer)) == Ok(result.value.transcript)
  {
    hide DecodeClientHello, CheckClient, Transcript;
    var hello :- DecodeClientHello(frame);
    var _ :- CheckClient(s, hello);
    match SIGN_CLAIM(s.contact.membership, s.key, NodeOf(hello.contact), s.remote, s.now)
    case None => Err(UnauthorizedContact)
    case Some(claim) =>
      var transcript :- Transcript(InboundTerms(s, Answer(hello, nonce)));
      Ok(Answered(Answer(hello, nonce), claim, transcript))
  }

  function ReplyToClient(s: Setup, answered: Answered): Result<Bytes, SessionError>
    requires TypedSetup(s) && TypedClientHello(answered.answer.hello) && IsNonce(answered.answer.nonce)
  {
    EncodeServerHello(ServerHello(s.contact, answered.answer.hello.nonce, answered.answer.nonce, s.remote, answered.claim,
                                  DEVICE.sign(s.key, ServerSigned(answered.transcript))))
  }

  predicate TypedAnswer(answer: Answer) {
    TypedClientHello(answer.hello) && IsNonce(answer.nonce)
  }

  /** The bytes the client must have signed, given the address it reports. */
  function ExpectedBytes(s: Setup, answer: Answer, observed: Address): Result<Bytes, SessionError>
    requires TypedSetup(s) && TypedAnswer(answer) && TypedAddress(observed)
  {
    var transcript :- Transcript(InboundTerms(s, answer));
    ExtendedTranscript(transcript, observed)
  }

  /** The client's proof accepted: the peer, and the acknowledgement sent to it. */
  function FinishInbound(s: Setup, answer: Answer, frame: Bytes): (result: Result<(Peer, Bytes), SessionError>)
    requires TypedSetup(s) && TypedAnswer(answer)
  {
    hide DecodeClientProof, Transcript, ExtendedTranscript, EncodeServerAck;
    var contact := answer.hello.contact;
    var proof :- DecodeClientProof(frame);
    var _ :- Require(proof.serverNonce == answer.nonce, InvalidProof);
    var extended :- ExpectedBytes(s, answer, proof.observed);
    var _ :- Require(DEVICE.verifies(DeviceKey(contact), ClientSigned(extended), proof.signature), InvalidProof);
    var _ :- Require(CLAIM_VERIFIES(proof.claim, s.root, s.now), UnauthorizedContact);
    var _ :- Require(proof.claim.subject == NODE_OF_KEY(s.key) && proof.claim.reporter == NodeOf(contact)
                     && proof.claim.address == proof.observed, UnauthorizedContact);
    var acknowledgement :- EncodeServerAck(answer.hello.nonce);
    Ok((Peer(contact, proof.observed, contact.endpoint.record.expiresAt, proof.claim), acknowledgement))
  }

  // ---------- what each proof says ----------

  /** The three proofs never stand for one another. */
  lemma ProofsDiffer(a: Bytes, b: Bytes)
    ensures HelloSigned(a) != ServerSigned(b) && HelloSigned(a) != ClientSigned(b) && ServerSigned(a) != ClientSigned(b)
    ensures HelloSigned(a) == HelloSigned(b) ==> a == b
    ensures ServerSigned(a) == ServerSigned(b) ==> a == b
    ensures ClientSigned(a) == ClientSigned(b) ==> a == b
  {
    SessionDomains();
    hide Domain;
    if HelloSigned(a) == ServerSigned(b) {
      DomainSeparation(CLIENT_HELLO_PROOF, a, SERVER_PROOF, b);
    }
    if HelloSigned(a) == ClientSigned(b) {
      DomainSeparation(CLIENT_HELLO_PROOF, a, CLIENT_PROOF_NAME, b);
    }
    if ServerSigned(a) == ClientSigned(b) {
      DomainSeparation(SERVER_PROOF, a, CLIENT_PROOF_NAME, b);
    }
    if HelloSigned(a) == HelloSigned(b) {
      DomainSeparation(CLIENT_HELLO_PROOF, a, CLIENT_HELLO_PROOF, b);
    }
    if ServerSigned(a) == ServerSigned(b) {
      DomainSeparation(SERVER_PROOF, a, SERVER_PROOF, b);
    }
    if ClientSigned(a) == ClientSigned(b) {
      DomainSeparation(CLIENT_PROOF_NAME, a, CLIENT_PROOF_NAME, b);
    }
  }

  predicate SessionName(name: string) {
    name == CLIENT_HELLO_PROOF || name == SERVER_PROOF || name == CLIENT_PROOF_NAME
  }

  /** Nor does anything a device signs in another domain. */
  lemma OtherDomains(name: string, message: Bytes, a: Bytes)
    requires DomainName(name) && !SessionName(name)
    ensures Domain(name, message) != ServerSigned(a) && Domain(name, message) != ClientSigned(a) && Domain(name, message) != HelloSigned(a)
  {
    SessionDomains();
    hide Domain;
    if Domain(name, message) == HelloSigned(a) {
      DomainSeparation(name, message, CLIENT_HELLO_PROOF, a);
    }
    if Domain(name, message) == ServerSigned(a) {
      DomainSeparation(name, message, SERVER_PROOF, a);
    }
    if Domain(name, message) == ClientSigned(a) {
      DomainSeparation(name, message, CLIENT_PROOF_NAME, a);
    }
  }

  /** One client proof is about one handshake and one server address. */
  lemma ClientBytesInjective(s: Setup, nonce: Bytes, hello: ServerHello, t: Setup, answer: Answer, observed: Address)
    requires TypedSetup(s) && IsNonce(nonce) && TypedServerHello(hello)
    requires TypedSetup(t) && TypedAnswer(answer) && TypedAddress(observed)
    requires ClientBytes(s, nonce, hello).Ok? && ClientBytes(s, nonce, hello) == ExpectedBytes(t, answer, observed)
    ensures OutboundTerms(s, nonce, hello) == InboundTerms(t, answer) && s.remote == observed
  {
    var a, b := OutboundTerms(s, nonce, hello), InboundTerms(t, answer);
    ExtendedInjective(Transcript(a).value, s.remote, Transcript(b).value, observed);
    TranscriptInjective(a, b);
  }
}
