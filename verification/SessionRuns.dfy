/** Any number of handshakes at once, on a network that may deliver anything to
    anyone, with device signatures that are not forged. */
module SessionRuns {
  import opened Prelude
  import opened Contacts
  import opened SessionWire
  import opened SessionMessages
  import opened Session
  import Revocation

  datatype Outcome = Pending | Failed(error: SessionError) | Authenticated(peer: Peer)

  /** One call, and what it has got to. */
  datatype Run =
    | Outbound(setup: Setup, expected: Contact, nonce: Bytes, server: Option<ServerHello>, outcome: Outcome)
    | Inbound(setup: Setup, answer: Option<Answer>, outcome: Outcome)

  /** All calls made by honest devices, and all that honest keys have signed. */
  datatype World = World(runs: seq<Run>, signed: set<(Key, Bytes)>)

  datatype Event =
    | Dial(setup: Setup, expected: Contact, nonce: Bytes)
    | Listen(setup: Setup)
    | Deliver(index: nat, frame: Bytes, nonce: Bytes)
    | SignElsewhere(key: Key, name: string, message: Bytes)

  predicate TypedRun(run: Run) {
    && TypedSetup(run.setup)
    && (run.Outbound? ==> IsNonce(run.nonce) && (run.server.Some? ==> TypedServerHello(run.server.value)))
    && (run.Inbound? && run.answer.Some? ==> TypedAnswer(run.answer.value))
  }

  function Outcomes<T>(result: Result<T, SessionError>): Outcome {
    match result
    case Ok(_) => Pending
    case Err(error) => Failed(error)
  }

  type Move = (Run, set<(Key, Bytes)>)

  function HearServer(s: Setup, expected: Contact, nonce: Bytes, frame: Bytes): Move
    requires TypedSetup(s) && IsNonce(nonce)
  {
    match AcceptServer(s, expected, nonce, frame)
    case Err(error) => (Outbound(s, expected, nonce, None, Failed(error)), {})
    case Ok((hello, extended)) =>
      (Outbound(s, expected, nonce, Some(hello), Outcomes(ReplyToServer(s, hello, extended))), {(s.key, ClientSigned(extended))})
  }

  function HearAck(s: Setup, expected: Contact, nonce: Bytes, hello: ServerHello, frame: Bytes): Move {
    match FinishOutbound(nonce, hello, frame)
    case Err(error) => (Outbound(s, expected, nonce, Some(hello), Failed(error)), {})
    case Ok(peer) => (Outbound(s, expected, nonce, Some(hello), Authenticated(peer)), {})
  }

  function HearClient(s: Setup, nonce: Bytes, frame: Bytes): Move
    requires TypedSetup(s) && IsNonce(nonce)
  {
    match AnswerClient(s, nonce, frame)
    case Err(error) => (Inbound(s, None, Failed(error)), {})
    case Ok(answered) =>
      (Inbound(s, Some(answered.answer), Outcomes(ReplyToClient(s, answered))), {(s.key, ServerSigned(answered.transcript))})
  }

  function HearProof(s: Setup, answer: Answer, frame: Bytes): Move
    requires TypedSetup(s) && TypedAnswer(answer)
  {
    match FinishInbound(s, answer, frame)
    case Err(error) => (Inbound(s, Some(answer), Failed(error)), {})
    case Ok((peer, _)) => (Inbound(s, Some(answer), Authenticated(peer)), {})
  }

  /** What a pending call does with a frame, and what it signs on the way. */
  function Receive(run: Run, frame: Bytes, nonce: Bytes): Move
    requires TypedRun(run) && IsNonce(nonce)
  {
    match run
    case Outbound(s, expected, own, None, _) => HearServer(s, expected, own, frame)
    case Outbound(s, expected, own, Some(hello), _) => HearAck(s, expected, own, hello, frame)
    case Inbound(s, None, _) => HearClient(s, nonce, frame)
    case Inbound(s, Some(answer), _) => HearProof(s, answer, frame)
  }

  /** A signature, and the key and bytes it is checked for. */
  datatype Proof = Proof(key: Key, message: Bytes, signature: Bytes)

  /** The proof a pending call is about to rely on. */
  function ProofIn(run: Run, frame: Bytes): Option<Proof>
    requires TypedRun(run)
  {
    hide DecodeServerHello, DecodeClientHello, DecodeClientProof, HelloTranscript;
    match run
    case Outbound(s, _, nonce, None, _) => (
      match DecodeServerHello(frame)
      case Err(_) => None
      case Ok(hello) =>
        match Transcript(OutboundTerms(s, nonce, hello))
        case Err(_) => None
        case Ok(transcript) => Some(Proof(DeviceKey(hello.contact), ServerSigned(transcript), hello.signature))
    )
    case Inbound(s, None, _) => (
      match DecodeClientHello(frame)
      case Err(_) => None
      case Ok(hello) =>
        match HelloTranscript(hello.contact, hello.nonce, s.binding)
        case Err(_) => None
        case Ok(transcript) => Some(Proof(DeviceKey(hello.contact), HelloSigned(transcript), hello.signature))
    )
    case Inbound(s, Some(answer), _) => (
      match DecodeClientProof(frame)
      case Err(_) => None
      case Ok(proof) =>
        match ExpectedBytes(s, answer, proof.observed)
        case Err(_) => None
        case Ok(extended) => Some(Proof(DeviceKey(answer.hello.contact), ClientSigned(extended), proof.signature))
    )
    case _ => None
  }

  /** The signature does not verify for an honest key over bytes that key did not sign. */
  predicate Genuine(honest: set<Key>, signed: set<(Key, Bytes)>, proof: Option<Proof>) {
    proof.Some? && proof.value.key in honest && DEVICE.verifies(proof.value.key, proof.value.message, proof.value.signature) ==>
      (proof.value.key, proof.value.message) in signed
  }

  function OwnNonce(run: Run): Option<Bytes> {
    match run
    case Outbound(_, _, nonce, _, _) => Some(nonce)
    case Inbound(_, Some(answer), _) => Some(answer.nonce)
    case Inbound(_, None, _) => None
  }

  predicate FreshNonce(w: World, nonce: Bytes) {
    forall i :: 0 <= i < |w.runs| ==> OwnNonce(w.runs[i]) != Some(nonce)
  }

  predicate DialStep(w: World, setup: Setup, expected: Contact, nonce: Bytes, v: World) {
    && TypedSetup(setup) && IsNonce(nonce) && FreshNonce(w, nonce) && StartOutbound(setup, expected, nonce).Ok?
    && HelloTranscript(setup.contact, nonce, setup.binding).Ok?
    && v.runs == w.runs + [Outbound(setup, expected, nonce, None, Pending)]
    && v.signed == w.signed + {(setup.key, HelloSigned(HelloTranscript(setup.contact, nonce, setup.binding).value))}
  }

  ghost predicate DeliverStep(honest: set<Key>, w: World, index: nat, frame: Bytes, nonce: Bytes, v: World) {
    && index < |w.runs| && w.runs[index].outcome.Pending? && TypedRun(w.runs[index]) && IsNonce(nonce) && FreshNonce(w, nonce)
    && Genuine(honest, w.signed, ProofIn(w.runs[index], frame))
    && v.runs == w.runs[index := Receive(w.runs[index], frame, nonce).0]
    && v.signed == w.signed + Receive(w.runs[index], frame, nonce).1
  }

  ghost predicate Step(honest: set<Key>, w: World, e: Event, v: World) {
    match e
    case Dial(setup, expected, nonce) => setup.key in honest && DialStep(w, setup, expected, nonce, v)
    case Listen(setup) =>
      && setup.key in honest && TypedSetup(setup) && StartInbound(setup).Ok?
      && v.runs == w.runs + [Inbound(setup, None, Pending)] && v.signed == w.signed
    case Deliver(index, frame, nonce) => DeliverStep(honest, w, index, frame, nonce, v)
    case SignElsewhere(key, name, message) =>
      && key in honest && DomainName(name) && !SessionName(name)
      && v.runs == w.runs && v.signed == w.signed + {(key, Domain(name, message))}
  }

  predicate AllTyped(w: World) {
    forall i :: 0 <= i < |w.runs| ==> TypedRun(w.runs[i])
  }

  // ---------- what every run keeps ----------

  /** The peer's claim is a valid one of that peer about this device and the
      address it observed. */
  predicate Vouched(s: Setup, peer: Peer) {
    && CLAIM_VERIFIES(peer.claim, s.root, s.now)
    && peer.claim.subject == NODE_OF_KEY(s.key) && peer.claim.reporter == NodeOf(peer.contact) && peer.claim.address == peer.observedLocal
  }

  /** An outbound call past the server's hello accepted it. */
  predicate Sound(run: Run)
    requires TypedRun(run)
  {
    match run
    case Outbound(s, expected, nonce, server, outcome) =>
      && (server.Some? ==> CheckServer(s, expected, nonce, server.value).Ok? && ClientBytes(s, nonce, server.value).Ok?)
      && (outcome.Authenticated? ==>
            server.Some? && outcome.peer == Peer(server.value.contact, server.value.observed,
                                                 server.value.contact.endpoint.record.expiresAt, server.value.claim))
    case Inbound(s, answer, outcome) =>
      && (answer.Some? ==> CheckClient(s, answer.value.hello).Ok?)
      && (outcome.Authenticated? ==>
            answer.Some? && outcome.peer.contact == answer.value.hello.contact
            && outcome.peer.expiresAt == outcome.peer.contact.endpoint.record.expiresAt && Vouched(s, outcome.peer))
  }

  /** Whether this call signed these bytes with this key. */
  predicate SignedBy(run: Run, key: Key, bytes: Bytes)
    requires TypedRun(run)
  {
    && run.setup.key == key
    && match run
       case Outbound(s, _, nonce, server, _) =>
         || (HelloTranscript(s.contact, nonce, s.binding).Ok? && bytes == HelloSigned(HelloTranscript(s.contact, nonce, s.binding).value))
         || (server.Some? && ClientBytes(s, nonce, server.value).Ok? && bytes == ClientSigned(ClientBytes(s, nonce, server.value).value))
       case Inbound(s, answer, _) =>
         answer.Some? && Transcript(InboundTerms(s, answer.value)).Ok?
         && bytes == ServerSigned(Transcript(InboundTerms(s, answer.value)).value)
  }

  ghost predicate Elsewhere(bytes: Bytes) {
    exists name, message :: DomainName(name) && !SessionName(name) && bytes == Domain(name, message)
  }

  ghost predicate Accounted(w: World, key: Key, bytes: Bytes)
    requires AllTyped(w)
  {
    Elsewhere(bytes) || exists i :: 0 <= i < |w.runs| && SignedBy(w.runs[i], key, bytes)
  }

  /** The server's side of an outbound call: an inbound call of the same device
      about the same contacts, nonces, channel and address. */
  predicate AnsweredBy(client: Run, server: Run)
    requires client.Outbound? && client.server.Some?
  {
    && server.Inbound? && server.answer.Some?
    && server.setup.key == DeviceKey(client.server.value.contact)
    && InboundTerms(server.setup, server.answer.value) == OutboundTerms(client.setup, client.nonce, client.server.value)
  }

  /** The client's side of an inbound call that reports address `observed`. */
  predicate ProvedBy(server: Run, observed: Address, client: Run)
    requires server.Inbound? && server.answer.Some?
  {
    && client.Outbound? && client.server.Some?
    && client.setup.key == DeviceKey(server.answer.value.hello.contact)
    && OutboundTerms(client.setup, client.nonce, client.server.value) == InboundTerms(server.setup, server.answer.value)
    && client.setup.remote == observed
  }

  /** The call whose hello an inbound call answered: of that device, with the same
      contact and nonce, on the same connection. */
  predicate DialledBy(server: Run, client: Run)
    requires server.Inbound? && server.answer.Some?
  {
    && client.Outbound? && client.setup.key == DeviceKey(server.answer.value.hello.contact)
    && client.setup.contact == server.answer.value.hello.contact && client.nonce == server.answer.value.hello.nonce
    && client.setup.binding == server.setup.binding
  }

  /** All that honest keys signed was signed by these calls or elsewhere. */
  ghost predicate SignedAccounted(w: World) {
    AllTyped(w) && forall key, bytes :: (key, bytes) in w.signed ==> Accounted(w, key, bytes)
  }

  predicate AllSound(w: World) {
    forall i :: 0 <= i < |w.runs| ==> TypedRun(w.runs[i]) && Sound(w.runs[i])
  }

  predicate HasServer(w: World, client: Run)
    requires client.Outbound? && client.server.Some?
  {
    exists j :: 0 <= j < |w.runs| && AnsweredBy(client, w.runs[j])
  }

  predicate HasClient(w: World, server: Run, observed: Address)
    requires server.Inbound? && server.answer.Some?
  {
    exists j :: 0 <= j < |w.runs| && ProvedBy(server, observed, w.runs[j])
  }

  predicate HasDialler(w: World, server: Run)
    requires server.Inbound? && server.answer.Some?
  {
    exists j :: 0 <= j < |w.runs| && DialledBy(server, w.runs[j])
  }

  predicate Agrees(honest: set<Key>, w: World, run: Run) {
    match run
    case Outbound(_, _, _, Some(hello), _) => DeviceKey(hello.contact) in honest ==> HasServer(w, run)
    case Outbound(_, _, _, None, _) => true
    case Inbound(_, Some(answer), outcome) =>
      DeviceKey(answer.hello.contact) in honest ==>
        HasDialler(w, run) && (outcome.Authenticated? ==> HasClient(w, run, outcome.peer.observedLocal))
    case Inbound(_, None, _) => true
  }

  predicate DistinctNonces(w: World) {
    forall i, j :: 0 <= i < j < |w.runs| && OwnNonce(w.runs[i]).Some? ==> OwnNonce(w.runs[i]) != OwnNonce(w.runs[j])
  }

  predicate AllAgree(honest: set<Key>, w: World) {
    forall i :: 0 <= i < |w.runs| ==> Agrees(honest, w, w.runs[i])
  }

  ghost predicate Inv(honest: set<Key>, w: World) {
    AllSound(w) && SignedAccounted(w) && AllAgree(honest, w) && DistinctNonces(w)
  }

  // ---------- one step ----------

  /** A call only moves forward. */
  predicate Extends(run: Run, later: Run) {
    match run
    case Outbound(s, expected, nonce, server, _) =>
      later.Outbound? && later.setup == s && later.expected == expected && later.nonce == nonce && (server.Some? ==> later.server == server)
    case Inbound(s, answer, _) =>
      later.Inbound? && later.setup == s && (answer.Some? ==> later.answer == answer)
  }

  predicate Grows(w: World, v: World) {
    && |w.runs| <= |v.runs|
    && forall i :: 0 <= i < |w.runs| ==> Extends(w.runs[i], v.runs[i])
  }

  predicate Moved(run: Run, move: Move) {
    && TypedRun(move.0) && Sound(move.0) && Extends(run, move.0)
    && forall signed :: signed in move.1 ==> SignedBy(move.0, signed.0, signed.1)
  }

  lemma HearServerSound(s: Setup, expected: Contact, nonce: Bytes, frame: Bytes)
    requires TypedSetup(s) && IsNonce(nonce)
    ensures Moved(Outbound(s, expected, nonce, None, Pending), HearServer(s, expected, nonce, frame))
  {
    hide AcceptServer, CheckServer, ClientBytes, ReplyToServer, ClientSigned, ServerSigned, HelloSigned, HelloTranscript, Transcript, DecodeServerHello,
         TypedServerHello, TypedSetup, Verify, Revocation.Contains;
  }

  lemma HearClientSound(s: Setup, nonce: Bytes, frame: Bytes)
    requires TypedSetup(s) && IsNonce(nonce)
    ensures Moved(Inbound(s, None, Pending), HearClient(s, nonce, frame))
  {
    hide AnswerClient, CheckClient, Transcript, ReplyToClient, ServerSigned, ClientSigned, HelloSigned, HelloTranscript, ClientBytes, DecodeClientHello,
         TypedClientHello, TypedSetup, Verify, Revocation.Contains;
  }

  lemma HearAckSound(s: Setup, expected: Contact, nonce: Bytes, hello: ServerHello, frame: Bytes)
    requires TypedRun(Outbound(s, expected, nonce, Some(hello), Pending)) && Sound(Outbound(s, expected, nonce, Some(hello), Pending))
    ensures Moved(Outbound(s, expected, nonce, Some(hello), Pending), HearAck(s, expected, nonce, hello, frame))
  {
    hide CheckServer, ClientBytes, DecodeServerAck, SignedBy, TypedServerHello, TypedSetup;
  }

  lemma HearProofSound(s: Setup, answer: Answer, frame: Bytes)
    requires TypedRun(Inbound(s, Some(answer), Pending)) && Sound(Inbound(s, Some(answer), Pending))
    ensures Moved(Inbound(s, Some(answer), Pending), HearProof(s, answer, frame))
  {
    hide CheckClient, ExpectedBytes, DecodeClientProof, EncodeServerAck, SignedBy, TypedAnswer, TypedSetup, ClientSigned, Verify, Revocation.Contains,
         Transcript, HelloTranscript;
  }

  lemma ReceiveSound(run: Run, frame: Bytes, nonce: Bytes)
    requires TypedRun(run) && IsNonce(nonce) && Sound(run) && run.outcome.Pending?
    ensures Moved(run, Receive(run, frame, nonce))
  {
    hide HearServer, HearAck, HearClient, HearProof, Moved, Sound, TypedServerHello, TypedAnswer, TypedSetup;
    match run
    case Outbound(s, expected, own, None, _) => HearServerSound(s, expected, own, frame);
    case Outbound(s, expected, own, Some(hello), _) => HearAckSound(s, expected, own, hello, frame);
    case Inbound(s, None, _) => HearClientSound(s, nonce, frame);
    case Inbound(s, Some(answer), _) => HearProofSound(s, answer, frame);
  }

  lemma GrowsAccounts(w: World, v: World, key: Key, bytes: Bytes)
    requires AllTyped(w) && AllTyped(v) && Grows(w, v) && Accounted(w, key, bytes)
    ensures Accounted(v, key, bytes)
  {
    hide ClientBytes, Transcript, ServerSigned, ClientSigned, HelloSigned, Elsewhere;
    if !Elsewhere(bytes) {
      var i :| 0 <= i < |w.runs| && SignedBy(w.runs[i], key, bytes);
      assert Extends(w.runs[i], v.runs[i]);
      assert SignedBy(v.runs[i], key, bytes);
    }
  }

  lemma GrowsAgrees(honest: set<Key>, w: World, v: World, run: Run)
    requires Grows(w, v) && Agrees(honest, w, run)
    ensures Agrees(honest, v, run)
  {
    match run
    case Outbound(_, _, _, Some(hello), _) =>
      if DeviceKey(hello.contact) in honest {
        var j :| 0 <= j < |w.runs| && AnsweredBy(run, w.runs[j]);
        assert Extends(w.runs[j], v.runs[j]);
        assert AnsweredBy(run, v.runs[j]);
      }
    case Outbound(_, _, _, None, _) =>
    case Inbound(_, Some(answer), outcome) =>
      if DeviceKey(answer.hello.contact) in honest {
        var i :| 0 <= i < |w.runs| && DialledBy(run, w.runs[i]);
        assert Extends(w.runs[i], v.runs[i]);
        assert DialledBy(run, v.runs[i]);
        if outcome.Authenticated? {
          var j :| 0 <= j < |w.runs| && ProvedBy(run, outcome.peer.observedLocal, w.runs[j]);
          assert Extends(w.runs[j], v.runs[j]);
          assert ProvedBy(run, outcome.peer.observedLocal, v.runs[j]);
        }
      }
    case Inbound(_, None, _) =>
  }

  /** A genuine server proof was made by an inbound call about the same terms. */
  lemma ServerProofFound(w: World, key: Key, terms: Terms)
    requires AllTyped(w) && TypedTerms(terms) && Transcript(terms).Ok?
    requires Accounted(w, key, ServerSigned(Transcript(terms).value))
    ensures exists j :: 0 <= j < |w.runs| && w.runs[j].Inbound? && w.runs[j].answer.Some? && w.runs[j].setup.key == key
                        && InboundTerms(w.runs[j].setup, w.runs[j].answer.value) == terms
  {
    hide ClientBytes, Transcript, ServerSigned, ClientSigned, HelloSigned, Domain;
    var message := Transcript(terms).value;
    var bytes := ServerSigned(message);
    if Elsewhere(bytes) {
      var name, other :| DomainName(name) && !SessionName(name) && bytes == Domain(name, other);
      OtherDomains(name, other, message);
      assert false;
    }
    var j :| 0 <= j < |w.runs| && SignedBy(w.runs[j], key, bytes);
    var run := w.runs[j];
    assert TypedRun(run);
    forall hello | bytes == HelloSigned(hello) ensures false {
      ProofsDiffer(hello, message);
    }
    forall proof | bytes == ClientSigned(proof) ensures false {
      ProofsDiffer(message, proof);
    }
    assert run.Inbound?;
    var found := InboundTerms(run.setup, run.answer.value);
    ProofsDiffer(Transcript(found).value, message);
    TranscriptInjective(found, terms);
  }

  /** A genuine client proof was made by an outbound call about the same terms. */
  lemma ClientProofFound(w: World, key: Key, s: Setup, answer: Answer, observed: Address)
    requires AllTyped(w) && TypedSetup(s) && TypedAnswer(answer) && TypedAddress(observed) && ExpectedBytes(s, answer, observed).Ok?
    requires Accounted(w, key, ClientSigned(ExpectedBytes(s, answer, observed).value))
    ensures exists j :: 0 <= j < |w.runs| && w.runs[j].Outbound? && w.runs[j].server.Some? && w.runs[j].setup.key == key
                        && OutboundTerms(w.runs[j].setup, w.runs[j].nonce, w.runs[j].server.value) == InboundTerms(s, answer)
                        && w.runs[j].setup.remote == observed
  {
    hide ClientBytes, ExpectedBytes, Transcript, ServerSigned, ClientSigned, HelloSigned, Domain;
    var message := ExpectedBytes(s, answer, observed).value;
    var bytes := ClientSigned(message);
    if Elsewhere(bytes) {
      var name, other :| DomainName(name) && !SessionName(name) && bytes == Domain(name, other);
      OtherDomains(name, other, message);
      assert false;
    }
    var j :| 0 <= j < |w.runs| && SignedBy(w.runs[j], key, bytes);
    var run := w.runs[j];
    assert TypedRun(run);
    forall hello | bytes == HelloSigned(hello) ensures false {
      ProofsDiffer(hello, message);
    }
    forall proof | bytes == ServerSigned(proof) ensures false {
      ProofsDiffer(proof, message);
    }
    assert run.Outbound? && run.server.Some?;
    ProofsDiffer(ClientBytes(run.setup, run.nonce, run.server.value).value, message);
    ClientBytesInjective(run.setup, run.nonce, run.server.value, s, answer, observed);
  }

  /** A genuine hello was made by an outbound call with the same contact and nonce,
      on the same connection. */
  lemma HelloFound(w: World, key: Key, s: Setup, answer: Answer)
    requires AllTyped(w) && TypedSetup(s) && TypedAnswer(answer)
    requires HelloTranscript(answer.hello.contact, answer.hello.nonce, s.binding).Ok?
    requires Accounted(w, key, HelloSigned(HelloTranscript(answer.hello.contact, answer.hello.nonce, s.binding).value))
    ensures exists j :: 0 <= j < |w.runs| && w.runs[j].Outbound? && w.runs[j].setup.key == key
                        && w.runs[j].setup.contact == answer.hello.contact && w.runs[j].nonce == answer.hello.nonce
                        && w.runs[j].setup.binding == s.binding
  {
    hide ClientBytes, Transcript, HelloTranscript, ServerSigned, ClientSigned, HelloSigned, Domain;
    var message := HelloTranscript(answer.hello.contact, answer.hello.nonce, s.binding).value;
    var bytes := HelloSigned(message);
    if Elsewhere(bytes) {
      var name, other :| DomainName(name) && !SessionName(name) && bytes == Domain(name, other);
      OtherDomains(name, other, message);
      assert false;
    }
    var j :| 0 <= j < |w.runs| && SignedBy(w.runs[j], key, bytes);
    var run := w.runs[j];
    assert TypedRun(run);
    forall proof | bytes == ServerSigned(proof) ensures false {
      ProofsDiffer(message, proof);
    }
    forall proof | bytes == ClientSigned(proof) ensures false {
      ProofsDiffer(message, proof);
    }
    assert run.Outbound?;
    ProofsDiffer(HelloTranscript(run.setup.contact, run.nonce, run.setup.binding).value, message);
    HelloTranscriptInjective(run.setup.contact, run.nonce, run.setup.binding, answer.hello.contact, answer.hello.nonce, s.binding);
  }

  lemma HearClientAgrees(honest: set<Key>, w: World, s: Setup, frame: Bytes, nonce: Bytes)
    requires SignedAccounted(w) && TypedSetup(s) && IsNonce(nonce)
    requires Genuine(honest, w.signed, ProofIn(Inbound(s, None, Pending), frame))
    ensures Agrees(honest, w, HearClient(s, nonce, frame).0)
  {
    hide Transcript, HelloTranscript, HelloSigned, ServerSigned, DecodeClientHello, Verify, Accounted, TypedRun, TypedSetup, ReplyToClient,
         AnswerClient, CheckClient, HelloProven;
    var run := HearClient(s, nonce, frame).0;
    if run.answer.Some? && DeviceKey(run.answer.value.hello.contact) in honest {
      var answer := run.answer.value;
      CheckedHello(s, answer.hello);
      assert (DeviceKey(answer.hello.contact), HelloSigned(HelloTranscript(answer.hello.contact, answer.hello.nonce, s.binding).value)) in w.signed;
      HelloFound(w, DeviceKey(answer.hello.contact), s, answer);
    }
  }

  lemma CheckedHello(s: Setup, hello: ClientHello)
    requires TypedSetup(s) && TypedClientHello(hello) && CheckClient(s, hello).Ok?
    ensures HelloTranscript(hello.contact, hello.nonce, s.binding).Ok?
    ensures DEVICE.verifies(DeviceKey(hello.contact), HelloSigned(HelloTranscript(hello.contact, hello.nonce, s.binding).value), hello.signature)
  {
    hide Verify, HelloSigned, HelloTranscript, CheckClient;
    CheckClientExactly(s, hello);
  }

  /** A call that accepts a genuine proof of an honest device has its partner. */
  lemma HearServerAgrees(honest: set<Key>, w: World, s: Setup, expected: Contact, nonce: Bytes, frame: Bytes)
    requires SignedAccounted(w) && TypedSetup(s) && IsNonce(nonce)
    requires Genuine(honest, w.signed, ProofIn(Outbound(s, expected, nonce, None, Pending), frame))
    ensures Agrees(honest, w, HearServer(s, expected, nonce, frame).0)
  {
    hide Transcript, ClientBytes, ReplyToServer, ServerSigned, ClientSigned, DecodeServerHello, Verify, Accounted, TypedRun, TypedSetup,
         AcceptServer;
    var run := HearServer(s, expected, nonce, frame).0;
    if run.server.Some? && DeviceKey(run.server.value.contact) in honest {
      var hello := run.server.value;
      var terms := OutboundTerms(s, nonce, hello);
      assert TypedTerms(terms) by { TermsAreTyped(s, nonce, hello); }
      assert (DeviceKey(hello.contact), ServerSigned(Transcript(terms).value)) in w.signed;
      ServerProofFound(w, DeviceKey(hello.contact), terms);
    }
  }

  lemma TermsAreTyped(s: Setup, nonce: Bytes, hello: ServerHello)
    requires TypedSetup(s) && IsNonce(nonce) && TypedServerHello(hello)
    ensures TypedTerms(OutboundTerms(s, nonce, hello))
  {
  }

  lemma HearProofAgrees(honest: set<Key>, w: World, s: Setup, answer: Answer, frame: Bytes)
    requires SignedAccounted(w) && TypedSetup(s) && TypedAnswer(answer)
    requires Genuine(honest, w.signed, ProofIn(Inbound(s, Some(answer), Pending), frame))
    requires Agrees(honest, w, Inbound(s, Some(answer), Pending))
    ensures Agrees(honest, w, HearProof(s, answer, frame).0)
  {
    hide Transcript, ExpectedBytes, ClientSigned, DecodeClientProof, EncodeServerAck, Accounted, TypedRun, TypedSetup, TypedAnswer;
    var run := HearProof(s, answer, frame).0;
    if DeviceKey(answer.hello.contact) in honest {
      SameDialler(w, Inbound(s, Some(answer), Pending), run.outcome);
    }
    if run.outcome.Authenticated? && DeviceKey(answer.hello.contact) in honest {
      var observed := run.outcome.peer.observedLocal;
      assert (DeviceKey(answer.hello.contact), ClientSigned(ExpectedBytes(s, answer, observed).value)) in w.signed;
      ClientProofFound(w, DeviceKey(answer.hello.contact), s, answer, observed);
    }
  }

  lemma ReceiveAgrees(honest: set<Key>, w: World, run: Run, frame: Bytes, nonce: Bytes)
    requires SignedAccounted(w) && TypedRun(run) && IsNonce(nonce) && run.outcome.Pending? && Agrees(honest, w, run)
    requires Genuine(honest, w.signed, ProofIn(run, frame))
    ensures Agrees(honest, w, Receive(run, frame, nonce).0)
  {
    hide HearServer, Genuine, SignedAccounted, FinishInbound, FinishOutbound, AnswerClient, ReplyToClient, ServerSigned, HasServer, HasClient,
         TypedServerHello, TypedAnswer, TypedSetup;
    match run
    case Outbound(s, expected, own, None, _) => HearServerAgrees(honest, w, s, expected, own, frame);
    case Outbound(s, expected, own, Some(hello), _) =>
      OutcomeIrrelevant(w, run, Receive(run, frame, nonce).0.outcome);
    case Inbound(s, None, _) => HearClientAgrees(honest, w, s, frame, nonce);
    case Inbound(s, Some(answer), _) => HearProofAgrees(honest, w, s, answer, frame);
  }

  lemma OutcomeIrrelevant(w: World, run: Run, outcome: Outcome)
    requires run.Outbound? && run.server.Some?
    ensures HasServer(w, run) ==> HasServer(w, Outbound(run.setup, run.expected, run.nonce, run.server, outcome))
  {
    var other := Outbound(run.setup, run.expected, run.nonce, run.server, outcome);
    forall j | 0 <= j < |w.runs| && AnsweredBy(run, w.runs[j]) ensures AnsweredBy(other, w.runs[j]) {
    }
  }

  lemma SameDialler(w: World, run: Run, outcome: Outcome)
    requires run.Inbound? && run.answer.Some?
    ensures HasDialler(w, run) ==> HasDialler(w, Inbound(run.setup, run.answer, outcome))
  {
    var other := Inbound(run.setup, run.answer, outcome);
    forall j | 0 <= j < |w.runs| && DialledBy(run, w.runs[j]) ensures DialledBy(other, w.runs[j]) {
    }
  }

  // ---------- every run ----------

  lemma StepGrows(honest: set<Key>, w: World, e: Event, v: World)
    requires AllSound(w) && Step(honest, w, e, v)
    ensures Grows(w, v) && AllSound(v)
  {
    hide DeliverStep, StartOutbound, StartInbound, Sound, TypedRun, FreshNonce, Domain, HelloSigned, HelloTranscript, DomainName, Grows,
         AllSound, TypedSetup;
    match e
    case Dial(setup, expected, nonce) => GrowsByOne(w, v, Outbound(setup, expected, nonce, None, Pending));
    case Listen(setup) => GrowsByOne(w, v, Inbound(setup, None, Pending));
    case Deliver(index, frame, nonce) => DeliverGrows(honest, w, index, frame, nonce, v);
    case SignElsewhere(_, _, _) => SameRuns(w, v);
  }

  lemma SameRuns(w: World, v: World)
    requires AllSound(w) && v.runs == w.runs
    ensures Grows(w, v) && AllSound(v)
  {
    hide Sound, TypedRun;
  }

  lemma GrowsByOne(w: World, v: World, run: Run)
    requires AllSound(w) && v.runs == w.runs + [run] && NewRun(run)
    ensures Grows(w, v) && AllSound(v)
  {
    hide Sound, TypedRun, NewRun;
    NewRunSound(run);
  }

  predicate NewRun(run: Run) {
    && TypedSetup(run.setup) && run.outcome.Pending?
    && match run
       case Outbound(_, _, nonce, server, _) => IsNonce(nonce) && server.None?
       case Inbound(_, answer, _) => answer.None?
  }

  lemma DeliverGrows(honest: set<Key>, w: World, index: nat, frame: Bytes, nonce: Bytes, v: World)
    requires AllSound(w) && DeliverStep(honest, w, index, frame, nonce, v)
    ensures Grows(w, v) && AllSound(v)
  {
    hide Receive, Genuine, Sound, TypedRun, FreshNonce, ProofIn, SignedBy;
    ReceiveSound(w.runs[index], frame, nonce);
  }

  lemma NewRunSound(run: Run)
    requires NewRun(run)
    ensures TypedRun(run) && Sound(run)
  {
  }

  /** All that is signed in a step is accounted for after it. */
  lemma StepAccounts(honest: set<Key>, w: World, e: Event, v: World)
    requires AllSound(w) && SignedAccounted(w) && Step(honest, w, e, v) && Grows(w, v) && AllSound(v)
    ensures SignedAccounted(v)
  {
    hide Receive, StartOutbound, StartInbound, Genuine, Sound, TypedRun, FreshNonce, ProofIn, Accounted, Grows, Extends, SessionName, DomainName,
         Domain, HelloSigned, HelloTranscript;
    assert AllTyped(v);
    forall key, bytes | (key, bytes) in v.signed ensures Accounted(v, key, bytes) {
      if (key, bytes) in w.signed {
        GrowsAccounts(w, v, key, bytes);
      } else {
        NewSignature(honest, w, e, v, key, bytes);
      }
    }
  }

  lemma NewSignature(honest: set<Key>, w: World, e: Event, v: World, key: Key, bytes: Bytes)
    requires AllSound(w) && Step(honest, w, e, v) && AllSound(v) && (key, bytes) in v.signed && (key, bytes) !in w.signed
    ensures AllTyped(v) && Accounted(v, key, bytes)
  {
    hide Receive, StartOutbound, StartInbound, Genuine, Sound, TypedRun, FreshNonce, ProofIn, SignedBy, Extends, SessionName, DomainName,
         Domain, HelloSigned, HelloTranscript;
    assert AllTyped(v);
    match e
    case Dial(setup, expected, nonce) =>
      var run := Outbound(setup, expected, nonce, None, Pending);
      assert v.runs[|w.runs|] == run;
      HelloSignedBy(run, bytes);
    case Listen(setup) =>
    case Deliver(index, frame, nonce) =>
      ReceiveSound(w.runs[index], frame, nonce);
      assert SignedBy(v.runs[index], (key, bytes).0, (key, bytes).1);
    case SignElsewhere(_, name, message) => assert Elsewhere(bytes);
  }

  lemma HelloSignedBy(run: Run, bytes: Bytes)
    requires run.Outbound? && TypedRun(run) && HelloTranscript(run.setup.contact, run.nonce, run.setup.binding).Ok?
    requires bytes == HelloSigned(HelloTranscript(run.setup.contact, run.nonce, run.setup.binding).value)
    ensures SignedBy(run, run.setup.key, bytes)
  {
  }

  lemma StepAgrees(honest: set<Key>, w: World, e: Event, v: World)
    requires AllSound(w) && SignedAccounted(w) && AllAgree(honest, w) && Step(honest, w, e, v) && Grows(w, v)
    ensures AllAgree(honest, v)
  {
    hide Receive, StartOutbound, StartInbound, Genuine, Sound, TypedRun, FreshNonce, ProofIn, SignedAccounted, Grows, HasServer, HasClient, Agrees,
         DomainName, SessionName, Domain, HelloSigned, HelloTranscript;
    forall i | 0 <= i < |v.runs| ensures Agrees(honest, v, v.runs[i]) {
      if e.Deliver? && i == e.index {
        ReceiveAgrees(honest, w, w.runs[i], e.frame, e.nonce);
        GrowsAgrees(honest, w, v, v.runs[i]);
      } else if i < |w.runs| {
        GrowsAgrees(honest, w, v, w.runs[i]);
      } else {
        NewRunAgrees(honest, v, v.runs[i]);
      }
    }
  }

  lemma NewRunAgrees(honest: set<Key>, w: World, run: Run)
    requires match run case Outbound(_, _, _, server, _) => server.None? case Inbound(_, answer, _) => answer.None?
    ensures Agrees(honest, w, run)
  {
  }

  lemma ReceiveNonce(run: Run, frame: Bytes, nonce: Bytes)
    requires TypedRun(run) && IsNonce(nonce)
    ensures var own := OwnNonce(Receive(run, frame, nonce).0);
            own == OwnNonce(run) || (OwnNonce(run).None? && own == Some(nonce))
  {
    hide AcceptServer, FinishOutbound, FinishInbound, ReplyToServer, ReplyToClient, ClientSigned, ServerSigned, TypedServerHello, TypedSetup,
         DecodeClientHello, CheckClient, Transcript;
  }

  lemma StepNonces(honest: set<Key>, w: World, e: Event, v: World)
    requires DistinctNonces(w) && Step(honest, w, e, v)
    ensures DistinctNonces(v)
  {
    hide Receive, StartOutbound, StartInbound, Genuine, TypedRun, ProofIn, DomainName, SessionName, Domain, HelloSigned, HelloTranscript, OwnNonce;
    match e
    case Dial(setup, expected, nonce) => OwnNonces(setup, expected, nonce);
    case Listen(setup) => OwnNonces(setup, setup.contact, []);
    case Deliver(index, frame, nonce) => ReceiveNonce(w.runs[index], frame, nonce);
    case SignElsewhere(_, _, _) =>
  }

  lemma OwnNonces(setup: Setup, expected: Contact, nonce: Bytes)
    ensures OwnNonce(Outbound(setup, expected, nonce, None, Pending)) == Some(nonce)
    ensures OwnNonce(Inbound(setup, None, Pending)) == None
  {
  }

  lemma StepKeepsInv(honest: set<Key>, w: World, e: Event, v: World)
    requires Inv(honest, w) && Step(honest, w, e, v)
    ensures Inv(honest, v)
  {
    hide Step, AllSound, SignedAccounted, AllAgree, DistinctNonces, Grows;
    StepGrows(honest, w, e, v);
    StepAccounts(honest, w, e, v);
    StepAgrees(honest, w, e, v);
    StepNonces(honest, w, e, v);
  }

  /** A history from no calls at all. */
  ghost predicate History(honest: set<Key>, events: seq<Event>, worlds: seq<World>) {
    && |worlds| == |events| + 1 && worlds[0] == World([], {})
    && forall i :: 0 <= i < |events| ==> Step(honest, worlds[i], events[i], worlds[i + 1])
  }

  lemma {:induction false} HistoryKeepsInv(honest: set<Key>, events: seq<Event>, worlds: seq<World>, n: nat)
    requires History(honest, events, worlds) && n <= |events|
    ensures Inv(honest, worlds[n])
    decreases n
  {
    hide Step, Inv;
    if n == 0 {
      EmptyInv(honest);
    } else {
      HistoryKeepsInv(honest, events, worlds, n - 1);
      assert Step(honest, worlds[n - 1], events[n - 1], worlds[n - 1 + 1]);
      StepKeepsInv(honest, worlds[n - 1], events[n - 1], worlds[n]);
    }
  }

  lemma EmptyInv(honest: set<Key>)
    ensures Inv(honest, World([], {}))
  {
    hide TypedRun, Sound, Agrees, Accounted, OwnNonce;
  }

  // ---------- agreement ----------

  /** Exactly one call satisfies the property. */
  ghost predicate Unique(runs: seq<Run>, p: Run -> bool) {
    && (exists j :: 0 <= j < |runs| && p(runs[j]))
    && forall i, j :: 0 <= i < |runs| && 0 <= j < |runs| && p(runs[i]) && p(runs[j]) ==> i == j
  }

  lemma NonceDecides(w: World, i: nat, j: nat)
    requires DistinctNonces(w) && i < |w.runs| && j < |w.runs| && OwnNonce(w.runs[i]).Some? && OwnNonce(w.runs[i]) == OwnNonce(w.runs[j])
    ensures i == j
  {
    hide OwnNonce;
  }

  /** When an outbound call returns a peer whose device is honest, exactly one
      inbound call of that device answered it: same contacts, nonces, channel
      binding and observed address. The peer is authorized, not revoked and the
      one that was dialled. */
  lemma OutboundAgreement(honest: set<Key>, events: seq<Event>, worlds: seq<World>, n: nat, i: nat)
    requires History(honest, events, worlds) && n <= |events|
    requires i < |worlds[n].runs| && worlds[n].runs[i].Outbound? && worlds[n].runs[i].outcome.Authenticated?
    ensures var run := worlds[n].runs[i];
            var peer := run.outcome.peer;
            && run.server.Some? && peer.contact == run.server.value.contact && peer.observedLocal == run.server.value.observed
            && Verify(peer.contact, run.setup.root, run.setup.now) && !Revocation.Contains(run.setup.revocations, NodeOf(peer.contact))
            && NodeOf(peer.contact) == NodeOf(run.expected) && peer.expiresAt == peer.contact.endpoint.record.expiresAt
            && peer.contact.endpoint.record.transportKey == run.expected.endpoint.record.transportKey
            && run.server.value.clientNonce == run.nonce && Vouched(run.setup, peer)
            && (DeviceKey(peer.contact) in honest ==> Unique(worlds[n].runs, (server: Run) => AnsweredBy(run, server)))
  {
    var run := worlds[n].runs[i];
    hide History, TypedRun, Sound, Agrees, AnsweredBy, Verify, SignedAccounted, DistinctNonces, Unique;
    HistoryKeepsInv(honest, events, worlds, n);
    AcceptedServer(run);
    if DeviceKey(run.outcome.peer.contact) in honest {
      UniqueServer(honest, worlds[n], run);
    }
  }

  lemma AcceptedServer(run: Run)
    requires TypedRun(run) && Sound(run) && run.Outbound? && run.outcome.Authenticated?
    ensures var peer := run.outcome.peer;
            && run.server.Some? && peer.contact == run.server.value.contact && peer.observedLocal == run.server.value.observed
            && Verify(peer.contact, run.setup.root, run.setup.now) && !Revocation.Contains(run.setup.revocations, NodeOf(peer.contact))
            && NodeOf(peer.contact) == NodeOf(run.expected) && peer.expiresAt == peer.contact.endpoint.record.expiresAt
            && peer.contact.endpoint.record.transportKey == run.expected.endpoint.record.transportKey
            && run.server.value.clientNonce == run.nonce && Vouched(run.setup, peer)
  {
    hide Transcript, ClientBytes, Verify, ServerSigned;
  }

  lemma UniqueServer(honest: set<Key>, w: World, run: Run)
    requires DistinctNonces(w) && run.Outbound? && run.server.Some? && Agrees(honest, w, run)
    requires DeviceKey(run.server.value.contact) in honest
    ensures Unique(w.runs, (server: Run) => AnsweredBy(run, server))
  {
    hide DistinctNonces;
    forall a, b | 0 <= a < |w.runs| && 0 <= b < |w.runs| && AnsweredBy(run, w.runs[a]) && AnsweredBy(run, w.runs[b]) ensures a == b {
      NonceDecides(w, a, b);
    }
  }

  lemma AcceptedClient(run: Run)
    requires TypedRun(run) && Sound(run) && run.Inbound? && run.outcome.Authenticated?
    ensures var peer := run.outcome.peer;
            && run.answer.Some? && peer.contact == run.answer.value.hello.contact
            && Verify(peer.contact, run.setup.root, run.setup.now) && !Revocation.Contains(run.setup.revocations, NodeOf(peer.contact))
            && peer.expiresAt == peer.contact.endpoint.record.expiresAt && Vouched(run.setup, peer)
  {
    hide HelloTranscript, Verify, HelloSigned, CheckClient;
  }

  lemma UniqueClient(honest: set<Key>, w: World, run: Run)
    requires DistinctNonces(w) && run.Inbound? && run.answer.Some? && run.outcome.Authenticated? && Agrees(honest, w, run)
    requires DeviceKey(run.answer.value.hello.contact) in honest
    ensures Unique(w.runs, (client: Run) => ProvedBy(run, run.outcome.peer.observedLocal, client))
  {
    hide DistinctNonces;
    var observed := run.outcome.peer.observedLocal;
    forall a, b | 0 <= a < |w.runs| && 0 <= b < |w.runs| && ProvedBy(run, observed, w.runs[a]) && ProvedBy(run, observed, w.runs[b])
      ensures a == b
    {
      NonceDecides(w, a, b);
    }
  }

  /** When an inbound call returns a peer whose device is honest, exactly one
      outbound call of that device had accepted that same handshake, on the same
      channel, and reported the address it dialled. */
  lemma InboundAgreement(honest: set<Key>, events: seq<Event>, worlds: seq<World>, n: nat, i: nat)
    requires History(honest, events, worlds) && n <= |events|
    requires i < |worlds[n].runs| && worlds[n].runs[i].Inbound? && worlds[n].runs[i].outcome.Authenticated?
    ensures var run := worlds[n].runs[i];
            var peer := run.outcome.peer;
            && run.answer.Some? && peer.contact == run.answer.value.hello.contact
            && Verify(peer.contact, run.setup.root, run.setup.now) && !Revocation.Contains(run.setup.revocations, NodeOf(peer.contact))
            && peer.expiresAt == peer.contact.endpoint.record.expiresAt && Vouched(run.setup, peer)
            && (DeviceKey(peer.contact) in honest ==>
                  Unique(worlds[n].runs, (client: Run) => ProvedBy(run, peer.observedLocal, client)))
  {
    var run := worlds[n].runs[i];
    hide History, TypedRun, Sound, Agrees, ProvedBy, Verify, SignedAccounted, DistinctNonces, Unique;
    HistoryKeepsInv(honest, events, worlds, n);
    AcceptedClient(run);
    if DeviceKey(run.outcome.peer.contact) in honest {
      UniqueClient(honest, worlds[n], run);
    }
  }

  /** An inbound call answers, and so signs, only a hello that it has checked: of an
      authorized, unrevoked device whose signature verifies over this contact, nonce
      and connection. If that device is honest, exactly one of its calls sent it. */
  lemma HelloAgreement(honest: set<Key>, events: seq<Event>, worlds: seq<World>, n: nat, i: nat)
    requires History(honest, events, worlds) && n <= |events|
    requires i < |worlds[n].runs| && worlds[n].runs[i].Inbound? && worlds[n].runs[i].answer.Some?
    ensures var run := worlds[n].runs[i];
            var hello := run.answer.value.hello;
            && Verify(hello.contact, run.setup.root, run.setup.now) && hello.contact.endpoint.record.node !in run.setup.revocations.list.revokedNodes
            && HelloProven(run.setup, hello)
            && (DeviceKey(hello.contact) in honest ==> Unique(worlds[n].runs, (client: Run) => DialledBy(run, client)))
  {
    var run := worlds[n].runs[i];
    hide History, TypedRun, Sound, Agrees, DialledBy, Verify, SignedAccounted, DistinctNonces, Unique, HelloProven;
    HistoryKeepsInv(honest, events, worlds, n);
    AnsweredHello(run);
    if DeviceKey(run.answer.value.hello.contact) in honest {
      UniqueDialler(honest, worlds[n], run);
    }
  }

  lemma AnsweredHello(run: Run)
    requires TypedRun(run) && Sound(run) && run.Inbound? && run.answer.Some?
    ensures var hello := run.answer.value.hello;
            && Verify(hello.contact, run.setup.root, run.setup.now) && hello.contact.endpoint.record.node !in run.setup.revocations.list.revokedNodes
            && HelloProven(run.setup, hello)
  {
    hide Verify, CheckClient, HelloProven;
    CheckClientExactly(run.setup, run.answer.value.hello);
  }

  lemma UniqueDialler(honest: set<Key>, w: World, run: Run)
    requires DistinctNonces(w) && run.Inbound? && run.answer.Some? && Agrees(honest, w, run)
    requires DeviceKey(run.answer.value.hello.contact) in honest
    ensures Unique(w.runs, (client: Run) => DialledBy(run, client))
  {
    hide DistinctNonces;
    forall a, b | 0 <= a < |w.runs| && 0 <= b < |w.runs| && DialledBy(run, w.runs[a]) && DialledBy(run, w.runs[b]) ensures a == b {
      NonceDecides(w, a, b);
    }
  }

  /** No answer serves two calls: a replayed handshake authenticates nobody twice. */
  lemma AnswersOnce(honest: set<Key>, events: seq<Event>, worlds: seq<World>, n: nat, a: nat, b: nat, j: nat)
    requires History(honest, events, worlds) && n <= |events|
    requires a < |worlds[n].runs| && b < |worlds[n].runs| && j < |worlds[n].runs|
    requires worlds[n].runs[a].Outbound? && worlds[n].runs[a].server.Some? && AnsweredBy(worlds[n].runs[a], worlds[n].runs[j])
    requires worlds[n].runs[b].Outbound? && worlds[n].runs[b].server.Some? && AnsweredBy(worlds[n].runs[b], worlds[n].runs[j])
    ensures a == b
  {
    HistoryKeepsInv(honest, events, worlds, n);
    hide History, AllSound, SignedAccounted, AllAgree;
    NonceDecides(worlds[n], a, b);
  }
}
