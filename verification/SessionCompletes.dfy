/** An undisturbed handshake between two authorized devices. */
module SessionCompletes {
  import opened Prelude
  import opened Contacts
  import opened SessionWire
  import opened SessionMessages
  import opened Session
  import R = Revocation
  import G = RevocationGossip

  /** Both sides in turn, each frame delivered as it was sent. */
  function Exchange(client: Setup, expected: Contact, server: Setup, clientNonce: Bytes, serverNonce: Bytes)
    : Result<(Peer, Peer), SessionError>
    requires TypedSetup(client) && TypedSetup(server) && IsNonce(clientNonce) && IsNonce(serverNonce)
  {
    var _ :- StartInbound(server);
    var first :- StartOutbound(client, expected, clientNonce);
    var answered :- AnswerClient(server, serverNonce, first);
    var second :- ReplyToClient(server, answered);
    var accepted :- AcceptServer(client, expected, clientNonce, second);
    var third :- ReplyToServer(client, accepted.0, accepted.1);
    var finished :- FinishInbound(server, answered.answer, third);
    var peer :- FinishOutbound(clientNonce, accepted.0, finished.1);
    Ok((peer, finished.0))
  }

  predicate ClaimWorks(reporter: Setup, subject: Setup) {
    var claim := SIGN_CLAIM(reporter.contact.membership, reporter.key, NodeOf(subject.contact), reporter.remote, reporter.now);
    claim.Some? && CLAIMS.encode(claim.value).Some? && CLAIM_VERIFIES(claim.value, subject.root, subject.now)
  }

  /** Two devices of one hive on one connection, each authorized in the other's eyes. */
  predicate Compatible(client: Setup, expected: Contact, server: Setup) {
    && client.root == server.root && client.binding == server.binding
    && client.key == DeviceKey(client.contact) && server.key == DeviceKey(server.contact)
    && NodeOf(expected) == NodeOf(server.contact)
    && expected.endpoint.record.transportKey == server.contact.endpoint.record.transportKey
    && Verify(server.contact, client.root, client.now) && Verify(client.contact, server.root, server.now)
    && !R.Contains(server.revocations, NodeOf(client.contact))
    && ContactBytes(server.contact).Ok?
    && ClaimWorks(client, server) && ClaimWorks(server, client)
  }

  lemma VerifiedKey(contact: Contact, root: Key, now: nat)
    requires Verify(contact, root, now)
    ensures KEY_DECODES(DeviceKey(contact)) && NodeOf(contact) == NODE_OF_KEY(DeviceKey(contact))
  {
  }

  // ---------- starting and finishing ----------

  /** A call goes out exactly when the local device is authorized and unrevoked by
      a valid snapshot, the peer was authorized once and is not revoked, and the
      local contact can be written. */
  lemma StartsExactly(s: Setup, expected: Contact, nonce: Bytes)
    requires IsNonce(nonce)
    ensures StartOutbound(s, expected, nonce).Ok? <==>
            && G.VerifySnapshot(s.revocations, s.root).Ok? && Verify(s.contact, s.root, s.now) && VerifyHistorical(expected, s.root)
            && NodeOf(s.contact) == NODE_OF_KEY(s.key) && ContactBytes(s.contact).Ok?
            && !R.Contains(s.revocations, NodeOf(s.contact)) && !R.Contains(s.revocations, NodeOf(expected))
  {
    hide G.VerifySnapshot, Verify, VerifyHistorical, EncodeClientHello, HelloSigned, R.Contains;
    if ContactBytes(s.contact).Ok? {
      var transcript := HelloTranscript(s.contact, nonce, s.binding).value;
      ClientHelloFits(ClientHello(s.contact, nonce, DEVICE.sign(s.key, HelloSigned(transcript))));
    }
  }

  lemma ClientHelloFits(m: ClientHello)
    requires TypedClientHello(m) && ContactBytes(m.contact).Ok?
    ensures EncodeClientHello(m).Ok?
  {
    var items := Tagged(CLIENT_HELLO, [Blob(ContactBytes(m.contact).value), Blob(m.nonce), Blob(m.signature)]);
    hide EncodeMessage, ItemsBound;
    BoundFrom(items, 4);
    BoundFrom(items, 3);
    BoundFrom(items, 2);
    BoundFrom(items, 1);
    BoundFrom(items, 0);
    assert items[0..] == items;
    NoItems(items);
    MessageFits(items);
  }

  /** It ends well on exactly one frame: the acknowledgement of its own nonce. */
  lemma FinishesExactly(nonce: Bytes, hello: ServerHello, frame: Bytes)
    requires IsNonce(nonce)
    ensures FinishOutbound(nonce, hello, frame).Ok? <==> EncodeServerAck(nonce) == Ok(frame)
  {
    hide DecodeServerAck, EncodeServerAck;
    ServerAckExact(nonce, frame);
  }

  // ---------- the four frames ----------

  /** What the client sends is what the server reads, and it verifies. */
  lemma ClientHelloArrives(client: Setup, expected: Contact, server: Setup, clientNonce: Bytes)
    requires TypedSetup(server) && IsNonce(clientNonce)
    requires StartOutbound(client, expected, clientNonce).Ok? && Compatible(client, expected, server)
    ensures ContactBytes(client.contact).Ok?
    ensures var hello := DecodeClientHello(StartOutbound(client, expected, clientNonce).value);
            hello.Ok? && hello.value.contact == client.contact && hello.value.nonce == clientNonce && CheckClient(server, hello.value).Ok?
  {
    hide CheckLocal, Verify, VerifyHistorical, EncodeClientHello, DecodeClientHello, HelloSigned, ClaimWorks;
    VerifiedKey(client.contact, server.root, server.now);
    var transcript := HelloTranscript(client.contact, clientNonce, client.binding).value;
    var hello := ClientHello(client.contact, clientNonce, DEVICE.sign(client.key, HelloSigned(transcript)));
    ClientHelloExact(hello, StartOutbound(client, expected, clientNonce).value);
  }

  lemma ServerHelloFits(m: ServerHello)
    requires TypedServerHello(m) && ContactBytes(m.contact).Ok? && ClaimBytes(m.claim).Ok?
    ensures EncodeServerHello(m).Ok?
  {
    var items := Tagged(SERVER_HELLO,
      [Blob(ContactBytes(m.contact).value), Blob(m.clientNonce), Blob(m.serverNonce), Socket(m.observed), Blob(ClaimBytes(m.claim).value),
       Blob(m.signature)]);
    hide EncodeMessage, ItemsBound;
    BoundFrom(items, 7);
    BoundFrom(items, 6);
    BoundFrom(items, 5);
    BoundFrom(items, 4);
    BoundFrom(items, 3);
    BoundFrom(items, 2);
    BoundFrom(items, 1);
    BoundFrom(items, 0);
    assert items[0..] == items;
    NoItems(items);
    MessageFits(items);
  }

  lemma ClientProofFits(m: ClientProof)
    requires TypedClientProof(m) && ClaimBytes(m.claim).Ok?
    ensures EncodeClientProof(m).Ok?
  {
    var items := Tagged(CLIENT_PROOF, [Blob(m.serverNonce), Socket(m.observed), Blob(ClaimBytes(m.claim).value), Blob(m.signature)]);
    hide EncodeMessage, ItemsBound;
    BoundFrom(items, 5);
    BoundFrom(items, 4);
    BoundFrom(items, 3);
    BoundFrom(items, 2);
    BoundFrom(items, 1);
    BoundFrom(items, 0);
    assert items[0..] == items;
    NoItems(items);
    MessageFits(items);
  }

  lemma AckArrives(nonce: Bytes)
    requires IsNonce(nonce)
    ensures EncodeServerAck(nonce).Ok? && DecodeServerAck(EncodeServerAck(nonce).value) == Ok(nonce)
  {
    var items := Tagged(SERVER_ACK, [Blob(nonce)]);
    hide EncodeMessage, DecodeItems, ItemsBound;
    BoundFrom(items, 2);
    BoundFrom(items, 1);
    BoundFrom(items, 0);
    assert items[0..] == items;
    NoItems(items);
    MessageFits(items);
    ServerAckExact(nonce, EncodeServerAck(nonce).value);
  }

  /** The server answers, and its frame is written. */
  lemma ServerAnswers(client: Setup, expected: Contact, server: Setup, clientNonce: Bytes, serverNonce: Bytes)
    requires TypedSetup(server) && IsNonce(clientNonce) && IsNonce(serverNonce)
    requires StartOutbound(client, expected, clientNonce).Ok? && Compatible(client, expected, server)
    ensures var answered := AnswerClient(server, serverNonce, StartOutbound(client, expected, clientNonce).value);
            && answered.Ok? && answered.value.answer.hello.contact == client.contact && answered.value.answer.hello.nonce == clientNonce
            && Some(answered.value.claim) == SIGN_CLAIM(server.contact.membership, server.key, NodeOf(client.contact), server.remote, server.now)
            && ReplyToClient(server, answered.value).Ok?
  {
    hide StartOutbound, DecodeClientHello, CheckClient, Transcript, EncodeServerHello, ServerSigned, Verify;
    ClientHelloArrives(client, expected, server, clientNonce);
    var frame := StartOutbound(client, expected, clientNonce).value;
    var hello := DecodeClientHello(frame).value;
    var answer := Answer(hello, serverNonce);
    TranscriptExists(InboundTerms(server, answer));
    var claim := SIGN_CLAIM(server.contact.membership, server.key, NodeOf(client.contact), server.remote, server.now).value;
    var transcript := Transcript(InboundTerms(server, answer)).value;
    ServerHelloFits(ServerHello(server.contact, clientNonce, serverNonce, server.remote, claim, DEVICE.sign(server.key, ServerSigned(transcript))));
  }

  function SentHello(server: Setup, answered: Answered): ServerHello {
    ServerHello(server.contact, answered.answer.hello.nonce, answered.answer.nonce, server.remote, answered.claim,
                DEVICE.sign(server.key, ServerSigned(answered.transcript)))
  }

  predicate AnsweredFor(client: Setup, server: Setup, clientNonce: Bytes, answered: Answered)
    requires TypedSetup(server)
  {
    && TypedAnswer(answered.answer) && answered.answer.hello.contact == client.contact && answered.answer.hello.nonce == clientNonce
    && Some(answered.claim) == SIGN_CLAIM(server.contact.membership, server.key, NodeOf(client.contact), server.remote, server.now)
    && Transcript(InboundTerms(server, answered.answer)) == Ok(answered.transcript)
  }

  /** The client accepts the answer exactly when the address in it may be reported. */
  lemma ClientAccepts(client: Setup, expected: Contact, server: Setup, clientNonce: Bytes, answered: Answered)
    requires TypedSetup(client) && TypedSetup(server) && IsNonce(clientNonce) && Compatible(client, expected, server)
    requires StartOutbound(client, expected, clientNonce).Ok? && ContactBytes(client.contact).Ok?
    requires AnsweredFor(client, server, clientNonce, answered) && ReplyToClient(server, answered).Ok?
    ensures var accepted := AcceptServer(client, expected, clientNonce, ReplyToClient(server, answered).value);
            && (accepted.Ok? <==> Reportable(server.remote))
            && (accepted.Ok? ==> accepted.value.0 == SentHello(server, answered) && ReplyToServer(client, accepted.value.0, accepted.value.1).Ok?)
  {
    hide DecodeServerHello, CheckServer, ClientBytes, ServerSigned, Verify, EncodeServerHello, Reportable, ReplyToServer, Transcript,
         StartOutbound, ClaimWorks;
    var hello := SentHello(server, answered);
    var frame := ReplyToClient(server, answered).value;
    ServerHelloExact(hello, frame);
    DecodedReportable(frame);
    ServerPasses(client, expected, server, clientNonce, answered);
    var terms := OutboundTerms(client, clientNonce, hello);
    TranscriptExists(terms);
    ClientBytesExist(client, clientNonce, hello);
    ReplyExists(client, server, hello, ClientBytes(client, clientNonce, hello).value);
    if DecodeServerHello(frame).Ok? {
      var other := DecodeServerHello(frame).value;
      ServerHelloExact(other, frame);
      SameEncoding(hello, other, frame);
    }
  }

  lemma DecodedReportable(frame: Bytes)
    ensures DecodeServerHello(frame).Ok? ==> Reportable(DecodeServerHello(frame).value.observed)
  {
  }

  lemma SameEncoding(a: ServerHello, b: ServerHello, frame: Bytes)
    requires TypedServerHello(a) && TypedServerHello(b) && EncodeServerHello(a) == Ok(frame) && EncodeServerHello(b) == Ok(frame)
    ensures a.observed == b.observed
  {
    hide EncodeMessage;
    var x := Tagged(SERVER_HELLO, [Blob(ContactBytes(a.contact).value), Blob(a.clientNonce), Blob(a.serverNonce), Socket(a.observed),
                                   Blob(ClaimBytes(a.claim).value), Blob(a.signature)]);
    var y := Tagged(SERVER_HELLO, [Blob(ContactBytes(b.contact).value), Blob(b.clientNonce), Blob(b.serverNonce), Socket(b.observed),
                                   Blob(ClaimBytes(b.claim).value), Blob(b.signature)]);
    MessageInjective(x, y);
    assert x[5] == y[5];
  }

  lemma ServerPasses(client: Setup, expected: Contact, server: Setup, clientNonce: Bytes, answered: Answered)
    requires TypedSetup(client) && TypedSetup(server) && IsNonce(clientNonce) && Compatible(client, expected, server)
    requires StartOutbound(client, expected, clientNonce).Ok? && AnsweredFor(client, server, clientNonce, answered)
    ensures TypedServerHello(SentHello(server, answered))
    ensures CheckServer(client, expected, clientNonce, SentHello(server, answered)).Ok?
  {
    hide Verify, VerifyHistorical, CheckLocal, Transcript, ServerSigned, HelloTranscript, EncodeClientHello;
    VerifiedKey(server.contact, client.root, client.now);
    var hello := SentHello(server, answered);
    assert OutboundTerms(client, clientNonce, hello) == InboundTerms(server, answered.answer);
  }

  lemma ClientBytesExist(client: Setup, nonce: Bytes, hello: ServerHello)
    requires TypedSetup(client) && IsNonce(nonce) && TypedServerHello(hello)
    requires ContactBytes(client.contact).Ok? && ContactBytes(hello.contact).Ok?
    ensures ClientBytes(client, nonce, hello).Ok?
  {
    hide Transcript, ExtendedTranscript, ContactBytes;
    TranscriptExists(OutboundTerms(client, nonce, hello));
    ExtendedExists(Transcript(OutboundTerms(client, nonce, hello)).value, client.remote);
  }

  lemma ReplyExists(client: Setup, server: Setup, hello: ServerHello, extended: Bytes)
    requires TypedSetup(client) && TypedServerHello(hello) && hello.contact == server.contact && ClaimWorks(client, server)
    ensures ReplyToServer(client, hello, extended).Ok?
  {
    hide EncodeClientProof, ClientSigned;
    var claim := SIGN_CLAIM(client.contact.membership, client.key, NodeOf(hello.contact), client.remote, client.now).value;
    ClientProofFits(ClientProof(hello.serverNonce, client.remote, claim, DEVICE.sign(client.key, ClientSigned(extended))));
  }

  /** The server accepts the proof exactly when the address in it may be reported. */
  lemma ServerAccepts(client: Setup, expected: Contact, server: Setup, clientNonce: Bytes, answered: Answered, extended: Bytes)
    requires TypedSetup(client) && TypedSetup(server) && Compatible(client, expected, server)
    requires NodeOf(server.contact) == NODE_OF_KEY(server.key)
    requires AnsweredFor(client, server, clientNonce, answered) && TypedServerHello(SentHello(server, answered)) && IsNonce(clientNonce)
    requires ClientBytes(client, clientNonce, SentHello(server, answered)) == Ok(extended)
    requires ReplyToServer(client, SentHello(server, answered), extended).Ok?
    ensures var finished := FinishInbound(server, answered.answer, ReplyToServer(client, SentHello(server, answered), extended).value);
            && (finished.Ok? <==> Reportable(client.remote))
            && (finished.Ok? ==> finished.value.0.contact == client.contact && finished.value.0.observedLocal == client.remote
                                 && EncodeServerAck(clientNonce) == Ok(finished.value.1))
  {
    hide Verify, Transcript, ExtendedTranscript, DecodeClientProof, EncodeClientProof, ClientSigned, EncodeServerAck, Reportable, ServerSigned;
    var hello := SentHello(server, answered);
    VerifiedKey(client.contact, server.root, server.now);
    var claim := SIGN_CLAIM(client.contact.membership, client.key, NodeOf(hello.contact), client.remote, client.now).value;
    var proof := ClientProof(hello.serverNonce, client.remote, claim, DEVICE.sign(client.key, ClientSigned(extended)));
    var frame := ReplyToServer(client, hello, extended).value;
    assert OutboundTerms(client, clientNonce, hello) == InboundTerms(server, answered.answer);
    assert ExpectedBytes(server, answered.answer, client.remote) == Ok(extended);
    ClientProofExact(proof, frame);
    AckArrives(clientNonce);
    ProofReportable(frame);
    if DecodeClientProof(frame).Ok? {
      var other := DecodeClientProof(frame).value;
      ClientProofExact(other, frame);
      SameProof(proof, other, frame);
    }
  }

  lemma ProofReportable(frame: Bytes)
    ensures DecodeClientProof(frame).Ok? ==> Reportable(DecodeClientProof(frame).value.observed)
  {
  }

  lemma SameProof(a: ClientProof, b: ClientProof, frame: Bytes)
    requires TypedClientProof(a) && TypedClientProof(b) && EncodeClientProof(a) == Ok(frame) && EncodeClientProof(b) == Ok(frame)
    ensures a.observed == b.observed
  {
    hide EncodeMessage;
    var x := Tagged(CLIENT_PROOF, [Blob(a.serverNonce), Socket(a.observed), Blob(ClaimBytes(a.claim).value), Blob(a.signature)]);
    var y := Tagged(CLIENT_PROOF, [Blob(b.serverNonce), Socket(b.observed), Blob(ClaimBytes(b.claim).value), Blob(b.signature)]);
    MessageInjective(x, y);
    assert x[3] == y[3];
  }

  /** Two authorized devices on one undisturbed connection authenticate each other
      exactly when each sees the other at an address that may be reported; each
      then learns the other's contact and the address it was seen at. */
  lemma UndisturbedHandshake(client: Setup, expected: Contact, server: Setup, clientNonce: Bytes, serverNonce: Bytes)
    requires TypedSetup(client) && TypedSetup(server) && IsNonce(clientNonce) && IsNonce(serverNonce)
    requires StartInbound(server).Ok? && StartOutbound(client, expected, clientNonce).Ok? && Compatible(client, expected, server)
    ensures var result := Exchange(client, expected, server, clientNonce, serverNonce);
            && (result.Ok? <==> Reportable(server.remote) && Reportable(client.remote))
            && (result.Ok? ==>
                  && result.value.0.contact == server.contact && result.value.0.observedLocal == server.remote
                  && result.value.1.contact == client.contact && result.value.1.observedLocal == client.remote)
  {
    ServerIsItself(server);
    hide StartInbound, StartOutbound, AnswerClient, ReplyToClient, AcceptServer, ReplyToServer, FinishInbound, Reportable, Compatible,
         EncodeServerAck, DecodeServerAck, ClientBytes, CheckServer;
    ClientHelloArrives(client, expected, server, clientNonce);
    ServerAnswers(client, expected, server, clientNonce, serverNonce);
    var answered := AnswerClient(server, serverNonce, StartOutbound(client, expected, clientNonce).value).value;
    ClientAccepts(client, expected, server, clientNonce, answered);
    var accepted := AcceptServer(client, expected, clientNonce, ReplyToClient(server, answered).value);
    if accepted.Ok? {
      ServerAccepts(client, expected, server, clientNonce, answered, accepted.value.1);
      AckArrives(clientNonce);
    }
  }

  lemma ServerIsItself(server: Setup)
    requires StartInbound(server).Ok?
    ensures NodeOf(server.contact) == NODE_OF_KEY(server.key)
  {
  }
}
