/** The four handshake messages, the transcripts and the signing domains. */
module SessionMessages {
  import opened Prelude
  import opened Contacts
  import opened SessionWire

  const CLIENT_HELLO := 1
  const SERVER_HELLO := 2
  const CLIENT_PROOF := 3
  const SERVER_ACK := 4

  datatype ClientHello = ClientHello(contact: Contact, nonce: Bytes, signature: Bytes)

  datatype ServerHello = ServerHello(
    contact: Contact, clientNonce: Bytes, serverNonce: Bytes, observed: Address, claim: Claim, signature: Bytes)

  datatype ClientProof = ClientProof(serverNonce: Bytes, observed: Address, claim: Claim, signature: Bytes)

  predicate IsNonce(b: Bytes) {
    |b| == NONCE_BYTES
  }

  predicate IsProof(b: Bytes) {
    |b| == PROOF_BYTES
  }

  predicate TypedClientHello(m: ClientHello) {
    IsNonce(m.nonce) && IsProof(m.signature)
  }

  predicate TypedServerHello(m: ServerHello) {
    IsNonce(m.clientNonce) && IsNonce(m.serverNonce) && IsProof(m.signature) && TypedAddress(m.observed)
  }

  predicate TypedClientProof(m: ClientProof) {
    IsNonce(m.serverNonce) && IsProof(m.signature) && TypedAddress(m.observed)
  }

  function ContactBytes(contact: Contact): (result: Result<Bytes, SessionError>)
    ensures result.Ok? ==> |result.value| <= MAX_CONTACT_BYTES
  {
    match CONTACTS.encode(contact)
    case Some(b) => Ok(b)
    case None => Err(UnauthorizedContact)
  }

  function ClaimBytes(claim: Claim): (result: Result<Bytes, SessionError>)
    ensures result.Ok? ==> |result.value| <= MAX_CLAIM_BYTES
  {
    match CLAIMS.encode(claim)
    case Some(b) => Ok(b)
    case None => Err(Encoding)
  }

  // ---------- codecs ----------

  const CLIENT_HELLO_KINDS: seq<Kind> := [ContactField, Fixed(NONCE_BYTES), Fixed(PROOF_BYTES)]
  const SERVER_HELLO_KINDS: seq<Kind> :=
    [ContactField, Fixed(NONCE_BYTES), Fixed(NONCE_BYTES), AddressField, ClaimField, Fixed(PROOF_BYTES)]
  const CLIENT_PROOF_KINDS: seq<Kind> := [Fixed(NONCE_BYTES), AddressField, ClaimField, Fixed(PROOF_BYTES)]
  const SERVER_ACK_KINDS: seq<Kind> := [Fixed(NONCE_BYTES)]

  function EncodeClientHello(m: ClientHello): Result<Bytes, SessionError>
    requires TypedClientHello(m)
  {
    var contact :- ContactBytes(m.contact);
    EncodeMessage(Tagged(CLIENT_HELLO, [Blob(contact), Blob(m.nonce), Blob(m.signature)]))
  }

  /** Refuses what is not the encoding of what was read. */
  function Same(encoded: Result<Bytes, SessionError>, input: Bytes): Result<(), SessionError> {
    var bytes :- encoded;
    if bytes != input then Err(InvalidMessage) else Ok(())
  }

  function DecodeClientHello(input: Bytes): (result: Result<ClientHello, SessionError>)
    ensures result.Ok? ==> TypedClientHello(result.value)
  {
    hide DecodeItems, EncodeMessage;
    var items :- DecodeItems(CLIENT_HELLO, CLIENT_HELLO_KINDS, input);
    assert Fits(CLIENT_HELLO_KINDS[0], items[0]) && Fits(CLIENT_HELLO_KINDS[1], items[1]) && Fits(CLIENT_HELLO_KINDS[2], items[2]);
    var message := ClientHello(CONTACTS.decode(items[0].b).value, items[1].b, items[2].b);
    var _ :- Same(EncodeClientHello(message), input);
    Ok(message)
  }

  function EncodeServerHello(m: ServerHello): Result<Bytes, SessionError>
    requires TypedServerHello(m)
  {
    var contact :- ContactBytes(m.contact);
    var claim :- ClaimBytes(m.claim);
    EncodeMessage(Tagged(SERVER_HELLO,
      [Blob(contact), Blob(m.clientNonce), Blob(m.serverNonce), Socket(m.observed), Blob(claim), Blob(m.signature)]))
  }

  function DecodeServerHello(input: Bytes): (result: Result<ServerHello, SessionError>)
    ensures result.Ok? ==> TypedServerHello(result.value) && Reportable(result.value.observed)
  {
    hide DecodeItems, EncodeMessage, Unspecified, Multicast;
    var items :- DecodeItems(SERVER_HELLO, SERVER_HELLO_KINDS, input);
    assert Fits(SERVER_HELLO_KINDS[0], items[0]) && Fits(SERVER_HELLO_KINDS[1], items[1]) && Fits(SERVER_HELLO_KINDS[2], items[2])
        && Fits(SERVER_HELLO_KINDS[3], items[3]) && Fits(SERVER_HELLO_KINDS[4], items[4]) && Fits(SERVER_HELLO_KINDS[5], items[5]);
    var message := ServerHello(CONTACTS.decode(items[0].b).value, items[1].b, items[2].b, items[3].address,
                               CLAIMS.decode(items[4].b).value, items[5].b);
    var _ :- Same(EncodeServerHello(message), input);
    Ok(message)
  }

  function EncodeClientProof(m: ClientProof): Result<Bytes, SessionError>
    requires TypedClientProof(m)
  {
    var claim :- ClaimBytes(m.claim);
    EncodeMessage(Tagged(CLIENT_PROOF, [Blob(m.serverNonce), Socket(m.observed), Blob(claim), Blob(m.signature)]))
  }

  function DecodeClientProof(input: Bytes): (result: Result<ClientProof, SessionError>)
    ensures result.Ok? ==> TypedClientProof(result.value) && Reportable(result.value.observed)
  {
    hide DecodeItems, EncodeMessage, Unspecified, Multicast;
    var items :- DecodeItems(CLIENT_PROOF, CLIENT_PROOF_KINDS, input);
    assert Fits(CLIENT_PROOF_KINDS[0], items[0]) && Fits(CLIENT_PROOF_KINDS[1], items[1])
        && Fits(CLIENT_PROOF_KINDS[2], items[2]) && Fits(CLIENT_PROOF_KINDS[3], items[3]);
    var message := ClientProof(items[0].b, items[1].address, CLAIMS.decode(items[2].b).value, items[3].b);
    var _ :- Same(EncodeClientProof(message), input);
    Ok(message)
  }

  function EncodeServerAck(nonce: Bytes): Result<Bytes, SessionError>
    requires IsNonce(nonce)
  {
    EncodeMessage(Tagged(SERVER_ACK, [Blob(nonce)]))
  }

  function DecodeServerAck(input: Bytes): (result: Result<Bytes, SessionError>)
    ensures result.Ok? ==> IsNonce(result.value)
  {
    hide DecodeItems, EncodeMessage;
    var items :- DecodeItems(SERVER_ACK, SERVER_ACK_KINDS, input);
    assert Fits(SERVER_ACK_KINDS[0], items[0]);
    var _ :- Same(EncodeServerAck(items[0].b), input);
    Ok(items[0].b)
  }

  /** A message decodes from exactly the bytes it encodes to. */
  lemma ClientHelloExact(m: ClientHello, input: Bytes)
    requires TypedClientHello(m)
    ensures DecodeClientHello(input) == Ok(m) <==> EncodeClientHello(m) == Ok(input)
  {
    hide DecodeItems, EncodeMessage, Unspecified, Multicast;
    if EncodeClientHello(m) == Ok(input) {
      var items := [Blob(ContactBytes(m.contact).value), Blob(m.nonce), Blob(m.signature)];
      assert AllFit(CLIENT_HELLO_KINDS, items);
      DecodesItems(CLIENT_HELLO, CLIENT_HELLO_KINDS, items);
    }
  }

  /** The same, except that an address no peer may report does not decode. */
  lemma ServerHelloExact(m: ServerHello, input: Bytes)
    requires TypedServerHello(m)
    ensures DecodeServerHello(input) == Ok(m) <==> EncodeServerHello(m) == Ok(input) && Reportable(m.observed)
  {
    hide DecodeItems, EncodeMessage, Unspecified, Multicast;
    if EncodeServerHello(m) == Ok(input) && Reportable(m.observed) {
      var items := [Blob(ContactBytes(m.contact).value), Blob(m.clientNonce), Blob(m.serverNonce), Socket(m.observed),
                    Blob(ClaimBytes(m.claim).value), Blob(m.signature)];
      assert AllFit(SERVER_HELLO_KINDS, items);
      DecodesItems(SERVER_HELLO, SERVER_HELLO_KINDS, items);
    }
  }

  lemma ClientProofExact(m: ClientProof, input: Bytes)
    requires TypedClientProof(m)
    ensures DecodeClientProof(input) == Ok(m) <==> EncodeClientProof(m) == Ok(input) && Reportable(m.observed)
  {
    hide DecodeItems, EncodeMessage, Unspecified, Multicast;
    if EncodeClientProof(m) == Ok(input) && Reportable(m.observed) {
      var items := [Blob(m.serverNonce), Socket(m.observed), Blob(ClaimBytes(m.claim).value), Blob(m.signature)];
      assert AllFit(CLIENT_PROOF_KINDS, items);
      DecodesItems(CLIENT_PROOF, CLIENT_PROOF_KINDS, items);
    }
  }

  lemma ServerAckExact(nonce: Bytes, input: Bytes)
    requires IsNonce(nonce)
    ensures DecodeServerAck(input) == Ok(nonce) <==> EncodeServerAck(nonce) == Ok(input)
  {
    hide DecodeItems, EncodeMessage, Unspecified, Multicast;
    if EncodeServerAck(nonce) == Ok(input) {
      var items := [Blob(nonce)];
      assert AllFit(SERVER_ACK_KINDS, items);
      DecodesItems(SERVER_ACK, SERVER_ACK_KINDS, items);
    }
  }

  // ---------- transcripts ----------

  /** What one handshake is about. */
  datatype Terms = Terms(client: Contact, server: Contact, clientNonce: Bytes, serverNonce: Bytes, binding: Bytes, observed: Address)

  predicate TypedTerms(t: Terms) {
    IsNonce(t.clientNonce) && IsNonce(t.serverNonce) && |t.binding| == EXPORTER_BYTES && TypedAddress(t.observed)
  }

  function TermItems(client: Bytes, server: Bytes, t: Terms): seq<Item> {
    [Number(PROTOCOL_VERSION), Blob(client), Blob(server), Blob(t.clientNonce), Blob(t.serverNonce), Blob(t.binding), Socket(t.observed)]
  }

  function Transcript(t: Terms): (result: Result<Bytes, SessionError>)
    requires TypedTerms(t)
  {
    var client :- ContactBytes(t.client);
    var server :- ContactBytes(t.server);
    EncodeMessage(TermItems(client, server, t))
  }

  /** What the client's proof adds: where it reached the server. */
  function ExtendedTranscript(base: Bytes, observed: Address): Result<Bytes, SessionError>
    requires |base| <= MAX_SESSION_FRAME_BYTES && TypedAddress(observed)
  {
    EncodeMessage([Number(PROTOCOL_VERSION), Blob(base), Socket(observed)])
  }

  function HelloTranscript(contact: Contact, nonce: Bytes, binding: Bytes): Result<Bytes, SessionError> {
    var bytes :- ContactBytes(contact);
    Ok(BigEndian(PROTOCOL_VERSION, 2) + BigEndian(|bytes|, 4) + bytes + nonce + binding)
  }

  /** What the hello proof is over determines contact, nonce and connection. */
  lemma HelloTranscriptInjective(contact: Contact, nonce: Bytes, binding: Bytes, contact': Contact, nonce': Bytes, binding': Bytes)
    requires |nonce| == |nonce'| == NONCE_BYTES && |binding| == |binding'| == EXPORTER_BYTES
    requires HelloTranscript(contact, nonce, binding).Ok?
    requires HelloTranscript(contact, nonce, binding) == HelloTranscript(contact', nonce', binding')
    ensures contact == contact' && nonce == nonce' && binding == binding'
  {
    Widths();
    hide BigEndian, ContactBytes, Pow256;
    var c, d := ContactBytes(contact).value, ContactBytes(contact').value;
    var t := HelloTranscript(contact, nonce, binding).value;
    assert |t| == 6 + |c| + 64 == 6 + |d| + 64;
    assert t[6..6 + |c|] == c && t[6..6 + |d|] == d;
    assert t[6 + |c|..6 + |c| + 32] == nonce && t[6 + |c|..6 + |c| + 32] == nonce';
    assert t[6 + |c| + 32..] == binding && t[6 + |c| + 32..] == binding';
    ContactBytesInjective(contact, contact');
  }

  lemma ContactBytesInjective(a: Contact, b: Contact)
    requires ContactBytes(a).Ok? && ContactBytes(a) == ContactBytes(b)
    ensures a == b
  {
    assert CONTACTS.decode(ContactBytes(a).value) == Some(a);
  }

  /** The budget is never exceeded: a transcript exists when both contacts encode. */
  lemma TranscriptExists(t: Terms)
    requires TypedTerms(t) && ContactBytes(t.client).Ok? && ContactBytes(t.server).Ok?
    ensures Transcript(t).Ok?
    ensures |Transcript(t).value| <= 2 * MAX_CONTACT_BYTES + 200
  {
    var items := TermItems(ContactBytes(t.client).value, ContactBytes(t.server).value, t);
    TermItemsBound(ContactBytes(t.client).value, ContactBytes(t.server).value, t);
    hide ItemsBound, WriteItems;
    MessageFits(items);
    ItemsSize(items);
  }

  lemma TermItemsBound(client: Bytes, server: Bytes, t: Terms)
    requires TypedTerms(t) && |client| <= MAX_CONTACT_BYTES && |server| <= MAX_CONTACT_BYTES
    ensures ItemsBound(TermItems(client, server, t)) <= 2 * MAX_CONTACT_BYTES + 190
  {
    var items := TermItems(client, server, t);
    hide ItemsBound;
    BoundFrom(items, 6);
    BoundFrom(items, 5);
    BoundFrom(items, 4);
    BoundFrom(items, 3);
    BoundFrom(items, 2);
    BoundFrom(items, 1);
    BoundFrom(items, 0);
    assert items[0..] == items;
    NoItems(items);
  }

  lemma ExtendedExists(base: Bytes, observed: Address)
    requires |base| <= 2 * MAX_CONTACT_BYTES + 200 && TypedAddress(observed)
    ensures ExtendedTranscript(base, observed).Ok?
  {
    var items := [Number(PROTOCOL_VERSION), Blob(base), Socket(observed)];
    hide ItemsBound, EncodeMessage;
    BoundFrom(items, 2);
    BoundFrom(items, 1);
    BoundFrom(items, 0);
    assert items[0..] == items;
    NoItems(items);
    MessageFits(items);
  }

  /** Equal transcripts are about the same contacts, nonces, channel and address. */
  lemma TranscriptInjective(s: Terms, t: Terms)
    requires TypedTerms(s) && TypedTerms(t) && Transcript(s).Ok? && Transcript(s) == Transcript(t)
    ensures s == t
  {
    hide EncodeMessage, CONTACTS;
    var a := TermItems(ContactBytes(s.client).value, ContactBytes(s.server).value, s);
    var b := TermItems(ContactBytes(t.client).value, ContactBytes(t.server).value, t);
    MessageInjective(a, b);
    assert a[1] == b[1] && a[2] == b[2] && a[3] == b[3] && a[4] == b[4] && a[5] == b[5] && a[6] == b[6];
    ContactBytesInjective(s.client, t.client);
    ContactBytesInjective(s.server, t.server);
  }

  lemma ExtendedInjective(base: Bytes, observed: Address, base': Bytes, observed': Address)
    requires |base| <= MAX_SESSION_FRAME_BYTES && |base'| <= MAX_SESSION_FRAME_BYTES && TypedAddress(observed) && TypedAddress(observed')
    requires ExtendedTranscript(base, observed).Ok? && ExtendedTranscript(base, observed) == ExtendedTranscript(base', observed')
    ensures base == base' && observed == observed'
  {
    var a := [Number(PROTOCOL_VERSION), Blob(base), Socket(observed)];
    var b := [Number(PROTOCOL_VERSION), Blob(base'), Socket(observed')];
    hide EncodeMessage;
    MessageInjective(a, b);
    assert a[1] == b[1] && a[2] == b[2];
  }

  // ---------- domains ----------

  /** Every signing domain is a non-empty name ended by a zero byte. */
  predicate DomainName(name: string) {
    forall i :: 0 <= i < |name| ==> 0 < name[i] as int < 128
  }

  function Ascii(name: string): (b: Bytes)
    requires DomainName(name)
    ensures |b| == |name| && forall i :: 0 <= i < |b| ==> b[i] == name[i] as int
  {
    seq(|name|, i requires 0 <= i < |name| => name[i] as int)
  }

  /** The bytes a device key signs. */
  function Domain(name: string, message: Bytes): Bytes
    requires DomainName(name)
  {
    Ascii(name) + [0] + message
  }

  const SERVER_PROOF := "supgang/session/server-proof/v1"
  const CLIENT_PROOF_NAME := "supgang/session/client-proof/v1"
  const CLIENT_HELLO_PROOF := "supgang/session/client-hello-proof/v2"

  lemma SessionDomains()
    ensures DomainName(SERVER_PROOF) && DomainName(CLIENT_PROOF_NAME) && DomainName(CLIENT_HELLO_PROOF)
    ensures SERVER_PROOF != CLIENT_PROOF_NAME && CLIENT_PROOF_NAME != CLIENT_HELLO_PROOF && SERVER_PROOF != CLIENT_HELLO_PROOF
  {
    HelloDomain();
    assert SERVER_PROOF[16] == 's' && CLIENT_PROOF_NAME[16] == 'c' && CLIENT_HELLO_PROOF[16] == 'c';
    assert |CLIENT_PROOF_NAME| == 31 && |CLIENT_HELLO_PROOF| == 37;
  }

  lemma HelloDomain()
    ensures DomainName(CLIENT_HELLO_PROOF)
  {
  }

  /** Equal signed bytes have one domain and one message, whatever the messages. */
  lemma DomainSeparation(name: string, message: Bytes, name': string, message': Bytes)
    requires DomainName(name) && DomainName(name') && Domain(name, message) == Domain(name', message')
    ensures name == name' && message == message'
  {
    var a, b := Domain(name, message), Domain(name', message');
    assert a[|name|] == 0 && b[|name'|] == 0;
    assert forall i :: 0 <= i < |name| ==> a[i] == name[i] as int != 0;
    assert forall i :: 0 <= i < |name'| ==> b[i] == name'[i] as int != 0;
    assert |name| == |name'|;
    assert forall i :: 0 <= i < |name| ==> name[i] == name'[i];
    assert a[|name| + 1..] == message && b[|name'| + 1..] == message';
  }
}
