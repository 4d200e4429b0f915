/** Authoritative state events and their canonical bytes. */
module StateEvents {
  import opened Prelude
  import opened Cbor
  import opened Contacts
  import opened JournalFormat
  import M = MembershipCodec
  import R = Revocation

  datatype Event =
    | Genesis(membership: SignedMembership, revocations: R.SignedRevocations)
    | SequenceReserved(generation: nat, sequence: nat)
    | MembershipIssued(membership: SignedMembership)
    | RevocationsReplaced(revocations: R.SignedRevocations)
    | Checkpoint(mark: Mark, signature: Bytes)

  /** What a checkpoint vouches for. */
  datatype Mark = Mark(hive: HiveId, node: NodeId, generation: nat, sequence: nat, digest: Bytes)

  datatype StateError =
    | MissingGenesis | InvalidGenesis | IdentityMismatch | InvalidEvent | NonCanonical
    | InvalidSequence | InvalidCheckpoint | InvalidMembershipSerial | BadMembership | BadRevocations
    | DuplicateMember | HiveFull | CounterExhausted | RevocationRollback | RevocationEquivocation
    | RevokedMember | UnknownMember | CannotRevokeSelf | AdmissionUnavailable
    | JoinMismatch | UnexpectedJoinNode | OutlivesMembership | UnauthorizedCapability | BadRecord
    | JournalFailed | ReadOnlySnapshot | AlreadyInitialized

  const STATE_EVENT_VERSION := 1
  const CHECKPOINT_VERSION := 1

  // ---------- bytes ----------

  predicate GoodMembership(m: SignedMembership) {
    M.Typed(m.certificate) && CertificateShape(m.certificate).None? && |m.signature| == Contacts.SIGNATURE_BYTES
  }

  predicate GoodRevocations(r: R.SignedRevocations) {
    R.Typed(r.list) && R.ValidateShape(r.list).Ok? && |r.signature| == R.SIGNATURE_BYTES
  }

  predicate GoodMark(mark: Mark) {
    IsId(mark.hive) && IsId(mark.node) && mark.generation <= U64_MAX && mark.sequence <= U64_MAX && |mark.digest| == 32
  }

  predicate GoodEvent(event: Event) {
    match event
    case Genesis(m, r) => GoodMembership(m) && GoodRevocations(r)
    case SequenceReserved(generation, sequence) => generation <= U64_MAX && sequence <= U64_MAX
    case MembershipIssued(m) => GoodMembership(m)
    case RevocationsReplaced(r) => GoodRevocations(r)
    case Checkpoint(mark, signature) => GoodMark(mark) && |signature| == 64
  }

  function MembershipBytes(m: SignedMembership): (b: Bytes)
    requires GoodMembership(m)
    ensures 1 <= |b| <= M.MAX_SIGNED_MEMBERSHIP_BYTES
  {
    M.EncodeMembership(m).value
  }

  function RevocationBytes(r: R.SignedRevocations): (b: Bytes)
    requires GoodRevocations(r)
    ensures |b| <= R.MAX_SIGNED_REVOCATION_BYTES
  {
    R.EncodeSucceeds(r);
    R.EncodeSigned(r).value
  }

  /** Every event starts with its field count, the format version and its tag. */
  function Tagged(fields: nat, tag: nat, body: Bytes): (b: Bytes)
    requires fields <= 23 && tag <= 23
    ensures |b| == |body| + 3
  {
    HeadSize(ARRAY, fields);
    HeadSize(UNSIGNED, STATE_EVENT_VERSION);
    HeadSize(UNSIGNED, tag);
    hide Head;
    Head(ARRAY, fields) + (Head(UNSIGNED, STATE_EVENT_VERSION) + (Head(UNSIGNED, tag) + body))
  }

  function MarkBytes(mark: Mark, signature: Bytes): (b: Bytes)
    requires GoodMark(mark) && |signature| == 64
    ensures |b| <= 1000
  {
    hide Head, Id;
    Head(UNSIGNED, CHECKPOINT_VERSION) + (Id(mark.hive) + (Id(mark.node) + (Head(UNSIGNED, mark.generation) +
      (Head(UNSIGNED, mark.sequence) + (ByteString(mark.digest) + ByteString(signature))))))
  }

  /** The canonical bytes, always a valid journal payload. */
  function EncodeEvent(event: Event): (b: Bytes)
    requires GoodEvent(event)
    ensures ValidPayload(b)
  {
    hide Head, ByteString, MembershipBytes, RevocationBytes, GoodMembership, GoodRevocations, GoodMark;
    match event
    case Genesis(m, r) => Tagged(4, 1, ByteString(MembershipBytes(m)) + ByteString(RevocationBytes(r)))
    case SequenceReserved(generation, sequence) => Tagged(4, 2, Head(UNSIGNED, generation) + Head(UNSIGNED, sequence))
    case MembershipIssued(m) => Tagged(3, 3, ByteString(MembershipBytes(m)))
    case RevocationsReplaced(r) => Tagged(3, 4, ByteString(RevocationBytes(r)))
    case Checkpoint(mark, signature) => Tagged(9, 5, MarkBytes(mark, signature))
  }

  function Read<T>(read: Result<T, Malformed>): Result<T, StateError> {
    match read
    case Ok(value) => Ok(value)
    case Err(_) => Err(InvalidEvent)
  }

  function ReadMembership(input: Bytes): (result: Result<(SignedMembership, Bytes), StateError>)
    ensures result.Ok? ==> GoodMembership(result.value.0)
  {
    hide M.Typed, M.DecodeMembership, M.EncodeMembership, CertificateShape;
    var bytes :- Read(ReadBytes(input));
    var decoded := M.DecodeMembership(bytes.0);
    if decoded.Err? then Err(BadMembership) else
    M.MembershipCodecExact(bytes.0, decoded.value);
    Ok((decoded.value, bytes.1))
  }

  function ReadRevocations(input: Bytes): (result: Result<(R.SignedRevocations, Bytes), StateError>)
    ensures result.Ok? ==> GoodRevocations(result.value.0)
  {
    hide R.Typed, R.DecodeSigned, R.EncodeSigned, R.ValidateShape;
    var bytes :- Read(ReadBytes(input));
    var decoded := R.DecodeSigned(bytes.0);
    if decoded.Err? then Err(BadRevocations) else
    R.CodecExact(bytes.0, decoded.value);
    Ok((decoded.value, bytes.1))
  }

  function ReadFixed(input: Bytes, size: nat): Result<(Bytes, Bytes), StateError> {
    var read :- Read(ReadBytes(input));
    if |read.0| != size then Err(InvalidCheckpoint) else Ok(read)
  }

  function ReadIds(input: Bytes): (result: Result<((HiveId, NodeId), Bytes), StateError>)
    ensures result.Ok? ==> IsId(result.value.0.0) && IsId(result.value.0.1)
  {
    hide ReadUnsigned, ReadId, IsId;
    var version :- Read(ReadUnsigned(input, 0xFFFF));
    if version.0 != CHECKPOINT_VERSION then Err(InvalidCheckpoint) else
    var hive :- Read(ReadId(version.1));
    var node :- Read(ReadId(hive.1));
    Ok(((hive.0, node.0), node.1))
  }

  function ReadCounters(input: Bytes): (result: Result<((nat, nat), Bytes), StateError>)
    ensures result.Ok? ==> result.value.0.0 <= U64_MAX && result.value.0.1 <= U64_MAX
  {
    hide ReadUnsigned;
    var first :- Read(ReadUnsigned(input, U64_MAX));
    var second :- Read(ReadUnsigned(first.1, U64_MAX));
    Ok(((first.0, second.0), second.1))
  }

  /** The digest and the signature. */
  function ReadSeal(input: Bytes): (result: Result<((Bytes, Bytes), Bytes), StateError>)
    ensures result.Ok? ==> |result.value.0.0| == 32 && |result.value.0.1| == 64
  {
    hide ReadBytes;
    var digest :- ReadFixed(input, 32);
    var signature :- ReadFixed(digest.1, 64);
    Ok(((digest.0, signature.0), signature.1))
  }

  function ReadMark(input: Bytes): (result: Result<((Mark, Bytes), Bytes), StateError>)
    ensures result.Ok? ==> GoodMark(result.value.0.0) && |result.value.0.1| == 64
  {
    hide ReadIds, ReadCounters, ReadSeal, IsId;
    var ids :- ReadIds(input);
    var counters :- ReadCounters(ids.1);
    var seal :- ReadSeal(counters.1);
    Ok(((Mark(ids.0.0, ids.0.1, counters.0.0, counters.0.1, seal.0.0), seal.0.1), seal.1))
  }

  function ReadBody(tag: nat, fields: nat, input: Bytes): (result: Result<(Event, Bytes), StateError>)
    ensures result.Ok? ==> GoodEvent(result.value.0)
  {
    hide ReadCounters, GoodMembership, GoodRevocations, GoodMark, ReadMembership, ReadRevocations, ReadMark;
    if tag == 1 && fields == 4 then
      var m :- ReadMembership(input);
      var r :- ReadRevocations(m.1);
      Ok((Genesis(m.0, r.0), r.1))
    else if tag == 2 && fields == 4 then
      var counters :- ReadCounters(input);
      Ok((SequenceReserved(counters.0.0, counters.0.1), counters.1))
    else if tag == 3 && fields == 3 then
      var m :- ReadMembership(input);
      Ok((MembershipIssued(m.0), m.1))
    else if tag == 4 && fields == 3 then
      var r :- ReadRevocations(input);
      Ok((RevocationsReplaced(r.0), r.1))
    else if tag == 5 && fields == 9 then
      var mark :- ReadMark(input);
      Ok((Checkpoint(mark.0.0, mark.0.1), mark.1))
    else Err(InvalidEvent)
  }

  function DecodeEvent(input: Bytes): (result: Result<Event, StateError>)
    ensures result.Ok? ==> GoodEvent(result.value) && EncodeEvent(result.value) == input
  {
    hide ReadHead, ReadBody, EncodeEvent, GoodEvent;
    var fields :- Read(ReadArray(input));
    var version :- Read(ReadUnsigned(fields.1, 0xFFFF));
    if version.0 != STATE_EVENT_VERSION then Err(InvalidEvent) else
    var tag :- Read(ReadUnsigned(version.1, 0xFF));
    var body :- ReadBody(tag.0, fields.0, tag.1);
    if body.1 != [] then Err(InvalidEvent)
    else if EncodeEvent(body.0) != input then Err(NonCanonical)
    else Ok(body.0)
  }

  lemma ReadsMembership(m: SignedMembership, rest: Bytes)
    requires GoodMembership(m)
    ensures ReadMembership(ByteString(MembershipBytes(m)) + rest) == Ok((m, rest))
  {
    hide M.Typed, M.DecodeMembership, CertificateShape, ReadBytes, ByteString;
    ReadsBytes(MembershipBytes(m), rest);
    M.MembershipCodecExact(MembershipBytes(m), m);
  }

  lemma ReadsRevocations(r: R.SignedRevocations, rest: Bytes)
    requires GoodRevocations(r)
    ensures ReadRevocations(ByteString(RevocationBytes(r)) + rest) == Ok((r, rest))
  {
    hide R.Typed, R.DecodeSigned, R.EncodeSigned, R.ValidateShape, ReadBytes, ByteString;
    ReadsBytes(RevocationBytes(r), rest);
    R.EncodeSucceeds(r);
    R.CodecExact(RevocationBytes(r), r);
  }

  lemma ReadsMark(mark: Mark, signature: Bytes)
    requires GoodMark(mark) && |signature| == 64
    ensures ReadMark(MarkBytes(mark, signature)) == Ok(((mark, signature), []))
  {
    hide Head, Id, ByteString, ReadUnsigned, ReadId, ReadBytes, IsId;
    var tail := ByteString(signature);
    var digest := ByteString(mark.digest) + tail;
    var sequence := Head(UNSIGNED, mark.sequence) + digest;
    var generation := Head(UNSIGNED, mark.generation) + sequence;
    var node := Id(mark.node) + generation;
    var hive := Id(mark.hive) + node;
    ReadsUnsigned(CHECKPOINT_VERSION, 0xFFFF, hive);
    ReadsId(mark.hive, node);
    ReadsId(mark.node, generation);
    ReadsUnsigned(mark.generation, U64_MAX, sequence);
    ReadsUnsigned(mark.sequence, U64_MAX, digest);
    ReadsBytes(mark.digest, tail);
    ReadsBytes(signature, []);
    assert tail + [] == tail;
  }

  /** What each event's body reads as, once its tag was read. */
  lemma ReadsBody(event: Event) returns (fields: nat, tag: nat, body: Bytes)
    requires GoodEvent(event)
    ensures fields <= 23 && tag <= 23
    ensures EncodeEvent(event) == Tagged(fields, tag, body)
    ensures ReadBody(tag, fields, body) == Ok((event, []))
  {
    hide Head, ByteString, ReadUnsigned, ReadMembership, ReadRevocations, ReadMark, MarkBytes,
         MembershipBytes, RevocationBytes, GoodMembership, GoodRevocations, GoodMark, Tagged;
    match event
    case Genesis(m, r) =>
      fields, tag, body := 4, 1, ByteString(MembershipBytes(m)) + ByteString(RevocationBytes(r));
      ReadsMembership(m, ByteString(RevocationBytes(r)));
      ReadsRevocations(r, []);
      assert ByteString(RevocationBytes(r)) + [] == ByteString(RevocationBytes(r));
    case SequenceReserved(generation, sequence) =>
      fields, tag, body := 4, 2, Head(UNSIGNED, generation) + Head(UNSIGNED, sequence);
      ReadsUnsigned(generation, U64_MAX, Head(UNSIGNED, sequence));
      ReadsUnsigned(sequence, U64_MAX, []);
      assert Head(UNSIGNED, sequence) + [] == Head(UNSIGNED, sequence);
    case MembershipIssued(m) =>
      fields, tag, body := 3, 3, ByteString(MembershipBytes(m));
      ReadsMembership(m, []);
      assert body + [] == body;
    case RevocationsReplaced(r) =>
      fields, tag, body := 3, 4, ByteString(RevocationBytes(r));
      ReadsRevocations(r, []);
      assert body + [] == body;
    case Checkpoint(mark, signature) =>
      fields, tag, body := 9, 5, MarkBytes(mark, signature);
      ReadsMark(mark, signature);
  }

  /** Decoding inverts encoding, for every event; the other direction is what
      decoding promises. */
  lemma EventRoundTrip(event: Event)
    requires GoodEvent(event)
    ensures DecodeEvent(EncodeEvent(event)) == Ok(event)
  {
    hide Head, ReadArray, ReadUnsigned, ReadBody, EncodeEvent, GoodEvent;
    var fields, tag, body := ReadsBody(event);
    var tagged := Head(UNSIGNED, tag) + body;
    ReadsArray(fields, Head(UNSIGNED, STATE_EVENT_VERSION) + tagged);
    ReadsUnsigned(STATE_EVENT_VERSION, 0xFFFF, tagged);
    ReadsUnsigned(tag, 0xFF, body);
  }
}
