/** The canonical bytes of membership certificates. */
module MembershipCodec {
  import opened Prelude
  import opened Cbor
  import opened Contacts

  const CERTIFICATE_FIELDS := 9
  const ENVELOPE_VERSION := 1
  const MAX_SIGNED_MEMBERSHIP_BYTES := 1024

  datatype CodecError = BadBytes | Oversized | BadSignature | BadVersion | BadShape(cause: CheckError) | NonCanonical

  /** What the field types allow. A role set is only ever built from known roles. */
  predicate Typed(c: Certificate) {
    && c.version <= 0xFFFF && IsId(c.hive) && IsId(c.node)
    && |c.deviceKey| == 32 && |c.admissionNonce| == 32
    && c.serial <= U64_MAX && c.issuedAt <= U64_MAX && c.expiresAt <= U64_MAX
    && c.roles <= KNOWN_ROLES
  }

  function RoleBits(roles: Bits): nat {
    (if 0 in roles then 1 else 0) + (if 1 in roles then 2 else 0) + (if 2 in roles then 4 else 0)
  }

  /** The role set of a number, or none if it has an unknown bit. */
  function FromRoleBits(bits: nat): Option<Bits> {
    if bits > 7 then None
    else Some((if bits % 2 == 1 then {0} else {}) + (if bits / 2 % 2 == 1 then {1} else {}) + (if bits / 4 == 1 then {2} else {}))
  }

  lemma RoleBitsRoundTrip(roles: Bits)
    requires roles <= KNOWN_ROLES
    ensures RoleBits(roles) <= 7 && FromRoleBits(RoleBits(roles)) == Some(roles)
  {
    var again := FromRoleBits(RoleBits(roles)).value;
    assert forall role :: role in roles ==> role == 0 || role == 1 || role == 2;
    assert again == roles;
  }

  function EncodeCertificate(c: Certificate): (b: Bytes)
    requires Typed(c)
    ensures |b| <= 182
  {
    hide Head, BigEndian, Pow256, Id;
    HeadSize(ARRAY, CERTIFICATE_FIELDS);
    HeadSize(UNSIGNED, c.version);
    HeadSize(BYTES, 32);
    Head(ARRAY, CERTIFICATE_FIELDS) + (Head(UNSIGNED, c.version) + (Id(c.hive) + (Id(c.node) + (ByteString(c.deviceKey) +
      (Head(UNSIGNED, c.serial) + (Head(UNSIGNED, c.issuedAt) + (Head(UNSIGNED, c.expiresAt) +
      (Head(UNSIGNED, RoleBits(c.roles)) + ByteString(c.admissionNonce)))))))))
  }

  function EncodeMembership(m: SignedMembership): (result: Result<Bytes, CodecError>)
    requires Typed(m.certificate)
    ensures result.Ok? <==> |m.signature| == SIGNATURE_BYTES
    ensures result.Ok? ==> 1 <= |result.value| <= MAX_SIGNED_MEMBERSHIP_BYTES
  {
    hide EncodeCertificate, Typed;
    if |m.signature| != SIGNATURE_BYTES then Err(BadSignature) else
    var output := MembershipEnvelope(EncodeCertificate(m.certificate), m.signature);
    if |output| > MAX_SIGNED_MEMBERSHIP_BYTES then Err(Oversized) else Ok(output)
  }

  function MembershipEnvelope(payload: Bytes, signature: Bytes): (b: Bytes)
    requires |payload| <= 0xFFFF && |signature| <= 0xFFFF
    ensures 1 <= |b| <= |payload| + |signature| + 22
  {
    hide Head;
    HeadSize(ARRAY, 3);
    HeadSize(UNSIGNED, ENVELOPE_VERSION);
    Head(ARRAY, 3) + (Head(UNSIGNED, ENVELOPE_VERSION) + (ByteString(payload) + ByteString(signature)))
  }

  function Read<T>(read: Result<T, Malformed>): Result<T, CodecError> {
    match read
    case Ok(value) => Ok(value)
    case Err(_) => Err(BadBytes)
  }

  function ReadFixed(input: Bytes, size: nat): Result<(Bytes, Bytes), CodecError> {
    var read :- Read(ReadBytes(input));
    if |read.0| != size then Err(BadBytes) else Ok(read)
  }

  function DecodeCertificate(input: Bytes): Result<Certificate, CodecError> {
    var fields :- Read(ReadArray(input));
    if fields.0 != CERTIFICATE_FIELDS then Err(BadBytes) else
    var version :- Read(ReadUnsigned(fields.1, 0xFFFF));
    var hive :- Read(ReadId(version.1));
    var node :- Read(ReadId(hive.1));
    var key :- ReadFixed(node.1, 32);
    var serial :- Read(ReadUnsigned(key.1, U64_MAX));
    var issuedAt :- Read(ReadUnsigned(serial.1, U64_MAX));
    var expiresAt :- Read(ReadUnsigned(issuedAt.1, U64_MAX));
    var bits :- Read(ReadUnsigned(expiresAt.1, U64_MAX));
    var roles := FromRoleBits(bits.0);
    if roles.None? then Err(BadShape(UnknownRole)) else
    var nonce :- ReadFixed(bits.1, 32);
    if nonce.1 != [] then Err(BadBytes) else
    var c := Certificate(version.0, hive.0, node.0, key.0, serial.0, issuedAt.0, expiresAt.0, roles.value, nonce.0);
    if CertificateShape(c).Some? then Err(BadShape(CertificateShape(c).value)) else
    if EncodeCertificate(c) != input then Err(NonCanonical) else Ok(c)
  }

  function DecodeMembership(input: Bytes): Result<SignedMembership, CodecError> {
    if |input| > MAX_SIGNED_MEMBERSHIP_BYTES then Err(Oversized) else
    var fields :- Read(ReadArray(input));
    if fields.0 != 3 then Err(BadBytes) else
    var version :- Read(ReadUnsigned(fields.1, 0xFFFF));
    if version.0 != ENVELOPE_VERSION then Err(BadVersion) else
    var payload :- Read(ReadBytes(version.1));
    var signature :- Read(ReadBytes(payload.1));
    if |signature.0| != SIGNATURE_BYTES || signature.1 != [] then Err(BadBytes) else
    var certificate :- DecodeCertificate(payload.0);
    DecodedIsTyped(payload.0);
    var value := SignedMembership(certificate, signature.0);
    var again :- EncodeMembership(value);
    if again != input then Err(NonCanonical) else Ok(value)
  }

  lemma DecodedIsTyped(input: Bytes)
    requires DecodeCertificate(input).Ok?
    ensures var c := DecodeCertificate(input).value; Typed(c) && CertificateShape(c).None? && EncodeCertificate(c) == input
  {
    hide ReadArray, ReadUnsigned, ReadId, ReadBytes, EncodeCertificate, IsId, CertificateShape;
  }

  lemma CertificateRoundTrip(c: Certificate)
    requires Typed(c) && CertificateShape(c).None?
    ensures DecodeCertificate(EncodeCertificate(c)) == Ok(c)
  {
    hide Head, Id, ByteString, ReadArray, ReadUnsigned, ReadId, ReadBytes, IsId, CertificateShape, RoleBits, FromRoleBits;
    RoleBitsRoundTrip(c.roles);
    var nonce := ByteString(c.admissionNonce);
    var roles := Head(UNSIGNED, RoleBits(c.roles)) + nonce;
    var expiresAt := Head(UNSIGNED, c.expiresAt) + roles;
    var issuedAt := Head(UNSIGNED, c.issuedAt) + expiresAt;
    var serial := Head(UNSIGNED, c.serial) + issuedAt;
    var key := ByteString(c.deviceKey) + serial;
    var node := Id(c.node) + key;
    var hive := Id(c.hive) + node;
    var version := Head(UNSIGNED, c.version) + hive;
    ReadsArray(CERTIFICATE_FIELDS, version);
    ReadsUnsigned(c.version, 0xFFFF, hive);
    ReadsId(c.hive, node);
    ReadsId(c.node, key);
    ReadsBytes(c.deviceKey, serial);
    ReadsUnsigned(c.serial, U64_MAX, issuedAt);
    ReadsUnsigned(c.issuedAt, U64_MAX, expiresAt);
    ReadsUnsigned(c.expiresAt, U64_MAX, roles);
    ReadsUnsigned(RoleBits(c.roles), U64_MAX, nonce);
    ReadsBytes(c.admissionNonce, []);
    assert nonce + [] == nonce;
  }

  /** The codec is exact: bytes decode to a membership exactly when its certificate
      is well shaped, its signature full and the bytes are its encoding. */
  lemma MembershipCodecExact(input: Bytes, m: SignedMembership)
    ensures DecodeMembership(input) == Ok(m) <==>
            Typed(m.certificate) && CertificateShape(m.certificate).None? && EncodeMembership(m) == Ok(input)
  {
    hide Head, DecodeCertificate, EncodeCertificate, ReadArray, ReadUnsigned, ReadBytes, ByteString, Typed, CertificateShape;
    if DecodeMembership(input) == Ok(m) {
      var payload := ReadBytes(ReadUnsigned(ReadArray(input).value.1, 0xFFFF).value.1).value.0;
      DecodedIsTyped(payload);
    }
    if Typed(m.certificate) && CertificateShape(m.certificate).None? && EncodeMembership(m) == Ok(input) {
      var signature := ByteString(m.signature);
      var payload := ByteString(EncodeCertificate(m.certificate)) + signature;
      var version := Head(UNSIGNED, ENVELOPE_VERSION) + payload;
      ReadsArray(3, version);
      ReadsUnsigned(ENVELOPE_VERSION, 0xFFFF, payload);
      ReadsBytes(EncodeCertificate(m.certificate), signature);
      ReadsBytes(m.signature, []);
      assert signature + [] == signature;
      CertificateRoundTrip(m.certificate);
    }
  }
}
