/** Endpoint candidates, membership certificates, endpoint records and the
    contacts that join the two. */
module Contacts {
  import opened Prelude

  // ---------- candidates ----------

  type U32 = x: int | 0 <= x < 0x1_0000_0000
  type U128 = x: int | 0 <= x < 0x1_0000_0000_0000_0000_0000_0000_0000_0000

  /** An address as the number its octets spell. */
  datatype IpAddr = V4(v4: U32) | V6(v6: U128)

  datatype SocketAddr = SocketAddr(ip: IpAddr, port: nat)

  datatype CandidateKind = Local | Direct | Reflexive | Mapped | OwnedRelay

  datatype Candidate = Candidate(kind: CandidateKind, address: SocketAddr)

  function KindRank(kind: CandidateKind): nat {
    match kind
    case Local => 0
    case Direct => 1
    case Reflexive => 2
    case Mapped => 3
    case OwnedRelay => 4
  }

  /** The derived order: kind, then family, address and port. */
  predicate CandidateLess(a: Candidate, b: Candidate) {
    || KindRank(a.kind) < KindRank(b.kind)
    || (a.kind == b.kind && SocketLess(a.address, b.address))
  }

  predicate SocketLess(a: SocketAddr, b: SocketAddr) {
    match (a.ip, b.ip)
    case (V4(x), V4(y)) => x < y || (x == y && a.port < b.port)
    case (V6(x), V6(y)) => x < y || (x == y && a.port < b.port)
    case (V4(_), V6(_)) => true
    case (V6(_), V4(_)) => false
  }

  // ---------- certificates and records ----------

  type NodeId = nat          // 32 bytes, compared as one big-endian number
  type HiveId = nat
  type TransportKeyId = nat
  type Key = seq<byte>
  type Signature = seq<byte>

  /** A bit set, as the set of its positions. */
  type Bits = set<nat>

  const ROLE_DEVICE := 0
  const ROLE_INTRODUCER := 1
  const ROLE_CONTROL_RELAY := 2
  const KNOWN_ROLES: Bits := {0, 1, 2}
  const CAPABILITY_INTRODUCER := 0
  const CAPABILITY_CONTROL_RELAY := 1
  const KNOWN_CAPABILITIES: Bits := {0, 1}

  const MAX_HIVE_MEMBERS := 256
  const MEMBERSHIP_VERSION := 1
  const MAX_MEMBERSHIP_LIFETIME_SECONDS := 10 * 366 * 24 * 60 * 60
  const MAX_RECORD_LIFETIME_SECONDS := 7 * 24 * 60 * 60
  const MAX_FUTURE_SKEW_SECONDS := 5 * 60
  const MAX_CANDIDATES := 8
  const MAX_SERVICE_ADVERTS := 4
  const SIGNATURE_BYTES := 64

  datatype Certificate = Certificate(
    version: nat,
    hive: HiveId,
    node: NodeId,
    deviceKey: Key,
    serial: nat,
    issuedAt: nat,
    expiresAt: nat,
    roles: Bits,
    admissionNonce: seq<byte>)

  datatype SignedMembership = SignedMembership(certificate: Certificate, signature: Signature)

  datatype ServiceAdvert = ServiceAdvert(name: nat, port: nat, keyPin: seq<byte>)

  datatype EndpointRecord = EndpointRecord(
    protocolVersion: nat,
    hive: HiveId,
    node: NodeId,
    displayName: Option<seq<byte>>,
    transportKey: TransportKeyId,
    generation: nat,
    sequence: nat,
    issuedAt: nat,
    expiresAt: nat,
    candidates: seq<Candidate>,
    capabilities: Bits,
    services: seq<ServiceAdvert>)

  datatype SignedRecord = SignedRecord(record: EndpointRecord, signature: Signature)

  datatype Contact = Contact(membership: SignedMembership, endpoint: SignedRecord)

  // ---------- what is not computed here ----------

  /** Identifiers are 32-byte hashes of keys. */
  type IdHash = f: Key -> nat | forall key :: IsId(f(key)) witness (_ => 0)

  const NODE_OF_KEY: IdHash
  const HIVE_OF_ROOT: IdHash

  /** Whether a key decodes to a curve point, and whether a signature verifies
      for it over a certificate's or a record's canonical bytes. */
  const KEY_DECODES: Key -> bool
  const CERTIFICATE_SIGNED: (Key, Certificate, Signature) -> bool
  const RECORD_SIGNED: (Key, EndpointRecord, Signature) -> bool

  // ---------- contact bytes ----------

  const MAX_CONTACT_BYTES := 1024 + 4096 + 128

  /** A bounded canonical codec: decoding inverts encoding, and only what encoding
      gives decodes. */
  datatype Codec<!T> = Codec(encode: T -> Option<Bytes>, decode: Bytes -> Option<T>)

  ghost predicate IsCanonical<T(!new)>(codec: Codec<T>, limit: nat) {
    && (forall v, b :: codec.encode(v) == Some(b) ==> 1 <= |b| <= limit && codec.decode(b) == Some(v))
    && (forall v, b :: codec.decode(b) == Some(v) ==> codec.encode(v) == Some(b))
  }

  type ContactCodec = codec: Codec<Contact> | IsCanonical(codec, MAX_CONTACT_BYTES) witness Codec(_ => None, _ => None)

  const CONTACTS: ContactCodec

  // ---------- certificate checks ----------

  datatype CheckError =
    | UnsupportedVersion | ZeroSerial | NodeKeyMismatch | InvalidLifetime | LifetimeTooLong
    | MissingDeviceRole | UnknownRole | MembershipExpired | HiveRootMismatch | InvalidSignature
    | InvalidDisplayName | ServicesNotSupported | TooManyServices | ServicesNotCanonical | InvalidServicePort
    | ZeroSequence | TooManyCandidates | CandidatesNotCanonical | UnknownCapability
    | Expired | IssuedInFuture | MembershipMismatch | OutlivesMembership | SignerMismatch | UnauthorizedCapability

  type Check = Option<CheckError>   // none: accepted

  /** The first failure of two checks made in order. */
  function Then(first: Check, second: Check): Check {
    if first.Some? then first else second
  }

  function Refuse(refused: bool, error: CheckError): Check {
    if refused then Some(error) else None
  }

  function SaturatingAdd(a: nat, b: nat): nat {
    if a + b > U64_MAX then U64_MAX else a + b
  }

  function CertificateShape(c: Certificate): Check {
    Then(Refuse(c.version != MEMBERSHIP_VERSION, UnsupportedVersion),
    Then(Refuse(c.serial == 0, ZeroSerial),
    Then(Refuse(c.node != NODE_OF_KEY(c.deviceKey), NodeKeyMismatch),
    Then(Refuse(c.expiresAt <= c.issuedAt, InvalidLifetime),
    Then(Refuse(c.expiresAt - c.issuedAt > MAX_MEMBERSHIP_LIFETIME_SECONDS, LifetimeTooLong),
    Then(Refuse(ROLE_DEVICE !in c.roles, MissingDeviceRole),
         Refuse(!(c.roles <= KNOWN_ROLES), UnknownRole)))))))
  }

  function CertificateTime(c: Certificate, now: nat): Check {
    Refuse(c.expiresAt < now, MembershipExpired)
  }

  function MembershipVerify(m: SignedMembership, root: Key): Check {
    Then(CertificateShape(m.certificate),
    Then(Refuse(m.certificate.hive != HIVE_OF_ROOT(root), HiveRootMismatch),
         Refuse(|m.signature| != SIGNATURE_BYTES || !CERTIFICATE_SIGNED(root, m.certificate, m.signature), InvalidSignature)))
  }

  // ---------- record checks ----------

  function ServicesShape(services: seq<ServiceAdvert>): Check {
    Then(Refuse(|services| > MAX_SERVICE_ADVERTS, TooManyServices),
    Then(Refuse(!(forall i :: 0 < i < |services| ==> services[i - 1].name < services[i].name), ServicesNotCanonical),
         Refuse(!(forall i :: 0 <= i < |services| ==> services[i].port != 0), InvalidServicePort)))
  }

  function RecordShape(r: EndpointRecord): Check {
    Then(Refuse(!(1 <= r.protocolVersion <= 3), UnsupportedVersion),
    Then(Refuse((r.protocolVersion == 1) != r.displayName.None?, InvalidDisplayName),
    Then(Refuse(r.protocolVersion < 3 && r.services != [], ServicesNotSupported),
    Then(ServicesShape(r.services),
    Then(Refuse(r.sequence == 0, ZeroSequence),
    Then(Refuse(r.expiresAt <= r.issuedAt, InvalidLifetime),
    Then(Refuse(r.expiresAt - r.issuedAt > MAX_RECORD_LIFETIME_SECONDS, LifetimeTooLong),
    Then(Refuse(|r.candidates| > MAX_CANDIDATES, TooManyCandidates),
    Then(Refuse(!(forall i :: 0 < i < |r.candidates| ==> CandidateLess(r.candidates[i - 1], r.candidates[i])), CandidatesNotCanonical),
         Refuse(!(r.capabilities <= KNOWN_CAPABILITIES), UnknownCapability))))))))))
  }

  function RecordTime(r: EndpointRecord, now: nat): Check {
    Then(Refuse(r.expiresAt < now, Expired),
         Refuse(r.issuedAt > SaturatingAdd(now, MAX_FUTURE_SKEW_SECONDS), IssuedInFuture))
  }

  function RecordVerify(s: SignedRecord, key: Key): Check {
    Then(RecordShape(s.record),
    Then(Refuse(s.record.node != NODE_OF_KEY(key), SignerMismatch),
         Refuse(|s.signature| != SIGNATURE_BYTES || !RECORD_SIGNED(key, s.record, s.signature), InvalidSignature)))
  }

  predicate Grants(capabilities: Bits, capability: nat, roles: Bits, role: nat) {
    capability in capabilities ==> role in roles
  }

  function VerifyAuthorized(s: SignedRecord, m: SignedMembership, root: Key, now: nat): Check {
    var c := m.certificate;
    Then(MembershipVerify(m, root),
    Then(CertificateTime(c, now),
    Then(RecordTime(s.record, now),
    Then(Refuse(s.record.hive != c.hive || s.record.node != c.node, MembershipMismatch),
    Then(Refuse(s.record.expiresAt > c.expiresAt, OutlivesMembership),
    Then(Refuse(!KEY_DECODES(c.deviceKey), MembershipMismatch),
    Then(RecordVerify(s, c.deviceKey),
    Then(Refuse(!Grants(s.record.capabilities, CAPABILITY_INTRODUCER, c.roles, ROLE_INTRODUCER), UnauthorizedCapability),
         Refuse(!Grants(s.record.capabilities, CAPABILITY_CONTROL_RELAY, c.roles, ROLE_CONTROL_RELAY), UnauthorizedCapability)))))))))
  }

  /** Whether a contact is authorized at a time. */
  predicate Verify(contact: Contact, root: Key, now: nat) {
    VerifyAuthorized(contact.endpoint, contact.membership, root, now).None?
  }

  /** Whether it was authorized when it says it was issued. */
  predicate VerifyHistorical(contact: Contact, root: Key) {
    Verify(contact, root, contact.endpoint.record.issuedAt)
  }

  /** The times at which a contact is authorized: a window that opens five minutes
      before it was issued and closes when it expires, and that is never empty of
      the time of issue. So what was accepted at any time also replays. */
  lemma VerifyWindow(contact: Contact, root: Key, accepted: nat, now: nat)
    requires accepted <= U64_MAX && now <= U64_MAX && contact.endpoint.record.issuedAt <= U64_MAX
    requires Verify(contact, root, accepted)
    ensures VerifyHistorical(contact, root)
    ensures Verify(contact, root, now) <==>
            && now <= contact.endpoint.record.expiresAt
            && contact.endpoint.record.issuedAt <= now + MAX_FUTURE_SKEW_SECONDS
  {
    var record := contact.endpoint.record;
    assert RecordShape(record).None?;
    assert record.issuedAt < record.expiresAt <= contact.membership.certificate.expiresAt;
  }

  // ---------- authorization, said outright ----------

  /** A certificate that makes sense on its own. */
  predicate SoundCertificate(c: Certificate) {
    && c.version == 1 && c.serial > 0 && c.node == NODE_OF_KEY(c.deviceKey)
    && c.issuedAt < c.expiresAt <= c.issuedAt + 316_224_000
    && 0 in c.roles && forall role :: role in c.roles ==> role <= 2
  }

  /** The root signed that this device is a member of its hive. */
  predicate RootSays(m: SignedMembership, root: Key) {
    && SoundCertificate(m.certificate) && m.certificate.hive == HIVE_OF_ROOT(root)
    && |m.signature| == 64 && CERTIFICATE_SIGNED(root, m.certificate, m.signature)
  }

  /** At most four advertisements, with a port each, by ascending names. */
  predicate SoundServices(services: seq<ServiceAdvert>) {
    && |services| <= 4 && (forall i, j :: 0 <= i < j < |services| ==> services[i].name < services[j].name)
    && forall i :: 0 <= i < |services| ==> services[i].port > 0
  }

  lemma ServicesShapeExactly(services: seq<ServiceAdvert>)
    ensures ServicesShape(services).None? <==> SoundServices(services)
  {
    NamesAscend(services);
  }

  /** A record that makes sense on its own. */
  predicate SoundRecord(r: EndpointRecord) {
    && r.protocolVersion in {1, 2, 3} && (r.displayName.None? <==> r.protocolVersion == 1)
    && (r.services != [] ==> r.protocolVersion == 3) && SoundServices(r.services)
    && r.sequence > 0 && r.issuedAt < r.expiresAt <= r.issuedAt + 604_800
    && |r.candidates| <= 8 && (forall i, j :: 0 <= i < j < |r.candidates| ==> CandidateLess(r.candidates[i], r.candidates[j]))
    && forall capability :: capability in r.capabilities ==> capability <= 1
  }

  /** The device signed its record. */
  predicate DeviceSays(s: SignedRecord, key: Key) {
    && KEY_DECODES(key) && SoundRecord(s.record) && s.record.node == NODE_OF_KEY(key)
    && |s.signature| == 64 && RECORD_SIGNED(key, s.record, s.signature)
  }

  lemma CertificateShapeExactly(c: Certificate)
    ensures CertificateShape(c).None? <==> SoundCertificate(c)
  {
    assert MAX_MEMBERSHIP_LIFETIME_SECONDS == 316_224_000;
    BitsWithin(c.roles, KNOWN_ROLES, 2);
  }

  lemma MembershipVerifyExactly(m: SignedMembership, root: Key)
    ensures MembershipVerify(m, root).None? <==> RootSays(m, root)
  {
    hide CertificateShape, SoundCertificate;
    CertificateShapeExactly(m.certificate);
  }

  lemma BitsWithin(bits: Bits, known: Bits, last: nat)
    requires forall b :: b in known <==> 0 <= b <= last
    ensures bits <= known <==> forall b :: b in bits ==> b <= last
  {
  }

  lemma RecordShapeExactly(r: EndpointRecord)
    ensures RecordShape(r).None? <==> SoundRecord(r)
  {
    hide CandidateLess, SoundServices, ServicesShape;
    assert MAX_RECORD_LIFETIME_SECONDS == 604_800;
    BitsWithin(r.capabilities, KNOWN_CAPABILITIES, 1);
    ServicesShapeExactly(r.services);
    CandidatesAscend(r.candidates);
  }

  /** Neighbours in order are all in order. */
  lemma NamesAscend(s: seq<ServiceAdvert>)
    ensures (forall i :: 0 < i < |s| ==> s[i - 1].name < s[i].name) <==> forall i, j :: 0 <= i < j < |s| ==> s[i].name < s[j].name
  {
    if forall i :: 0 < i < |s| ==> s[i - 1].name < s[i].name {
      for n := 0 to |s|
        invariant forall i, j :: 0 <= i < j < n ==> s[i].name < s[j].name
      {
        assert n > 0 ==> s[n - 1].name < s[n].name;
      }
    }
  }

  lemma CandidatesAscend(s: seq<Candidate>)
    ensures (forall i :: 0 < i < |s| ==> CandidateLess(s[i - 1], s[i])) <==> forall i, j :: 0 <= i < j < |s| ==> CandidateLess(s[i], s[j])
  {
    if forall i :: 0 < i < |s| ==> CandidateLess(s[i - 1], s[i]) {
      for n := 0 to |s|
        invariant forall i, j :: 0 <= i < j < n ==> CandidateLess(s[i], s[j])
      {
        forall i | 0 <= i < n ensures CandidateLess(s[i], s[n]) {
          assert CandidateLess(s[n - 1], s[n]);
          if i < n - 1 {
            CandidateLessThrough(s[i], s[n - 1], s[n]);
          }
        }
      }
    }
  }

  /** The order of candidates: by kind, then family, then address, then port. */
  lemma CandidateLessExactly(a: Candidate, b: Candidate)
    ensures CandidateLess(a, b) <==>
            || (a.kind, b.kind) in {(Local, Direct), (Local, Reflexive), (Local, Mapped), (Local, OwnedRelay), (Direct, Reflexive),
                                    (Direct, Mapped), (Direct, OwnedRelay), (Reflexive, Mapped), (Reflexive, OwnedRelay), (Mapped, OwnedRelay)}
            || (a.kind == b.kind && match (a.address.ip, b.address.ip)
                                    case (V4(_), V6(_)) => true
                                    case (V6(_), V4(_)) => false
                                    case (V4(x), V4(y)) => x < y || (x == y && a.address.port < b.address.port)
                                    case (V6(x), V6(y)) => x < y || (x == y && a.address.port < b.address.port))
  {
  }

  lemma CandidateLessThrough(a: Candidate, b: Candidate, c: Candidate)
    requires CandidateLess(a, b) && CandidateLess(b, c)
    ensures CandidateLess(a, c)
  {
  }

  /** What it means that a contact is authorized: the root signed the certificate,
      the device signed the record, the two are about one member of the hive, the
      record stays within what the certificate grants, and the time is in both
      windows. */
  lemma VerifyExactly(contact: Contact, root: Key, now: nat)
    ensures var m, s := contact.membership, contact.endpoint;
            var c, r := m.certificate, s.record;
            Verify(contact, root, now) <==>
              && RootSays(m, root) && DeviceSays(s, c.deviceKey)
              && r.hive == c.hive && r.node == c.node && r.expiresAt <= c.expiresAt
              && (0 in r.capabilities ==> 1 in c.roles) && (1 in r.capabilities ==> 2 in c.roles)
              && now <= c.expiresAt && now <= r.expiresAt && r.issuedAt <= now + 300 && r.issuedAt <= U64_MAX
  {
    hide RootSays, SoundRecord, MembershipVerify, RecordShape;
    MembershipVerifyExactly(contact.membership, root);
    RecordShapeExactly(contact.endpoint.record);
    assert MAX_FUTURE_SKEW_SECONDS == 300;
  }
}
