/** A device's authority manifest and the owner-approved updates of it. */
module Authority {
  import opened Prelude
  import opened Sorting
  import C = Contacts

  const MAX_CERTIFICATES := 16
  const MAX_REVOCATIONS := 64
  const MAX_MANIFEST_BYTES := 8192
  const MAX_UPDATE_INTERVAL := 7 * 24 * 60 * 60

  type CertificateId = nat

  /** A certified key: what authority checks of it, and the rest. */
  datatype CertifiedKey = CertifiedKey(id: CertificateId, hive: C.HiveId, issuer: C.NodeId, epoch: nat, rest: Bytes)

  datatype Content = Content(
    epoch: nat,
    revision: nat,
    issuedAt: nat,
    nextUpdate: nat,
    certificates: seq<CertifiedKey>,
    revoked: seq<CertificateId>,
    services: seq<C.ServiceAdvert>)

  datatype Manifest = Manifest(content: Content, signature: Bytes)

  datatype AuthorityError =
    | Bound | Invalid | Older | Issuer | ReusedId | Possession | Services | RevocationRollback | BadSignature | SignerFailed
    | StoreConflict | StoreFailed

  // ---------- what is not computed here ----------

  const POSSESSED: CertifiedKey -> bool             // the subject's proof verifies
  const CONTENT_SIZE: Content -> nat                // bytes of the canonical content
  const CONTENT_SIGNED: (C.Key, Content, Bytes) -> bool

  // ---------- validity ----------

  function IdOf(c: CertifiedKey): int {
    c.id
  }

  function Itself(id: CertificateId): int {
    id
  }

  function Require(condition: bool, error: AuthorityError): Result<(), AuthorityError> {
    if condition then Ok(()) else Err(error)
  }

  function ValidateRevoked(ids: seq<CertificateId>): Result<(), AuthorityError> {
    var _ :- Require(|ids| <= MAX_REVOCATIONS, Bound);
    Require(StrictlySortedBy(ids, Itself), Invalid)
  }

  function ValidateCertificates(certificates: seq<CertifiedKey>, epoch: nat, revoked: seq<CertificateId>): Result<(), AuthorityError> {
    if certificates == [] then Ok(()) else
    var c := certificates[0];
    var _ :- Require(POSSESSED(c), Possession);
    var _ :- Require(c.epoch == epoch, Issuer);
    var _ :- Require(c.id !in revoked, ReusedId);
    ValidateCertificates(certificates[1..], epoch, revoked)
  }

  function Validate(c: Content): Result<(), AuthorityError> {
    var _ :- Require(c.revision != 0 && c.issuedAt <= c.nextUpdate <= c.issuedAt + MAX_UPDATE_INTERVAL, Invalid);
    var _ :- Require(|c.certificates| <= MAX_CERTIFICATES, Bound);
    var _ :- ValidateRevoked(c.revoked);
    var _ :- Require(C.ServicesShape(c.services).None?, Services);
    var _ :- Require(StrictlySortedBy(c.certificates, IdOf), ReusedId);
    ValidateCertificates(c.certificates, c.epoch, c.revoked)
  }

  predicate Live(c: Content, id: CertificateId) {
    exists k :: k in c.certificates && k.id == id
  }

  /** Live and revoked identifiers are strictly sorted, bounded and disjoint, and
      every live key is possessed and of this epoch. */
  predicate Valid(c: Content) {
    && c.revision != 0 && c.issuedAt <= c.nextUpdate <= c.issuedAt + MAX_UPDATE_INTERVAL
    && |c.certificates| <= MAX_CERTIFICATES && |c.revoked| <= MAX_REVOCATIONS
    && StrictlySortedBy(c.revoked, Itself) && StrictlySortedBy(c.certificates, IdOf)
    && C.SoundServices(c.services)
    && forall k :: k in c.certificates ==> POSSESSED(k) && k.epoch == c.epoch && k.id !in c.revoked
  }

  lemma {:induction false} CertificatesExactly(certificates: seq<CertifiedKey>, epoch: nat, revoked: seq<CertificateId>)
    ensures ValidateCertificates(certificates, epoch, revoked).Ok? <==>
            forall k :: k in certificates ==> POSSESSED(k) && k.epoch == epoch && k.id !in revoked
  {
    if certificates != [] {
      CertificatesExactly(certificates[1..], epoch, revoked);
      assert certificates == [certificates[0]] + certificates[1..];
    }
  }

  lemma ValidExactly(c: Content)
    ensures Validate(c).Ok? <==> Valid(c)
  {
    hide C.ServicesShape, C.SoundServices, StrictlySortedBy, ValidateCertificates;
    C.ServicesShapeExactly(c.services);
    CertificatesExactly(c.certificates, c.epoch, c.revoked);
  }

  predicate Issued(certificates: seq<CertifiedKey>, hive: C.HiveId, node: C.NodeId, epoch: nat) {
    forall k :: k in certificates ==> k.hive == hive && k.issuer == node && k.epoch == epoch
  }

  function VerifyManifest(m: Manifest, hive: C.HiveId, key: C.Key): Result<(), AuthorityError> {
    var _ :- Validate(m.content);
    var _ :- Require(Issued(m.content.certificates, hive, C.NODE_OF_KEY(key), m.content.epoch), Issuer);
    var _ :- Require(CONTENT_SIGNED(key, m.content, m.signature), BadSignature);
    Require(CONTENT_SIZE(m.content) + 72 <= MAX_MANIFEST_BYTES, Bound)
  }

  /** A manifest that this device of this hive signed, over valid content of keys that
      it issued, and that fits. */
  predicate Verified(m: Manifest, hive: C.HiveId, key: C.Key) {
    && Valid(m.content) && CONTENT_SIGNED(key, m.content, m.signature) && CONTENT_SIZE(m.content) <= 8120
    && forall k :: k in m.content.certificates ==> k.hive == hive && k.issuer == C.NODE_OF_KEY(key)
  }

  lemma ManifestExactly(m: Manifest, hive: C.HiveId, key: C.Key)
    ensures VerifyManifest(m, hive, key).Ok? <==> Verified(m, hive, key)
  {
    hide Validate;
    ValidExactly(m.content);
  }

  /** Whether one revocation set keeps all of another. */
  function Extends(ids: seq<CertificateId>, previous: seq<CertificateId>): Result<(), AuthorityError> {
    var _ :- ValidateRevoked(ids);
    var _ :- ValidateRevoked(previous);
    Require(forall id :: id in previous ==> id in ids, RevocationRollback)
  }

  // ---------- one update ----------

  datatype Update = Update(
    add: seq<CertifiedKey>, revoke: seq<CertificateId>, services: Option<seq<C.ServiceAdvert>>, advanceEpoch: bool)

  function AddRevoked(ids: seq<CertificateId>, revoke: seq<CertificateId>): seq<CertificateId>
    decreases |revoke|
  {
    if revoke == [] then ids
    else AddRevoked(if revoke[0] in ids then ids else SortBy(ids + [revoke[0]], Itself), revoke[1..])
  }

  function Retain(certificates: seq<CertifiedKey>, revoked: seq<CertificateId>): seq<CertifiedKey> {
    if certificates == [] then []
    else (if certificates[0].id in revoked then [] else [certificates[0]]) + Retain(certificates[1..], revoked)
  }

  predicate KnownTo(current: Option<Content>, id: CertificateId) {
    current.Some? && (Live(current.value, id) || id in current.value.revoked)
  }

  function CheckAdded(c: CertifiedKey, current: Option<Content>, hive: C.HiveId, node: C.NodeId, epoch: nat, revoked: seq<CertificateId>)
    : Result<(), AuthorityError>
  {
    var _ :- Require(POSSESSED(c), Possession);
    var _ :- Require(c.hive == hive && c.issuer == node && c.epoch == epoch, Issuer);
    Require(!KnownTo(current, c.id) && c.id !in revoked, ReusedId)
  }

  function CheckAll(add: seq<CertifiedKey>, current: Option<Content>, hive: C.HiveId, node: C.NodeId, epoch: nat, revoked: seq<CertificateId>)
    : Result<(), AuthorityError>
  {
    if add == [] then Ok(()) else
    var _ :- CheckAdded(add[0], current, hive, node, epoch, revoked);
    CheckAll(add[1..], current, hive, node, epoch, revoked)
  }

  /** The update alone, before the current manifest is looked at. */
  function CheckUpdate(u: Update): Result<(), AuthorityError> {
    var _ :- Require(|u.add| <= MAX_CERTIFICATES && |u.revoke| <= MAX_REVOCATIONS, Bound);
    var _ :- Require(u.advanceEpoch ==> u.revoke == [], Invalid);
    Require(u.services.Some? ==> C.ServicesShape(u.services.value).None?, Services)
  }

  function CheckCurrent(current: Option<Manifest>, hive: C.HiveId, key: C.Key, issuedAt: nat): Result<(), AuthorityError> {
    if current.None? then Ok(()) else
    var _ :- VerifyManifest(current.value, hive, key);
    Require(current.value.content.issuedAt <= issuedAt, Older)
  }

  function OldEpoch(current: Option<Content>): nat {
    if current.None? then 0 else current.value.epoch
  }

  function ContentOf(current: Option<Manifest>): Option<Content> {
    if current.None? then None else Some(current.value.content)
  }

  /** What the update starts from: nothing when the epoch advances. */
  function Kept(u: Update, current: Option<Content>): (seq<CertifiedKey>, seq<CertificateId>) {
    if u.advanceEpoch || current.None? then ([], []) else (current.value.certificates, current.value.revoked)
  }

  function Assemble(u: Update, current: Option<Content>, epoch: nat, issuedAt: nat, nextUpdate: nat): Content {
    var (certificates, ids) := Kept(u, current);
    var revoked := AddRevoked(ids, u.revoke);
    var services := if u.services.Some? then u.services.value else if current.None? then [] else current.value.services;
    Content(epoch, 1, issuedAt, nextUpdate, SortBy(Retain(certificates, revoked) + u.add, IdOf), revoked, services)
  }

  /** The content an update proposes; its revision is still to be reserved. */
  function Propose(u: Update, current: Option<Manifest>, hive: C.HiveId, key: C.Key, issuedAt: nat, nextUpdate: nat)
    : Result<Content, AuthorityError>
  {
    var _ :- CheckUpdate(u);
    var _ :- CheckCurrent(current, hive, key, issuedAt);
    var prior := ContentOf(current);
    var _ :- Require(u.advanceEpoch ==> OldEpoch(prior) < U64_MAX, Bound);
    var epoch := OldEpoch(prior) + if u.advanceEpoch then 1 else 0;
    var content := Assemble(u, prior, epoch, issuedAt, nextUpdate);
    var _ :- CheckAll(u.add, prior, hive, C.NODE_OF_KEY(key), epoch, content.revoked);
    var _ :- Validate(content);
    var _ :- Require(CONTENT_SIZE(content.(revision := U64_MAX)) + 72 <= MAX_MANIFEST_BYTES, Bound);
    Ok(content)
  }

  // ---------- the loops ----------

  method RevokeAll(ids: seq<CertificateId>, revoke: seq<CertificateId>) returns (revoked: seq<CertificateId>)
    ensures revoked == AddRevoked(ids, revoke)
  {
    revoked := ids;
    assert revoke[0..] == revoke;
    for i := 0 to |revoke|
      invariant AddRevoked(revoked, revoke[i..]) == AddRevoked(ids, revoke)
    {
      assert revoke[i..][1..] == revoke[i + 1..];
      if revoke[i] !in revoked {
        revoked := SortBy(revoked + [revoke[i]], Itself);
      }
    }
  }

  method AddAll(add: seq<CertifiedKey>, start: seq<CertifiedKey>, current: Option<Content>, hive: C.HiveId, node: C.NodeId, epoch: nat,
                revoked: seq<CertificateId>)
    returns (result: Result<seq<CertifiedKey>, AuthorityError>)
    ensures result.Ok? <==> CheckAll(add, current, hive, node, epoch, revoked).Ok?
    ensures result.Ok? ==> result.value == start + add
    ensures result.Err? ==> CheckAll(add, current, hive, node, epoch, revoked) == Err(result.error)
  {
    hide CheckAdded;
    var certificates := start;
    assert add[0..] == add;
    for i := 0 to |add|
      invariant certificates == start + add[..i]
      invariant CheckAll(add[i..], current, hive, node, epoch, revoked) == CheckAll(add, current, hive, node, epoch, revoked)
    {
      assert add[i..][1..] == add[i + 1..];
      var checked := CheckAdded(add[i], current, hive, node, epoch, revoked);
      if checked.Err? {
        return Err(checked.error);
      }
      certificates := certificates + [add[i]];
      assert add[..i + 1] == add[..i] + [add[i]];
    }
    assert add[..|add|] == add;
    return Ok(certificates);
  }

  /** Builds the proposed content by pushing, sorting and retaining. */
  method BuildContent(u: Update, current: Option<Manifest>, hive: C.HiveId, key: C.Key, issuedAt: nat, nextUpdate: nat)
    returns (result: Result<Content, AuthorityError>)
    ensures result == Propose(u, current, hive, key, issuedAt, nextUpdate)
  {
    hide CheckUpdate, CheckCurrent, Validate, AddRevoked, Retain, CheckAll, SortBy;
    var checked := CheckUpdate(u);
    if checked.Err? {
      return Err(checked.error);
    }
    checked := CheckCurrent(current, hive, key, issuedAt);
    if checked.Err? {
      return Err(checked.error);
    }
    var prior := ContentOf(current);
    if u.advanceEpoch && OldEpoch(prior) >= U64_MAX {
      return Err(Bound);
    }
    var epoch := OldEpoch(prior) + if u.advanceEpoch then 1 else 0;
    var (certificates, ids) := Kept(u, prior);
    var revoked := RevokeAll(ids, u.revoke);
    var retained := Retain(certificates, revoked);
    var added := AddAll(u.add, retained, prior, hive, C.NODE_OF_KEY(key), epoch, revoked);
    if added.Err? {
      return Err(added.error);
    }
    var services := if u.services.Some? then u.services.value else if prior.None? then [] else prior.value.services;
    var content := Content(epoch, 1, issuedAt, nextUpdate, SortBy(added.value, IdOf), revoked, services);
    checked := Validate(content);
    if checked.Err? {
      return Err(checked.error);
    }
    if CONTENT_SIZE(content.(revision := U64_MAX)) + 72 > MAX_MANIFEST_BYTES {
      return Err(Bound);
    }
    return Ok(content);
  }

  // ---------- what an update does ----------

  lemma {:induction false} AddRevokedElements(ids: seq<CertificateId>, revoke: seq<CertificateId>, id: CertificateId)
    ensures id in AddRevoked(ids, revoke) <==> id in ids || id in revoke
    decreases |revoke|
  {
    hide SortBy;
    if revoke != [] {
      var next := if revoke[0] in ids then ids else SortBy(ids + [revoke[0]], Itself);
      SortElements(ids + [revoke[0]], Itself);
      AddRevokedElements(next, revoke[1..], id);
      assert revoke == [revoke[0]] + revoke[1..];
    }
  }

  lemma {:induction false} RetainElements(certificates: seq<CertifiedKey>, revoked: seq<CertificateId>, k: CertifiedKey)
    ensures k in Retain(certificates, revoked) <==> k in certificates && k.id !in revoked
  {
    if certificates != [] {
      RetainElements(certificates[1..], revoked, k);
      assert certificates == [certificates[0]] + certificates[1..];
    }
  }

  lemma {:induction false} AddedAreNew(add: seq<CertifiedKey>, current: Option<Content>, hive: C.HiveId, node: C.NodeId, epoch: nat,
                                       revoked: seq<CertificateId>, k: CertifiedKey)
    requires CheckAll(add, current, hive, node, epoch, revoked).Ok? && k in add
    ensures !KnownTo(current, k.id) && k.hive == hive && k.issuer == node && k.epoch == epoch
  {
    hide KnownTo;
    if k != add[0] {
      AddedAreNew(add[1..], current, hive, node, epoch, revoked, k);
    }
  }

  /** Which keys are live and which are revoked after an update. */
  /** The identifier names no live and no revoked key of the current content. */
  predicate NewTo(prior: Option<Content>, id: CertificateId) {
    prior.Some? ==> (forall k :: k in prior.value.certificates ==> k.id != id) && id !in prior.value.revoked
  }

  lemma NewIsUnknown(prior: Option<Content>, id: CertificateId)
    ensures NewTo(prior, id) <==> !KnownTo(prior, id)
  {
  }

  ghost predicate Updates(u: Update, prior: Option<Content>, c: Content) {
    && (forall id :: id in c.revoked <==>
          id in u.revoke || (!u.advanceEpoch && prior.Some? && id in prior.value.revoked))
    && (forall k :: k in c.certificates <==>
          k in u.add || (!u.advanceEpoch && prior.Some? && k in prior.value.certificates && k.id !in c.revoked))
  }

  /** A proposal is valid; its live and revoked keys are exactly what the update
      says; nothing added was known before; the epoch moves by one exactly when
      asked to, and then nothing is revoked and nothing old is live. */
  lemma ProposalExactly(u: Update, current: Option<Manifest>, hive: C.HiveId, key: C.Key, issuedAt: nat, nextUpdate: nat)
    requires Propose(u, current, hive, key, issuedAt, nextUpdate).Ok?
    ensures var c, prior := Propose(u, current, hive, key, issuedAt, nextUpdate).value, ContentOf(current);
            && Valid(c) && Updates(u, prior, c) && c.issuedAt == issuedAt && c.nextUpdate == nextUpdate
            && c.services == (if u.services.Some? then u.services.value else if prior.Some? then prior.value.services else [])
            && c.epoch == OldEpoch(prior) + (if u.advanceEpoch then 1 else 0) && (u.advanceEpoch ==> c.revoked == [])
            && (forall k :: k in u.add ==> NewTo(prior, k.id) && k.hive == hive && k.issuer == C.NODE_OF_KEY(key))
            && (current.Some? ==> Verified(current.value, hive, key) && prior.value.issuedAt <= c.issuedAt)
  {
    hide Validate, VerifyManifest, Verified, AddRevoked, Retain, CheckAll, SortBy, C.ServicesShape, Valid, KnownTo, NewTo;
    var c, prior := Propose(u, current, hive, key, issuedAt, nextUpdate).value, ContentOf(current);
    assert c.revoked != [] ==> c.revoked[0] in c.revoked;
    var (certificates, ids) := Kept(u, prior);
    ValidExactly(c);
    forall id ensures id in c.revoked <==> id in ids || id in u.revoke {
      AddRevokedElements(ids, u.revoke, id);
    }
    SortElements(Retain(certificates, c.revoked) + u.add, IdOf);
    forall k ensures k in c.certificates <==> k in u.add || (k in certificates && k.id !in c.revoked) {
      RetainElements(certificates, c.revoked, k);
    }
    if current.Some? {
      ManifestExactly(current.value, hive, key);
    }
    forall k | k in u.add ensures NewTo(prior, k.id) && k.hive == hive && k.issuer == C.NODE_OF_KEY(key) {
      NewIsUnknown(prior, k.id);
      AddedAreNew(u.add, prior, hive, C.NODE_OF_KEY(key), c.epoch, c.revoked, k);
    }
  }

  // ---------- when an update succeeds ----------

  lemma {:induction false} AddRevokedSorted(ids: seq<CertificateId>, revoke: seq<CertificateId>)
    requires StrictlySortedBy(ids, Itself)
    ensures StrictlySortedBy(AddRevoked(ids, revoke), Itself)
    decreases |revoke|
  {
    hide SortBy;
    if revoke != [] {
      var next := if revoke[0] in ids then ids else SortBy(ids + [revoke[0]], Itself);
      if revoke[0] !in ids {
        SortStrict(ids + [revoke[0]], Itself);
      }
      AddRevokedSorted(next, revoke[1..]);
    }
  }

  lemma {:induction false} RetainSorted(certificates: seq<CertifiedKey>, revoked: seq<CertificateId>)
    requires StrictlySortedBy(certificates, IdOf)
    ensures StrictlySortedBy(Retain(certificates, revoked), IdOf)
  {
    if certificates != [] {
      RetainSorted(certificates[1..], revoked);
      var rest := Retain(certificates[1..], revoked);
      forall i | 0 <= i < |rest| ensures certificates[0].id < rest[i].id {
        RetainElements(certificates[1..], revoked, rest[i]);
      }
    }
  }

  predicate DistinctIds(add: seq<CertifiedKey>) {
    forall i, j :: 0 <= i < j < |add| ==> add[i].id != add[j].id
  }

  predicate Addable(u: Update, prior: Option<Content>, hive: C.HiveId, node: C.NodeId, epoch: nat) {
    && DistinctIds(u.add)
    && forall k :: k in u.add ==>
         POSSESSED(k) && k.hive == hive && k.issuer == node && k.epoch == epoch && NewTo(prior, k.id) && k.id !in u.revoke
  }

  lemma {:induction false} CheckAllExactly(add: seq<CertifiedKey>, current: Option<Content>, hive: C.HiveId, node: C.NodeId, epoch: nat,
                                           revoked: seq<CertificateId>)
    ensures CheckAll(add, current, hive, node, epoch, revoked).Ok? <==>
            forall k :: k in add ==>
              POSSESSED(k) && k.hive == hive && k.issuer == node && k.epoch == epoch && !KnownTo(current, k.id) && k.id !in revoked
  {
    hide KnownTo;
    if add != [] {
      CheckAllExactly(add[1..], current, hive, node, epoch, revoked);
      assert add == [add[0]] + add[1..];
    }
  }

  /** The keys a valid current manifest keeps, with new ones, sort strictly; and
      only if the new ones are distinct. */
  lemma AssembledSorted(u: Update, prior: Option<Content>, hive: C.HiveId, node: C.NodeId, epoch: nat, issuedAt: nat, nextUpdate: nat)
    requires prior.Some? ==> Valid(prior.value)
    requires forall k :: k in u.add ==> !KnownTo(prior, k.id)
    ensures var c := Assemble(u, prior, epoch, issuedAt, nextUpdate);
            && StrictlySortedBy(c.revoked, Itself)
            && (StrictlySortedBy(c.certificates, IdOf) <==> DistinctIds(u.add))
  {
    hide SortBy, AddRevoked, Retain, C.ServicesShape;
    var (certificates, ids) := Kept(u, prior);
    AddRevokedSorted(ids, u.revoke);
    var revoked := AddRevoked(ids, u.revoke);
    var kept := Retain(certificates, revoked);
    RetainSorted(certificates, revoked);
    forall i | 0 <= i < |kept| ensures kept[i] in certificates {
      RetainElements(certificates, revoked, kept[i]);
    }
    var all := kept + u.add;
    if DistinctIds(u.add) {
      DistinctTogether(kept, u.add, certificates, prior);
      SortStrict(all, IdOf);
    } else {
      var i, j :| 0 <= i < j < |u.add| && u.add[i].id == u.add[j].id;
      SortedTwice(all, |kept| + i, |kept| + j);
    }
  }

  lemma DistinctTogether(kept: seq<CertifiedKey>, add: seq<CertifiedKey>, certificates: seq<CertifiedKey>, prior: Option<Content>)
    requires StrictlySortedBy(kept, IdOf) && DistinctIds(add)
    requires forall i :: 0 <= i < |kept| ==> kept[i] in certificates
    requires certificates != [] ==> prior.Some? && certificates == prior.value.certificates
    requires forall k :: k in add ==> !KnownTo(prior, k.id)
    ensures var all := kept + add; forall i, j :: 0 <= i < j < |all| ==> IdOf(all[i]) != IdOf(all[j])
  {
    var all := kept + add;
    forall i, j | 0 <= i < j < |all| ensures IdOf(all[i]) != IdOf(all[j]) {
      if i < |kept| <= j {
        assert kept[i] in certificates && add[j - |kept|] in add;
        assert Live(prior.value, kept[i].id);
      }
    }
  }

  /** Equal keys cannot be ordered strictly. */
  lemma SortedTwice(all: seq<CertifiedKey>, i: nat, j: nat)
    requires i < j < |all| && all[i].id == all[j].id
    ensures !StrictlySortedBy(SortBy(all, IdOf), IdOf)
  {
    var r := SortBy(all, IdOf);
    TwiceBack(all, r, i, j);
  }

  lemma TwiceBack(all: seq<CertifiedKey>, r: seq<CertifiedKey>, i: nat, j: nat)
    requires multiset(all) == multiset(r) && i < j < |all| && all[i].id == all[j].id
    ensures exists a, b :: 0 <= a < b < |r| && IdOf(r[a]) == IdOf(r[b])
  {
    TwiceInSorted(r, all, i, j, IdOf);
  }

  /** What is checked before anything is built. */
  lemma UpdateExactly(u: Update, current: Option<Manifest>, hive: C.HiveId, key: C.Key, issuedAt: nat)
    ensures CheckUpdate(u).Ok? <==>
            |u.add| <= 16 && |u.revoke| <= 64 && (u.advanceEpoch ==> u.revoke == []) && (u.services.Some? ==> C.SoundServices(u.services.value))
    ensures CheckCurrent(current, hive, key, issuedAt).Ok? <==>
            current.Some? ==> Verified(current.value, hive, key) && current.value.content.issuedAt <= issuedAt
  {
    hide VerifyManifest, Verified, C.SoundServices, C.ServicesShape;
    if u.services.Some? {
      C.ServicesShapeExactly(u.services.value);
    }
    if current.Some? {
      ManifestExactly(current.value, hive, key);
    }
  }

  /** Exactly when an update is accepted. */
  lemma ProposalSucceedsExactly(u: Update, current: Option<Manifest>, hive: C.HiveId, key: C.Key, issuedAt: nat, nextUpdate: nat)
    ensures var prior := ContentOf(current);
            var epoch := OldEpoch(prior) + if u.advanceEpoch then 1 else 0;
            var c := Assemble(u, prior, epoch, issuedAt, nextUpdate);
            Propose(u, current, hive, key, issuedAt, nextUpdate).Ok? <==>
              && |u.add| <= 16 && |u.revoke| <= 64 && (u.advanceEpoch ==> u.revoke == [] && OldEpoch(prior) < U64_MAX)
              && (u.services.Some? ==> C.SoundServices(u.services.value))
              && (current.Some? ==> Verified(current.value, hive, key) && current.value.content.issuedAt <= issuedAt)
              && issuedAt <= nextUpdate <= issuedAt + MAX_UPDATE_INTERVAL
              && Addable(u, prior, hive, C.NODE_OF_KEY(key), epoch)
              && |c.certificates| <= MAX_CERTIFICATES && |c.revoked| <= MAX_REVOCATIONS
              && CONTENT_SIZE(c.(revision := U64_MAX)) + 72 <= MAX_MANIFEST_BYTES
  {
    UpdateExactly(u, current, hive, key, issuedAt);
    hide CheckUpdate, CheckCurrent, CheckAll, KnownTo, Validate, Assemble, DistinctIds, Valid, Verified, C.SoundServices, NewTo;
    var prior, node := ContentOf(current), C.NODE_OF_KEY(key);
    var epoch := OldEpoch(prior) + if u.advanceEpoch then 1 else 0;
    var c := Assemble(u, prior, epoch, issuedAt, nextUpdate);
    if CheckUpdate(u).Ok? && CheckCurrent(current, hive, key, issuedAt).Ok? {
      CurrentIsValid(current, hive, key, issuedAt);
      CheckAllExactly(u.add, prior, hive, node, epoch, c.revoked);
      RevokedOrKnown(u, prior, epoch, issuedAt, nextUpdate);
      ValidExactly(c);
      forall k | k in u.add ensures NewTo(prior, k.id) <==> !KnownTo(prior, k.id) {
        NewIsUnknown(prior, k.id);
      }
      if forall k :: k in u.add ==> !KnownTo(prior, k.id) {
        AssembledSorted(u, prior, hive, node, epoch, issuedAt, nextUpdate);
        AssembledValid(u, prior, hive, node, epoch, issuedAt, nextUpdate);
      }
    }
  }

  lemma CurrentIsValid(current: Option<Manifest>, hive: C.HiveId, key: C.Key, issuedAt: nat)
    requires CheckCurrent(current, hive, key, issuedAt).Ok?
    ensures current.Some? ==> Valid(current.value.content)
  {
    hide Validate, Valid;
    if current.Some? {
      ValidExactly(current.value.content);
    }
  }

  /** An added key that is not known is revoked only by the update itself. */
  lemma RevokedOrKnown(u: Update, prior: Option<Content>, epoch: nat, issuedAt: nat, nextUpdate: nat)
    ensures var c := Assemble(u, prior, epoch, issuedAt, nextUpdate);
            forall k :: k in u.add && !KnownTo(prior, k.id) ==> (k.id in c.revoked <==> k.id in u.revoke)
  {
    hide AddRevoked, SortBy, Retain, Live;
    var (certificates, ids) := Kept(u, prior);
    forall k | k in u.add && !KnownTo(prior, k.id) ensures k.id in AddRevoked(ids, u.revoke) <==> k.id in u.revoke {
      AddRevokedElements(ids, u.revoke, k.id);
    }
  }

  /** Of what is assembled, only the counts, the times and the new keys can be wrong. */
  lemma AssembledValid(u: Update, prior: Option<Content>, hive: C.HiveId, node: C.NodeId, epoch: nat, issuedAt: nat, nextUpdate: nat)
    requires CheckUpdate(u).Ok? && (prior.Some? ==> Valid(prior.value))
    requires epoch == OldEpoch(prior) + if u.advanceEpoch then 1 else 0
    requires forall k :: k in u.add ==> !KnownTo(prior, k.id)
    ensures var c := Assemble(u, prior, epoch, issuedAt, nextUpdate);
            (forall k :: k in u.add ==> POSSESSED(k) && k.epoch == epoch && k.id !in u.revoke) ==>
              (Valid(c) <==>
                 && issuedAt <= nextUpdate <= issuedAt + MAX_UPDATE_INTERVAL && DistinctIds(u.add)
                 && |c.certificates| <= MAX_CERTIFICATES && |c.revoked| <= MAX_REVOCATIONS)
  {
    hide AddRevoked, SortBy, Retain, Live, DistinctIds, StrictlySortedBy;
    AssembledSorted(u, prior, hive, node, epoch, issuedAt, nextUpdate);
    RevokedOrKnown(u, prior, epoch, issuedAt, nextUpdate);
    var c := Assemble(u, prior, epoch, issuedAt, nextUpdate);
    NoServices();
    hide C.ServicesShape, C.SoundServices;
    if u.services.Some? {
      C.ServicesShapeExactly(u.services.value);
    }
    if forall k :: k in u.add ==> POSSESSED(k) && k.epoch == epoch && k.id !in u.revoke {
      var (certificates, ids) := Kept(u, prior);
      SortElements(Retain(certificates, c.revoked) + u.add, IdOf);
      forall k | k in c.certificates ensures POSSESSED(k) && k.epoch == c.epoch && k.id !in c.revoked {
        RetainElements(certificates, c.revoked, k);
      }
    }
  }

  lemma NoServices()
    ensures C.SoundServices([])
  {
  }
}
