/** The durable store behind authority updates: it reserves revisions, remembers
    every identifier ever used, and commits what was reserved. */
module AuthorityStore {
  import opened Prelude
  import opened Authority
  import C = Contacts

  const MAX_USED_IDS := 4096
  const MAX_STORE_BYTES := 96 * 1024

  /** The state file. The pending reservation stands for its hash. */
  datatype State = State(epoch: nat, revision: nat, current: Option<Manifest>, used: set<CertificateId>, pending: Option<Content>)

  const EMPTY := State(0, 0, None, {}, None)

  const STATE_SIZE: State -> nat

  // ---------- reserving ----------

  function Remember(used: set<CertificateId>, id: CertificateId): Result<set<CertificateId>, AuthorityError> {
    if id in used then Ok(used)
    else if |used| == MAX_USED_IDS then Err(Bound)
    else Ok(used + {id})
  }

  function RememberRevoked(used: set<CertificateId>, ids: seq<CertificateId>): Result<set<CertificateId>, AuthorityError>
    decreases |ids|
  {
    if ids == [] then Ok(used) else
    var next :- Remember(used, ids[0]);
    RememberRevoked(next, ids[1..])
  }

  predicate Retained(current: Option<Content>, c: CertifiedKey) {
    current.Some? && c in current.value.certificates
  }

  function RememberLive(used: set<CertificateId>, certificates: seq<CertifiedKey>, current: Option<Content>, hive: C.HiveId, node: C.NodeId)
    : Result<set<CertificateId>, AuthorityError>
    decreases |certificates|
  {
    if certificates == [] then Ok(used) else
    var c := certificates[0];
    var _ :- Require(c.hive == hive && c.issuer == node, Issuer);
    var _ :- Require(Retained(current, c) || c.id !in used, ReusedId);
    var next :- Remember(used, c.id);
    RememberLive(next, certificates[1..], current, hive, node)
  }

  function CheckPredecessor(s: State, current: Option<Manifest>, proposed: Content, hive: C.HiveId, key: C.Key): Result<(), AuthorityError> {
    var prior := ContentOf(current);
    var _ :- Require(prior == ContentOf(s.current), StoreConflict);
    var _ :- (if current.None? then Ok(()) else VerifyManifest(current.value, hive, key));
    var _ :- Validate(proposed);
    var _ :- Require(OldEpoch(prior) < U64_MAX || proposed.epoch < s.epoch || proposed.epoch < OldEpoch(prior), Bound);
    var _ :- Require(s.epoch <= proposed.epoch && OldEpoch(prior) <= proposed.epoch <= OldEpoch(prior) + 1, Older);
    var _ :- Require(prior.Some? ==> prior.value.issuedAt <= proposed.issuedAt, Older);
    if prior.Some? && proposed.epoch == prior.value.epoch then Extends(proposed.revoked, prior.value.revoked) else Ok(())
  }

  /** The next state and the content with its revision, before anything is written. */
  function Reserve(s: State, current: Option<Manifest>, proposed: Content, hive: C.HiveId, key: C.Key): Result<(State, Content), AuthorityError> {
    var _ :- CheckPredecessor(s, current, proposed, hive, key);
    var live :- RememberLive(s.used, proposed.certificates, ContentOf(current), hive, C.NODE_OF_KEY(key));
    var used :- RememberRevoked(live, proposed.revoked);
    var _ :- Require(proposed.epoch == s.epoch ==> s.revision < U64_MAX, Bound);
    var content := proposed.(revision := if proposed.epoch == s.epoch then s.revision + 1 else 1);
    Ok((State(content.epoch, content.revision, s.current, used, Some(content)), content))
  }

  function Commit(s: State, m: Manifest, hive: C.HiveId, key: C.Key): Result<State, AuthorityError> {
    var _ :- VerifyManifest(m, hive, key);
    var _ :- Require(s.pending == Some(m.content), StoreConflict);
    Ok(s.(current := Some(m), pending := None))
  }

  // ---------- what reserving guarantees ----------

  function KeyIds(certificates: seq<CertifiedKey>): set<CertificateId> {
    set k | k in certificates :: k.id
  }

  lemma IdsOfMore(certificates: seq<CertifiedKey>)
    requires certificates != []
    ensures KeyIds(certificates) == {certificates[0].id} + KeyIds(certificates[1..])
    ensures forall k :: k in certificates <==> k == certificates[0] || k in certificates[1..]
  {
    assert certificates == [certificates[0]] + certificates[1..];
  }

  function LiveIds(c: Content): set<CertificateId> {
    KeyIds(c.certificates)
  }

  function Ids(c: Content): set<CertificateId> {
    LiveIds(c) + set id | id in c.revoked
  }

  lemma {:induction false} RevokedRemembered(used: set<CertificateId>, ids: seq<CertificateId>)
    requires RememberRevoked(used, ids).Ok?
    ensures RememberRevoked(used, ids).value == used + set id | id in ids
    decreases |ids|
  {
    if ids != [] {
      RevokedRemembered(Remember(used, ids[0]).value, ids[1..]);
      assert ids == [ids[0]] + ids[1..];
    }
  }

  /** Live keys are remembered, and each was retained or has a new identifier. */
  lemma {:induction false} LiveRemembered(used: set<CertificateId>, certificates: seq<CertifiedKey>, current: Option<Content>, hive: C.HiveId,
                                          node: C.NodeId)
    requires RememberLive(used, certificates, current, hive, node).Ok?
    ensures RememberLive(used, certificates, current, hive, node).value == used + KeyIds(certificates)
    ensures forall k :: k in certificates ==> (Retained(current, k) || k.id !in used) && k.hive == hive && k.issuer == node
    decreases |certificates|
  {
    hide Retained;
    if certificates != [] {
      var next := Remember(used, certificates[0].id).value;
      LiveRemembered(next, certificates[1..], current, hive, node);
      IdsOfMore(certificates);
    }
  }

  /** Later in (epoch, revision) order. */
  predicate Before(epoch: nat, revision: nat, epoch': nat, revision': nat) {
    epoch < epoch' || (epoch == epoch' && revision < revision')
  }

  lemma ReserveGuarantees(s: State, current: Option<Manifest>, proposed: Content, hive: C.HiveId, key: C.Key)
    requires Reserve(s, current, proposed, hive, key).Ok?
    ensures var (t, c) := Reserve(s, current, proposed, hive, key).value;
            var prior := ContentOf(s.current);
            && c == proposed.(revision := c.revision) && Valid(c) && t.pending == Some(c) && t.current == s.current
            && t.used == s.used + Ids(c) && t.epoch == c.epoch && t.revision == c.revision
            && Before(s.epoch, s.revision, c.epoch, c.revision)
            && OldEpoch(prior) <= c.epoch <= OldEpoch(prior) + 1
            && (forall k :: k in c.certificates ==> Retained(prior, k) || k.id !in s.used)
            && (prior.Some? && prior.value.epoch == c.epoch ==> forall id :: id in prior.value.revoked ==> id in c.revoked)
            && Issued(c.certificates, hive, C.NODE_OF_KEY(key), c.epoch)
  {
    hide RememberLive, RememberRevoked, Validate, VerifyManifest, Valid, ValidateRevoked, Retained;
    var prior := ContentOf(current);
    var live := RememberLive(s.used, proposed.certificates, prior, hive, C.NODE_OF_KEY(key)).value;
    LiveRemembered(s.used, proposed.certificates, prior, hive, C.NODE_OF_KEY(key));
    RevokedRemembered(live, proposed.revoked);
    ValidExactly(proposed);
    var c := Reserve(s, current, proposed, hive, key).value.1;
    RevisionIrrelevant(proposed, c.revision);
    ValidEpochs(proposed);
  }

  // ---------- when reserving and committing succeed ----------

  lemma {:induction false} RevokedFit(used: set<CertificateId>, ids: seq<CertificateId>)
    requires |used| <= MAX_USED_IDS
    ensures RememberRevoked(used, ids).Ok? <==> |used + set id | id in ids| <= 4096
    decreases |ids|
  {
    if ids == [] {
      assert used + (set id | id in ids) == used;
    } else {
      var next := used + {ids[0]};
      assert used + (set id | id in ids) == next + set id | id in ids[1..] by { assert ids == [ids[0]] + ids[1..]; }
      if ids[0] in used || |used| < MAX_USED_IDS {
        assert ids[0] in used ==> next == used;
        RevokedFit(next, ids[1..]);
      } else {
        SubsetSize(next, next + set id | id in ids[1..]);
      }
    }
  }

  lemma {:induction false} LiveFit(used: set<CertificateId>, certificates: seq<CertifiedKey>, current: Option<Content>, hive: C.HiveId, node: C.NodeId)
    requires |used| <= MAX_USED_IDS && forall i, j :: 0 <= i < j < |certificates| ==> certificates[i].id != certificates[j].id
    ensures RememberLive(used, certificates, current, hive, node).Ok? <==>
            |used + KeyIds(certificates)| <= 4096 && forall k :: k in certificates ==> Takes(used, k, current, hive, node)
    decreases |certificates|
  {
    hide Retained, KeyIds, Takes;
    if certificates == [] {
      NoIds();
    } else {
      var first, rest := certificates[0], certificates[1..];
      var next := used + {first.id};
      IdsOfMore(certificates);
      assert used + ({first.id} + KeyIds(rest)) == next + KeyIds(rest);
      OthersTake(used, certificates, current, hive, node);
      TakesFirst(used, certificates, current, hive, node);
      if first.id in used || |used| < MAX_USED_IDS {
        assert first.id in used ==> next == used;
        LiveFit(next, rest, current, hive, node);
      } else {
        SubsetSize(next, next + KeyIds(rest));
      }
    }
  }

  /** A key that may be live: issued here, and retained or under a new identifier. */
  predicate Takes(used: set<CertificateId>, k: CertifiedKey, current: Option<Content>, hive: C.HiveId, node: C.NodeId) {
    (Retained(current, k) || k.id !in used) && k.hive == hive && k.issuer == node
  }

  lemma NoIds()
    ensures KeyIds([]) == {}
  {
  }

  /** One key more is remembered when it may be live and there is room for it. */
  lemma TakesFirst(used: set<CertificateId>, certificates: seq<CertifiedKey>, current: Option<Content>, hive: C.HiveId, node: C.NodeId)
    requires certificates != []
    ensures RememberLive(used, certificates, current, hive, node).Ok? <==>
            && Takes(used, certificates[0], current, hive, node) && (certificates[0].id in used || |used| != MAX_USED_IDS)
            && RememberLive(if certificates[0].id in used then used else used + {certificates[0].id}, certificates[1..], current, hive, node).Ok?
  {
    hide Retained;
  }

  /** What may be live beside another key still may once that one is remembered. */
  lemma OthersTake(used: set<CertificateId>, certificates: seq<CertifiedKey>, current: Option<Content>, hive: C.HiveId, node: C.NodeId)
    requires certificates != [] && forall i, j :: 0 <= i < j < |certificates| ==> certificates[i].id != certificates[j].id
    ensures forall k :: k in certificates[1..] ==>
              (Takes(used, k, current, hive, node) <==> Takes(used + {certificates[0].id}, k, current, hive, node))
  {
    hide Retained;
    forall k | k in certificates[1..] ensures k.id != certificates[0].id {
      var i :| 0 <= i < |certificates[1..]| && certificates[1..][i] == k;
      assert certificates[i + 1] == k;
    }
  }

  /** Exactly when a revision is reserved: for the manifest the store holds, by valid
      content that follows it, with identifiers that are retained or were never used
      and that fit, while there is a revision left. */
  lemma ReserveExactly(s: State, current: Option<Manifest>, proposed: Content, hive: C.HiveId, key: C.Key)
    requires |s.used| <= MAX_USED_IDS
    ensures var prior := ContentOf(s.current);
            Reserve(s, current, proposed, hive, key).Ok? <==>
              && ContentOf(current) == prior && (current.Some? ==> Verified(current.value, hive, key)) && Valid(proposed)
              && s.epoch <= proposed.epoch && OldEpoch(prior) <= proposed.epoch <= OldEpoch(prior) + 1 && OldEpoch(prior) < U64_MAX
              && (prior.Some? ==> prior.value.issuedAt <= proposed.issuedAt)
              && (prior.Some? && prior.value.epoch == proposed.epoch ==> forall id :: id in prior.value.revoked ==> id in proposed.revoked)
              && (forall k :: k in proposed.certificates ==>
                    k.hive == hive && k.issuer == C.NODE_OF_KEY(key) && ((prior.Some? && k in prior.value.certificates) || k.id !in s.used))
              && |s.used + Ids(proposed)| <= 4096
              && (proposed.epoch == s.epoch ==> s.revision < U64_MAX)
  {
    hide RememberLive, RememberRevoked, Validate, VerifyManifest, Verified, CheckPredecessor;
    PredecessorExactly(s, current, proposed, hive, key);
    if CheckPredecessor(s, current, proposed, hive, key).Ok? {
      ValidIds(proposed);
      hide Valid;
      LiveFit(s.used, proposed.certificates, ContentOf(current), hive, C.NODE_OF_KEY(key));
      var live := RememberLive(s.used, proposed.certificates, ContentOf(current), hive, C.NODE_OF_KEY(key));
      assert s.used + Ids(proposed) == (s.used + LiveIds(proposed)) + set id | id in proposed.revoked;
      if live.Ok? {
        LiveRemembered(s.used, proposed.certificates, ContentOf(current), hive, C.NODE_OF_KEY(key));
        RevokedFit(live.value, proposed.revoked);
      } else if |s.used + KeyIds(proposed.certificates)| > 4096 {
        SubsetSize(s.used + LiveIds(proposed), s.used + Ids(proposed));
      }
    }
  }

  lemma ValidIds(c: Content)
    requires Valid(c)
    ensures forall i, j :: 0 <= i < j < |c.certificates| ==> c.certificates[i].id != c.certificates[j].id
  {
    hide C.SoundServices;
    forall i, j | 0 <= i < j < |c.certificates| ensures c.certificates[i].id != c.certificates[j].id {
      assert IdOf(c.certificates[i]) < IdOf(c.certificates[j]);
    }
  }

  lemma PredecessorExactly(s: State, current: Option<Manifest>, proposed: Content, hive: C.HiveId, key: C.Key)
    ensures var prior := ContentOf(s.current);
            CheckPredecessor(s, current, proposed, hive, key).Ok? <==>
              && ContentOf(current) == prior && (current.Some? ==> Verified(current.value, hive, key)) && Valid(proposed)
              && s.epoch <= proposed.epoch && OldEpoch(prior) <= proposed.epoch <= OldEpoch(prior) + 1 && OldEpoch(prior) < U64_MAX
              && (prior.Some? ==> prior.value.issuedAt <= proposed.issuedAt)
              && (prior.Some? && prior.value.epoch == proposed.epoch ==> forall id :: id in prior.value.revoked ==> id in proposed.revoked)
  {
    hide Validate, VerifyManifest, C.SoundServices;
    ValidExactly(proposed);
    if current.Some? {
      ManifestExactly(current.value, hive, key);
    }
  }

  /** Exactly the manifest whose content was reserved is committed, and then it is
      current. */
  lemma CommitExactly(s: State, m: Manifest, hive: C.HiveId, key: C.Key)
    ensures Commit(s, m, hive, key).Ok? <==> Verified(m, hive, key) && s.pending == Some(m.content)
    ensures Commit(s, m, hive, key).Ok? ==> Commit(s, m, hive, key).value == State(s.epoch, s.revision, Some(m), s.used, None)
  {
    hide VerifyManifest, Verified;
    ManifestExactly(m, hive, key);
  }

  lemma RevisionIrrelevant(c: Content, revision: nat)
    requires Valid(c) && revision != 0
    ensures Valid(c.(revision := revision))
  {
    hide C.ServicesShape;
  }

  lemma ValidEpochs(c: Content)
    requires Valid(c)
    ensures forall k :: k in c.certificates ==> k.epoch == c.epoch
  {
    hide C.ServicesShape;
  }

  // ---------- the open store ----------

  /** What happens to one write of the state file: done, or failed with the old or
      the new contents in place. */
  datatype Write = Written | Lost | LandedLate

  class Store {
    const hive: C.HiveId
    const key: C.Key
    var state: State
    var poisoned: bool
    var file: State

    /** An open handle that has not failed mirrors the file. */
    ghost predicate Synced()
      reads this
    {
      !poisoned ==> state == file
    }

    constructor (hive: C.HiveId, key: C.Key, file: State)
      ensures this.hive == hive && this.key == key && this.file == file && state == file && !poisoned
    {
      this.hive, this.key, this.file, state, poisoned := hive, key, file, file, false;
    }

    /** Opens on what the file holds; a reservation left behind is dropped for good. */
    static method Open(hive: C.HiveId, key: C.Key, file: State, write: Write) returns (result: Result<Store, AuthorityError>, after: State)
      ensures after == file || after == file.(pending := None)
      ensures result.Ok? ==> fresh(result.value) && result.value.hive == hive && result.value.key == key && result.value.Synced()
                             && !result.value.poisoned && result.value.file == after == file.(pending := None)
    {
      var store := new Store(hive, key, file);
      if file.pending.Some? {
        var persisted := store.Persist(file.(pending := None), write);
        if persisted.Err? {
          return Err(persisted.error), store.file;
        }
      }
      return Ok(store), store.file;
    }

    method Persist(next: State, write: Write) returns (result: Result<(), AuthorityError>)
      requires Synced()
      modifies this
      ensures Synced()
      ensures result.Ok? ==> file == state == next && poisoned == false
      ensures result.Err? ==> state == old(state) && (file == old(file) || (poisoned && file == next))
      ensures STATE_SIZE(next) <= MAX_STORE_BYTES && write.Written? ==> result.Ok?
      ensures result.Ok? ==> write.Written?
      ensures STATE_SIZE(next) <= MAX_STORE_BYTES && !write.Written? ==> poisoned && file == if write.LandedLate? then next else old(file)
      ensures STATE_SIZE(next) > MAX_STORE_BYTES ==> result.Err? && file == old(file) && poisoned == old(poisoned)
    {
      if STATE_SIZE(next) > MAX_STORE_BYTES {
        return Err(Bound);
      }
      poisoned := true;
      if write.Lost? {
        return Err(StoreFailed);
      }
      file := next;
      if write.LandedLate? {
        return Err(StoreFailed);
      }
      state := next;
      poisoned := false;
      return Ok(());
    }

    method ReserveRevision(current: Option<Manifest>, proposed: Content, write: Write) returns (result: Result<Content, AuthorityError>)
      requires Synced()
      modifies this
      ensures Synced()
      ensures result.Ok? ==>
                && !old(poisoned) && !poisoned && Reserve(old(file), current, proposed, hive, key).Ok?
                && Reserve(old(file), current, proposed, hive, key).value == (file, result.value)
      ensures result.Err? ==>
                || (file == old(file) && state == old(state))
                || (poisoned && !old(poisoned) && Reserve(old(file), current, proposed, hive, key).Ok?
                    && file == Reserve(old(file), current, proposed, hive, key).value.0)
      ensures (!old(poisoned) && write.Written? && Reserve(old(file), current, proposed, hive, key).Ok?
               && STATE_SIZE(Reserve(old(file), current, proposed, hive, key).value.0) <= MAX_STORE_BYTES) ==> result.Ok?
    {
      hide Reserve;
      if poisoned {
        return Err(StoreConflict);
      }
      var reserved := Reserve(state, current, proposed, hive, key);
      if reserved.Err? {
        return Err(reserved.error);
      }
      var persisted := Persist(reserved.value.0, write);
      if persisted.Err? {
        return Err(persisted.error);
      }
      return Ok(reserved.value.1);
    }

    method CommitManifest(m: Manifest, write: Write) returns (result: Result<(), AuthorityError>)
      requires Synced()
      modifies this
      ensures Synced()
      ensures result.Ok? ==> !old(poisoned) && !poisoned && Commit(old(file), m, hive, key) == Ok(file)
      ensures result.Err? ==>
                || (file == old(file) && state == old(state))
                || (poisoned && !old(poisoned) && Commit(old(file), m, hive, key) == Ok(file))
      ensures (!old(poisoned) && write.Written? && Commit(old(file), m, hive, key).Ok?
               && STATE_SIZE(Commit(old(file), m, hive, key).value) <= MAX_STORE_BYTES) ==> result.Ok?
    {
      hide Commit;
      if poisoned {
        return Err(StoreConflict);
      }
      var committed := Commit(state, m, hive, key);
      if committed.Err? {
        return Err(committed.error);
      }
      result := Persist(committed.value, write);
    }

    /** Validates, durably reserves, signs and durably commits one update. What is
        returned is committed; what was only reserved is burned. */
    method Apply(u: Update, current: Option<Manifest>, issuedAt: nat, nextUpdate: nat, sign: Content -> Option<Bytes>, first: Write, second: Write)
      returns (result: Result<Manifest, AuthorityError>, signed: Option<Content>)
      requires Synced()
      modifies this
      ensures Synced()
      ensures ApplyStep(hive, key, old(file), u, current, issuedAt, nextUpdate, signed, file)
      ensures signed.Some? ==> !old(poisoned)
      ensures result.Ok? ==> signed == Some(result.value.content) && file.current == Some(result.value) && !poisoned
      ensures !old(poisoned) && first.Written? && second.Written? && CanApply(hive, key, old(file), u, current, issuedAt, nextUpdate, sign)
              ==> result.Ok?
    {
      hide Reserve, Commit, Propose;
      signed := None;
      var built := BuildContent(u, current, hive, key, issuedAt, nextUpdate);
      if built.Err? {
        return Err(built.error), signed;
      }
      var reserved := ReserveRevision(current, built.value, first);
      if reserved.Err? {
        return Err(reserved.error), signed;
      }
      var content := reserved.value;
      var signature := sign(content);
      if signature.None? {
        return Err(SignerFailed), signed;
      }
      signed := Some(content);
      var manifest := Manifest(content, signature.value);
      CommitVerifies(file, manifest, hive, key);
      var verified := VerifyManifest(manifest, hive, key);
      if verified.Err? {
        return Err(verified.error), signed;
      }
      ghost var pending := file;
      var committed := CommitManifest(manifest, second);
      if committed.Err? {
        assert file == pending || Commit(pending, manifest, hive, key) == Ok(file);
        return Err(committed.error), signed;
      }
      CommitSets(pending, manifest, hive, key);
      return Ok(manifest), signed;
    }
  }

  /** Whether an update goes through when nothing fails on the way. */
  predicate CanApply(hive: C.HiveId, key: C.Key, file: State, u: Update, current: Option<Manifest>, issuedAt: nat, nextUpdate: nat,
                     sign: Content -> Option<Bytes>)
  {
    var proposed := Propose(u, current, hive, key, issuedAt, nextUpdate);
    && proposed.Ok?
    && var reserved := Reserve(file, current, proposed.value, hive, key);
       && reserved.Ok? && STATE_SIZE(reserved.value.0) <= MAX_STORE_BYTES && sign(reserved.value.1).Some?
       && var committed := Commit(reserved.value.0, Manifest(reserved.value.1, sign(reserved.value.1).value), hive, key);
          committed.Ok? && STATE_SIZE(committed.value) <= MAX_STORE_BYTES
  }

  lemma CommitVerifies(s: State, m: Manifest, hive: C.HiveId, key: C.Key)
    ensures Commit(s, m, hive, key).Ok? ==> VerifyManifest(m, hive, key).Ok?
  {
  }

  lemma CommitSets(s: State, m: Manifest, hive: C.HiveId, key: C.Key)
    requires Commit(s, m, hive, key).Ok?
    ensures Commit(s, m, hive, key).value.current == Some(m)
  {
  }

  /** One call of the update, as the state file sees it: nothing happened; a
      revision was reserved and perhaps signed; or what was signed is committed. */
  ghost predicate ApplyStep(hive: C.HiveId, key: C.Key, before: State, u: Update, current: Option<Manifest>, issuedAt: nat, nextUpdate: nat,
                            signed: Option<Content>, after: State)
  {
    || (after == before && signed.None?)
    || (var proposed := Propose(u, current, hive, key, issuedAt, nextUpdate);
        && proposed.Ok?
        && var reserved := Reserve(before, current, proposed.value, hive, key);
           && reserved.Ok?
           && (signed.Some? ==> signed == Some(reserved.value.1))
           && (after == reserved.value.0 ||
               (signed.Some? && exists m: Manifest :: m.content == reserved.value.1 && Commit(reserved.value.0, m, hive, key) == Ok(after))))
  }
}
