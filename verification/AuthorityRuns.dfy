/** The state file of one device over its whole life: updates, failed writes and
    signatures, crashes and reopenings in any order. */
module AuthorityRuns {
  import opened Prelude
  import opened Authority
  import opened AuthorityStore
  import C = Contacts

  /** The file, all contents ever signed and all ever committed, in order. */
  datatype World = World(file: State, signed: seq<Content>, published: seq<Content>)

  datatype Event =
    | Applied(update: Update, current: Option<Manifest>, issuedAt: nat, nextUpdate: nat, signed: Option<Content>)
    | Reopened

  /** What a step committed, if anything. */
  function Newly(before: State, after: State): seq<Content> {
    if after.current.None? || after.current == before.current then [] else [after.current.value.content]
  }

  ghost predicate Step(hive: C.HiveId, key: C.Key, w: World, e: Event, v: World) {
    match e
    case Applied(u, current, issuedAt, nextUpdate, signed) =>
      && ApplyStep(hive, key, w.file, u, current, issuedAt, nextUpdate, signed, v.file)
      && v.signed == w.signed + (if signed.Some? then [signed.value] else [])
      && v.published == w.published + Newly(w.file, v.file)
    case Reopened =>
      && (v.file == w.file || v.file == w.file.(pending := None))
      && v.signed == w.signed && v.published == w.published
  }

  // ---------- what every run keeps ----------

  predicate Ordered(contents: seq<Content>) {
    forall i, j :: 0 <= i < j < |contents| ==> Before(contents[i].epoch, contents[i].revision, contents[j].epoch, contents[j].revision)
  }

  /** The file has seen every content: its revision and all its identifiers. */
  predicate Seen(file: State, contents: seq<Content>) {
    forall i :: 0 <= i < |contents| ==>
      !Before(file.epoch, file.revision, contents[i].epoch, contents[i].revision) && Ids(contents[i]) <= file.used
  }

  /** One identifier never names two keys. */
  predicate OneKeyPerId(contents: seq<Content>) {
    forall i, j, k, l :: 0 <= i < |contents| && 0 <= j < |contents| && k in contents[i].certificates && l in contents[j].certificates && k.id == l.id
      ==> k == l
  }

  /** What is revoked in one committed content is live in none from there on. */
  predicate StaysRevoked(contents: seq<Content>) {
    forall i, j, id :: 0 <= i <= j < |contents| && id in contents[i].revoked ==> id !in LiveIds(contents[j])
  }

  /** Within an epoch revocations only grow; the epoch moves by at most one, and a
      new epoch starts with nothing revoked. */
  predicate Follows(before: Content, after: Content) {
    && before.epoch <= after.epoch <= before.epoch + 1
    && (after.epoch == before.epoch ==> forall id :: id in before.revoked ==> id in after.revoked)
    && (after.epoch == before.epoch + 1 ==> after.revoked == [])
  }

  predicate Chained(contents: seq<Content>) {
    forall i :: 0 <= i < |contents| - 1 ==> Follows(contents[i], contents[i + 1])
  }

  predicate HeadIsLast(file: State, published: seq<Content>) {
    ContentOf(file.current) == if published == [] then None else Some(published[|published| - 1])
  }

  predicate Inv(w: World) {
    && Ordered(w.signed) && Seen(w.file, w.signed) && OneKeyPerId(w.signed)
    && (forall c :: c in w.published ==> c in w.signed && Valid(c))
    && Ordered(w.published) && StaysRevoked(w.published) && Chained(w.published) && HeadIsLast(w.file, w.published)
  }

  // ---------- one step ----------

  /** A content the file just reserved. */
  ghost predicate Reserves(hive: C.HiveId, key: C.Key, file: State, u: Update, current: Option<Manifest>, issuedAt: nat, nextUpdate: nat,
                           next: State, c: Content)
  {
    var proposed := Propose(u, current, hive, key, issuedAt, nextUpdate);
    proposed.Ok? && Reserve(file, current, proposed.value, hive, key) == Ok((next, c))
  }

  /** What the steps use of a reservation. */
  predicate Reserved(file: State, next: State, c: Content) {
    var prior := ContentOf(file.current);
    && Valid(c) && next.current == file.current && next.used == file.used + Ids(c) && next.epoch == c.epoch && next.revision == c.revision
    && Before(file.epoch, file.revision, c.epoch, c.revision)
    && (forall k :: k in c.certificates ==> Retained(prior, k) || k.id !in file.used)
    && (prior.Some? ==> Follows(prior.value, c))
  }

  lemma ReservedFacts(hive: C.HiveId, key: C.Key, file: State, u: Update, current: Option<Manifest>, issuedAt: nat, nextUpdate: nat,
                      next: State, c: Content)
    requires Reserves(hive, key, file, u, current, issuedAt, nextUpdate, next, c)
    ensures Reserved(file, next, c)
  {
    var proposed := Propose(u, current, hive, key, issuedAt, nextUpdate).value;
    SamePrior(file, current, proposed, hive, key);
    hide Propose, Reserve, Valid, Ids, Retained, KnownTo, Updates, Issued;
    ReserveGuarantees(file, current, proposed, hive, key);
    ProposalExactly(u, current, hive, key, issuedAt, nextUpdate);
  }

  lemma SamePrior(file: State, current: Option<Manifest>, proposed: Content, hive: C.HiveId, key: C.Key)
    requires Reserve(file, current, proposed, hive, key).Ok?
    ensures ContentOf(current) == ContentOf(file.current)
  {
    hide VerifyManifest, Validate, RememberLive, RememberRevoked, ValidateRevoked;
  }

  /** A newly signed content keeps order, memory and the naming of keys. */
  lemma SignKeeps(file: State, next: State, c: Content, signed: seq<Content>)
    requires Ordered(signed) && Seen(file, signed) && OneKeyPerId(signed) && Reserved(file, next, c)
    requires file.current.Some? ==> file.current.value.content in signed
    ensures Ordered(signed + [c]) && Seen(next, signed + [c]) && OneKeyPerId(signed + [c])
  {
    hide C.ServicesShape;
    var all := signed + [c];
    forall i, j, k, l | 0 <= i < |all| && 0 <= j < |all| && k in all[i].certificates && l in all[j].certificates && k.id == l.id ensures k == l {
      if i < |signed| && j == |signed| {
        NewKeyIsNew(file, next, c, signed, i, k, l);
      } else if j < |signed| && i == |signed| {
        NewKeyIsNew(file, next, c, signed, j, l, k);
      } else if i == j == |signed| {
        SortedKeys(c, k, l);
      }
    }
  }

  lemma SortedKeys(c: Content, k: CertifiedKey, l: CertifiedKey)
    requires Valid(c) && k in c.certificates && l in c.certificates && k.id == l.id
    ensures k == l
  {
    hide C.ServicesShape;
    var i :| 0 <= i < |c.certificates| && c.certificates[i] == k;
    var j :| 0 <= j < |c.certificates| && c.certificates[j] == l;
  }

  lemma NewKeyIsNew(file: State, next: State, c: Content, signed: seq<Content>, i: nat, k: CertifiedKey, l: CertifiedKey)
    requires Seen(file, signed) && OneKeyPerId(signed) && Reserved(file, next, c)
    requires file.current.Some? ==> file.current.value.content in signed
    requires i < |signed| && k in signed[i].certificates && l in c.certificates && k.id == l.id
    ensures k == l
  {
    hide Valid, Before;
    assert k.id in Ids(signed[i]);
    assert Retained(ContentOf(file.current), l);
    var j :| 0 <= j < |signed| && signed[j] == file.current.value.content;
    assert l in signed[j].certificates;
  }

  lemma ReserveKeeps(file: State, next: State, c: Content, signed: seq<Content>)
    requires Seen(file, signed) && Reserved(file, next, c)
    ensures Seen(next, signed)
  {
    hide Valid, Retained, Ids;
  }

  /** A newly committed content follows the one before it, and nothing revoked
      before comes back. */
  lemma PublishKeeps(file: State, next: State, c: Content, published: seq<Content>, signed: seq<Content>)
    requires Reserved(file, next, c) && Seen(file, signed)
    requires forall d :: d in published ==> d in signed && Valid(d)
    requires Ordered(published) && StaysRevoked(published) && Chained(published) && HeadIsLast(file, published)
    ensures Ordered(published + [c]) && StaysRevoked(published + [c]) && Chained(published + [c])
  {
    hide Valid, Retained, Ids, Follows;
    var all := published + [c];
    forall i | 0 <= i < |published| ensures Before(published[i].epoch, published[i].revision, c.epoch, c.revision) {
      assert published[i] in published;
      var j :| 0 <= j < |signed| && signed[j] == published[i];
    }
    forall i, j, id | 0 <= i <= j < |all| && id in all[i].revoked ensures id !in LiveIds(all[j]) {
      if j == |published| {
        if i == j {
          OwnRevoked(c, id);
        } else {
          assert published[i] in published;
          NeverBack(file, next, c, published, signed, i, id);
        }
      }
    }
  }

  lemma OwnRevoked(c: Content, id: CertificateId)
    requires Valid(c) && id in c.revoked
    ensures id !in LiveIds(c)
  {
    hide C.ServicesShape;
  }

  lemma NeverBack(file: State, next: State, c: Content, published: seq<Content>, signed: seq<Content>, i: nat, id: CertificateId)
    requires Reserved(file, next, c) && Seen(file, signed) && i < |published| && id in published[i].revoked && published[i] in signed
    requires StaysRevoked(published) && HeadIsLast(file, published)
    ensures id !in LiveIds(c)
  {
    hide Valid, Before, Follows;
    var j :| 0 <= j < |signed| && signed[j] == published[i];
    assert id in Ids(signed[j]);
    var last := published[|published| - 1];
    assert id !in LiveIds(last);
    forall k | k in c.certificates ensures k.id != id {
      if Retained(ContentOf(file.current), k) {
        assert k.id in LiveIds(last);
      }
    }
  }

  lemma StepKeeps(hive: C.HiveId, key: C.Key, w: World, e: Event, v: World)
    requires Inv(w) && Step(hive, key, w, e, v)
    ensures Inv(v)
  {
    match e
    case Reopened => ReopenKeeps(w, v);
    case Applied(u, current, issuedAt, nextUpdate, signed) =>
      if v.file == w.file && signed.None? {
        Unchanged(w, v);
      } else {
        hide Propose, Reserve, Commit, Inv;
        var proposed := Propose(u, current, hive, key, issuedAt, nextUpdate).value;
        var (next, c) := Reserve(w.file, current, proposed, hive, key).value;
        assert Reserves(hive, key, w.file, u, current, issuedAt, nextUpdate, next, c);
        ReservedFacts(hive, key, w.file, u, current, issuedAt, nextUpdate, next, c);
        if v.file == next {
          ReservedOnly(w, v, next, c, signed);
        } else {
          var m: Manifest :| m.content == c && Commit(next, m, hive, key) == Ok(v.file);
          CommittedState(next, m, hive, key);
          Committed(w, v, next, c, m);
        }
      }
  }

  lemma Unchanged(w: World, v: World)
    requires Inv(w) && v.file == w.file && v.signed == w.signed + [] && v.published == w.published + []
    ensures Inv(v)
  {
    assert v == w;
  }

  lemma ReopenKeeps(w: World, v: World)
    requires Inv(w) && (v.file == w.file || v.file == w.file.(pending := None)) && v.signed == w.signed && v.published == w.published
    ensures Inv(v)
  {
    hide Ordered, OneKeyPerId, StaysRevoked, Chained, Valid, Ids, Before;
  }

  lemma CommittedState(next: State, m: Manifest, hive: C.HiveId, key: C.Key)
    requires Commit(next, m, hive, key).Ok?
    ensures Commit(next, m, hive, key).value == next.(current := Some(m), pending := None)
  {
  }

  lemma HeadSigned(w: World)
    requires Inv(w)
    ensures w.file.current.Some? ==> w.file.current.value.content in w.signed
  {
    hide Ordered, Seen, OneKeyPerId, StaysRevoked, Chained, Valid;
  }

  lemma ReservedOnly(w: World, v: World, next: State, c: Content, signed: Option<Content>)
    requires Inv(w) && Reserved(w.file, next, c) && v.file == next && (signed.Some? ==> signed.value == c)
    requires v.signed == w.signed + (if signed.Some? then [signed.value] else []) && v.published == w.published + []
    ensures Inv(v)
  {
    HeadSigned(w);
    hide Ordered, Seen, OneKeyPerId, StaysRevoked, Chained, Valid;
    assert v.published == w.published;
    if signed.Some? {
      SignKeeps(w.file, next, c, w.signed);
    } else {
      ReserveKeeps(w.file, next, c, w.signed);
      assert v.signed == w.signed;
    }
  }

  lemma Committed(w: World, v: World, next: State, c: Content, m: Manifest)
    requires Inv(w) && Reserved(w.file, next, c) && m.content == c && v.file == next.(current := Some(m), pending := None)
    requires v.signed == w.signed + [c]
    requires v.published == w.published + Newly(w.file, v.file)
    ensures Inv(v)
  {
    HeadSigned(w);
    HeadIsOlder(w, c);
    hide Ordered, OneKeyPerId, StaysRevoked, Chained, Valid, Ids, Before;
    SignKeeps(w.file, next, c, w.signed);
    PublishKeeps(w.file, next, c, w.published, w.signed);
    assert v.published == w.published + [c];
  }

  lemma HeadIsOlder(w: World, c: Content)
    requires Inv(w) && Before(w.file.epoch, w.file.revision, c.epoch, c.revision)
    ensures ContentOf(w.file.current) != Some(c)
  {
    HeadSigned(w);
    hide Ordered, OneKeyPerId, StaysRevoked, Chained, Valid, Ids;
    assert forall i :: 0 <= i < |w.signed| ==> w.signed[i] != c;
  }

  // ---------- a whole life ----------

  ghost predicate History(hive: C.HiveId, key: C.Key, events: seq<Event>, worlds: seq<World>) {
    && |worlds| == |events| + 1 && worlds[0] == World(EMPTY, [], [])
    && forall i :: 0 <= i < |events| ==> Step(hive, key, worlds[i], events[i], worlds[i + 1])
  }

  lemma {:induction false} HistoryKeeps(hive: C.HiveId, key: C.Key, events: seq<Event>, worlds: seq<World>, n: nat)
    requires History(hive, key, events, worlds) && n <= |events|
    ensures Inv(worlds[n])
    decreases n
  {
    hide Step;
    if n > 0 {
      HistoryKeeps(hive, key, events, worlds, n - 1);
      hide Inv;
      assert Step(hive, key, worlds[n - 1], events[n - 1], worlds[n - 1 + 1]);
      StepKeeps(hive, key, worlds[n - 1], events[n - 1], worlds[n]);
    }
  }

  /** Over any life of the store: no two signed contents have one revision, and no
      identifier, once used, ever names another key. */
  lemma NothingIsReused(hive: C.HiveId, key: C.Key, events: seq<Event>, worlds: seq<World>, n: nat, i: nat, j: nat)
    requires History(hive, key, events, worlds) && n <= |events| && i < j < |worlds[n].signed|
    ensures var a, b := worlds[n].signed[i], worlds[n].signed[j];
            && Before(a.epoch, a.revision, b.epoch, b.revision)
            && forall k, l :: k in a.certificates && l in b.certificates && k.id == l.id ==> k == l
  {
    hide Step, Seen, StaysRevoked, Chained, Valid, Before;
    HistoryKeeps(hive, key, events, worlds, n);
  }

  /** Over any life of the store: what one committed manifest revokes is never live
      again, in that epoch or any later one; within an epoch the revoked set only
      grows; each manifest is valid and follows the one before it. */
  lemma RevokedForLife(hive: C.HiveId, key: C.Key, events: seq<Event>, worlds: seq<World>, n: nat, i: nat, j: nat)
    requires History(hive, key, events, worlds) && n <= |events| && i <= j < |worlds[n].published|
    ensures var a, b := worlds[n].published[i], worlds[n].published[j];
            && Valid(a) && (forall id :: id in a.revoked ==> id !in LiveIds(b))
            && (a.epoch == b.epoch ==> forall id :: id in a.revoked ==> id in b.revoked)
            && (j == i + 1 ==> Follows(a, b))
  {
    hide Step, Seen, Valid, Before, OneKeyPerId;
    HistoryKeeps(hive, key, events, worlds, n);
    assert worlds[n].published[i] in worlds[n].published;
    hide History;
    RevokedGrows(worlds[n].published, i, j);
  }

  lemma {:induction false} RevokedGrows(published: seq<Content>, i: nat, j: nat)
    requires Chained(published) && i <= j < |published|
    ensures published[i].epoch <= published[j].epoch
    ensures published[i].epoch == published[j].epoch ==> forall id :: id in published[i].revoked ==> id in published[j].revoked
    decreases j - i
  {
    if i < j {
      RevokedGrows(published, i + 1, j);
      assert Follows(published[i], published[i + 1]);
    }
  }
}
