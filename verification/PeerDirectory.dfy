/** The peer directory as an object: entries in memory and contacts in a journal. */
module PeerDirectory {
  import opened Prelude
  import opened Contacts
  import opened PeerHistory
  import opened PeerMerge
  import opened PeerReplay
  import opened PeerRuns
  import opened PeerPages
  import opened DialHints
  import Revocation
  import RevocationGossip
  import F = JournalFormat
  import S = JournalStore
  import C = JournalCrash
  import H = JournalHandle

  // ---------- loops over entries ----------

  /** Opening: every frame is decoded, checked and applied in order. */
  method ReplayAllFrames(config: Config, frames: seq<Bytes>) returns (result: Result<Entries, DirectoryError>)
    ensures result == ReplayFrames(config, map[], frames)
  {
    hide Storable, Answer, Apply;
    var entries: Entries := map[];
    assert frames[0..] == frames;
    for i := 0 to |frames|
      invariant ReplayFrames(config, entries, frames[i..]) == ReplayFrames(config, map[], frames)
    {
      assert frames[i..][1..] == frames[i + 1..];
      var contact := CONTACTS.decode(frames[i]);
      if contact.None? {
        return Err(InvalidContact);
      }
      DecodedEncodes(frames[i]);
      if !VerifyHistorical(contact.value, config.root) {
        return Err(InvalidContact);
      }
      var answer := Answer(config, entries, contact.value, false);
      if answer.Err? {
        return Err(answer.error);
      }
      entries := Apply(config, entries, contact.value);
    }
    return Ok(entries);
  }

  /** What was decoded is storable exactly when it verifies. */
  lemma DecodedEncodes(bytes: Bytes)
    requires CONTACTS.decode(bytes).Some?
    ensures var contact := CONTACTS.decode(bytes).value;
            forall root :: Storable(contact, root) <==> VerifyHistorical(contact, root)
  {
    hide VerifyHistorical;
    assert CONTACTS.encode(CONTACTS.decode(bytes).value) == Some(bytes);
  }

  predicate IsLeast(node: NodeId, nodes: set<NodeId>) {
    node in nodes && forall n :: n in nodes ==> node <= n
  }

  lemma LeastExists(nodes: set<NodeId>) returns (least: NodeId)
    requires nodes != {}
    ensures IsLeast(least, nodes)
  {
    var some :| some in nodes;
    var others := nodes - {some};
    least := some;
    if others != {} {
      var other := LeastExists(others);
      least := if some <= other then some else other;
    }
    assert forall n :: n in nodes ==> n == some || n in others;
  }

  predicate Ascending(nodes: seq<NodeId>) {
    forall i, j :: 0 <= i < j < |nodes| ==> nodes[i] < nodes[j]
  }

  /** The node ids in ascending order, as an ordered map lists them. */
  method AscendingNodes(keys: set<NodeId>) returns (nodes: seq<NodeId>)
    ensures Distinct(nodes) && Elements(nodes) == keys && Ascending(nodes)
  {
    nodes := [];
    var left := keys;
    while left != {}
      invariant Elements(nodes) + left == keys
      invariant Ascending(nodes)
      invariant forall n :: n in left ==> forall i :: 0 <= i < |nodes| ==> nodes[i] < n
      decreases left
    {
      ghost var least := LeastExists(left);
      var node :| IsLeast(node, left);
      assert IsLeast(node, left);
      ElementsConcat(nodes, [node]);
      nodes := nodes + [node];
      left := left - {node};
    }
  }

  /** The canonical contacts in ascending order of the nodes. */
  ghost predicate AscendingLog(entries: Entries, log: seq<Contact>) {
    exists nodes :: Enumerates(nodes, entries) && Ascending(nodes) && log == CanonicalLog(entries, nodes)
  }

  /** What compaction writes: per node the history from the oldest, the current
      contact and the evidence. */
  method CanonicalContacts(entries: Entries) returns (frames: seq<Contact>)
    ensures AscendingLog(entries, frames) && CanonicalOf(entries, frames)
  {
    hide CanonicalFrames;
    var nodes := AscendingNodes(entries.Keys);
    frames := [];
    assert nodes[0..] == nodes;
    for i := 0 to |nodes|
      invariant frames + CanonicalLog(entries, nodes[i..]) == CanonicalLog(entries, nodes)
    {
      assert nodes[i] in Elements(nodes);
      assert nodes[i..][1..] == nodes[i + 1..];
      var entry := entries[nodes[i]];
      var some := EntryContacts(entry);
      Assoc(frames, some, CanonicalLog(entries, nodes[i + 1..]));
      frames := frames + some;
    }
    assert CanonicalLog(entries, []) == [];
  }

  method EntryContacts(entry: Entry) returns (frames: seq<Contact>)
    ensures frames == CanonicalFrames(entry)
  {
    frames := [];
    var i := |entry.history|;
    while i > 0
      invariant 0 <= i <= |entry.history|
      invariant frames == Reverse(entry.history[i..])
    {
      i := i - 1;
      assert entry.history[i..][1..] == entry.history[i + 1..];
      frames := frames + [entry.history[i]];
    }
    assert entry.history[0..] == entry.history;
    frames := frames + [entry.current];
    if entry.conflict.Some? {
      frames := frames + [entry.conflict.value];
    }
  }

  method EncodeAll(log: seq<Contact>) returns (frames: Option<seq<Bytes>>)
    ensures frames.Some? <==> AllEncode(log)
    ensures frames.Some? ==> frames.value == Encodings(log)
  {
    var done: seq<Bytes> := [];
    for i := 0 to |log|
      invariant AllEncode(log[..i]) && done == Encodings(log[..i])
    {
      var encoded := CONTACTS.encode(log[i]);
      assert log[i] in log;
      if encoded.None? {
        return None;
      }
      assert log[..i + 1] == log[..i] + [log[i]];
      done := done + [encoded.value];
    }
    assert log[..|log|] == log;
    return Some(done);
  }

  /** A journal of this many frames is as short as compaction makes it. */
  ghost predicate CanonicalSize(entries: Entries, count: nat) {
    exists log :: CanonicalOf(entries, log) && |log| == count
  }

  /** How many frames compaction would write. */
  method CanonicalCount(entries: Entries) returns (count: nat)
    ensures CanonicalSize(entries, count)
  {
    hide CanonicalFrames;
    var nodes := AscendingNodes(entries.Keys);
    count := 0;
    assert nodes[0..] == nodes;
    for i := 0 to |nodes|
      invariant count + |CanonicalLog(entries, nodes[i..])| == |CanonicalLog(entries, nodes)|
    {
      assert nodes[i] in Elements(nodes);
      assert nodes[i..][1..] == nodes[i + 1..];
      var entry := entries[nodes[i]];
      FrameCount(entry);
      count := count + 1 + |entry.history| + if entry.conflict.Some? then 1 else 0;
    }
    assert CanonicalLog(entries, []) == [];
    assert CanonicalOf(entries, CanonicalLog(entries, nodes));
  }

  lemma FrameCount(entry: Entry)
    ensures |CanonicalFrames(entry)| == 1 + |entry.history| + if entry.conflict.Some? then 1 else 0
  {
    ReverseLength(entry.history);
  }

  lemma {:induction false} ReverseLength(history: seq<Contact>)
    ensures |Reverse(history)| == |history|
  {
    if history != [] {
      ReverseLength(history[1..]);
    }
  }

  /** The kept contacts of a page, node after node. */
  method FlattenAll(newest: Newest, nodes: seq<NodeId>) returns (candidates: seq<Contact>)
    requires forall n :: n in nodes ==> n in newest
    ensures candidates == Flatten(newest, nodes)
  {
    candidates := [];
    assert nodes[0..] == nodes;
    for i := 0 to |nodes|
      invariant candidates + Flatten(newest, nodes[i..]) == Flatten(newest, nodes)
    {
      assert nodes[i..][1..] == nodes[i + 1..];
      assert nodes[i] in nodes;
      Assoc(candidates, newest[nodes[i]], Flatten(newest, nodes[i + 1..]));
      candidates := candidates + newest[nodes[i]];
    }
  }

  /** Merges into a copy and notes what changed it. */
  method Preview(config: Config, entries: Entries, candidates: seq<Contact>) returns (preview: Entries, accepted: seq<Contact>)
    ensures preview == ApplyAll(config, entries, candidates) && accepted == Logged(config, entries, candidates)
  {
    hide Apply, Changes;
    preview, accepted := entries, [];
    assert candidates[0..] == candidates;
    for i := 0 to |candidates|
      invariant ApplyAll(config, preview, candidates[i..]) == ApplyAll(config, entries, candidates)
      invariant accepted + Logged(config, preview, candidates[i..]) == Logged(config, entries, candidates)
    {
      assert candidates[i..][1..] == candidates[i + 1..];
      var next := Apply(config, preview, candidates[i]);
      ChangesExactly(config, preview, candidates[i]);
      if next != preview {
        Assoc(accepted, [candidates[i]], Logged(config, next, candidates[i + 1..]));
        accepted := accepted + [candidates[i]];
      }
      preview := next;
    }
  }

  lemma {:induction false} NothingLogged(config: Config, entries: Entries, contacts: seq<Contact>)
    requires Logged(config, entries, contacts) == []
    ensures ApplyAll(config, entries, contacts) == entries
    decreases |contacts|
  {
    hide Changes, Next;
    if contacts != [] {
      NothingLogged(config, entries, contacts[1..]);
    }
  }

  lemma SomeMissing(some: seq<Contact>, all: seq<Contact>)
    requires !AllEncode(some) && forall c :: c in some ==> c in all
    ensures !AllEncode(all)
  {
  }

  // ---------- hints ----------

  /** Takes unseen addresses up to a limit, adding them to the shared set. */
  method TakeUnseen(addresses: seq<SocketAddr>, seen: set<SocketAddr>, limit: nat)
    returns (taken: seq<SocketAddr>, seen': set<SocketAddr>)
    ensures taken == TakeNew(addresses, seen, limit)
    ensures seen' == seen + Elements(taken)
  {
    taken, seen' := [], seen;
    var i := 0;
    assert addresses[i..] == addresses;
    while i < |addresses| && |taken| < limit
      invariant 0 <= i <= |addresses| && |taken| <= limit
      invariant seen' == seen + Elements(taken)
      invariant TakeNew(addresses, seen, limit) == taken + TakeNew(addresses[i..], seen', limit - |taken|)
    {
      assert addresses[i..][1..] == addresses[i + 1..];
      if addresses[i] !in seen' {
        Assoc(taken, [addresses[i]], TakeNew(addresses[i + 1..], seen' + {addresses[i]}, limit - |taken| - 1));
        taken := taken + [addresses[i]];
        seen' := seen' + {addresses[i]};
      }
      i := i + 1;
    }
  }

  /** A contact's addresses and routes within a budget, and the larger seen set. */
  method TryContact(contact: Contact, routes: Routes, seen: set<SocketAddr>, limit: nat, current: bool)
    returns (addresses: seq<SocketAddr>, seen': set<SocketAddr>)
    ensures addresses == ContactAddresses(contact, routes, seen, limit, current)
    ensures seen' == seen + Elements(addresses)
  {
    hide Fresh, TakeNew;
    var own, seen1 := UniqueAddresses(contact, seen, limit, current);
    var more, seen2 := TakeUnseen(RoutesOf(contact, routes), seen1, Remaining(limit, |own|));
    ElementsConcat(own, more);
    addresses, seen' := own + more, seen2;
  }

  /** One shared seen set over claims, the current contact and then the history. */
  method HintsOf(entry: Entry, claimed: seq<SocketAddr>, routes: Routes, limit: nat) returns (hints: seq<Hint>)
    ensures hints == EntryHints(entry, claimed, routes, limit)
  {
    hide ContactAddresses, TakeNew;
    var claims, seen1 := TakeUnseen(claimed, {}, |claimed|);
    assert seen1 == Elements(claims);
    var own, seen2 := TryContact(entry.current, routes, seen1, Everything(entry.current, routes), true);
    ElementsConcat(claims, own);
    var addresses := claims + own;
    var seen := seen2;
    assert seen == Elements(CurrentAddresses(entry, claimed, routes));
    hints := [];
    if addresses != [] {
      hints := [Hint(entry.current, addresses)];
    }
    var counted: nat := 0;
    var i := 0;
    assert entry.history[i..] == entry.history;
    while i < |entry.history|
      invariant 0 <= i <= |entry.history|
      invariant EntryHints(entry, claimed, routes, limit)
             == hints + HistoryHints(entry.history[i..], routes, seen, Remaining(limit, counted))
    {
      var remaining := Remaining(limit, counted);
      if remaining == 0 {
        break;
      }
      assert entry.history[i..][1..] == entry.history[i + 1..];
      var more, seen' := TryContact(entry.history[i], routes, seen, remaining, false);
      if more != [] {
        counted := counted + |more|;
        Assoc(hints, [Hint(entry.history[i], more)],
              HistoryHints(entry.history[i + 1..], routes, seen', Remaining(limit, counted)));
        hints := hints + [Hint(entry.history[i], more)];
      } else {
        assert seen' == seen;
      }
      seen := seen';
      i := i + 1;
    }
    assert HistoryHints([], routes, seen, Remaining(limit, counted)) == [];
  }

  // ---------- the object ----------

  const MIN_ADDRESS_HISTORY := 8
  const MAX_ADDRESS_HISTORY := 64
  const PEER_COMPACTION_THRESHOLD_BYTES := 8 * 1024 * 1024

  /** The world of a directory whose journal is held and agrees with the disk. */
  ghost function Held(frames: seq<Bytes>, entries: Entries): World {
    World(C.Run(S.Committed(frames), C.Up(frames)), Some(entries), frames, {entries})
  }

  /** The world after an import; through a handle that had failed, the journal is
      where going on leaves it. */
  ghost function ImportedWorld(w: World, frames: seq<Bytes>, entries: Entries, store: S.Store): World {
    if w.journal.phase.Up? then Held(frames, entries)
    else World(C.Run(store, C.Stale({frames})), Some(entries), frames, {entries})
  }

  lemma ImportedIs(w: World, frames: seq<Bytes>, entries: Entries, store: S.Store)
    requires w.journal.phase.Up? ==> store == S.Committed(frames)
    ensures var v := ImportedWorld(w, frames, entries, store);
            && v.memory == Some(entries) && v.held == frames && v.journal.store == store
            && (v.journal.phase.Up? <==> w.journal.phase.Up?) && (v.journal.phase.Up? ==> v == Held(frames, entries))
  {
  }

  /** A safe run that is down left this disk. */
  ghost predicate SafeAt(config: Config, w: World, store: S.Store) {
    Safe(config, w) && w.memory.None? && w.journal.store == store
  }

  class Directory {
    const config: Config
    const journal: H.Journal
    var entries: Entries
    var revocations: Revocation.SignedRevocations
    ghost var world: World

    /** These entries, this handle and this disk are at a safe point of a run. */
    ghost predicate Tied()
      reads this, journal, journal.disk
    {
      && Safe(config, world) && world.memory == Some(entries) && world.journal.store == journal.disk.Contents()
      && journal.Handled() && world.held == journal.frames
      && (world.journal.phase.Up? ==> journal.Valid() && world == Held(journal.frames, entries))
    }

    /** No operation on the journal has failed since it was opened or replaced. */
    ghost predicate Valid()
      reads this, journal, journal.disk
    {
      Tied() && world.journal.phase.Up?
    }

    /** The contacts are in the journal and not yet in memory. */
    ghost predicate Awaiting(contacts: seq<Contact>, next: Entries)
      reads this, journal, journal.disk
    {
      && Safe(config, world) && journal.Handled() && (world.journal.phase.Up? ==> journal.Valid())
      && Step(config, world, Imported(contacts), ImportedWorld(world, journal.frames, next, journal.disk.Contents()))
    }

    constructor (config: Config, entries: Entries, journal: H.Journal, revocations: Revocation.SignedRevocations, ghost world: World)
      ensures this.config == config && this.entries == entries && this.journal == journal && this.revocations == revocations
      ensures this.world == world
    {
      this.config := config;
      this.entries := entries;
      this.journal := journal;
      this.revocations := revocations;
      this.world := world;
    }

    /** Opens the journal, checks the snapshot, replays, and compacts when the
        journal holds anything but the canonical contacts or is large. From a disk
        that a safe run left, the replay cannot fail and this goes on with the run. */
    static method Open(config: Config, disk: H.Disk, revocations: Revocation.SignedRevocations, ghost w: World)
      returns (result: Result<Directory, DirectoryError>, ghost after: World)
      modifies disk
      ensures result == Err(InvalidHistoryLimit) <==> !(MIN_ADDRESS_HISTORY <= config.limit <= MAX_ADDRESS_HISTORY)
      ensures result.Ok? ==>
                && fresh(result.value) && result.value.config == config && result.value.revocations == revocations
                && result.value.journal.disk == disk && result.value.Valid() && after == result.value.world
                && S.OpenStore(old(disk.Contents())).Ok? && RevocationGossip.VerifySnapshot(revocations, config.root).Ok?
                && ReplayFrames(config, map[], S.OpenStore(old(disk.Contents())).value.frames) == Ok(result.value.entries)
                && CanonicalSize(result.value.entries, |result.value.journal.frames|)
      ensures result.Err? && result.error !in {InvalidHistoryLimit, JournalFailed} ==>
                && S.OpenStore(old(disk.Contents())).Ok?
                && if RevocationGossip.VerifySnapshot(revocations, config.root).Err? then result.error == RevocationsInvalid
                   else ReplayFrames(config, map[], S.OpenStore(old(disk.Contents())).value.frames) == Err(result.error)
      ensures SafeAt(config, w, old(disk.Contents())) ==>
                && Leads(config, w, after)
                && (result.Err? ==> result.error in {InvalidHistoryLimit, JournalFailed, RevocationsInvalid})
                && (result.Err? ==> after.memory.None? && after.journal.store == disk.Contents())
    {
      hide Safe, Leads, ReplayFrames, S.OpenStore, S.Committed, S.Fits, CompactsTo, RevocationGossip.VerifySnapshot, C.TornOpen, CanonicalSize,
           F.Image;
      after := w;
      LeadsNowhere(config, w);
      if !(MIN_ADDRESS_HISTORY <= config.limit <= MAX_ADDRESS_HISTORY) {
        return Err(InvalidHistoryLimit), w;
      }
      ghost var before := disk.Contents();
      var handle, frames := H.Journal.Open(disk);
      if handle.Err? {
        GivenUpLeads(config, w, before, disk.Contents());
        return Err(JournalFailed), GivenUp(w, disk.Contents());
      }
      if RevocationGossip.VerifySnapshot(revocations, config.root).Err? {
        GivenUpLeads(config, w, before, disk.Contents());
        return Err(RevocationsInvalid), GivenUp(w, disk.Contents());
      }
      var replayed := ReplayAllFrames(config, frames);
      if replayed.Err? {
        FoundReplays(config, w, before, frames);
        ReplayErrors(config, map[], frames);
        return Err(replayed.error), w;
      }
      OpenLeads(config, w, before, frames, replayed.value);
      handle.value.ValidIsHandled();
      var directory := new Directory(config, replayed.value, handle.value, revocations, Held(frames, replayed.value));
      var compacted: Result<(), S.JournalError>;
      var count := CanonicalCount(replayed.value);
      if |frames| == count {
        compacted := directory.CompactIfNeeded();
      } else {
        compacted := directory.Compact();
      }
      after := directory.world;
      if SafeAt(config, w, before) {
        LeadsThrough(config, w, Held(frames, replayed.value), after);
      }
      if compacted.Err? {
        StopLeads(config, after);
        if SafeAt(config, w, before) {
          LeadsThrough(config, w, after, Dropped(after));
        }
        return Err(JournalFailed), Dropped(after);
      }
      if directory.journal.frames != frames || |frames| != count {
        CompactedSize(directory.entries, directory.journal.frames);
      }
      return Ok(directory), after;
    }

    /** Replaces the journal by the canonical contacts, also after a failure. */
    method Compact() returns (result: Result<(), S.JournalError>)
      requires Tied()
      modifies this`world, journal, journal.disk
      ensures Tied() && Leads(config, old(world), world)
      ensures result.Ok? ==> Valid() && CompactsTo(entries, journal.frames)
      ensures result.Err? ==> result.error in {S.JournalFull, S.Io}
      ensures result == Err(S.JournalFull) ==> world == old(world)
    {
      hide Safe, Leads, Step, CanonicalOf, S.OpenStore, S.Committed, S.Fits, Encodings, AllDecode, LogOf, C.TornCompact, C.TornRewrite, C.Step,
           F.ValidPayloads, F.Image, GoodEntries;
      TiedIsGood(config, world);
      var log := CanonicalContacts(entries);
      CanonicalEncodes(config, entries, log);
      var encoded := EncodeAll(log);
      var frames := encoded.value;
      LogRoundTrip(log);
      result := journal.Compact(frames);
      if result.Ok? {
        world := Held(frames, entries);
        CompactSteps(config, old(world), entries, frames);
        StepLeads(config, old(world), Compacted, world);
      } else if result == Err(S.Io) {
        world := CutWorld(old(world), frames, entries, journal.disk.Contents());
        CompactCutSteps(config, old(world), entries, frames, journal.disk.Contents());
        StepLeads(config, old(world), CompactCut, world);
      } else {
        LeadsNowhere(config, world);
      }
    }

    /** Compacts a journal that has grown large. */
    method CompactIfNeeded() returns (result: Result<(), S.JournalError>)
      requires Tied()
      modifies this`world, journal, journal.disk
      ensures Tied() && Leads(config, old(world), world)
      ensures result.Ok? && old(Valid()) ==> Valid() && (journal.frames == old(journal.frames) || CompactsTo(entries, journal.frames))
      ensures result.Ok? && old(Valid()) && |old(journal.disk.file)| < PEER_COMPACTION_THRESHOLD_BYTES ==> world == old(world)
      ensures result.Ok? && old(Valid()) && |old(journal.disk.file)| >= PEER_COMPACTION_THRESHOLD_BYTES ==> CompactsTo(entries, journal.frames)
    {
      hide Safe, Leads, CompactsTo, Held;
      LeadsNowhere(config, world);
      var length := journal.ByteLength();
      if length.None? {
        return Err(S.Io);
      }
      if length.value >= PEER_COMPACTION_THRESHOLD_BYTES {
        result := Compact();
      } else {
        result := Ok(());
      }
    }

    /** One append of a contact that changes the entries. */
    method AppendOnce(contact: Contact, encoded: Bytes) returns (result: Result<(), S.JournalError>)
      requires Tied() && Accepted(config, [contact]) && Changes(config, entries, contact) && CONTACTS.encode(contact) == Some(encoded)
      modifies this`world, journal, journal.disk
      ensures result.Ok? ==> Awaiting([contact], Apply(config, entries, contact)) && world == old(world)
      ensures result.Err? ==> result.error in {S.JournalFull, S.Io} && Tied() && Leads(config, old(world), world)
      ensures result == Err(S.JournalFull) ==> world == old(world)
    {
      hide Safe, Leads, S.OpenStore, S.Committed, S.Fits, C.TornAppend, C.HashOf, Accepted, Changes, Apply, ApplyAll, Logged, Encodings, C.Step, Step,
           F.Image;
      ghost var frames := journal.frames;
      HeldIsCandidate(config, world);
      result := journal.Append(encoded);
      EncodedIsPayload(contact, encoded);
      OneContact(config, entries, contact, encoded);
      LeadsNowhere(config, world);
      if result.Ok? {
        ImportSteps(config, world, entries, [contact], [encoded], journal.disk.Contents());
      } else if result == Err(S.Io) {
        world := ImportCutWorld(old(world), entries, Apply(config, entries, contact), [encoded], journal.disk.Contents());
        ImportCutSteps(config, old(world), entries, [contact], [encoded], journal.disk.Contents());
        StepLeads(config, old(world), ImportCut([contact]), world);
      }
    }

    /** Appends a contact, compacting first when the journal is large, and once more
        when it is full. */
    method Persist(contact: Contact) returns (result: Result<(), DirectoryError>)
      requires Tied() && Authorized(config, contact) && Changes(config, entries, contact)
      modifies this`world, journal, journal.disk
      ensures result == Err(InvalidContact) <==> CONTACTS.encode(contact).None?
      ensures result.Err? ==> result.error in {InvalidContact, JournalFailed} && Tied()
      ensures result == Err(InvalidContact) ==> world == old(world)
      ensures Leads(config, old(world), world)
      ensures result.Ok? ==> Awaiting([contact], Apply(config, entries, contact)) && (old(Valid()) ==> world.journal.phase.Up?)
    {
      hide Safe, Leads, CompactsTo, Held, Accepted, Changes, Apply, Step, Authorized;
      LeadsNowhere(config, world);
      var encoded := CONTACTS.encode(contact);
      if encoded.None? {
        return Err(InvalidContact);
      }
      AuthorizedIsAccepted(config, contact);
      var compacted := CompactIfNeeded();
      if compacted.Err? {
        return Err(JournalFailed);
      }
      ghost var middle := world;
      var appended := AppendOnce(contact, encoded.value);
      if appended == Err(S.JournalFull) {
        compacted := Compact();
        LeadsThrough(config, old(world), middle, world);
        if compacted.Err? {
          return Err(JournalFailed);
        }
        middle := world;
        appended := AppendOnce(contact, encoded.value);
      }
      if appended.Err? {
        LeadsThrough(config, old(world), middle, world);
        return Err(JournalFailed);
      }
      return Ok(());
    }

    /** Verifies, merges and persists a contact. Unless the journal fails, the
        answer and the entries are those of the merge. Whatever happens, memory and
        disk are at a safe point of the same run. */
    method Import(contact: Contact, now: nat) returns (result: Result<ImportDecision, DirectoryError>)
      requires Tied() && now <= U64_MAX && contact.endpoint.record.issuedAt <= U64_MAX
      modifies this`entries, this`world, journal, journal.disk
      ensures Tied() && Leads(config, old(world), world)
      ensures !Verify(contact, config.root, now) ==> result == Err(InvalidContact)
      ensures Verify(contact, config.root, now) && Revocation.Contains(revocations, Node(contact)) ==> result == Err(RevokedPeer)
      ensures result in {Err(InvalidContact), Err(RevokedPeer)} ==> entries == old(entries)
      ensures result != Err(JournalFailed) && old(Valid()) ==> Valid()
      ensures result == Err(InvalidContact) ==> !Verify(contact, config.root, now) || CONTACTS.encode(contact).None?
      ensures result !in {Err(InvalidContact), Err(RevokedPeer), Err(JournalFailed)} ==>
                && result == Answer(config, old(entries), contact, true)
                && entries == Apply(config, old(entries), contact)
      ensures result == Err(JournalFailed) ==> entries == old(entries) || entries == Apply(config, old(entries), contact)
    {
      hide Verify, Answer, Apply, Changes, Safe, Leads, Step, Authorized, Revocation.Contains, S.Committed, S.Fits, F.Image;
      LeadsNowhere(config, world);
      AnswerErrors(config, entries, contact);
      if !Verify(contact, config.root, now) {
        return Err(InvalidContact);
      }
      if Revocation.Contains(revocations, Node(contact)) {
        return Err(RevokedPeer);
      }
      result := Answer(config, entries, contact, true);
      if Changes(config, entries, contact) {
        AuthorizedNow(config, contact, now);
        var persisted := Persist(contact);
        if persisted.Err? {
          result := Err(persisted.error);
        } else {
          ghost var next := ImportedWorld(world, journal.frames, Apply(config, entries, contact), journal.disk.Contents());
          ImportLeads(config, old(world), world, [contact], next);
          ImportedIs(world, journal.frames, Apply(config, entries, contact), journal.disk.Contents());
          entries := Apply(config, entries, contact);
          world := next;
        }
      } else {
        ChangesExactly(config, entries, contact);
      }
      ghost var middle := world;
      var compacted := CompactIfNeeded();
      LeadsThrough(config, old(world), middle, world);
      if compacted.Err? {
        return Err(JournalFailed);
      }
    }

    /** Appends the contacts of a page under one synchronization, compacting first
        when the journal is large, and once more when it is full. */
    method PersistPage(contacts: seq<Contact>, frames: seq<Bytes>) returns (result: Result<(), DirectoryError>)
      requires Tied() && Accepted(config, contacts) && Logged(config, entries, contacts) == contacts
      requires AllEncode(contacts) && Encodings(contacts) == frames
      modifies this`world, journal, journal.disk
      ensures Leads(config, old(world), world)
      ensures result.Err? ==> result.error == JournalFailed && Tied()
      ensures result.Ok? ==> Awaiting(contacts, ApplyAll(config, entries, contacts)) && (old(Valid()) ==> world.journal.phase.Up?)
    {
      hide Safe, Leads, CompactsTo, Held, Accepted, ApplyAll, Logged, Encodings, AllEncode, Step;
      var compacted := CompactIfNeeded();
      if compacted.Err? {
        return Err(JournalFailed);
      }
      ghost var middle := world;
      var appended := AppendPage(contacts, frames);
      if appended == Err(S.JournalFull) {
        compacted := Compact();
        LeadsThrough(config, old(world), middle, world);
        if compacted.Err? {
          return Err(JournalFailed);
        }
        middle := world;
        appended := AppendPage(contacts, frames);
      }
      if appended.Err? {
        LeadsThrough(config, old(world), middle, world);
        return Err(JournalFailed);
      }
      return Ok(());
    }

    method AppendPage(contacts: seq<Contact>, batch: seq<Bytes>) returns (result: Result<(), S.JournalError>)
      requires Tied() && Accepted(config, contacts) && Logged(config, entries, contacts) == contacts
      requires AllEncode(contacts) && Encodings(contacts) == batch
      modifies this`world, journal, journal.disk
      ensures result.Ok? ==> Awaiting(contacts, ApplyAll(config, entries, contacts)) && world == old(world)
      ensures result.Err? ==> result.error in {S.JournalFull, S.Io} && Tied() && Leads(config, old(world), world)
      ensures result == Err(S.JournalFull) ==> world == old(world)
    {
      hide Safe, Leads, S.OpenStore, S.Committed, S.Fits, C.TornAppend, C.HashOf, Accepted, ApplyAll, Logged, Encodings, AllEncode, C.Step, Step, F.Image,
           F.ValidPayloads, F.Serialize;
      HeldIsCandidate(config, world);
      result := journal.AppendBatch(batch);
      LogRoundTrip(contacts);
      LeadsNowhere(config, world);
      if result.Ok? {
        ImportSteps(config, world, entries, contacts, batch, journal.disk.Contents());
      } else if result == Err(S.Io) {
        world := ImportCutWorld(old(world), entries, ApplyAll(config, entries, contacts), batch, journal.disk.Contents());
        ImportCutSteps(config, old(world), entries, contacts, batch, journal.disk.Contents());
        StepLeads(config, old(world), ImportCut(contacts), world);
      }
    }

    /** Merges a page: of each node the newest contacts, in node order, and all that
        change anything are persisted together or not at all. */
    method ImportPage(contacts: seq<Contact>, now: nat)
      returns (result: Result<bool, DirectoryError>, ghost newest: Newest, ghost nodes: seq<NodeId>)
      requires Tied() && now <= U64_MAX && forall c :: c in contacts ==> c.endpoint.record.issuedAt <= U64_MAX
      modifies this`entries, this`world, journal, journal.disk
      ensures Coalesced(config, revocations, now, PageOf(contacts), newest)
      ensures Distinct(nodes) && Ascending(nodes) && Elements(nodes) == newest.Keys
      ensures Tied() && Leads(config, old(world), world)
      ensures result.Ok? ==>
                && entries == ApplyAll(config, old(entries), Flatten(newest, nodes)) && (old(Valid()) ==> Valid())
                && (result.value <==> Logged(config, old(entries), Flatten(newest, nodes)) != [])
      ensures result.Err? ==> entries == old(entries) && result.error in {InvalidContact, JournalFailed}
      ensures result == Err(InvalidContact) ==> world == old(world) && !AllEncode(Flatten(newest, nodes))
    {
      hide Safe, Leads, Held, ImportedWorld, Accepted, ApplyAll, Logged, Encodings, AllEncode, Step, Coalesced, Flatten, S.Committed, S.Fits, F.Image;
      LeadsNowhere(config, world);
      var kept := Coalesce(config, revocations, now, contacts);
      var order := AscendingNodes(kept.Keys);
      newest, nodes := kept, order;
      var candidates := FlattenAll(kept, order);
      var preview, accepted := Preview(config, entries, candidates);
      if accepted == [] {
        NothingLogged(config, entries, candidates);
        return Ok(false), newest, nodes;
      }
      LoggedAmong(config, entries, candidates);
      LoggedIsEnough(config, entries, candidates);
      var frames := EncodeAll(accepted);
      if frames.None? {
        SomeMissing(accepted, candidates);
        return Err(InvalidContact), newest, nodes;
      }
      PageAccepted(config, revocations, now, contacts, kept, order, accepted);
      var persisted := PersistPage(accepted, frames.value);
      if persisted.Err? {
        return Err(JournalFailed), newest, nodes;
      }
      ghost var next := ImportedWorld(world, journal.frames, preview, journal.disk.Contents());
      ImportLeads(config, old(world), world, accepted, next);
      ImportedIs(world, journal.frames, preview, journal.disk.Contents());
      entries := preview;
      world := next;
      return Ok(true), newest, nodes;
    }

    /** Takes a newer root-signed snapshot, or says why not. */
    method SetRevocations(incoming: Revocation.SignedRevocations) returns (result: Result<(), RevocationGossip.GossipError>)
      modifies this`revocations
      ensures RevocationGossip.SetRevocations(old(revocations), incoming, config.root)
           == match result case Ok(_) => Ok(revocations) case Err(error) => Err(error)
      ensures result.Err? ==> revocations == old(revocations)
      ensures forall n :: Revocation.Contains(old(revocations), n) ==> Revocation.Contains(revocations, n)
      ensures old(Tied()) ==> Tied()
    {
      hide Safe, Held, S.Committed, S.Fits, F.Image, RevocationGossip.VerifySnapshot;
      var verified := RevocationGossip.VerifySnapshot(incoming, config.root);
      if verified.Err? {
        return Err(RevocationGossip.BadSnapshot(verified.error));
      }
      if incoming.list.serial < revocations.list.serial {
        return Err(RevocationGossip.RevocationRollback);
      }
      if incoming.list.serial == revocations.list.serial {
        if incoming == revocations {
          return Ok(());
        }
        return Err(RevocationGossip.RevocationEquivocation);
      }
      if !RevocationGossip.Extends(incoming, revocations) {
        return Err(RevocationGossip.RevocationRollback);
      }
      revocations := incoming;
      return Ok(());
    }

    /** The hints of every peer that is neither quarantined nor revoked. */
    method AllDialHints(claimed: NodeId -> seq<SocketAddr>, routes: Routes) returns (hints: seq<Hint>)
      ensures exists nodes :: Enumerates(nodes, entries) && Ascending(nodes) &&
                hints == AllHints(entries, nodes, Elements(revocations.list.revokedNodes), claimed, routes, config.limit)
    {
      hide EntryHints, AllHints;
      var nodes := AscendingNodes(entries.Keys);
      var revoked := Elements(revocations.list.revokedNodes);
      hints := [];
      assert nodes[0..] == nodes;
      for i := 0 to |nodes|
        invariant hints + AllHints(entries, nodes[i..], revoked, claimed, routes, config.limit)
               == AllHints(entries, nodes, revoked, claimed, routes, config.limit)
      {
        assert nodes[i] in Elements(nodes);
        AllHintsFrom(entries, nodes, i, revoked, claimed, routes, config.limit);
        var entry := entries[nodes[i]];
        if entry.conflict.None? && !Revocation.Contains(revocations, nodes[i]) {
          var some := HintsOf(entry, claimed(nodes[i]), routes, config.limit);
          Assoc(hints, some, AllHints(entries, nodes[i + 1..], revoked, claimed, routes, config.limit));
          hints := hints + some;
        }
      }
      NoHints(entries, revoked, claimed, routes, config.limit);
    }
  }

  lemma AllHintsFrom(entries: Entries, nodes: seq<NodeId>, i: nat, revoked: set<NodeId>, claimed: NodeId -> seq<SocketAddr>, routes: Routes, limit: nat)
    requires i < |nodes|
    ensures AllHints(entries, nodes[i..], revoked, claimed, routes, limit)
         == (if nodes[i] !in entries || entries[nodes[i]].conflict.Some? || nodes[i] in revoked then []
             else EntryHints(entries[nodes[i]], claimed(nodes[i]), routes, limit))
            + AllHints(entries, nodes[i + 1..], revoked, claimed, routes, limit)
  {
    hide EntryHints;
    assert nodes[i..][1..] == nodes[i + 1..];
  }

  lemma NoHints(entries: Entries, revoked: set<NodeId>, claimed: NodeId -> seq<SocketAddr>, routes: Routes, limit: nat)
    ensures AllHints(entries, [], revoked, claimed, routes, limit) == []
  {
  }

  lemma AnswerErrors(config: Config, entries: Entries, contact: Contact)
    ensures Answer(config, entries, contact, true) !in {Err(InvalidContact), Err(RevokedPeer), Err(JournalFailed)}
  {
    hide Decide;
  }

  // ---------- opening ----------

  ghost function GivenUp(w: World, store: S.Store): World {
    w.(journal := w.journal.(store := store))
  }

  /** An opening that came to nothing leaves the run where a cut opening does. */
  lemma GivenUpLeads(config: Config, w: World, before: S.Store, after: S.Store)
    requires || C.TornOpen(before, after)
             || (S.OpenStore(before).Err? && after == S.Store(S.WithHeader(before.file), before.head))
             || (S.OpenStore(before).Ok? && after == S.OpenStore(before).value.store)
    ensures SafeAt(config, w, before) ==> Leads(config, w, GivenUp(w, after))
  {
    hide AllOpen, GoodEntries, S.OpenStore, C.TornOpen, C.Sound, C.Step, Leads, ImportStep, CompactStep, ReopenStep;
    if SafeAt(config, w, before) {
      C.GivenUpOpening(w.journal, after);
      LeadsNowhere(config, w);
      assert Step(config, w, ReopenCut, GivenUp(w, after));
      LeadsOn(config, w, w, ReopenCut, GivenUp(w, after));
    }
  }

  /** What a safe run left replays. */
  lemma FoundReplays(config: Config, w: World, before: S.Store, frames: seq<Bytes>)
    requires S.OpenStore(before).Ok? && S.OpenStore(before).value.frames == frames
    ensures SafeAt(config, w, before) ==> ReplayFrames(config, map[], frames).Ok?
  {
    hide AllOpen, GoodEntries, S.OpenStore, C.Sound, ReplayFrames;
    if SafeAt(config, w, before) {
      SafeReopens(config, w);
    }
  }

  lemma {:induction false} ReplayErrors(config: Config, entries: Entries, frames: seq<Bytes>)
    requires ReplayFrames(config, entries, frames).Err?
    ensures ReplayFrames(config, entries, frames).error in
              {InvalidContact, LocalNode, DirectoryFull, EquivocationDetected, GenerationTransition}
    decreases |frames|
  {
    hide Storable, Decide, Apply;
    if frames != [] && CONTACTS.decode(frames[0]).Some? {
      var next := ReplayOne(config, entries, CONTACTS.decode(frames[0]).value);
      if next.Ok? {
        ReplayErrors(config, next.value, frames[1..]);
      }
    }
  }

  lemma HeldSafe(config: Config, frames: seq<Bytes>, entries: Entries)
    requires S.Fits(frames) && OpensTo(config, frames, entries)
    ensures Safe(config, Held(frames, entries))
  {
    hide OpensTo, S.Fits, S.Committed, GoodEntries;
    OpensToGood(config, frames, entries);
    assert entries in {entries};
  }

  /** A successful opening is the next step of the run that left the disk, or the
      start of a new one. */
  lemma OpenLeads(config: Config, w: World, before: S.Store, frames: seq<Bytes>, entries: Entries)
    requires S.OpenStore(before) == Ok(S.Opened(frames, S.Committed(frames))) && S.Fits(frames)
    requires ReplayFrames(config, map[], frames) == Ok(entries)
    ensures Safe(config, Held(frames, entries))
    ensures SafeAt(config, w, before) ==> Leads(config, w, Held(frames, entries))
  {
    hide AllOpen, OpensTo, GoodEntries, S.OpenStore, S.Committed, S.Fits, C.Sound, Leads, ImportStep, CompactStep, ReplayFrames;
    ReplayOpens(config, frames);
    HeldSafe(config, frames, entries);
    if SafeAt(config, w, before) {
      LeadsNowhere(config, w);
      assert Step(config, w, Reopened, Held(frames, entries));
      LeadsOn(config, w, w, Reopened, Held(frames, entries));
    }
  }

  ghost function Dropped(w: World): World {
    World(if w.journal.phase.Up? then C.Run(w.journal.store, C.Down({w.journal.phase.frames}, false)) else w.journal, None, w.held, w.views)
  }

  lemma StopLeads(config: Config, w: World)
    requires w.memory.Some?
    ensures Leads(config, w, Dropped(w))
  {
    hide Leads, ImportStep, CompactStep, ReopenStep;
    LeadsNowhere(config, w);
    assert Step(config, w, Stopped, Dropped(w));
    LeadsOn(config, w, w, Stopped, Dropped(w));
  }

  // ---------- compacting ----------

  lemma TiedIsGood(config: Config, w: World)
    requires Safe(config, w) && w.memory.Some?
    ensures GoodEntries(config, w.memory.value) && !w.journal.phase.Fresh?
  {
    hide AllOpen, C.Sound, OpensTo;
    OpensToGood(config, w.held, w.memory.value);
  }

  lemma CanonicalEncodes(config: Config, entries: Entries, log: seq<Contact>)
    requires GoodEntries(config, entries) && CanonicalOf(entries, log)
    ensures AllEncode(log)
  {
    hide GoodEntries, Enumerates, CanonicalLog;
    var nodes :| Enumerates(nodes, entries) && log == CanonicalLog(entries, nodes);
    CanonicalLogEncodes(config, entries, nodes);
  }

  lemma {:induction false} CanonicalLogEncodes(config: Config, entries: Entries, nodes: seq<NodeId>)
    requires GoodEntries(config, entries)
    ensures AllEncode(CanonicalLog(entries, nodes))
  {
    hide GoodEntry, CanonicalFrames, VerifyHistorical;
    if nodes != [] {
      CanonicalLogEncodes(config, entries, nodes[1..]);
      if nodes[0] in entries {
        CanonicalOfNode(config, nodes[0], entries[nodes[0]]);
      }
    }
  }

  lemma CompactedSize(entries: Entries, frames: seq<Bytes>)
    requires CompactsTo(entries, frames)
    ensures CanonicalSize(entries, |frames|)
  {
    hide CanonicalOf;
    assert |LogOf(frames)| == |frames|;
  }

  lemma CompactSteps(config: Config, w: World, entries: Entries, frames: seq<Bytes>)
    requires w.memory == Some(entries) && !w.journal.phase.Fresh? && CompactsTo(entries, frames) && S.Fits(frames)
    ensures Step(config, w, Compacted, Held(frames, entries))
  {
    hide CompactsTo, S.Committed, S.Fits, ImportStep, ReopenStep;
    assert CompactStep(w, frames, Held(frames, entries), false);
  }

  ghost function CutWorld(w: World, frames: seq<Bytes>, entries: Entries, store: S.Store): World {
    var possible := C.Candidates(w.journal.phase) + {frames};
    World(C.Run(store, if w.journal.phase.Stale? then C.Stale(possible) else C.Down(possible, true)), Some(entries), w.held, w.views + {entries})
  }

  lemma CompactCutSteps(config: Config, w: World, entries: Entries, frames: seq<Bytes>, store: S.Store)
    requires w.memory == Some(entries) && !w.journal.phase.Fresh? && CompactsTo(entries, frames) && S.Fits(frames)
    requires if w.journal.phase.Up? then C.TornCompact(store, w.journal.phase.frames, frames) else C.TornRewrite(w.journal.store, store, frames)
    ensures Step(config, w, CompactCut, CutWorld(w, frames, entries, store))
  {
    hide CompactsTo, S.Committed, S.Fits, ImportStep, ReopenStep, C.TornCompact, C.TornRewrite;
    assert w.journal.phase.Up? ==> {w.journal.phase.frames} + {frames} == {w.journal.phase.frames, frames};
    assert CompactStep(w, frames, CutWorld(w, frames, entries, store), true);
  }

  // ---------- importing ----------

  ghost predicate Authorized(config: Config, contact: Contact) {
    contact.endpoint.record.issuedAt <= U64_MAX && exists now :: 0 <= now <= U64_MAX && Verify(contact, config.root, now)
  }

  lemma AuthorizedNow(config: Config, contact: Contact, now: nat)
    requires Verify(contact, config.root, now) && now <= U64_MAX && contact.endpoint.record.issuedAt <= U64_MAX
    ensures Authorized(config, contact)
  {
    hide Verify;
  }

  lemma AuthorizedIsAccepted(config: Config, contact: Contact)
    requires Authorized(config, contact) && CONTACTS.encode(contact).Some?
    ensures Accepted(config, [contact])
  {
    hide Verify;
  }

  lemma EncodedIsPayload(contact: Contact, encoded: Bytes)
    requires CONTACTS.encode(contact) == Some(encoded)
    ensures F.ValidPayload(encoded)
  {
  }

  /** A single contact that changes the entries is applied and logged. */
  lemma OneContact(config: Config, entries: Entries, contact: Contact, encoded: Bytes)
    requires Changes(config, entries, contact) && CONTACTS.encode(contact) == Some(encoded)
    ensures ApplyAll(config, entries, [contact]) == Apply(config, entries, contact)
    ensures Logged(config, entries, [contact]) == [contact]
    ensures AllEncode([contact]) && Encodings([contact]) == [encoded]
  {
    hide Changes, Apply;
    assert [contact][1..] == [];
  }

  lemma HeldIsCandidate(config: Config, w: World)
    requires Safe(config, w) && w.memory.Some?
    ensures w.held in C.Candidates(w.journal.phase) && !w.journal.phase.Fresh?
    ensures w.journal.phase.Up? ==> w.journal.phase.frames == w.held
  {
    hide AllOpen, OpensTo, C.Sound;
  }

  lemma ImportSteps(config: Config, w: World, entries: Entries, contacts: seq<Contact>, batch: seq<Bytes>, store: S.Store)
    requires Accepted(config, contacts) && Logged(config, entries, contacts) == contacts
    requires AllEncode(contacts) && Encodings(contacts) == batch && S.Fits(w.held + batch)
    requires w.memory == Some(entries) && w.held in C.Candidates(w.journal.phase) && !w.journal.phase.Fresh?
    requires w.journal.phase.Up? ==> w.journal.phase.frames == w.held && store == S.Committed(w.held + batch)
    requires store.file != [] && C.HashOf(store, w.held + batch)
    ensures Step(config, w, Imported(contacts), ImportedWorld(w, w.held + batch, ApplyAll(config, entries, contacts), store))
  {
    hide Accepted, ApplyAll, Logged, Encodings, AllEncode, S.Committed, S.Fits, C.HashOf, CompactStep, ReopenStep;
    var v := ImportedWorld(w, w.held + batch, ApplyAll(config, entries, contacts), store);
    assert C.Step(w.journal, Append(w, batch, false), v.journal);
    assert ImportStep(config, w, contacts, v, false);
  }

  ghost function ImportCutWorld(w: World, entries: Entries, next: Entries, batch: seq<Bytes>, store: S.Store): World {
    World(C.Run(store, if w.journal.phase.Up? then C.Down({w.held, w.held + batch}, false)
                       else C.Stale(C.Candidates(w.journal.phase) + {w.held + batch})),
          Some(entries), w.held, w.views + {next})
  }

  lemma ImportCutSteps(config: Config, w: World, entries: Entries, contacts: seq<Contact>, batch: seq<Bytes>, store: S.Store)
    requires Accepted(config, contacts) && Logged(config, entries, contacts) == contacts
    requires AllEncode(contacts) && Encodings(contacts) == batch && S.Fits(w.held + batch)
    requires w.memory == Some(entries) && w.held in C.Candidates(w.journal.phase) && !w.journal.phase.Fresh?
    requires w.journal.phase.Up? ==> w.journal.phase.frames == w.held && C.TornAppend(store, w.held, batch)
    requires store.file != [] && (store.head == w.journal.store.head || C.HashOf(store, w.held + batch))
    ensures Step(config, w, ImportCut(contacts), ImportCutWorld(w, entries, ApplyAll(config, entries, contacts), batch, store))
  {
    hide Accepted, ApplyAll, Logged, Encodings, AllEncode, S.Committed, S.Fits, C.TornAppend, C.HashOf, CompactStep, ReopenStep;
    var v := ImportCutWorld(w, entries, ApplyAll(config, entries, contacts), batch, store);
    assert C.Step(w.journal, Append(w, batch, true), v.journal);
    assert ImportStep(config, w, contacts, v, true);
  }

  lemma ImportLeads(config: Config, w: World, u: World, contacts: seq<Contact>, v: World)
    requires Leads(config, w, u) && Safe(config, u) && Step(config, u, Imported(contacts), v)
    ensures Leads(config, w, v) && Safe(config, v)
  {
    hide Leads, Safe, Step;
    StepSafe(config, u, Imported(contacts), v);
    LeadsOn(config, w, u, Imported(contacts), v);
  }

  // ---------- pages ----------

  /** The contacts that change something, alone, do what the whole list does. */
  lemma {:induction false} LoggedIsEnough(config: Config, entries: Entries, contacts: seq<Contact>)
    ensures var logged := Logged(config, entries, contacts);
            && ApplyAll(config, entries, logged) == ApplyAll(config, entries, contacts)
            && Logged(config, entries, logged) == logged
    decreases |contacts|
  {
    hide Changes, Next;
    if contacts != [] {
      var next := Apply(config, entries, contacts[0]);
      LoggedIsEnough(config, next, contacts[1..]);
      var rest := Logged(config, next, contacts[1..]);
      assert [] + rest == rest;
      assert ([contacts[0]] + rest)[1..] == rest;
    }
  }

  /** What of a page reaches the journal is authorized. */
  lemma PageAccepted(config: Config, revocations: Revocation.SignedRevocations, now: nat, contacts: seq<Contact>, newest: Newest,
                     nodes: seq<NodeId>, accepted: seq<Contact>)
    requires Coalesced(config, revocations, now, PageOf(contacts), newest) && now <= U64_MAX
    requires forall c :: c in contacts ==> c.endpoint.record.issuedAt <= U64_MAX
    requires AllEncode(accepted) && forall c :: c in accepted ==> c in Flatten(newest, nodes)
    ensures Accepted(config, accepted)
  {
    hide Verify, Revocation.Contains, Flatten;
    FlattenElements(newest, nodes);
    forall c | c in accepted
      ensures CONTACTS.encode(c).Some? && c.endpoint.record.issuedAt <= U64_MAX && Verify(c, config.root, now)
    {
      var node :| node in nodes && c in ValuesOf(newest, node);
      KeptIsOwn(config, revocations, now, PageOf(contacts), newest, node);
      assert c in PageOf(contacts);
    }
  }
}
