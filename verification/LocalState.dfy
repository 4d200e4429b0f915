/** The authoritative state as an object over its journal. */
module LocalState {
  import opened Prelude
  import opened Contacts
  import opened Canonical
  import opened JournalFormat
  import H = JournalHandle
  import S = JournalStore
  import C = JournalCrash
  import opened Sorting
  import opened StateEvents
  import opened StateReplay
  import opened StateRuns
  import opened RootRuns
  import R = Revocation
  import G = RevocationGossip

  const COMPACTION_THRESHOLD_BYTES := 1024 * 1024

  // ---------- gathering the members ----------

  function SerialKey(m: SignedMembership): int { Serial(m) }

  /** The other members, sorted by serial: the order in which they were issued. */
  method SortedMembers(identity: Identity, s: Snapshot, ghost local: SignedMembership, ghost issued: seq<SignedMembership>)
    returns (sorted: seq<SignedMembership>)
    requires Reachable(identity, s, local, issued)
    ensures sorted == issued
  {
    hide ReplayableMember, LocalMember, G.VerifySnapshot, GoodRevocations;
    assert MemberNode(local) == identity.node by { LocalNode(identity, local); }
    MembersElements(identity, local, issued);
    IssuedAreGood(identity, local, issued);
    var others: seq<SignedMembership> := [];
    var left := s.members.Keys - {identity.node};
    while left != {}
      invariant left <= s.members.Keys - {identity.node}
      invariant forall m :: m in others <==> m in issued && MemberNode(m) !in left
      invariant forall i, j :: 0 <= i < j < |others| ==> MemberNode(others[i]) != MemberNode(others[j])
      decreases left
    {
      var node :| node in left;
      others := others + [s.members[node]];
      left := left - {node};
    }
    forall i, j | 0 <= i < j < |others| ensures SerialKey(others[i]) != SerialKey(others[j]) {
      assert others[i] in issued && others[j] in issued;
      var a :| 0 <= a < |issued| && issued[a] == others[i];
      var b :| 0 <= b < |issued| && issued[b] == others[j];
      assert a != b;
    }
    sorted := SortBy(others, SerialKey);
    SortStrict(others, SerialKey);
    SortElements(others, SerialKey);
    assert StrictlySortedBy(issued, SerialKey);
    StrictUnique(sorted, issued, SerialKey);
  }

  /** Appends the members' frames; their serials follow one another. */
  method MemberFrames(start: seq<Bytes>, sorted: seq<SignedMembership>, serial: nat) returns (frames: seq<Bytes>)
    requires forall i :: 0 <= i < |sorted| ==> GoodMembership(sorted[i]) && Serial(sorted[i]) == serial + i + 1
    requires serial + |sorted| <= U64_MAX
    ensures frames == start + EncodeMembers(sorted)
  {
    hide EncodeEvent, GoodMembership;
    frames := start;
    var expected := serial;
    var i := 0;
    while i < |sorted|
      invariant 0 <= i <= |sorted| && expected == serial + i
      invariant frames == start + EncodeMembers(sorted[..i])
    {
      assert expected < U64_MAX && Serial(sorted[i]) == expected + 1;   // neither check can fail
      expected := expected + 1;
      assert sorted[..i + 1][..i] == sorted[..i];
      Assoc(start, EncodeMembers(sorted[..i]), [EncodeEvent(MembershipIssued(sorted[i]))]);
      frames := frames + [EncodeEvent(MembershipIssued(sorted[i]))];
      i := i + 1;
    }
    assert sorted[..i] == sorted;
  }

  /** What compaction writes. */
  method CompactFrames(identity: Identity, s: Snapshot, ghost local: SignedMembership, ghost issued: seq<SignedMembership>)
    returns (frames: seq<Bytes>)
    requires ValidIdentity(identity) && Reachable(identity, s, local, issued)
    ensures frames == CompactionFrames(identity, s, local, issued)
  {
    hide EncodeEvent, EncodeMembers, GoodMembership, GoodRevocations, MembershipVerify, G.VerifySnapshot, IssuedInOrder, MembersOf;
    MembersElements(identity, local, issued);
    IssuedAreGood(identity, local, issued);
    assert s.members[identity.node] == local;
    var own := s.members[identity.node];
    var sorted := SortedMembers(identity, s, local, issued);
    frames := MemberFrames([EncodeEvent(Genesis(own, s.revocations))], sorted, Serial(own));
    var mark := StateMark(identity, s, frames);
    frames := frames + [EncodeEvent(Checkpoint(mark, identity.signMark(mark)))];
  }

  // ---------- what a failure leaves ----------

  /** Whatever opening finds replays, to at least this sequence. */
  ghost predicate Recoverable(identity: Identity, store: S.Store, sequence: nat) {
    S.OpenStore(store).Ok? ==>
      && Replay(identity, S.OpenStore(store).value.frames).Ok?
      && Replay(identity, S.OpenStore(store).value.frames).value.state.sequence >= sequence
  }

  lemma CommittedRecovers(identity: Identity, frames: seq<Bytes>, sequence: nat)
    requires S.Fits(frames) && Replay(identity, frames).Ok? && Replay(identity, frames).value.state.sequence >= sequence
    ensures Recoverable(identity, S.Committed(frames), sequence)
  {
    hide S.OpenStore, Replay;
    S.OpenCommitted(frames);
  }

  lemma TornAppendRecovers(identity: Identity, store: S.Store, frames: seq<Bytes>, frame: Bytes, sequence: nat)
    requires S.Fits(frames + [frame]) && C.TornAppend(store, frames, [frame])
    requires Replay(identity, frames).Ok? && Replay(identity, frames).value.state.sequence >= sequence
    requires Replay(identity, frames + [frame]).Ok? && Replay(identity, frames + [frame]).value.state.sequence >= sequence
    ensures Recoverable(identity, store, sequence)
  {
    hide S.OpenStore, Replay;
    C.RecoverAppend(store, frames, [frame]);
  }

  lemma TornCompactRecovers(identity: Identity, store: S.Store, frames: seq<Bytes>, payloads: seq<Bytes>, sequence: nat)
    requires S.Fits(frames) && S.Fits(payloads) && C.TornCompact(store, frames, payloads)
    requires Replay(identity, frames).Ok? && Replay(identity, frames).value.state.sequence >= sequence
    requires Replay(identity, payloads).Ok? && Replay(identity, payloads).value.state.sequence >= sequence
    ensures Recoverable(identity, store, sequence)
  {
    hide S.OpenStore, Replay;
    C.RecoverCompact(store, frames, payloads);
  }

  /** One append, without compaction. A full journal is left as it was. */
  method TryAppend(identity: Identity, handle: H.Journal, s: Snapshot, event: Event) returns (result: Result<(), S.JournalError>)
    requires handle.Valid() && ReplaysTo(identity, handle.frames, s) && Persistable(identity, s, event)
    modifies handle, handle.disk
    ensures result.Ok? ==> handle.Valid() && ReplaysToNext(identity, handle.frames, s, event)
    ensures result.Err? ==> result.error == S.Io || result.error == S.JournalFull
    ensures result == Err(S.JournalFull) ==> handle.Valid() && handle.frames == old(handle.frames)
    ensures result.Ok? ==> C.Step(Holding(old(handle.frames)), C.Appended([EncodeEvent(event)]), Holding(handle.frames))
    ensures result == Err(S.Io) ==>
              C.Step(Holding(old(handle.frames)), C.AppendCut([EncodeEvent(event)]), AppendFailed(handle.disk.Contents(), old(handle.frames), event))
    ensures Recoverable(identity, handle.disk.Contents(), s.sequence)
  {
    hide Replay, S.OpenStore, ApplyEvent, EncodeEvent, Recoverable, S.Committed, Image;
    ghost var before := handle.frames;
    AppendReplays(identity, before, s, event);
    CommittedRecovers(identity, before, s.sequence);
    handle.ValidIsHandled();
    result := handle.Append(EncodeEvent(event));
    if result.Ok? {
      CommittedRecovers(identity, before + [EncodeEvent(event)], s.sequence);
    } else if result.error == S.Io {
      TornAppendRecovers(identity, handle.disk.Contents(), before, EncodeEvent(event), s.sequence);
    }
  }

  // ---------- the object and its world ----------

  /** A journal that is held with these frames. */
  ghost function Holding(frames: seq<Bytes>): C.Run {
    C.Run(S.Committed(frames), C.Up(frames))
  }

  ghost function AppendFailed(store: S.Store, frames: seq<Bytes>, event: Event): C.Run
    requires GoodEvent(event)
  {
    C.Run(store, C.Down({frames, frames + [EncodeEvent(event)]}, false))
  }

  /** The world of a state that holds its journal. */
  ghost function HeldWorld(frames: seq<Bytes>, s: Snapshot, signed: seq<(nat, nat)>): World {
    World(Holding(frames), Some(s), signed)
  }

  /** Letting go of a journal whose last operation changed nothing. */
  ghost function LetGo(frames: seq<Bytes>, signed: seq<(nat, nat)>): World {
    World(C.Run(S.Committed(frames), C.Down({frames}, false)), None, signed)
  }

  ghost function CompactFailed(store: S.Store, frames: seq<Bytes>, payloads: seq<Bytes>): C.Run {
    C.Run(store, C.Down({frames, payloads}, true))
  }

  lemma LetGoSteps(identity: Identity, frames: seq<Bytes>, s: Snapshot, signed: seq<(nat, nat)>)
    requires ValidIdentity(identity)
    ensures Step(identity, HeldWorld(frames, s, signed), Stopped, LetGo(frames, signed))
  {
    hide S.Committed, ValidIdentity, SignStep, RecordStep, RecordCutStep, FoundStep, FoundCutStep, ReopenStep, CompactsTo;
  }

  /** An event persisted by a held journal is a step. */
  lemma RecordSteps(identity: Identity, frames: seq<Bytes>, s: Snapshot, event: Event, frames': seq<Bytes>, signed: seq<(nat, nat)>)
    requires Persistable(identity, s, event) && C.Step(Holding(frames), C.Appended([EncodeEvent(event)]), Holding(frames'))
    ensures RecordStep(identity, HeldWorld(frames, s, signed), event, HeldWorld(frames', ApplyEvent(identity, s, event).value, signed))
  {
    hide C.Step, ApplyEvent, EncodeEvent, S.Committed, GoodEvent;
  }

  lemma RecordCutSteps(identity: Identity, frames: seq<Bytes>, s: Snapshot, event: Event, store: S.Store, signed: seq<(nat, nat)>)
    requires Persistable(identity, s, event)
    requires C.Step(Holding(frames), C.AppendCut([EncodeEvent(event)]), AppendFailed(store, frames, event))
    ensures RecordCutStep(identity, HeldWorld(frames, s, signed), event, World(AppendFailed(store, frames, event), None, signed))
  {
    hide C.Step, ApplyEvent, EncodeEvent, S.Committed, GoodEvent;
  }

  /** A sequence persisted, and a record signed with it. */
  lemma SignSteps(frames: seq<Bytes>, s: Snapshot, frames': seq<Bytes>, signed: seq<(nat, nat)>)
    requires s.generation <= U64_MAX && s.sequence < U64_MAX
    requires C.Step(Holding(frames), C.Appended([EncodeEvent(NextSequence(s))]), Holding(frames'))
    ensures SignStep(HeldWorld(frames, s, signed),
                     HeldWorld(frames', s.(sequence := s.sequence + 1, eventCount := s.eventCount + 1), signed + [NextNumber(s)]))
  {
    hide C.Step, EncodeEvent, S.Committed;
  }

  lemma CompactSteps(identity: Identity, frames: seq<Bytes>, s: Snapshot, payloads: seq<Bytes>, signed: seq<(nat, nat)>)
    requires ValidIdentity(identity) && CompactsTo(identity, s, payloads) && S.Fits(payloads)
    ensures Step(identity, HeldWorld(frames, s, signed), Compacted, HeldWorld(payloads, s.(eventCount := |payloads|), signed))
  {
    hide ValidIdentity, CompactsTo, S.Committed, S.Fits, SignStep, RecordStep, RecordCutStep, FoundStep, FoundCutStep, ReopenStep;
    assert C.Step(Holding(frames), C.Compacted(payloads), Holding(payloads));
  }

  lemma CompactCutSteps(identity: Identity, frames: seq<Bytes>, s: Snapshot, payloads: seq<Bytes>, store: S.Store, signed: seq<(nat, nat)>)
    requires ValidIdentity(identity) && CompactsTo(identity, s, payloads) && S.Fits(payloads) && C.TornCompact(store, frames, payloads)
    ensures Step(identity, HeldWorld(frames, s, signed), CompactCut, World(CompactFailed(store, frames, payloads), None, signed))
  {
    hide ValidIdentity, CompactsTo, S.Committed, S.Fits, C.TornCompact, SignStep, RecordStep, RecordCutStep, FoundStep, FoundCutStep, ReopenStep;
    assert C.Step(Holding(frames), C.CompactCut(payloads), CompactFailed(store, frames, payloads));
  }

  /** The authoritative state. Its ghost `world` is where it stands in a run. */
  class State {
    const identity: Identity
    var members: Members
    var revocations: R.SignedRevocations
    var generation: nat
    var sequence: nat
    var lastSerial: nat
    var eventCount: nat
    var journal: H.Journal?      // gone after a failed append
    ghost var world: World

    function Memory(): Snapshot
      reads this
    {
      Snapshot(members, revocations, generation, sequence, lastSerial, eventCount)
    }

    ghost function Handle(): set<object>
      reads this
    {
      if journal == null then {} else {journal, journal.disk}
    }

    /** While the handle is held, the journal replays to exactly what is in memory;
        without it, the run is down. */
    ghost predicate Valid()
      reads this, Handle()
    {
      && ValidIdentity(identity) && IsReachable(identity, Memory()) && Safe(identity, world)
      && if journal == null then world.memory.None?
         else journal.Valid() && ReplaysTo(identity, journal.frames, Memory()) && world == HeldWorld(journal.frames, Memory(), world.signed)
    }

    constructor (identity: Identity, s: Snapshot, journal: H.Journal?, ghost world: World)
      ensures this.identity == identity && Memory() == s && this.journal == journal && this.world == world
    {
      this.identity := identity;
      members := s.members;
      revocations := s.revocations;
      generation := s.generation;
      sequence := s.sequence;
      lastSerial := s.lastSerial;
      eventCount := s.eventCount;
      this.journal := journal;
      this.world := world;
    }

    /** Opens the journal, repairs its tail and replays it. From a disk a safe run
        left, this is that run's next step. */
    static method Open(identity: Identity, disk: H.Disk, ghost w: World) returns (result: Result<State, StateError>)
      requires ValidIdentity(identity)
      modifies disk
      ensures result.Ok? ==>
                && fresh(result.value) && result.value.identity == identity && result.value.Valid()
                && result.value.journal != null && result.value.journal.disk == disk
                && S.OpenStore(old(disk.Contents())).Ok?
                && ReplaysTo(identity, S.OpenStore(old(disk.Contents())).value.frames, result.value.Memory())
                && (SafeAt(identity, w, old(disk.Contents())) ==> Leads(identity, w, result.value.world, true))
                && (SafeAt(identity, w, old(disk.Contents())) && RootSafe(identity, w) ==> result.value.CountsRevoked())
      ensures result.Err? ==>
                || result.error == JournalFailed
                || (S.OpenStore(old(disk.Contents())).Ok? &&
                    Replay(identity, S.OpenStore(old(disk.Contents())).value.frames) == Err(result.error))
      ensures result.Err? && SafeAt(identity, w, old(disk.Contents())) ==> Leads(identity, w, WithStore(w, disk.Contents()), true)
    {
      hide Replay, S.OpenStore, IsReachable, Leads, Safe, RootSafe, RevokedAreMembers, ValidIdentity, S.Committed, Image, S.Fits, C.TornOpen;
      ghost var before := disk.Contents();
      var handle, frames := H.Journal.Open(disk);
      if handle.Err? {
        GivenUpLeads(identity, w, before, disk.Contents());
        return Err(JournalFailed);
      }
      var replayed := ReplayFrames(identity, frames);
      if replayed.Err? {
        GivenUpLeads(identity, w, before, disk.Contents());
        return Err(replayed.error);
      }
      ReplayIsReachable(identity, frames);
      ghost var signed := SignedAt(identity, w, before);
      OpenLeads(identity, w, before, frames, disk.Contents());
      if SafeAt(identity, w, before) && RootSafe(identity, w) {
        LeadsSafe(identity, w, HeldWorld(frames, replayed.value.state, signed), true);
        MemoryCounts(identity, HeldWorld(frames, replayed.value.state, signed));
      }
      var state := new State(identity, replayed.value.state, handle.value, HeldWorld(frames, replayed.value.state, signed));
      return Ok(state);
    }

    /** Founds a hive: the first opening of an empty journal and its founder event.
        A state founded so counts its revoked members from the start. */
    static method Found(identity: Identity, disk: H.Disk, now: nat, ghost w: World)
      returns (result: Result<State, StateError>, ghost after: World)
      requires ValidIdentity(identity) && now <= U64_MAX
      modifies disk
      ensures result.Ok? ==>
                && fresh(result.value) && result.value.identity == identity && result.value.Valid()
                && result.value.journal != null && result.value.journal.disk == disk && result.value.CountsRevoked()
                && Founder(identity, now, result.value.Memory()) && after == result.value.world && after.signed == []
      ensures result.Err? ==> result.error in {JournalFailed, StateError.AlreadyInitialized, BadMembership}
      ensures result == Err(BadMembership) ==> now == U64_MAX
      ensures result == Err(StateError.AlreadyInitialized) ==>
                S.OpenStore(old(disk.Contents())).Ok? && (identity.root.None? || S.OpenStore(old(disk.Contents())).value.frames != [])
      ensures SafeAt(identity, w, old(disk.Contents())) ==> Leads(identity, w, after, true)
      ensures result.Err? ==> after.journal.store == disk.Contents()
    {
      hide Replay, S.OpenStore, IsReachable, Leads, Safe, SafeAt, ValidIdentity, S.Committed, Image, S.Fits, EncodeEvent, ReplayGenesis,
           RevokedAreMembers, Recoverable, CertificateShape, Founder, FounderEvent, GoodEvent, FoundStep, FoundCutStep, ReplaysTo, C.TornOpen, C.TornAppend;
      ghost var before := disk.Contents();
      var handle, frames := H.Journal.Open(disk);
      GivenUpLeads(identity, w, before, disk.Contents());
      after := WithStore(w, disk.Contents());
      if handle.Err? {
        return Err(JournalFailed), after;
      }
      if identity.root.None? || frames != [] {
        return Err(StateError.AlreadyInitialized), after;
      }
      var certificate := FounderCertificate(identity, now);
      FounderShape(identity, now);
      if CertificateShape(certificate).Some? {
        return Err(BadMembership), after;
      }
      var genesis := FounderGenesis(identity, now);
      GenesisIsGood(identity, now);
      handle.value.ValidIsHandled();
      var appended := handle.value.Append(EncodeEvent(genesis));
      if appended.Err? {
        if appended.error == S.Io {
          after := World(C.Run(disk.Contents(), C.Down({[], [EncodeEvent(genesis)]}, false)), None, w.signed);
          FoundCutLeads(identity, w, before, genesis, disk.Contents());
        }
        return Err(JournalFailed), after;
      }
      assert handle.value.frames == [EncodeEvent(genesis)];
      var s := Founding(identity, now);
      FoundsExactly(identity, now);
      FoundStarts(identity, genesis, s);
      StartIsSafe(identity, [EncodeEvent(genesis)]);
      after := HeldWorld([EncodeEvent(genesis)], s, []);
      if SafeAt(identity, w, before) {
        NotUp(identity, w, before);
        FoundSteps(identity, w, genesis, s);
        FoundingLeads(identity, w, genesis, after);
      }
      var state := new State(identity, s, handle.value, after);
      return Ok(state), after;
    }

    /** Replaces the journal by a checkpointed snapshot of the same state. On a
        failure the handle is gone and the disk still recovers. */
    method Compact() returns (result: Result<(), StateError>)
      requires Valid() && journal != null
      modifies this`journal, this`eventCount, this`world, Handle()
      ensures Valid() && Leads(identity, old(world), world, true) && world.signed == old(world.signed)
      ensures Memory() == old(Memory()).(eventCount := eventCount)
      ensures result.Ok? ==> journal == old(journal)
      ensures result.Err? ==> journal == null && result == Err(JournalFailed) && Memory() == old(Memory())
      ensures Recoverable(identity, old(journal).disk.Contents(), sequence)
    {
      hide Replay, S.OpenStore, CompactionFrames, Reachable, ValidIdentity, Safe, Leads, S.Committed, Image, Step, Recoverable, S.Fits, CompactsTo;
      ghost var local, issued := SomeReach(identity, Memory());
      var frames := CompactFrames(identity, Memory(), local, issued);
      WritesCompaction(identity, Memory(), local, issued, frames);
      CountIrrelevant(identity, Memory(), |frames|);
      ghost var before, signed := journal.frames, world.signed;
      CommittedRecovers(identity, before, sequence);
      LeadsNowhere(identity, world);
      var compacted := journal.Compact(frames);
      if compacted.Err? {
        if compacted.error == S.Io {
          TornCompactRecovers(identity, journal.disk.Contents(), before, frames, sequence);
          CompactCutSteps(identity, before, Memory(), frames, journal.disk.Contents(), signed);
          world := World(CompactFailed(journal.disk.Contents(), before, frames), None, signed);
          LeadsOn(identity, old(world), old(world), true, CompactCut, world, true);
        } else {
          LetGoSteps(identity, before, Memory(), signed);
          world := LetGo(before, signed);
          LeadsOn(identity, old(world), old(world), true, Stopped, world, true);
        }
        LeadsSafe(identity, old(world), world, true);
        journal := null;
        return Err(JournalFailed);
      }
      CommittedRecovers(identity, frames, sequence);
      CompactSteps(identity, before, Memory(), frames, signed);
      eventCount := |frames|;
      world := HeldWorld(frames, Memory(), signed);
      LeadsOn(identity, old(world), old(world), true, Compacted, world, true);
      LeadsSafe(identity, old(world), world, true);
      return Ok(());
    }

    /** The event is in the journal and not yet in memory. */
    ghost predicate Awaiting(event: Event)
      requires GoodEvent(event)
      reads this, Handle()
    {
      && journal != null && journal.Valid() && ReplaysToNext(identity, journal.frames, Memory(), event)
      && world.journal.phase.Up? && world == HeldWorld(world.journal.phase.frames, Memory(), world.signed)
      && C.Step(world.journal, C.Appended([EncodeEvent(event)]), Holding(journal.frames))
    }

    /** One append. When the journal is full nothing changes; after any other
        failure the handle is gone. */
    method AppendOnce(event: Event) returns (result: Result<(), S.JournalError>)
      requires Valid() && journal != null && Persistable(identity, Memory(), event)
      modifies this`journal, this`world, Handle()
      ensures world.signed == old(world.signed)
      ensures result.Ok? ==> journal == old(journal) && Awaiting(event) && world == old(world)
      ensures result == Err(S.JournalFull) ==> Valid() && journal == old(journal) && world == old(world)
      ensures result.Err? && result != Err(S.JournalFull) ==>
                Valid() && Leads(identity, old(world), world, RootEvent(identity, Memory(), event)) && journal == null
      ensures Recoverable(identity, old(journal).disk.Contents(), sequence)
    {
      hide ReplaysTo, ReplaysToNext, Persistable, ApplyEvent, IsReachable, ValidIdentity, Recoverable, S.Fits, S.Committed, Image, Safe, Leads,
           C.Step, Step, RecordStep, RecordCutStep, RootEvent, EncodeEvent, GoodEvent;
      PersistableIsGood(identity, Memory(), event);
      ghost var before := journal.frames;
      result := TryAppend(identity, journal, Memory(), event);
      if result == Err(S.Io) {
        LeadsNowhere(identity, world);
        world := AfterFailure(identity, old(world), before, Memory(), event, journal.disk.Contents());
        LeadsSafe(identity, old(world), world, RootEvent(identity, Memory(), event));
        journal := null;
      }
    }

    /** Lets go of the handle. */
    method LetGoOfJournal()
      requires Valid() && journal != null
      modifies this`journal, this`world
      ensures Valid() && journal == null && Leads(identity, old(world), world, true) && world.signed == old(world.signed)
      ensures Recoverable(identity, old(journal).disk.Contents(), sequence)
    {
      hide Replay, Recoverable, IsReachable, ValidIdentity, S.Fits, S.Committed, Image, Safe, Leads, Step;
      CommittedRecovers(identity, journal.frames, sequence);
      LeadsNowhere(identity, world);
      LetGoSteps(identity, journal.frames, Memory(), world.signed);
      world := LetGo(journal.frames, world.signed);
      StopLeads(identity, old(world), old(world), world, true);
      LeadsSafe(identity, old(world), world, true);
      journal := null;
    }

    /** Persists one event, compacting when the journal is large or full. After any
        failure the handle is gone, so that no later mutation can succeed; what is
        on disk still recovers to at least the current sequence. */
    method AppendAuthoritative(event: Event) returns (result: Result<(), StateError>)
      requires Valid() && Persistable(identity, Memory(), event)
      modifies this`journal, this`eventCount, this`world, Handle()
      ensures Memory() == old(Memory()).(eventCount := eventCount) && world.signed == old(world.signed)
      ensures result.Ok? ==> journal == old(journal) && Awaiting(event) && Leads(identity, old(world), world, true)
      ensures result.Err? ==>
                && Valid() && Leads(identity, old(world), world, RootEvent(identity, old(Memory()), event)) && journal == null
                && result == Err(if old(journal) == null then ReadOnlySnapshot else JournalFailed)
      ensures old(journal) != null ==> Recoverable(identity, old(journal).disk.Contents(), sequence)
    {
      hide ReplaysTo, ReplaysToNext, Persistable, ApplyEvent, IsReachable, ValidIdentity, Recoverable, S.Fits, S.Committed, Image, Safe, Leads,
           C.Step, Step, RecordStep, RecordCutStep, RootEvent, EncodeEvent, GoodEvent, Awaiting;
      PersistableIsGood(identity, Memory(), event);
      ghost var root := RootEvent(identity, Memory(), event);
      LeadsNowhere(identity, world);
      if journal == null {
        LeadsWeakly(identity, world, world, root);
        return Err(ReadOnlySnapshot);
      }
      var length := journal.ByteLength();
      if length.None? {
        LetGoOfJournal();
        LeadsWeakly(identity, old(world), world, root);
        return Err(JournalFailed);
      }
      if length.value >= COMPACTION_THRESHOLD_BYTES {
        result := Compact();
        if result.Err? {
          LeadsWeakly(identity, old(world), world, root);
          return;
        }
      }
      SameEvent(identity, old(Memory()), eventCount, event);
      ghost var middle := world;
      var appended := AppendOnce(event);
      if appended == Err(S.JournalFull) {
        result := Compact();
        LeadsThrough(identity, old(world), middle, world, true);
        if result.Err? {
          LeadsWeakly(identity, old(world), world, root);
          return;
        }
        SameEvent(identity, old(Memory()), eventCount, event);
        middle := world;
        appended := AppendOnce(event);
        if appended == Err(S.JournalFull) {
          LetGoOfJournal();
          LeadsWeakly(identity, middle, world, root);
        }
      }
      if appended.Err? {
        LeadsThrough(identity, old(world), middle, world, root);
        return Err(JournalFailed);
      }
      return Ok(());
    }

    /** Persists the next endpoint sequence; a record is signed with it when `signs`. */
    method PersistSequence(ghost signs: bool) returns (result: Result<nat, StateError>)
      requires Valid()
      modifies this`journal, this`eventCount, this`sequence, this`world, Handle()
      ensures Valid() && Leads(identity, old(world), world, true)
      ensures result.Ok? ==>
                && sequence == result.value == old(sequence) + 1 <= U64_MAX && journal == old(journal) != null
                && Recoverable(identity, journal.disk.Contents(), sequence)
                && world.signed == old(world.signed) + if signs then [(generation, sequence)] else []
      ensures result.Err? ==> sequence == old(sequence) && world.signed == old(world.signed)
      ensures Memory() == old(Memory()).(sequence := sequence, eventCount := eventCount)
      ensures result.Err? && result.error != CounterExhausted ==> journal == null
      ensures result.Err? ==> result.error == if old(sequence) >= U64_MAX then CounterExhausted else NotPersisted(old(journal) == null)
    {
      hide ReplaysTo, ReplaysToNext, Persistable, ApplyEvent, IsReachable, ValidIdentity, Recoverable, S.Fits, S.Committed, Image, Safe, Leads,
           C.Step, Step, RecordStep, RecordCutStep, RootEvent, EncodeEvent, GoodEvent, SignStep;
      CountersFit(identity, Memory());
      LeadsNowhere(identity, world);
      if sequence >= U64_MAX {
        return Err(CounterExhausted);
      }
      var event := NextSequence(Memory());
      SequenceApplies(identity, Memory());
      SequenceIsRoot(identity, Memory());
      var appended := AppendAuthoritative(event);
      CountIrrelevant(identity, old(Memory()), eventCount);
      if appended.Err? {
        return Err(appended.error);
      }
      ghost var u, s := world, Memory();
      SequenceApplies(identity, s);
      assert u.memory == Some(s);
      NextIsReachable(identity, s, event);
      ReplayedNext(identity, journal.frames, s, event);
      if signs {
        SignSteps(u.journal.phase.frames, s, journal.frames, u.signed);
      } else {
        RecordSteps(identity, u.journal.phase.frames, s, event, journal.frames, u.signed);
      }
      sequence := sequence + 1;
      eventCount := eventCount + 1;
      world := HeldWorld(journal.frames, Memory(), u.signed + if signs then [(generation, sequence)] else []);
      assert u.signed + [] == u.signed;
      SequenceLeads(identity, old(world), u, s, world, signs);
      return Ok(sequence);
    }

    /** Persists the next endpoint sequence before returning it. */
    method ReserveNextSequence() returns (result: Result<nat, StateError>)
      requires Valid()
      modifies this`journal, this`eventCount, this`sequence, this`world, Handle()
      ensures Valid() && Leads(identity, old(world), world, true) && world.signed == old(world.signed)
      ensures result.Ok? ==>
                && sequence == result.value == old(sequence) + 1 <= U64_MAX && journal == old(journal) != null
                && Recoverable(identity, journal.disk.Contents(), sequence)
      ensures result.Err? ==> sequence == old(sequence)
      ensures Memory() == old(Memory()).(sequence := sequence, eventCount := eventCount)
      ensures result.Err? && result.error != CounterExhausted ==> journal == null
      ensures result.Err? ==> result.error == if old(sequence) >= U64_MAX then CounterExhausted else NotPersisted(old(journal) == null)
    {
      hide ReplaysTo, IsReachable, ValidIdentity, Recoverable, S.Fits, S.Committed, Image, Safe, Leads;
      result := PersistSequence(false);
    }

    /** Persists a new sequence, then signs the record with it. Everything that can
        refuse the record is checked before the sequence is spent. */
    method SignEndpointRecord(draft: EndpointRecord, sign: EndpointRecord -> Signature) returns (result: Result<SignedRecord, StateError>)
      requires Valid()
      modifies this`journal, this`eventCount, this`sequence, this`world, Handle()
      ensures Valid() && Leads(identity, old(world), world, true)
      ensures Memory() == old(Memory()).(sequence := sequence, eventCount := eventCount)
      ensures result.Ok? ==> result.value.signature == sign(result.value.record) && world.signed == old(world.signed) + [(generation, sequence)]
      ensures result.Err? ==> world.signed == old(world.signed)
      ensures result.Ok? ==>
                var record := result.value.record;
                && Published(identity, generation, sequence, draft, record) && sequence == old(sequence) + 1 && SoundRecord(record)
                && identity.node in members && record.expiresAt <= members[identity.node].certificate.expiresAt
                && (0 in record.capabilities ==> 1 in members[identity.node].certificate.roles)
                && (1 in record.capabilities ==> 2 in members[identity.node].certificate.roles)
                && journal == old(journal) != null && Recoverable(identity, journal.disk.Contents(), sequence)
      ensures result.Err? ==> sequence == old(sequence) && SignRefused(identity, old(Memory()), old(journal) == null, draft, result.error)
    {
      hide ReplaysTo, IsReachable, ValidIdentity, Recoverable, S.Fits, S.Committed, Image, RecordShape, SoundRecord, Canonicalized, Completed,
           Published, Safe, Leads;
      CompletedPublishes(identity, generation, sequence + 1, draft);
      RecordShapeExactly(Completed(identity, generation, sequence + 1, draft));
      LeadsNowhere(identity, world);
      if identity.node !in members {
        return Err(IdentityMismatch);
      }
      var certificate := members[identity.node].certificate;
      if draft.expiresAt > certificate.expiresAt {
        return Err(StateError.OutlivesMembership);
      }
      if !Grants(draft.capabilities, CAPABILITY_INTRODUCER, certificate.roles, ROLE_INTRODUCER) {
        return Err(StateError.UnauthorizedCapability);
      }
      if !Grants(draft.capabilities, CAPABILITY_CONTROL_RELAY, certificate.roles, ROLE_CONTROL_RELAY) {
        return Err(StateError.UnauthorizedCapability);
      }
      if sequence >= U64_MAX {
        return Err(CounterExhausted);
      }
      var record := Completed(identity, generation, sequence + 1, draft);
      if RecordShape(record).Some? {
        return Err(BadRecord);
      }
      var reserved := PersistSequence(true);
      if reserved.Err? {
        return Err(reserved.error);
      }
      return Ok(SignedRecord(record, sign(record)));
    }

    /** Root-authorizes one more device under the next serial. */
    method IssueMembership(deviceKey: Key, roles: Bits, nonce: Bytes, issuedAt: nat, expiresAt: nat)
      returns (result: Result<SignedMembership, StateError>)
      requires Valid()
      requires |deviceKey| == 32 && |nonce| == 32 && roles <= KNOWN_ROLES && issuedAt <= U64_MAX && expiresAt <= U64_MAX
      modifies this`journal, this`eventCount, this`members, this`lastSerial, this`world, Handle()
      ensures Valid() && Leads(identity, old(world), world, true) && world.signed == old(world.signed)
      ensures old(CountsRevoked()) ==> CountsRevoked()
      ensures Memory() == old(Memory()).(members := members, lastSerial := lastSerial, eventCount := eventCount)
      ensures result.Ok? ==>
                var m, node := result.value, NODE_OF_KEY(deviceKey);
                && RootSays(m, identity.rootKey) && lastSerial == old(lastSerial) + 1
                && m.certificate == Certificate(1, identity.hive, node, deviceKey, lastSerial, issuedAt, expiresAt, roles, nonce)
                && node !in old(members) && node !in revocations.list.revokedNodes && members == old(members)[node := m]
                && journal == old(journal) != null
      ensures result.Err? ==> members == old(members) && lastSerial == old(lastSerial)
      ensures result.Err? ==> IssueRefused(identity, old(Memory()), old(journal) == null, deviceKey, roles, nonce, issuedAt, expiresAt, result.error)
    {
      hide ReplaysTo, Persistable, IsReachable, ValidIdentity, Recoverable, S.Fits, S.Committed, Image, MembershipVerify,
           CertificateShape, SoundCertificate, RootSays, Safe, Leads;
      LeadsNowhere(identity, world);
      if |members| >= MAX_HIVE_MEMBERS {
        return Err(HiveFull);
      }
      var node := NODE_OF_KEY(deviceKey);
      if R.Contains(revocations, node) {
        return Err(RevokedMember);
      }
      if node in members {
        return Err(DuplicateMember);
      }
      if lastSerial >= U64_MAX {
        return Err(CounterExhausted);
      }
      var certificate := DraftCertificate(identity, deviceKey, lastSerial + 1, issuedAt, expiresAt, roles, nonce);
      if identity.root.None? {
        return Err(AdmissionUnavailable);
      }
      CertificateShapeExactly(certificate);
      if CertificateShape(certificate).Some? {
        return Err(BadMembership);
      }
      var m := SignedMembership(certificate, identity.root.value.signCertificate(certificate));
      IssueApplies(identity, Memory(), m);
      var persisted := PersistMembership(m);
      if persisted.Err? {
        return Err(persisted.error);
      }
      return Ok(m);
    }

    method PersistMembership(m: SignedMembership) returns (result: Result<(), StateError>)
      requires Valid() && Persistable(identity, Memory(), MembershipIssued(m))
      modifies this`journal, this`eventCount, this`members, this`lastSerial, this`world, Handle()
      ensures Valid() && Leads(identity, old(world), world, true) && world.signed == old(world.signed)
      ensures old(CountsRevoked()) ==> CountsRevoked()
      ensures Memory() == old(Memory()).(members := members, lastSerial := lastSerial, eventCount := eventCount)
      ensures result.Ok? ==>
                members == old(members)[MemberNode(m) := m] && lastSerial == old(lastSerial) + 1 && journal == old(journal) != null
      ensures result.Err? ==> members == old(members) && lastSerial == old(lastSerial) && journal == null
      ensures result.Err? ==> result.error == NotPersisted(old(journal) == null)
    {
      hide ReplaysTo, ReplaysToNext, Persistable, ApplyEvent, IsReachable, ValidIdentity, Recoverable, S.Fits, S.Committed, Image, Safe, Leads,
           C.Step, Step, RecordStep, RecordCutStep, RootEvent, EncodeEvent, GoodEvent, RevokedAreMembers, Awaiting;
      var event := MembershipIssued(m);
      PersistableIsGood(identity, Memory(), event);
      MembershipIsRoot(identity, Memory(), m);
      var appended := AppendAuthoritative(event);
      KeepsCounting(identity, old(Memory()), Memory());
      if appended.Err? {
        return Err(appended.error);
      }
      ghost var middle := world;
      CountIrrelevant(identity, old(Memory()), eventCount);
      CountDoesNotDecide(identity, old(Memory()), eventCount, event);
      LeadsSafe(identity, old(world), world, true);
      TakeMembership(m);
      LeadsThrough(identity, old(world), middle, world, true);
      return Ok(());
    }

    /** Takes a membership that is in the journal into memory. */
    method TakeMembership(m: SignedMembership)
      requires ValidIdentity(identity) && IsReachable(identity, Memory()) && Safe(identity, world)
      requires Persistable(identity, Memory(), MembershipIssued(m)) && GoodEvent(MembershipIssued(m)) && Awaiting(MembershipIssued(m))
      modifies this`eventCount, this`members, this`lastSerial, this`world
      ensures Valid() && Leads(identity, old(world), world, true) && world.signed == old(world.signed)
      ensures old(CountsRevoked()) ==> CountsRevoked()
      ensures Memory() == old(Memory()).(members := members, lastSerial := lastSerial, eventCount := eventCount)
      ensures members == old(members)[MemberNode(m) := m] && lastSerial == old(lastSerial) + 1 && journal != null
    {
      hide ReplaysTo, ReplaysToNext, Persistable, ApplyEvent, IsReachable, ValidIdentity, S.Fits, S.Committed, Image, Safe, Leads,
           C.Step, Step, RecordStep, RootEvent, EncodeEvent, GoodEvent, RevokedAreMembers;
      ghost var event, s := MembershipIssued(m), Memory();
      LeadsNowhere(identity, world);
      MembershipApplies(identity, s, m);
      TakenIn(identity, world, world, s, event, journal.frames);
      MembershipIsRoot(identity, s, m);
      ghost var next := ApplyEvent(identity, s, event).value;
      members := members[MemberNode(m) := m];
      lastSerial := lastSerial + 1;
      eventCount := eventCount + 1;
      assert Memory() == next;
      world := HeldWorld(journal.frames, Memory(), old(world).signed);
      LeadsSafe(identity, old(world), world, true);
      OneMoreMember(identity, s, Memory(), m);
    }

    /** Authorizes a join request once: repeating it returns the same membership
        and changes nothing. */
    method AuthorizeJoinRequest(proved: bool, deviceKey: Key, nonce: Bytes, expected: NodeId, roles: Bits, issuedAt: nat, expiresAt: nat)
      returns (result: Result<SignedMembership, StateError>)
      requires Valid()
      requires |deviceKey| == 32 && |nonce| == 32 && roles <= KNOWN_ROLES && issuedAt <= U64_MAX && expiresAt <= U64_MAX
      modifies this`journal, this`eventCount, this`members, this`lastSerial, this`world, Handle()
      ensures Valid() && Leads(identity, old(world), world, true) && world.signed == old(world.signed)
      ensures old(CountsRevoked()) ==> CountsRevoked()
      ensures Memory() == old(Memory()).(members := members, lastSerial := lastSerial, eventCount := eventCount)
      ensures result.Ok? ==>
                && proved && NODE_OF_KEY(deviceKey) == expected && expected in members && members[expected] == result.value
                && result.value.certificate.deviceKey == deviceKey && result.value.certificate.admissionNonce == nonce
      ensures expected in old(members) ==> Memory() == old(Memory()) && journal == old(journal)
      ensures proved && NODE_OF_KEY(deviceKey) == expected && expected in old(members) ==>
                result == if old(members)[expected].certificate.deviceKey == deviceKey && old(members)[expected].certificate.admissionNonce == nonce
                          then Ok(old(members)[expected]) else Err(JoinMismatch)
      ensures result.Err? ==> members == old(members) && lastSerial == old(lastSerial)
      ensures result.Err? ==>
                if !proved then result.error == InvalidEvent
                else if NODE_OF_KEY(deviceKey) != expected then result.error == UnexpectedJoinNode
                else if expected in old(members) then result.error == JoinMismatch
                else IssueRefused(identity, old(Memory()), old(journal) == null, deviceKey, roles, nonce, issuedAt, expiresAt, result.error)
      ensures result.Ok? && expected !in old(members) ==>
                && RootSays(result.value, identity.rootKey) && lastSerial == old(lastSerial) + 1
                && result.value.certificate == Certificate(1, identity.hive, expected, deviceKey, lastSerial, issuedAt, expiresAt, roles, nonce)
    {
      hide ReplaysTo, IsReachable, ValidIdentity, S.Fits, S.Committed, Image, MembershipVerify, RootSays, IssueRefused, Safe, Leads;
      LeadsNowhere(identity, world);
      if !proved {
        return Err(InvalidEvent);
      }
      var node := NODE_OF_KEY(deviceKey);
      if node != expected {
        return Err(UnexpectedJoinNode);
      }
      if node in members {
        var existing := members[node];
        if existing.certificate.deviceKey == deviceKey && existing.certificate.admissionNonce == nonce {
          return Ok(existing);
        }
        return Err(JoinMismatch);
      }
      result := IssueMembership(deviceKey, roles, nonce, issuedAt, expiresAt);
    }

    /** On the root every snapshot counts its revoked nodes, all of them members
        other than the root's own device. */
    ghost predicate CountsRevoked()
      reads this
    {
      RevokedAreMembers(identity, Memory())
    }

    method PersistRevocations(signed: R.SignedRevocations) returns (result: Result<(), StateError>)
      requires Valid() && Persistable(identity, Memory(), RevocationsReplaced(signed))
      modifies this`journal, this`eventCount, this`revocations, this`world, Handle()
      ensures Valid() && Leads(identity, old(world), world, RootRevokes(identity, old(Memory()), signed)) && world.signed == old(world.signed)
      ensures Memory() == old(Memory()).(revocations := revocations, eventCount := eventCount)
      ensures result.Ok? ==> revocations == signed && journal == old(journal) != null
      ensures result.Err? ==> revocations == old(revocations) && journal == null && result.error == NotPersisted(old(journal) == null)
    {
      hide ReplaysTo, ReplaysToNext, Persistable, ApplyEvent, IsReachable, ValidIdentity, Recoverable, S.Fits, S.Committed, Image, Safe, Leads,
           C.Step, Step, RecordStep, RecordCutStep, RootEvent, EncodeEvent, GoodEvent, RootRevokes;
      var event := RevocationsReplaced(signed);
      RevocationIsRoot(identity, Memory(), signed);
      var appended := AppendAuthoritative(event);
      if appended.Err? {
        return Err(appended.error);
      }
      CountIrrelevant(identity, old(Memory()), eventCount);
      ghost var u, s := world, Memory();
      SameEvent(identity, old(Memory()), eventCount, event);
      RevocationIsRoot(identity, s, signed);
      RevocationIsRoot(identity, old(Memory()), signed);
      RevocationApplies(identity, s, signed);
      TakenIn(identity, old(world), u, s, event, journal.frames);
      ghost var next := ApplyEvent(identity, s, event).value;
      revocations := signed;
      eventCount := eventCount + 1;
      assert Memory() == next;
      world := HeldWorld(journal.frames, Memory(), u.signed);
      LeadsSafe(identity, old(world), world, RootEvent(identity, s, event));
      return Ok(());
    }

    /** Root-revokes one member; repeating it changes nothing. While the snapshot
        counts its revoked members, no size or serial limit can be hit. */
    method Revoke(node: NodeId, issuedAt: nat) returns (result: Result<R.SignedRevocations, StateError>)
      requires Valid() && IsId(node) && issuedAt <= U64_MAX
      modifies this`journal, this`eventCount, this`revocations, this`world, Handle()
      ensures Valid() && Leads(identity, old(world), world, true) && world.signed == old(world.signed)
      ensures Memory() == old(Memory()).(revocations := revocations, eventCount := eventCount)
      ensures result.Ok? ==> result.value == revocations && R.Contains(revocations, node)
      ensures result.Ok? && R.Contains(old(revocations), node) ==> revocations == old(revocations) && journal == old(journal)
      ensures result.Ok? && !R.Contains(old(revocations), node) ==>
                && G.RevokesOne(old(revocations), revocations) && journal == old(journal) != null
                && OneMoreRevoked(old(revocations).list, node, issuedAt, revocations.list)
                && |revocations.signature| == 64 && G.LIST_SIGNED(identity.rootKey, revocations.list, revocations.signature)
      ensures result.Err? ==> RevokeRefused(identity, old(Memory()), old(journal) == null, node, issuedAt, result.error)
      ensures result.Err? ==> revocations == old(revocations)
      ensures old(CountsRevoked()) ==> CountsRevoked()
      ensures old(CountsRevoked()) && result.Err? ==>
                result.error in {CannotRevokeSelf, UnknownMember, StateError.RevocationRollback, AdmissionUnavailable, ReadOnlySnapshot, JournalFailed}
    {
      hide ReplaysTo, Persistable, IsReachable, ValidIdentity, S.Fits, S.Committed, Image, G.NextList, R.ValidateShape, G.VerifySnapshot,
           RevokedAreMembers, G.RevokesOne, OneMoreRevoked, Safe, Leads, RootRevokes;
      LeadsNowhere(identity, world);
      if node == identity.node {
        return Err(CannotRevokeSelf);
      }
      if node !in members {
        return Err(UnknownMember);
      }
      if R.Contains(revocations, node) {
        return Ok(revocations);
      }
      if issuedAt < revocations.list.issuedAt {
        return Err(StateError.RevocationRollback);
      }
      if identity.root.None? {
        return Err(AdmissionUnavailable);
      }
      if revocations.list.serial >= U64_MAX {
        NeverExhausted(identity, Memory());
        return Err(CounterExhausted);
      }
      var list := G.NextList(revocations.list, node, issuedAt);
      RevokesExactly(identity, Memory(), node, issuedAt);
      if R.ValidateShape(list).Err? {
        NeverOversized(identity, Memory(), node, issuedAt);
        return Err(BadRevocations);
      }
      var signed := R.SignedRevocations(list, identity.root.value.signList(list));
      ListIsSigned(identity, list);
      RevokeApplies(identity, Memory(), node, issuedAt, signed);
      var persisted := PersistRevocations(signed);
      if persisted.Err? {
        KeepsCounting(identity, old(Memory()), Memory());
        return Err(persisted.error);
      }
      StillCounts(identity, old(Memory()), node, issuedAt, Memory());
      return Ok(signed);
    }

    /** Takes a newer snapshot learned from a peer, exactly when the merge says so.
        A snapshot of the root's own chain is never newer on the root. */
    method MergeRevocations(incoming: R.SignedRevocations) returns (result: Result<bool, StateError>)
      requires Valid() && R.Typed(incoming.list)
      modifies this`journal, this`eventCount, this`revocations, this`world, Handle()
      ensures Valid() && Leads(identity, old(world), world, G.Merge(old(revocations), incoming, identity.rootKey) != Ok(true))
      ensures world.signed == old(world.signed)
      ensures Memory() == old(Memory()).(revocations := revocations, eventCount := eventCount)
      ensures result.Ok? ==>
                && G.Merge(old(revocations), incoming, identity.rootKey) == Ok(result.value)
                && revocations == G.Merged(old(revocations), incoming, identity.rootKey)
      ensures result.Err? ==> revocations == old(revocations)
      ensures G.Merge(old(revocations), incoming, identity.rootKey).Err? ==>
                result == Err(MergeError(G.Merge(old(revocations), incoming, identity.rootKey).error))
      ensures result.Err? && G.Merge(old(revocations), incoming, identity.rootKey).Ok? ==>
                && G.Merge(old(revocations), incoming, identity.rootKey) == Ok(true) && journal == null
                && (result.error == JournalFailed || result.error == ReadOnlySnapshot)
      ensures G.Merge(old(revocations), incoming, identity.rootKey) != Ok(true) ==> Memory() == old(Memory()) && journal == old(journal)
    {
      hide ReplaysTo, Persistable, IsReachable, ValidIdentity, S.Fits, S.Committed, Image, G.VerifySnapshot, G.Extends, Safe, Leads, RootRevokes;
      LeadsNowhere(identity, world);
      var verified := G.VerifySnapshot(incoming, identity.rootKey);
      if verified.Err? {
        return Err(BadRevocations);
      }
      if incoming.list.serial < revocations.list.serial {
        return Ok(false);
      }
      if incoming.list.serial == revocations.list.serial {
        if incoming == revocations {
          return Ok(false);
        }
        return Err(StateError.RevocationEquivocation);
      }
      if !G.Extends(incoming, revocations) {
        return Err(StateError.RevocationRollback);
      }
      if incoming.list.revokedNodes == revocations.list.revokedNodes {
        return Ok(false);
      }
      MergeApplies(identity, Memory(), incoming);
      var persisted := PersistRevocations(incoming);
      LeadsLess(identity, old(world), world, RootRevokes(identity, old(Memory()), incoming));
      if persisted.Err? {
        return Err(persisted.error);
      }
      return Ok(true);
    }
  }

  // ---------- opening and founding ----------

  /** A safe run that is down left this disk. */
  ghost predicate SafeAt(identity: Identity, w: World, store: S.Store) {
    Safe(identity, w) && w.memory.None? && w.journal.store == store
  }

  ghost function WithStore(w: World, store: S.Store): World {
    w.(journal := w.journal.(store := store))
  }

  ghost function SignedAt(identity: Identity, w: World, store: S.Store): seq<(nat, nat)> {
    if SafeAt(identity, w, store) then w.signed else []
  }

  lemma NotUp(identity: Identity, w: World, store: S.Store)
    requires SafeAt(identity, w, store)
    ensures !w.journal.phase.Up? && C.Sound(w.journal) && Safe(identity, w) && w.memory.None? && w.journal.store == store
  {
    hide S.OpenStore, Replay, IsReachable, Covers, Increasing, Image;
  }

  /** An opening that came to nothing leaves the run where a cut opening does. */
  lemma GivenUpLeads(identity: Identity, w: World, before: S.Store, after: S.Store)
    requires ValidIdentity(identity)
    requires || C.TornOpen(before, after)
             || (S.OpenStore(before).Err? && after == S.Store(S.WithHeader(before.file), before.head))
             || (S.OpenStore(before).Ok? && after == S.OpenStore(before).value.store)
    ensures SafeAt(identity, w, before) ==> Leads(identity, w, WithStore(w, after), true)
  {
    hide Safe, S.OpenStore, C.TornOpen, C.Sound, C.Step, Leads, ValidIdentity, SignStep, RecordStep, RecordCutStep, FoundStep, FoundCutStep,
         ReopenStep, CompactsTo;
    if SafeAt(identity, w, before) {
      NotUp(identity, w, before);
      C.GivenUpOpening(w.journal, after);
      LeadsNowhere(identity, w);
      assert Step(identity, w, ReopenCut, WithStore(w, after));
      LeadsOn(identity, w, w, true, ReopenCut, WithStore(w, after), true);
    }
  }

  /** A successful opening is the next step of the run that left the disk, or the
      start of a new one. */
  lemma OpenLeads(identity: Identity, w: World, before: S.Store, frames: seq<Bytes>, after: S.Store)
    requires ValidIdentity(identity) && S.OpenStore(before) == Ok(S.Opened(frames, after)) && Replay(identity, frames).Ok?
    requires S.Fits(frames) && after == S.Committed(frames)
    ensures var v := HeldWorld(frames, Replay(identity, frames).value.state, SignedAt(identity, w, before));
            Safe(identity, v) && (SafeAt(identity, w, before) ==> Leads(identity, w, v, true))
  {
    hide S.OpenStore, Leads, ValidIdentity, Replay, S.Committed, S.Fits, Safe;
    var v := HeldWorld(frames, Replay(identity, frames).value.state, SignedAt(identity, w, before));
    if SafeAt(identity, w, before) {
      NotUp(identity, w, before);
      ReopenLeads(identity, w, v);
      LeadsSafe(identity, w, v, true);
    } else {
      StartIsSafe(identity, frames);
    }
  }

  const FOUNDER_ROLES: Bits := {ROLE_DEVICE, ROLE_INTRODUCER}

  function FounderCertificate(identity: Identity, now: nat): Certificate {
    DraftCertificate(identity, identity.deviceKey, 1, now, SaturatingAdd(now, MAX_MEMBERSHIP_LIFETIME_SECONDS), FOUNDER_ROLES, seq(32, _ => 0))
  }

  function EmptyList(identity: Identity, now: nat): R.RevocationList {
    R.RevocationList(R.REVOCATION_VERSION, identity.hive, 0, now, [])
  }

  function FounderGenesis(identity: Identity, now: nat): Event
    requires identity.root.Some?
  {
    var certificate, list := FounderCertificate(identity, now), EmptyList(identity, now);
    Genesis(SignedMembership(certificate, identity.root.value.signCertificate(certificate)),
            R.SignedRevocations(list, identity.root.value.signList(list)))
  }

  /** The state of a hive that was just founded. */
  function Founding(identity: Identity, now: nat): Snapshot {
    if identity.root.None? then Snapshot(map[], R.SignedRevocations(EmptyList(identity, now), []), 0, 0, 0, 0) else
    var genesis := FounderGenesis(identity, now);
    Snapshot(map[identity.node := genesis.membership], genesis.revocations, 0, 0, 1, 1)
  }

  /** The state of a hive that was just founded: its root's device alone, a device
      and introducer for ten years, with nobody revoked. */
  ghost predicate Founder(identity: Identity, now: nat, s: Snapshot) {
    && identity.node in s.members && s.members == map[identity.node := s.members[identity.node]]
    && RootSays(s.members[identity.node], identity.rootKey)
    && var c, until := s.members[identity.node].certificate, if now + 316_224_000 <= U64_MAX then now + 316_224_000 else U64_MAX;
       && c == Certificate(1, identity.hive, identity.node, identity.deviceKey, 1, now, until, {0, 1}, seq(32, _ => 0))
       && s.revocations.list == R.RevocationList(1, identity.hive, 0, now, [])
       && G.LIST_SIGNED(identity.rootKey, s.revocations.list, s.revocations.signature)
       && s.generation == 0 && s.sequence == 0 && s.lastSerial == 1 && s.eventCount == 1
  }

  lemma FoundsExactly(identity: Identity, now: nat)
    requires ValidIdentity(identity) && identity.root.Some? && CertificateShape(FounderCertificate(identity, now)).None?
    ensures Founder(identity, now, Founding(identity, now))
  {
    hide CertificateShape, RootSays;
    MembershipVerifyExactly(Founding(identity, now).members[identity.node], identity.rootKey);
  }

  lemma FounderShape(identity: Identity, now: nat)
    requires ValidIdentity(identity) && now <= U64_MAX
    ensures CertificateShape(FounderCertificate(identity, now)).Some? ==> now == U64_MAX
  {
  }

  lemma GenesisIsGood(identity: Identity, now: nat)
    requires ValidIdentity(identity) && identity.root.Some? && now <= U64_MAX && CertificateShape(FounderCertificate(identity, now)).None?
    ensures GoodEvent(FounderGenesis(identity, now)) && FounderEvent(FounderGenesis(identity, now))
    ensures ReplayGenesis(identity, FounderGenesis(identity, now)) == Ok(Replayed(Founding(identity, now), false))
  {
    hide CertificateShape;
  }

  /** What a founded journal holds, and that founding it counts the revoked. */
  lemma FoundStarts(identity: Identity, genesis: Event, s: Snapshot)
    requires GoodEvent(genesis) && FounderEvent(genesis) && ReplayGenesis(identity, genesis) == Ok(Replayed(s, false))
    ensures IsReachable(identity, s) && ReplaysTo(identity, [EncodeEvent(genesis)], s) && RevokedAreMembers(identity, s)
    ensures Replay(identity, [EncodeEvent(genesis)]) == Ok(Replayed(s, false))
  {
    hide Replay, EncodeEvent, GoodEvent, ReplayGenesis, RevokedAreMembers, IsReachable;
    GenesisAccounts(identity, genesis);
    GenesisIsReachable(identity, genesis);
    FounderCounts(identity, genesis);
  }

  lemma FoundSteps(identity: Identity, w: World, genesis: Event, s: Snapshot)
    requires Safe(identity, w) && Foundable(identity, w, genesis) && S.Fits([EncodeEvent(genesis)])
    requires ReplayGenesis(identity, genesis) == Ok(Replayed(s, false))
    ensures w.signed == [] && FoundStep(identity, w, genesis, HeldWorld([EncodeEvent(genesis)], s, []))
  {
    hide S.OpenStore, S.Committed, S.Fits, Safe, EncodeEvent, GoodEvent, ReplayGenesis, C.Sound;
    FoundableUnsigned(identity, w, genesis);
    assert [] + [EncodeEvent(genesis)] == [EncodeEvent(genesis)];
  }

  /** A founding cut in its append. */
  lemma FoundCutLeads(identity: Identity, w: World, before: S.Store, genesis: Event, store: S.Store)
    requires ValidIdentity(identity) && FounderEvent(genesis) && GoodEvent(genesis) && ReplayGenesis(identity, genesis).Ok?
    requires S.OpenStore(before).Ok? && S.OpenStore(before).value.frames == []
    requires S.Fits([] + [EncodeEvent(genesis)]) && C.TornAppend(store, [], [EncodeEvent(genesis)])
    ensures SafeAt(identity, w, before) ==>
              Leads(identity, w, World(C.Run(store, C.Down({[], [EncodeEvent(genesis)]}, false)), None, w.signed), true)
  {
    hide S.OpenStore, S.Committed, S.Fits, Safe, EncodeEvent, GoodEvent, ReplayGenesis, C.Sound, C.TornAppend, Leads, ValidIdentity, FounderEvent;
    if SafeAt(identity, w, before) {
      NotUp(identity, w, before);
      FoundableUnsigned(identity, w, genesis);
      var v := World(C.Run(store, C.Down({[], [EncodeEvent(genesis)]}, false)), None, w.signed);
      assert [] + [EncodeEvent(genesis)] == [EncodeEvent(genesis)];
      assert FoundCutStep(identity, w, genesis, v);
      FoundingCutLeads(identity, w, genesis, v);
    }
  }

  // ---------- small steps ----------

  lemma SameEvent(identity: Identity, s: Snapshot, count: nat, event: Event)
    requires Persistable(identity, s, event)
    ensures Persistable(identity, s.(eventCount := count), event)
    ensures RootEvent(identity, s, event) <==> RootEvent(identity, s.(eventCount := count), event)
  {
    hide G.NextList, GoodEvent, MembershipVerify, G.VerifySnapshot, G.Extends, Persistable;
    CountDoesNotDecide(identity, s, count, event);
    if event.RevocationsReplaced? {
      var r, t := event.revocations, s.(eventCount := count);
      assert t.members == s.members && t.revocations == s.revocations;
    }
  }

  /** What taking a persisted event into memory gives. */
  lemma TakenIn(identity: Identity, w: World, u: World, s: Snapshot, event: Event, frames: seq<Bytes>)
    requires ValidIdentity(identity) && Leads(identity, w, u, true) && IsReachable(identity, s) && Persistable(identity, s, event)
    requires u.journal.phase.Up? && u == HeldWorld(u.journal.phase.frames, s, u.signed)
    requires ReplaysToNext(identity, frames, s, event) && C.Step(u.journal, C.Appended([EncodeEvent(event)]), Holding(frames))
    ensures var s' := ApplyEvent(identity, s, event).value;
            && IsReachable(identity, s') && ReplaysTo(identity, frames, s')
            && Leads(identity, w, HeldWorld(frames, s', u.signed), RootEvent(identity, s, event))
  {
    hide ReplaysTo, Persistable, ApplyEvent, IsReachable, ValidIdentity, Leads, C.Step, RecordStep, RootEvent, EncodeEvent, GoodEvent, S.Committed;
    PersistableIsGood(identity, s, event);
    NextIsReachable(identity, s, event);
    RecordSteps(identity, u.journal.phase.frames, s, event, frames, u.signed);
    RecordLeads(identity, w, u, event, HeldWorld(frames, ApplyEvent(identity, s, event).value, u.signed));
  }

  /** Where a cut append leaves the run. */
  lemma AfterFailure(identity: Identity, w: World, before: seq<Bytes>, s: Snapshot, event: Event, store: S.Store) returns (v: World)
    requires ValidIdentity(identity) && Leads(identity, w, HeldWorld(before, s, w.signed), true) && Persistable(identity, s, event)
    requires C.Step(Holding(before), C.AppendCut([EncodeEvent(event)]), AppendFailed(store, before, event))
    ensures v.memory.None? && v.signed == w.signed && Leads(identity, w, v, RootEvent(identity, s, event))
  {
    hide ValidIdentity, Leads, Persistable, C.Step, EncodeEvent, GoodEvent, RootEvent, S.Committed, Step, RecordCutStep;
    PersistableIsGood(identity, s, event);
    v := World(AppendFailed(store, before, event), None, w.signed);
    RecordCutSteps(identity, before, s, event, store, w.signed);
    CutLeads(identity, w, HeldWorld(before, s, w.signed), event, v);
  }

  lemma PersistableIsGood(identity: Identity, s: Snapshot, event: Event)
    requires Persistable(identity, s, event)
    ensures GoodEvent(event) && ApplyEvent(identity, s, event).Ok?
  {
    hide GoodEvent, ApplyEvent;
  }

  lemma MembershipIsRoot(identity: Identity, s: Snapshot, m: SignedMembership)
    ensures RootEvent(identity, s, MembershipIssued(m))
  {
  }

  lemma RevocationIsRoot(identity: Identity, s: Snapshot, r: R.SignedRevocations)
    ensures RootEvent(identity, s, RevocationsReplaced(r)) <==> RootRevokes(identity, s, r)
  {
    hide RootRevokes;
  }

  /** How a state reports what the merge refuses. */
  function MergeError(error: G.GossipError): StateError {
    match error
    case BadSnapshot(_) => BadRevocations
    case RevocationRollback => StateError.RevocationRollback
    case RevocationEquivocation => StateError.RevocationEquivocation
  }

  lemma SomeReach(identity: Identity, s: Snapshot) returns (local: SignedMembership, issued: seq<SignedMembership>)
    requires IsReachable(identity, s)
    ensures Reachable(identity, s, local, issued)
  {
    hide Reachable;
    local, issued :| Reachable(identity, s, local, issued);
  }

  lemma WritesCompaction(identity: Identity, s: Snapshot, local: SignedMembership, issued: seq<SignedMembership>, frames: seq<Bytes>)
    requires ValidIdentity(identity) && Reachable(identity, s, local, issued) && frames == CompactionFrames(identity, s, local, issued)
    ensures CompactsTo(identity, s, frames) && ReplaysTo(identity, frames, s.(eventCount := |frames|))
  {
    hide Replay, CompactionFrames, Reachable, ValidIdentity;
    CompactionReplays(identity, s, local, issued);
  }

  ghost predicate ReplaysTo(identity: Identity, frames: seq<Bytes>, s: Snapshot) {
    Replay(identity, frames).Ok? && Replay(identity, frames).value.state == s
  }

  /** The frames replay to the state after one more event. */
  ghost predicate ReplaysToNext(identity: Identity, frames: seq<Bytes>, s: Snapshot, event: Event) {
    ApplyEvent(identity, s, event).Ok? && ReplaysTo(identity, frames, ApplyEvent(identity, s, event).value)
  }

  lemma CountIrrelevant(identity: Identity, s: Snapshot, count: nat)
    requires IsReachable(identity, s)
    ensures IsReachable(identity, s.(eventCount := count))
  {
    hide LocalMember, IssuedInOrder, MembersOf, G.VerifySnapshot, GoodRevocations;
    var local, issued :| Reachable(identity, s, local, issued);
    assert Reachable(identity, s.(eventCount := count), local, issued);
  }

  lemma CountDoesNotDecide(identity: Identity, s: Snapshot, count: nat, event: Event)
    requires Persistable(identity, s, event)
    ensures Persistable(identity, s.(eventCount := count), event)
  {
    hide GoodEvent, MembershipVerify, G.VerifySnapshot, G.Extends;
  }

  lemma SequenceApplies(identity: Identity, s: Snapshot)
    requires s.generation <= U64_MAX && s.sequence < U64_MAX
    ensures Persistable(identity, s, SequenceReserved(s.generation, s.sequence + 1))
    ensures ApplyEvent(identity, s, SequenceReserved(s.generation, s.sequence + 1))
         == Ok(s.(sequence := s.sequence + 1, eventCount := s.eventCount + 1))
  {
  }

  // ---------- records ----------

  /** The record of a draft: in canonical form, under the newer version only when
      it advertises something. */
  function Completed(identity: Identity, generation: nat, sequence: nat, draft: EndpointRecord): EndpointRecord {
    Canonicalized(draft.(protocolVersion := if draft.services == [] then 2 else 3, hive := identity.hive, node := identity.node,
                         generation := generation, sequence := sequence))
  }

  /** What is published of a draft: exactly its candidates and services, in order; its
      name, key, times and capabilities; this device of this hive; and the number. */
  ghost predicate Published(identity: Identity, generation: nat, sequence: nat, draft: EndpointRecord, record: EndpointRecord) {
    && record.hive == identity.hive && record.node == identity.node && record.generation == generation && record.sequence == sequence
    && record.displayName == draft.displayName && record.transportKey == draft.transportKey && record.capabilities == draft.capabilities
    && record.issuedAt == draft.issuedAt && record.expiresAt == draft.expiresAt
    && record.protocolVersion == (if draft.services == [] then 2 else 3)
    && (forall x :: x in record.candidates <==> x in draft.candidates) && (forall x :: x in record.services <==> x in draft.services)
    && (forall i, j :: 0 <= i < j < |record.candidates| ==> CandidateLess(record.candidates[i], record.candidates[j]))
    && (forall i, j :: 0 <= i < j < |record.services| ==> AdvertLess(record.services[i], record.services[j]))
  }

  /** The completed record is what is published, and nothing else is. */
  lemma CompletedPublishes(identity: Identity, generation: nat, sequence: nat, draft: EndpointRecord)
    ensures forall record :: Published(identity, generation, sequence, draft, record) <==> record == Completed(identity, generation, sequence, draft)
    ensures Completed(identity, generation, sequence, draft).capabilities == draft.capabilities
    ensures Completed(identity, generation, sequence, draft).expiresAt == draft.expiresAt
  {
    CandidateOrder();
    AdvertOrder();
    hide SortDedup, BytesLess, SocketLess, CandidateLess, AdvertLess;
    SortDedupCanonical(draft.candidates, CandidateLess);
    SortDedupCanonical(draft.services, AdvertLess);
    var done := Completed(identity, generation, sequence, draft);
    forall record | Published(identity, generation, sequence, draft, record) ensures record == done {
      CanonicalUnique(record.candidates, done.candidates, CandidateLess);
      CanonicalUnique(record.services, done.services, AdvertLess);
    }
  }

  /** What a failed persist answers. */
  function NotPersisted(readOnly: bool): StateError {
    if readOnly then ReadOnlySnapshot else JournalFailed
  }

  /** Why a draft is not signed, in the order of the checks. Apart from a failing
      journal there is no other reason. */
  ghost predicate SignRefused(identity: Identity, s: Snapshot, readOnly: bool, draft: EndpointRecord, error: StateError) {
    if identity.node !in s.members then error == IdentityMismatch else
    var c := s.members[identity.node].certificate;
    if draft.expiresAt > c.expiresAt then error == StateError.OutlivesMembership
    else if (0 in draft.capabilities && 1 !in c.roles) || (1 in draft.capabilities && 2 !in c.roles) then
      error == StateError.UnauthorizedCapability
    else if s.sequence >= U64_MAX then error == CounterExhausted
    else if exists record :: Published(identity, s.generation, s.sequence + 1, draft, record) && !SoundRecord(record) then error == BadRecord
    else error == NotPersisted(readOnly)
  }

  // ---------- memberships and revocations ----------

  function DraftCertificate(identity: Identity, deviceKey: Key, serial: nat, issuedAt: nat, expiresAt: nat, roles: Bits, nonce: Bytes): Certificate {
    Certificate(MEMBERSHIP_VERSION, identity.hive, NODE_OF_KEY(deviceKey), deviceKey, serial, issuedAt, expiresAt, roles, nonce)
  }

  /** Why no membership is issued, in the order of the checks. Apart from a failing
      journal there is no other reason. */
  ghost predicate IssueRefused(identity: Identity, s: Snapshot, readOnly: bool, deviceKey: Key, roles: Bits, nonce: Bytes, issuedAt: nat, expiresAt: nat,
                               error: StateError) {
    var node := NODE_OF_KEY(deviceKey);
    if |s.members| >= 256 then error == HiveFull
    else if node in s.revocations.list.revokedNodes then error == RevokedMember
    else if node in s.members then error == DuplicateMember
    else if s.lastSerial >= U64_MAX then error == CounterExhausted
    else if identity.root.None? then error == AdmissionUnavailable
    else if !SoundCertificate(Certificate(1, identity.hive, node, deviceKey, s.lastSerial + 1, issuedAt, expiresAt, roles, nonce)) then
      error == BadMembership
    else error == NotPersisted(readOnly)
  }

  /** Why no node is revoked, in the order of the checks; one that already is makes
      no error. */
  predicate RevokeRefused(identity: Identity, s: Snapshot, readOnly: bool, node: NodeId, issuedAt: nat, error: StateError) {
    if node == identity.node then error == CannotRevokeSelf
    else if node !in s.members then error == UnknownMember
    else
      && node !in s.revocations.list.revokedNodes
      && if issuedAt < s.revocations.list.issuedAt then error == StateError.RevocationRollback
         else if identity.root.None? then error == AdmissionUnavailable
         else if s.revocations.list.serial >= U64_MAX then error == CounterExhausted
         else if |s.revocations.list.revokedNodes| >= 256 then error == BadRevocations
         else error == NotPersisted(readOnly)
  }

  /** The list that revokes one more node. */
  ghost predicate OneMoreRevoked(before: R.RevocationList, node: NodeId, issuedAt: nat, after: R.RevocationList) {
    && after.version == before.version && after.hive == before.hive && after.serial == before.serial + 1 && after.issuedAt == issuedAt
    && (forall n :: n in after.revokedNodes <==> n in before.revokedNodes || n == node)
    && forall i, j :: 0 <= i < j < |after.revokedNodes| ==> after.revokedNodes[i] < after.revokedNodes[j]
  }

  lemma RevokesExactly(identity: Identity, s: Snapshot, node: NodeId, issuedAt: nat)
    requires IsReachable(identity, s) && node !in s.revocations.list.revokedNodes
    ensures OneMoreRevoked(s.revocations.list, node, issuedAt, G.NextList(s.revocations.list, node, issuedAt))
    ensures R.ValidateShape(G.NextList(s.revocations.list, node, issuedAt)).Err? <==> |s.revocations.list.revokedNodes| >= 256
  {
    hide LocalMember, IssuedInOrder, MembersOf, G.NextList;
    G.NextListShape(s.revocations.list, node, issuedAt);
    NextListKeeps(s.revocations.list, node, issuedAt);
  }

  lemma ListIsSigned(identity: Identity, list: R.RevocationList)
    requires ValidIdentity(identity) && identity.root.Some?
    ensures var signature := identity.root.value.signList(list);
            |signature| == 64 && G.LIST_SIGNED(identity.rootKey, list, signature)
  {
  }

  lemma NextListKeeps(list: R.RevocationList, node: NodeId, issuedAt: nat)
    ensures var next := G.NextList(list, node, issuedAt);
            next.version == list.version && next.hive == list.hive && next.serial == list.serial + 1 && next.issuedAt == issuedAt
  {
  }

  lemma IssueApplies(identity: Identity, s: Snapshot, m: SignedMembership)
    requires ValidIdentity(identity) && identity.root.Some? && CertificateShape(m.certificate).None?
    requires var c := m.certificate;
             && c == DraftCertificate(identity, c.deviceKey, s.lastSerial + 1, c.issuedAt, c.expiresAt, c.roles, c.admissionNonce)
             && |c.deviceKey| == 32 && |c.admissionNonce| == 32 && c.roles <= KNOWN_ROLES
             && c.issuedAt <= U64_MAX && c.expiresAt <= U64_MAX && s.lastSerial < U64_MAX
    requires m.signature == identity.root.value.signCertificate(m.certificate)
    requires MemberNode(m) !in s.members && |s.members| < MAX_HIVE_MEMBERS
    ensures MembershipVerify(m, identity.rootKey).None? && RootSays(m, identity.rootKey)
    ensures Persistable(identity, s, MembershipIssued(m))
  {
    hide CertificateShape, RootSays;
    MembershipVerifyExactly(m, identity.rootKey);
  }

  lemma MembershipApplies(identity: Identity, s: Snapshot, m: SignedMembership)
    requires Persistable(identity, s, MembershipIssued(m))
    ensures ApplyEvent(identity, s, MembershipIssued(m))
         == Ok(s.(members := s.members[MemberNode(m) := m], lastSerial := s.lastSerial + 1, eventCount := s.eventCount + 1))
  {
    hide MembershipVerify, GoodEvent;
  }

  lemma RevocationApplies(identity: Identity, s: Snapshot, signed: R.SignedRevocations)
    requires Persistable(identity, s, RevocationsReplaced(signed))
    ensures ApplyEvent(identity, s, RevocationsReplaced(signed)) == Ok(s.(revocations := signed, eventCount := s.eventCount + 1))
  {
    hide G.VerifySnapshot, G.Extends, GoodEvent;
  }

  lemma MergeApplies(identity: Identity, s: Snapshot, incoming: R.SignedRevocations)
    requires R.Typed(incoming.list) && G.VerifySnapshot(incoming, identity.rootKey).Ok?
    requires incoming.list.serial > s.revocations.list.serial && G.Extends(incoming, s.revocations)
    ensures Persistable(identity, s, RevocationsReplaced(incoming))
  {
    hide G.Extends, R.Typed, R.ValidateShape;
  }

  lemma OneMoreMember(identity: Identity, before: Snapshot, after: Snapshot, m: SignedMembership)
    requires after.revocations == before.revocations && after.members == before.members[MemberNode(m) := m]
    ensures RevokedAreMembers(identity, before) ==> RevokedAreMembers(identity, after)
  {
  }

  lemma KeepsCounting(identity: Identity, before: Snapshot, after: Snapshot)
    requires after == before.(eventCount := after.eventCount)
    ensures RevokedAreMembers(identity, before) ==> RevokedAreMembers(identity, after)
  {
  }

  lemma NeverExhausted(identity: Identity, s: Snapshot)
    requires IsReachable(identity, s)
    ensures RevokedAreMembers(identity, s) ==> s.revocations.list.serial < U64_MAX
  {
    hide IsReachable;
    if RevokedAreMembers(identity, s) {
      RevokedBelowMembers(identity, s);
    }
  }

  lemma NeverOversized(identity: Identity, s: Snapshot, node: NodeId, issuedAt: nat)
    requires IsReachable(identity, s) && node in s.members && node != identity.node && node !in s.revocations.list.revokedNodes
    ensures RevokedAreMembers(identity, s) ==> R.ValidateShape(G.NextList(s.revocations.list, node, issuedAt)).Ok?
  {
    hide IsReachable, G.NextList, R.ValidateShape;
    NextShape(identity, s, node, issuedAt);
    if RevokedAreMembers(identity, s) {
      RevokedBelowMembers(identity, s);
    }
  }

  lemma RevokeApplies(identity: Identity, s: Snapshot, node: NodeId, issuedAt: nat, signed: R.SignedRevocations)
    requires ValidIdentity(identity) && identity.root.Some? && IsReachable(identity, s)
    requires IsId(node) && issuedAt <= U64_MAX && s.revocations.list.serial < U64_MAX
    requires node !in s.revocations.list.revokedNodes && issuedAt >= s.revocations.list.issuedAt
    requires signed.list == G.NextList(s.revocations.list, node, issuedAt) && R.ValidateShape(signed.list).Ok?
    requires signed.signature == identity.root.value.signList(signed.list)
    ensures Persistable(identity, s, RevocationsReplaced(signed))
    ensures G.RevokesOne(s.revocations, signed) && R.Contains(signed, node)
    ensures node in s.members && node != identity.node ==> RootRevokes(identity, s, signed)
  {
    hide IsReachable, R.ValidateShape, R.Typed, IsId, SortBy;
    ReachableShape(identity, s);
    NextShape(identity, s, node, issuedAt);
  }

  lemma ReplayedNext(identity: Identity, frames: seq<Bytes>, s: Snapshot, event: Event)
    requires ReplaysToNext(identity, frames, s, event) && S.Fits(frames)
    ensures ApplyEvent(identity, s, event).Ok?
    ensures ReplaysTo(identity, frames, ApplyEvent(identity, s, event).value)
    ensures Recoverable(identity, S.Committed(frames), ApplyEvent(identity, s, event).value.sequence)
  {
    hide Replay, ApplyEvent, S.OpenStore, Recoverable;
    CommittedRecovers(identity, frames, ApplyEvent(identity, s, event).value.sequence);
  }

  lemma CountersFit(identity: Identity, s: Snapshot)
    requires IsReachable(identity, s)
    ensures s.generation == 0 && s.sequence <= U64_MAX && s.lastSerial <= U64_MAX
  {
    hide LocalMember, IssuedInOrder, MembersOf, G.VerifySnapshot, GoodRevocations;
  }

  lemma AppendReplays(identity: Identity, frames: seq<Bytes>, s: Snapshot, event: Event)
    requires ReplaysTo(identity, frames, s) && Persistable(identity, s, event)
    ensures ReplaysTo(identity, frames + [EncodeEvent(event)], ApplyEvent(identity, s, event).value)
    ensures ApplyEvent(identity, s, event).value.sequence >= s.sequence
  {
    hide Replay, EncodeEvent, GoodEvent, MembershipVerify, G.VerifySnapshot, G.Extends;
    ReplayAppend(identity, frames, Replay(identity, frames).value, event);
  }

  /** Whatever journal opens and replays, a process that starts from it having
      signed nothing is safe. */
  lemma StartIsSafe(identity: Identity, frames: seq<Bytes>)
    requires S.Fits(frames) && Replay(identity, frames).Ok?
    ensures Safe(identity, World(C.Run(S.Committed(frames), C.Up(frames)), Some(Replay(identity, frames).value.state), []))
  {
    hide Replay, IsReachable, S.Fits, S.Committed;
    ReplayIsReachable(identity, frames);
  }
}
