/** Whole runs of the authoritative state over its journal: reserving, signing,
    recording, compacting, failing, crashing and reopening. */
module StateRuns {
  import opened Prelude
  import opened JournalFormat
  import opened JournalStore
  import C = JournalCrash
  import opened StateEvents
  import opened StateReplay

  /** The journal, the state in memory while the handle is held, and every
      endpoint record ever signed, as generation and sequence. */
  datatype World = World(journal: C.Run, memory: Option<Snapshot>, signed: seq<(nat, nat)>)

  datatype Action =
    | Founded(genesis: Event)    // the founder event was committed to an empty journal
    | FoundCut(genesis: Event)
    | Signed                     // the next sequence was persisted, then a record signed with it
    | Recorded(event: Event)     // any event persisted and applied, without signing
    | RecordCut(event: Event)    // the append failed or was cut: the handle is gone
    | Compacted
    | CompactCut
    | Stopped
    | Reopened
    | ReopenCut

  function NextSequence(s: Snapshot): Event {
    SequenceReserved(s.generation, s.sequence + 1)
  }

  /** An event that may be persisted from here. */
  predicate Persistable(identity: Identity, s: Snapshot, event: Event) {
    GoodEvent(event) && !event.Checkpoint? && ApplyEvent(identity, s, event).Ok?
  }

  ghost predicate CompactsTo(identity: Identity, s: Snapshot, frames: seq<Bytes>)
    requires ValidIdentity(identity)
  {
    exists local, issued :: Reachable(identity, s, local, issued) && frames == CompactionFrames(identity, s, local, issued)
  }

  /** The pair the next record is signed with. */
  function NextNumber(s: Snapshot): (nat, nat) {
    (s.generation, s.sequence + 1)
  }

  /** A sequence is persisted, then a record is signed with it. */
  ghost predicate SignStep(w: World, v: World) {
    && w.memory.Some? && w.memory.value.sequence < U64_MAX && w.memory.value.generation <= U64_MAX
    && var s := w.memory.value;
       && C.Step(w.journal, C.Appended([EncodeEvent(NextSequence(s))]), v.journal)
       && v.memory == Some(s.(sequence := s.sequence + 1, eventCount := s.eventCount + 1))
       && v.signed == w.signed + [NextNumber(s)]
  }

  ghost predicate RecordStep(identity: Identity, w: World, event: Event, v: World) {
    && w.memory.Some? && Persistable(identity, w.memory.value, event)
    && C.Step(w.journal, C.Appended([EncodeEvent(event)]), v.journal)
    && v.memory == Some(ApplyEvent(identity, w.memory.value, event).value) && v.signed == w.signed
  }

  ghost predicate RecordCutStep(identity: Identity, w: World, event: Event, v: World) {
    && w.memory.Some? && Persistable(identity, w.memory.value, event)
    && C.Step(w.journal, C.AppendCut([EncodeEvent(event)]), v.journal)
    && v.memory.None? && v.signed == w.signed
  }

  ghost predicate ReopenStep(identity: Identity, w: World, v: World) {
    && w.memory.None? && v.journal.phase.Up? && C.Step(w.journal, C.Reopened, v.journal) && v.signed == w.signed
    && Replay(identity, v.journal.phase.frames).Ok?
    && v.memory == Some(Replay(identity, v.journal.phase.frames).value.state)
  }

  /** An empty journal, just opened or created, to found a state in. */
  ghost predicate Foundable(identity: Identity, w: World, genesis: Event) {
    && w.memory.None? && !w.journal.phase.Up? && OpenStore(w.journal.store).Ok? && OpenStore(w.journal.store).value.frames == []
    && GoodEvent(genesis) && ReplayGenesis(identity, genesis).Ok?
  }

  ghost function EmptyRun(w: World): C.Run
    requires OpenStore(w.journal.store).Ok?
  {
    C.Run(OpenStore(w.journal.store).value.store, C.Up([]))
  }

  ghost predicate FoundStep(identity: Identity, w: World, genesis: Event, v: World) {
    && Foundable(identity, w, genesis)
    && C.Step(EmptyRun(w), C.Appended([EncodeEvent(genesis)]), v.journal)
    && v.memory == Some(ReplayGenesis(identity, genesis).value.state) && v.signed == w.signed
  }

  ghost predicate FoundCutStep(identity: Identity, w: World, genesis: Event, v: World) {
    && Foundable(identity, w, genesis)
    && C.Step(EmptyRun(w), C.AppendCut([EncodeEvent(genesis)]), v.journal)
    && v.memory.None? && v.signed == w.signed
  }

  ghost predicate Step(identity: Identity, w: World, action: Action, v: World)
    requires ValidIdentity(identity)
  {
    match action
    case Founded(genesis) => FoundStep(identity, w, genesis, v)
    case FoundCut(genesis) => FoundCutStep(identity, w, genesis, v)
    case Signed => SignStep(w, v)
    case Recorded(event) => RecordStep(identity, w, event, v)
    case RecordCut(event) => RecordCutStep(identity, w, event, v)
    case Compacted =>
      && w.memory.Some? && v.signed == w.signed
      && exists frames :: CompactsTo(identity, w.memory.value, frames) && C.Step(w.journal, C.Compacted(frames), v.journal)
                          && v.memory == Some(w.memory.value.(eventCount := |frames|))
    case CompactCut =>
      && w.memory.Some? && v.memory.None? && v.signed == w.signed
      && exists frames :: CompactsTo(identity, w.memory.value, frames) && C.Step(w.journal, C.CompactCut(frames), v.journal)
    case Stopped =>
      w.memory.Some? && C.Step(w.journal, C.Stopped, v.journal) && v.memory.None? && v.signed == w.signed
    case Reopened => ReopenStep(identity, w, v)
    case ReopenCut =>
      w.memory.None? && C.Step(w.journal, C.ReopenCut, v.journal) && v.memory.None? && v.signed == w.signed
  }

  // ---------- the invariant ----------

  predicate Increasing(signed: seq<(nat, nat)>) {
    forall i, j :: 0 <= i < j < |signed| ==> signed[i].0 == signed[j].0 && signed[i].1 < signed[j].1
  }

  /** Everything signed so far is at or below the sequence of this state. */
  predicate Covers(s: Snapshot, signed: seq<(nat, nat)>) {
    forall i :: 0 <= i < |signed| ==> signed[i].0 == s.generation && signed[i].1 <= s.sequence
  }

  /** The frames replay to a reachable state that covers everything signed. */
  ghost predicate Accounts(identity: Identity, frames: seq<Bytes>, signed: seq<(nat, nat)>) {
    && Replay(identity, frames).Ok?
    && IsReachable(identity, Replay(identity, frames).value.state)
    && Covers(Replay(identity, frames).value.state, signed)
  }

  /** Before anything was signed the journal may still be empty. */
  ghost predicate Explained(identity: Identity, frames: seq<Bytes>, signed: seq<(nat, nat)>) {
    (frames == [] && signed == []) || Accounts(identity, frames, signed)
  }

  /** Whatever frames opening can find account for everything signed, and while
      the handle is held the state in memory is what they replay to. */
  ghost predicate Safe(identity: Identity, w: World) {
    && C.Sound(w.journal)
    && Increasing(w.signed)
    && match w.journal.phase
       case Fresh => w.memory.None? && w.signed == []
       case Up(frames) =>
         && Accounts(identity, frames, w.signed)
         && w.memory == Some(Replay(identity, frames).value.state)
       case Down(possible, _) =>
         && w.memory.None?
         && forall f :: f in possible ==> Explained(identity, f, w.signed)
       case Stale(_) => false   // a state lets go of its handle at the first failure
  }

  /** A disk on which nothing was ever written is a safe start. */
  lemma NothingIsSafe(identity: Identity)
    ensures Safe(identity, World(C.Run(Store([], None), C.Fresh), None, []))
  {
    C.NothingIsSound();
  }

  // ---------- one step ----------

  /** One more persisted event still accounts for what was signed. */
  lemma AppendAccounts(identity: Identity, frames: seq<Bytes>, signed: seq<(nat, nat)>, event: Event)
    requires Accounts(identity, frames, signed)
    requires Persistable(identity, Replay(identity, frames).value.state, event)
    ensures Accounts(identity, frames + [EncodeEvent(event)], signed)
    ensures Replay(identity, frames + [EncodeEvent(event)]).value.state
         == ApplyEvent(identity, Replay(identity, frames).value.state, event).value
  {
    hide EncodeEvent, GoodEvent, Replay, Reachable;
    var prev := Replay(identity, frames).value;
    ReplayAppend(identity, frames, prev, event);
    var local, issued :| Reachable(identity, prev.state, local, issued);
    var issued' := ApplyKeepsReachable(identity, prev.state, local, issued, event);
    AppendCovers(identity, prev.state, signed, event);
  }

  lemma AppendCovers(identity: Identity, s: Snapshot, signed: seq<(nat, nat)>, event: Event)
    requires Covers(s, signed) && ApplyEvent(identity, s, event).Ok?
    ensures Covers(ApplyEvent(identity, s, event).value, signed)
  {
  }

  /** The compacted frames account for the same. */
  lemma CompactAccounts(identity: Identity, s: Snapshot, frames: seq<Bytes>, signed: seq<(nat, nat)>)
    requires ValidIdentity(identity) && CompactsTo(identity, s, frames) && Covers(s, signed)
    ensures Accounts(identity, frames, signed)
    ensures Replay(identity, frames).value.state == s.(eventCount := |frames|)
  {
    hide Replay, CompactionFrames, IssuedInOrder, MembersOf, LocalMember;
    var local, issued :| Reachable(identity, s, local, issued) && frames == CompactionFrames(identity, s, local, issued);
    CompactionReplays(identity, s, local, issued);
    assert Reachable(identity, s.(eventCount := |frames|), local, issued);
  }

  lemma SignCovers(s: Snapshot, n: nat, signed: seq<(nat, nat)>)
    requires Covers(s, signed) && Increasing(signed)
    ensures Increasing(signed + [NextNumber(s)])
    ensures Covers(s.(sequence := s.sequence + 1, eventCount := n), signed + [NextNumber(s)])
  {
  }

  lemma StepSafe(identity: Identity, w: World, action: Action, v: World)
    requires ValidIdentity(identity) && Safe(identity, w) && Step(identity, w, action, v)
    ensures Safe(identity, v)
  {
    hide C.Sound, Accounts, Covers, Increasing, Replay, EncodeEvent, CompactsTo, ApplyEvent, Fits, OpenStore, Image, FoundStep, FoundCutStep,
         SignStep, ReopenStep, C.TornAppend, C.TornCompact, C.TornRewrite, C.TornOpen, C.HashOf;
    match action
    case Founded(genesis) => FoundSafe(identity, w, genesis, v);
    case FoundCut(genesis) => FoundCutSafe(identity, w, genesis, v);
    case Signed =>
      SignedSafe(identity, w, v);
    case Recorded(event) =>
      AccountsUnfold(identity, w);
      C.StepSound(w.journal, C.Appended([EncodeEvent(event)]), v.journal);
      AppendAccounts(identity, w.journal.phase.frames, w.signed, event);
    case RecordCut(event) =>
      AccountsUnfold(identity, w);
      C.StepSound(w.journal, C.AppendCut([EncodeEvent(event)]), v.journal);
      AppendAccounts(identity, w.journal.phase.frames, w.signed, event);
    case Compacted =>
      var frames :| CompactsTo(identity, w.memory.value, frames) && C.Step(w.journal, C.Compacted(frames), v.journal)
                    && v.memory == Some(w.memory.value.(eventCount := |frames|));
      AccountsUnfold(identity, w);
      C.StepSound(w.journal, C.Compacted(frames), v.journal);
      CompactAccounts(identity, w.memory.value, frames, w.signed);
    case CompactCut =>
      var frames :| CompactsTo(identity, w.memory.value, frames) && C.Step(w.journal, C.CompactCut(frames), v.journal);
      AccountsUnfold(identity, w);
      C.StepSound(w.journal, C.CompactCut(frames), v.journal);
      CompactAccounts(identity, w.memory.value, frames, w.signed);
    case Stopped =>
      AccountsUnfold(identity, w);
      C.StepSound(w.journal, C.Stopped, v.journal);
    case Reopened => ReopenSafe(identity, w, v);
    case ReopenCut =>
      C.StepSound(w.journal, C.ReopenCut, v.journal);
  }

  lemma ReopenSafe(identity: Identity, w: World, v: World)
    requires ValidIdentity(identity) && Safe(identity, w) && Step(identity, w, Reopened, v)
    ensures Safe(identity, v)
  {
    hide Covers, Increasing, Replay, OpenStore, Image, Fits, IsReachable, C.Sound, SignStep, RecordStep, RecordCutStep, FoundStep, FoundCutStep,
         CompactsTo;
    C.StepSound(w.journal, C.Reopened, v.journal);
    C.SoundOpens(w.journal);
    EmptyFails(identity);
  }

  lemma EmptyFails(identity: Identity)
    ensures Replay(identity, []).Err?
  {
  }

  /** Only an unsigned-for journal can still be empty. */
  lemma FoundableUnsigned(identity: Identity, w: World, genesis: Event)
    requires Safe(identity, w) && Foundable(identity, w, genesis)
    ensures w.signed == [] && C.Sound(EmptyRun(w)) && EmptyRun(w).store == Committed([])
  {
    hide Covers, Increasing, Replay, ReplayGenesis, GoodEvent, OpenStore, Image, IsReachable;
    EmptyFails(identity);
    C.SoundOpens(w.journal);
  }

  lemma GenesisAccounts(identity: Identity, genesis: Event)
    requires GoodEvent(genesis) && ReplayGenesis(identity, genesis).Ok?
    ensures Accounts(identity, [EncodeEvent(genesis)], [])
    ensures Replay(identity, [EncodeEvent(genesis)]) == ReplayGenesis(identity, genesis)
  {
    hide EncodeEvent, DecodeEvent, GoodEvent, ReplayGenesis, IsReachable;
    EventRoundTrip(genesis);
    GenesisIsReachable(identity, genesis);
  }

  lemma FoundSafe(identity: Identity, w: World, genesis: Event, v: World)
    requires Safe(identity, w) && FoundStep(identity, w, genesis, v)
    ensures Safe(identity, v)
  {
    hide C.Sound, Accounts, Replay, ReplayGenesis, EncodeEvent, GoodEvent, OpenStore, Image, Fits, Committed, Covers;
    FoundableUnsigned(identity, w, genesis);
    C.StepSound(EmptyRun(w), C.Appended([EncodeEvent(genesis)]), v.journal);
    GenesisAccounts(identity, genesis);
    assert [] + [EncodeEvent(genesis)] == [EncodeEvent(genesis)];
  }

  lemma FoundCutSafe(identity: Identity, w: World, genesis: Event, v: World)
    requires Safe(identity, w) && FoundCutStep(identity, w, genesis, v)
    ensures Safe(identity, v)
  {
    hide C.Sound, Accounts, Replay, ReplayGenesis, EncodeEvent, GoodEvent, OpenStore, Image, Fits, Committed, Covers;
    FoundableUnsigned(identity, w, genesis);
    C.StepSound(EmptyRun(w), C.AppendCut([EncodeEvent(genesis)]), v.journal);
    GenesisAccounts(identity, genesis);
    assert [] + [EncodeEvent(genesis)] == [EncodeEvent(genesis)];
  }

  lemma AccountsUnfold(identity: Identity, w: World)
    requires Safe(identity, w) && w.memory.Some?
    ensures w.journal.phase.Up? && Covers(w.memory.value, w.signed)
  {
    hide Covers, Replay;
  }

  lemma SignedSafe(identity: Identity, w: World, v: World)
    requires ValidIdentity(identity) && Safe(identity, w) && Step(identity, w, Signed, v)
    ensures Safe(identity, v)
  {
    hide C.Sound, Covers, Increasing, Replay, EncodeEvent, IsReachable, Fits, OpenStore, Image;
    AccountsUnfold(identity, w);
    var s := w.memory.value;
    var event := NextSequence(s);
    C.StepSound(w.journal, C.Appended([EncodeEvent(event)]), v.journal);
    AppendAccounts(identity, w.journal.phase.frames, w.signed, event);
    SignCovers(s, s.eventCount + 1, w.signed);
  }

  // ---------- every run ----------

  ghost predicate Run(identity: Identity, worlds: seq<World>, actions: seq<Action>)
    requires ValidIdentity(identity)
  {
    && |worlds| == |actions| + 1
    && forall i :: 0 <= i < |actions| ==> Step(identity, worlds[i], actions[i], worlds[i + 1])
  }

  /** Over every run, however appends fail and processes crash and reopen, no two
      endpoint records are signed with one generation and sequence, and whatever
      opening can find covers every record ever signed. */
  lemma {:induction false} NoSequenceIsSignedTwice(identity: Identity, worlds: seq<World>, actions: seq<Action>)
    requires ValidIdentity(identity) && Run(identity, worlds, actions) && Safe(identity, worlds[0])
    ensures forall w :: w in worlds ==> Safe(identity, w)
    ensures var signed := worlds[|worlds| - 1].signed;
            forall i, j :: 0 <= i < j < |signed| ==> signed[i] != signed[j]
    decreases |actions|
  {
    hide Step, C.Sound, Accounts;
    if actions == [] {
      assert worlds == [worlds[0]];
    } else {
      StepSafe(identity, worlds[0], actions[0], worlds[1]);
      assert Run(identity, worlds[1..], actions[1..]);
      NoSequenceIsSignedTwice(identity, worlds[1..], actions[1..]);
      assert worlds == [worlds[0]] + worlds[1..];
    }
  }

  /** Persisted before signed: when a record is signed, what is on disk already
      opens to a state with its sequence. */
  lemma SignedIsCommitted(identity: Identity, w: World, v: World)
    requires ValidIdentity(identity) && Safe(identity, w) && Step(identity, w, Signed, v)
    ensures OpenStore(v.journal.store).Ok?
    ensures var frames := OpenStore(v.journal.store).value.frames;
            && Replay(identity, frames).Ok?
            && v.signed == w.signed + [(Replay(identity, frames).value.state.generation, Replay(identity, frames).value.state.sequence)]
  {
    SignedMemory(identity, w, v);
    hide OpenStore, Replay, Safe, Step, Committed, ValidIdentity, Fits;
    SignedSafe(identity, w, v);
    UpIsCommitted(identity, v);
    OpenCommitted(v.journal.phase.frames);
  }

  lemma SignedMemory(identity: Identity, w: World, v: World)
    requires ValidIdentity(identity) && Step(identity, w, Signed, v)
    ensures v.memory.Some? && v.signed == w.signed + [(v.memory.value.generation, v.memory.value.sequence)]
  {
    hide C.Step, EncodeEvent, ValidIdentity, RecordStep, RecordCutStep, ReopenStep, FoundStep, FoundCutStep, CompactsTo;
  }

  lemma UpIsCommitted(identity: Identity, w: World)
    requires Safe(identity, w) && w.memory.Some?
    ensures w.journal.phase.Up? && Fits(w.journal.phase.frames) && w.journal.store == Committed(w.journal.phase.frames)
    ensures Replay(identity, w.journal.phase.frames).Ok? && w.memory == Some(Replay(identity, w.journal.phase.frames).value.state)
  {
    hide Replay, Covers, Increasing, Image, IsReachable;
  }

  /** A process that went down comes up again: what it opens replays, or nothing
      was ever founded. Only a cut compaction can be refused, as a rollback, and a
      first opening cut inside the header, as an invalid one; and then nothing is
      signed. */
  lemma SafeReopens(identity: Identity, w: World)
    requires Safe(identity, w) && w.memory.None?
    ensures OpenStore(w.journal.store).Ok? ==>
              var frames := OpenStore(w.journal.store).value.frames;
              if frames == [] then w.signed == [] else Replay(identity, frames).Ok?
    ensures OpenStore(w.journal.store) == Err(Rollback) ==> w.journal.phase.Down? && w.journal.phase.replacing
    ensures OpenStore(w.journal.store).Err? && OpenStore(w.journal.store) != Err(Rollback) ==>
              OpenStore(w.journal.store) == Err(InvalidHeader) && w.journal.phase.Fresh? && 0 < |w.journal.store.file| < |JOURNAL_MAGIC|
  {
    hide OpenStore, C.Sound, Covers, Increasing, ReplayFirst, ReplayFrame;
    C.SoundOpens(w.journal);
    EmptyFails(identity);
  }
}
