/** What the founder's device, which holds the root secret, keeps over its whole
    life: its revocation serial counts its revoked nodes, all of them members
    other than itself. */
module RootRuns {
  import opened Prelude
  import opened Contacts
  import opened Sorting
  import opened JournalStore
  import C = JournalCrash
  import opened StateEvents
  import opened StateReplay
  import opened StateRuns
  import R = Revocation
  import G = RevocationGossip

  // ---------- members and revoked nodes ----------

  /** Each other member is in the list once, and the list is in serial order. */
  lemma {:induction false} MembersElements(identity: Identity, local: SignedMembership, issued: seq<SignedMembership>)
    requires IssuedInOrder(identity, local, issued)
    ensures var members := MembersOf(local, issued);
            && MemberNode(local) in members && members[MemberNode(local)] == local
            && |members| <= MAX_HIVE_MEMBERS
            && (forall n :: n in members ==> MemberNode(members[n]) == n)
            && (forall m :: m in issued <==> MemberNode(m) in members && members[MemberNode(m)] == m && MemberNode(m) != MemberNode(local))
    decreases |issued|
  {
    hide ReplayableMember;
    if issued != [] {
      var before, last := issued[..|issued| - 1], issued[|issued| - 1];
      MembersElements(identity, local, before);
      assert issued == before + [last];
      var members, members' := MembersOf(local, before), MembersOf(local, issued);
      assert members'.Keys == members.Keys + {MemberNode(last)};
      assert |members'| == |members'.Keys| == |members.Keys| + 1;
    }
  }

  lemma LocalNode(identity: Identity, local: SignedMembership)
    requires LocalMember(identity, local)
    ensures MemberNode(local) == identity.node
  {
    hide ReplayableMember;
  }

  lemma ReachableShape(identity: Identity, s: Snapshot)
    requires IsReachable(identity, s)
    ensures |s.members| <= MAX_HIVE_MEMBERS && identity.node in s.members
    ensures R.ValidateShape(s.revocations.list).Ok? && R.Typed(s.revocations.list)
    ensures s.revocations.list.hive == HIVE_OF_ROOT(identity.rootKey)
  {
    hide IssuedInOrder, MembersOf, LocalMember, R.ValidateShape, R.Typed;
    var local, issued :| Reachable(identity, s, local, issued);
    assert Reachable(identity, s, local, issued);
    LocalNode(identity, local);
    MembersElements(identity, local, issued);
  }

  /** The serial counts the revoked nodes, which are members other than the root. */
  predicate RevokedAreMembers(identity: Identity, s: Snapshot) {
    && s.revocations.list.serial == |s.revocations.list.revokedNodes|
    && forall n :: n in s.revocations.list.revokedNodes ==> n in s.members && n != identity.node
  }

  /** Fewer nodes are revoked than there are members. */
  lemma RevokedBelowMembers(identity: Identity, s: Snapshot)
    requires IsReachable(identity, s) && RevokedAreMembers(identity, s)
    ensures |s.revocations.list.revokedNodes| < |s.members| <= MAX_HIVE_MEMBERS
  {
    hide IsReachable;
    ReachableShape(identity, s);
    var nodes := s.revocations.list.revokedNodes;
    var revoked := NodeSet(nodes);
    AscendingLength(nodes);
    var others := s.members.Keys - {identity.node};
    assert revoked <= others;
    SubsetSize(revoked, others);
    assert |others| == |s.members| - 1;
  }

  function NodeSet(nodes: seq<nat>): set<nat> {
    set n | n in nodes
  }

  lemma {:induction false} AscendingLength(nodes: seq<nat>)
    requires R.StrictlyAscending(nodes)
    ensures |NodeSet(nodes)| == |nodes|
    decreases |nodes|
  {
    if nodes != [] {
      var before, last := nodes[..|nodes| - 1], nodes[|nodes| - 1];
      AscendingLength(before);
      assert last !in NodeSet(before);
      assert NodeSet(nodes) == NodeSet(before) + {last};
    }
  }

  /** The shape of the next list: only its size could be refused. */
  lemma NextShape(identity: Identity, s: Snapshot, node: NodeId, issuedAt: nat)
    requires IsReachable(identity, s) && node !in s.revocations.list.revokedNodes
    ensures var next := G.NextList(s.revocations.list, node, issuedAt);
            && |next.revokedNodes| == |s.revocations.list.revokedNodes| + 1
            && (forall n :: n in next.revokedNodes <==> n in s.revocations.list.revokedNodes || n == node)
            && (R.ValidateShape(next).Ok? <==> |next.revokedNodes| <= R.MAX_REVOKED_NODES)
            && (IsId(node) && issuedAt <= U64_MAX && s.revocations.list.serial < U64_MAX ==> R.Typed(next))
  {
    hide IsReachable, IsId, SortBy;
    ReachableShape(identity, s);
    G.NextListShape(s.revocations.list, node, issuedAt);
    var next := G.NextList(s.revocations.list, node, issuedAt);
    forall i | 0 <= i < |next.revokedNodes| ensures IsId(node) ==> IsId(next.revokedNodes[i]) {
      assert next.revokedNodes[i] in next.revokedNodes;
    }
  }

  lemma StillCounts(identity: Identity, before: Snapshot, node: NodeId, issuedAt: nat, after: Snapshot)
    requires IsReachable(identity, before) && node in before.members && node != identity.node
    requires node !in before.revocations.list.revokedNodes
    requires after.members == before.members && after.revocations.list == G.NextList(before.revocations.list, node, issuedAt)
    ensures RevokedAreMembers(identity, before) ==> RevokedAreMembers(identity, after)
  {
    hide IsReachable, SortBy;
    NextShape(identity, before, node, issuedAt);
  }

  // ---------- what the root persists ----------

  /** A revocation the root makes: one more member, other than itself. */
  ghost predicate RootRevokes(identity: Identity, s: Snapshot, r: R.SignedRevocations) {
    exists node :: node in s.members && node != identity.node && node !in s.revocations.list.revokedNodes
                   && r.list == G.NextList(s.revocations.list, node, r.list.issuedAt)
  }

  ghost predicate RootEvent(identity: Identity, s: Snapshot, event: Event) {
    event.RevocationsReplaced? ==> RootRevokes(identity, s, event.revocations)
  }

  /** A founder event revokes nothing. */
  predicate FounderEvent(genesis: Event) {
    genesis.Genesis? && genesis.revocations.list.serial == 0
  }

  ghost predicate RootAction(identity: Identity, w: World, action: Action) {
    match action
    case Founded(genesis) => FounderEvent(genesis)
    case FoundCut(genesis) => FounderEvent(genesis)
    case Recorded(event) => w.memory.Some? && RootEvent(identity, w.memory.value, event)
    case RecordCut(event) => w.memory.Some? && RootEvent(identity, w.memory.value, event)
    case _ => true
  }

  lemma FounderCounts(identity: Identity, genesis: Event)
    requires ReplayGenesis(identity, genesis).Ok? && FounderEvent(genesis)
    ensures RevokedAreMembers(identity, ReplayGenesis(identity, genesis).value.state)
  {
    hide MembershipVerify, G.LIST_SIGNED;
  }

  /** Every event the root persists keeps the count. */
  lemma RootEventCounts(identity: Identity, s: Snapshot, event: Event)
    requires IsReachable(identity, s) && RevokedAreMembers(identity, s) && RootEvent(identity, s, event)
    requires ApplyEvent(identity, s, event).Ok?
    ensures RevokedAreMembers(identity, ApplyEvent(identity, s, event).value)
  {
    hide IsReachable, MembershipVerify, G.VerifySnapshot, G.Extends, G.NextList;
    if event.RevocationsReplaced? {
      var r := event.revocations;
      var node :| node in s.members && node != identity.node && node !in s.revocations.list.revokedNodes
                  && r.list == G.NextList(s.revocations.list, node, r.list.issuedAt);
      StillCounts(identity, s, node, r.list.issuedAt, ApplyEvent(identity, s, event).value);
    }
  }

  // ---------- every run ----------

  /** Whatever opening can find replays to a state that counts. */
  ghost predicate Counts(identity: Identity, frames: seq<Bytes>) {
    Replay(identity, frames).Ok? ==> RevokedAreMembers(identity, Replay(identity, frames).value.state)
  }

  ghost predicate RootSafe(identity: Identity, w: World) {
    Safe(identity, w) && AllCount(identity, w.journal.phase)
  }

  lemma NothingIsRootSafe(identity: Identity)
    ensures RootSafe(identity, World(C.Run(Store([], None), C.Fresh), None, []))
  {
    hide Safe, ReplayFrame;
    NothingIsSafe(identity);
  }

  lemma MemoryCounts(identity: Identity, w: World)
    requires RootSafe(identity, w) && w.memory.Some?
    ensures IsReachable(identity, w.memory.value) && RevokedAreMembers(identity, w.memory.value)
    ensures w.journal.phase.Up? && Accounts(identity, w.journal.phase.frames, w.signed)
    ensures w.memory == Some(Replay(identity, w.journal.phase.frames).value.state) && Covers(w.memory.value, w.signed)
  {
    hide C.Sound, Replay, RevokedAreMembers, IsReachable, Increasing, Covers;
    assert w.journal.phase.frames in C.Candidates(w.journal.phase);
  }

  lemma EventCounts(identity: Identity, w: World, event: Event)
    requires RootSafe(identity, w) && w.memory.Some? && RootEvent(identity, w.memory.value, event)
    requires Persistable(identity, w.memory.value, event)
    ensures w.journal.phase.Up? && Counts(identity, w.journal.phase.frames + [EncodeEvent(event)])
  {
    MemoryCounts(identity, w);
    hide Replay, EncodeEvent, RevokedAreMembers, IsReachable, ApplyEvent, GoodEvent, RootEvent, Covers, RootSafe;
    RootEventCounts(identity, w.memory.value, event);
    AppendAccounts(identity, w.journal.phase.frames, w.signed, event);
  }

  lemma CompactionCounts(identity: Identity, w: World, frames: seq<Bytes>)
    requires ValidIdentity(identity) && RootSafe(identity, w) && w.memory.Some? && CompactsTo(identity, w.memory.value, frames)
    ensures Counts(identity, frames)
  {
    hide Replay, CompactsTo, IsReachable, ValidIdentity, RootSafe, Accounts, Covers;
    MemoryCounts(identity, w);
    CompactAccounts(identity, w.memory.value, frames, w.signed);
  }

  lemma GenesisCounts(identity: Identity, genesis: Event)
    requires GoodEvent(genesis) && ReplayGenesis(identity, genesis).Ok? && FounderEvent(genesis)
    ensures Counts(identity, [EncodeEvent(genesis)])
  {
    hide EncodeEvent, GoodEvent, Replay, ReplayGenesis, RevokedAreMembers;
    GenesisAccounts(identity, genesis);
    FounderCounts(identity, genesis);
  }

  ghost predicate AllCount(identity: Identity, phase: C.Phase) {
    forall f :: f in C.Candidates(phase) ==> Counts(identity, f)
  }

  /** What a step adds to the frame lists opening can find. */
  ghost predicate Adds(identity: Identity, phase: C.Phase, event: C.Event) {
    match event
    case Appended(batch) => forall f :: f in C.Candidates(phase) ==> Counts(identity, f + batch)
    case AppendCut(batch) => forall f :: f in C.Candidates(phase) ==> Counts(identity, f + batch)
    case AppendedOver(frames, batch) => Counts(identity, frames + batch)
    case AppendOverCut(frames, batch) => Counts(identity, frames + batch)
    case Compacted(payloads) => Counts(identity, payloads)
    case CompactCut(payloads) => Counts(identity, payloads)
    case Rewritten(payloads) => Counts(identity, payloads)
    case RewriteCut(payloads) => Counts(identity, payloads)
    case _ => true
  }

  lemma StepCounts(identity: Identity, s: C.Run, event: C.Event, t: C.Run)
    requires C.Sound(s) && C.Step(s, event, t) && AllCount(identity, s.phase) && Adds(identity, s.phase, event)
    ensures AllCount(identity, t.phase)
  {
    hide C.Sound, C.Step, Counts, C.Candidates;
    forall f | f in C.Candidates(t.phase) ensures Counts(identity, f) {
      var from := C.FirstStep(s, event, t, f);
    }
  }

  lemma RootStepSafe(identity: Identity, w: World, action: Action, v: World)
    requires ValidIdentity(identity) && RootSafe(identity, w) && Step(identity, w, action, v) && RootAction(identity, w, action)
    ensures RootSafe(identity, v)
  {
    hide C.Sound, C.Step, Accounts, Explained, Increasing, Replay, Counts, EncodeEvent, CompactsTo, ApplyEvent, GoodEvent, OpenStore,
         ValidIdentity, ReplayGenesis, RootEvent, FounderEvent;
    StepSafe(identity, w, action, v);
    match action
    case Founded(genesis) => FoundedCounts(identity, w, C.Appended([EncodeEvent(genesis)]), v, genesis);
    case FoundCut(genesis) => FoundedCounts(identity, w, C.AppendCut([EncodeEvent(genesis)]), v, genesis);
    case Signed => RootSigns(identity, w, v);
    case Recorded(event) =>
      EventCounts(identity, w, event);
      StepCounts(identity, w.journal, C.Appended([EncodeEvent(event)]), v.journal);
    case RecordCut(event) =>
      EventCounts(identity, w, event);
      StepCounts(identity, w.journal, C.AppendCut([EncodeEvent(event)]), v.journal);
    case Compacted =>
      var frames :| CompactsTo(identity, w.memory.value, frames) && C.Step(w.journal, C.Compacted(frames), v.journal)
                    && v.memory == Some(w.memory.value.(eventCount := |frames|));
      CompactionCounts(identity, w, frames);
      StepCounts(identity, w.journal, C.Compacted(frames), v.journal);
    case CompactCut =>
      var frames :| CompactsTo(identity, w.memory.value, frames) && C.Step(w.journal, C.CompactCut(frames), v.journal);
      CompactionCounts(identity, w, frames);
      StepCounts(identity, w.journal, C.CompactCut(frames), v.journal);
    case Stopped => StepCounts(identity, w.journal, C.Stopped, v.journal);
    case Reopened => StepCounts(identity, w.journal, C.Reopened, v.journal);
    case ReopenCut => StepCounts(identity, w.journal, C.ReopenCut, v.journal);
  }

  lemma FoundedCounts(identity: Identity, w: World, event: C.Event, v: World, genesis: Event)
    requires Safe(identity, w) && Foundable(identity, w, genesis) && FounderEvent(genesis)
    requires event == C.Appended([EncodeEvent(genesis)]) || event == C.AppendCut([EncodeEvent(genesis)])
    requires C.Step(EmptyRun(w), event, v.journal)
    ensures AllCount(identity, v.journal.phase)
  {
    hide C.Sound, C.Step, EncodeEvent, GoodEvent, OpenStore, ReplayGenesis, RevokedAreMembers, Replay, Safe, FounderEvent, Committed;
    FoundableUnsigned(identity, w, genesis);
    GenesisCounts(identity, genesis);
    EmptyFails(identity);
    assert [] + [EncodeEvent(genesis)] == [EncodeEvent(genesis)];
    StepCounts(identity, EmptyRun(w), event, v.journal);
  }

  lemma RootSigns(identity: Identity, w: World, v: World)
    requires RootSafe(identity, w) && SignStep(w, v)
    ensures AllCount(identity, v.journal.phase)
  {
    hide C.Sound, C.Step, Counts, EncodeEvent, Accounts, Explained, Increasing, Replay;
    var event := NextSequence(w.memory.value);
    assert Persistable(identity, w.memory.value, event);
    EventCounts(identity, w, event);
    StepCounts(identity, w.journal, C.Appended([EncodeEvent(event)]), v.journal);
  }

  /** Over every run in which a device that holds the root persists only what it
      itself makes, and whatever fails, crashes and reopens on the way: the state
      in memory revokes fewer nodes than it has members, so the limit of 256 is
      never met, and its serial is their number. */
  lemma {:induction false} RootRunCounts(identity: Identity, worlds: seq<World>, actions: seq<Action>)
    requires ValidIdentity(identity) && Run(identity, worlds, actions) && RootSafe(identity, worlds[0])
    requires forall i :: 0 <= i < |actions| ==> RootAction(identity, worlds[i], actions[i])
    ensures forall w :: w in worlds ==> RootSafe(identity, w)
    ensures forall w :: w in worlds && w.memory.Some? ==>
              var s := w.memory.value;
              && s.revocations.list.serial == |s.revocations.list.revokedNodes| < |s.members| <= MAX_HIVE_MEMBERS
              && forall n :: n in s.revocations.list.revokedNodes ==> n in s.members && n != identity.node
    decreases |actions|
  {
    hide Step, RootSafe, RootAction, IsReachable, ValidIdentity, Accounts, Covers;
    if actions == [] {
      assert worlds == [worlds[0]];
    } else {
      RootStepSafe(identity, worlds[0], actions[0], worlds[1]);
      var rest := worlds[1..];
      assert Run(identity, rest, actions[1..]);
      assert forall i :: 0 <= i < |actions[1..]| ==> rest[i] == worlds[i + 1] && actions[1..][i] == actions[i + 1];
      RootRunCounts(identity, rest, actions[1..]);
      assert worlds == [worlds[0]] + rest;
    }
    RootCounts(identity, worlds[0]);
  }

  lemma RootCounts(identity: Identity, w: World)
    requires RootSafe(identity, w)
    ensures w.memory.Some? ==>
              var s := w.memory.value;
              && s.revocations.list.serial == |s.revocations.list.revokedNodes| < |s.members| <= MAX_HIVE_MEMBERS
              && forall n :: n in s.revocations.list.revokedNodes ==> n in s.members && n != identity.node
  {
    hide RootSafe, IsReachable, Accounts, Covers;
    if w.memory.Some? {
      MemoryCounts(identity, w);
      RevokedBelowMembers(identity, w.memory.value);
    }
  }

  /** Merging on the root persists nothing: every snapshot its key signed is one of
      its own chain, of which it holds the last. */
  lemma RootMergeIsIdle(chain: seq<R.SignedRevocations>, root: Key, i: nat)
    requires G.RootRun(chain, root) && i < |chain|
    ensures G.Merge(chain[|chain| - 1], chain[i], root) == Ok(false)
  {
    hide G.RootRun, G.Merge;
    G.MergeInChain(chain, root, |chain| - 1, i);
  }

  // ---------- several steps ----------

  /** Some steps lead from one world to the other; when `root`, only such as the
      root makes. */
  ghost predicate Leads(identity: Identity, w: World, v: World, root: bool)
    requires ValidIdentity(identity)
  {
    exists worlds, actions :: Trace(identity, worlds, actions, root) && worlds[0] == w && worlds[|actions|] == v
  }

  ghost predicate Trace(identity: Identity, worlds: seq<World>, actions: seq<Action>, root: bool)
    requires ValidIdentity(identity)
  {
    && |worlds| == |actions| + 1 && Run(identity, worlds, actions)
    && (root ==> forall i :: 0 <= i < |actions| ==> RootAction(identity, worlds[i], actions[i]))
  }

  lemma LeadsNowhere(identity: Identity, w: World)
    requires ValidIdentity(identity)
    ensures Leads(identity, w, w, true)
  {
    hide Step, RootAction, ValidIdentity;
    assert Trace(identity, [w], [], true);
  }

  lemma LeadsOn(identity: Identity, w: World, v: World, root: bool, action: Action, u: World, root': bool)
    requires ValidIdentity(identity) && Leads(identity, w, v, root) && Step(identity, v, action, u)
    requires root' ==> root && RootAction(identity, v, action)
    ensures Leads(identity, w, u, root')
  {
    hide Step, RootAction, ValidIdentity;
    var worlds, actions :| Trace(identity, worlds, actions, root) && worlds[0] == w && worlds[|actions|] == v;
    var worlds', actions' := worlds + [u], actions + [action];
    forall i | 0 <= i < |actions'| ensures Step(identity, worlds'[i], actions'[i], worlds'[i + 1]) {
      if i < |actions| {
        assert Step(identity, worlds[i], actions[i], worlds[i + 1]);
      }
    }
    assert Trace(identity, worlds', actions', root');
  }

  /** Whatever leads on from a safe world is safe, and so for the root. */
  lemma LeadsSafe(identity: Identity, w: World, v: World, root: bool)
    requires ValidIdentity(identity) && Leads(identity, w, v, root)
    ensures Safe(identity, w) ==> Safe(identity, v)
    ensures root && RootSafe(identity, w) ==> RootSafe(identity, v)
  {
    hide Run, Safe, RootSafe, RootAction, ValidIdentity;
    var worlds, actions :| Trace(identity, worlds, actions, root) && worlds[0] == w && worlds[|actions|] == v;
    assert worlds[|actions|] in worlds;
    if Safe(identity, w) {
      NoSequenceIsSignedTwice(identity, worlds, actions);
    }
    if root && RootSafe(identity, w) {
      RootRunCounts(identity, worlds, actions);
    }
  }

  lemma LeadsWeakly(identity: Identity, w: World, v: World, root: bool)
    requires ValidIdentity(identity) && Leads(identity, w, v, true)
    ensures Leads(identity, w, v, root)
  {
    hide Run, RootAction, ValidIdentity;
    var worlds, actions :| Trace(identity, worlds, actions, true) && worlds[0] == w && worlds[|actions|] == v;
    assert Trace(identity, worlds, actions, root);
  }

  lemma LeadsLess(identity: Identity, w: World, v: World, root: bool)
    requires ValidIdentity(identity) && Leads(identity, w, v, root)
    ensures Leads(identity, w, v, false)
  {
    hide Run, RootAction, ValidIdentity;
    var worlds, actions :| Trace(identity, worlds, actions, root) && worlds[0] == w && worlds[|actions|] == v;
    assert Trace(identity, worlds, actions, false);
  }

  lemma LeadsThrough(identity: Identity, w: World, v: World, u: World, root: bool)
    requires ValidIdentity(identity) && Leads(identity, w, v, true) && Leads(identity, v, u, root)
    ensures Leads(identity, w, u, root)
  {
    hide Step, RootAction, ValidIdentity;
    var a, x :| Trace(identity, a, x, true) && a[0] == w && a[|x|] == v;
    var b, y :| Trace(identity, b, y, root) && b[0] == v && b[|y|] == u;
    var worlds, actions := a + b[1..], x + y;
    forall i | 0 <= i < |actions|
      ensures Step(identity, worlds[i], actions[i], worlds[i + 1]) && (root ==> RootAction(identity, worlds[i], actions[i]))
    {
      if i < |x| {
        assert Step(identity, a[i], x[i], a[i + 1]) && RootAction(identity, a[i], x[i]);
      } else {
        assert Step(identity, b[i - |x|], y[i - |x|], b[i - |x| + 1]);
      }
    }
    assert Trace(identity, worlds, actions, root);
  }

  lemma StopLeads(identity: Identity, w: World, u: World, v: World, root: bool)
    requires ValidIdentity(identity) && Leads(identity, w, u, true) && Step(identity, u, Stopped, v)
    ensures Leads(identity, w, v, root)
  {
    hide Step, Leads, ValidIdentity;
    LeadsOn(identity, w, u, true, Stopped, v, true);
    LeadsWeakly(identity, w, v, root);
  }

  lemma CutLeads(identity: Identity, w: World, u: World, event: Event, v: World)
    requires ValidIdentity(identity) && Leads(identity, w, u, true) && RecordCutStep(identity, u, event, v)
    ensures u.memory.Some? && Leads(identity, w, v, RootEvent(identity, u.memory.value, event))
  {
    hide C.Step, ApplyEvent, EncodeEvent, GoodEvent, Leads, ValidIdentity, RootEvent;
    assert Step(identity, u, RecordCut(event), v);
    LeadsOn(identity, w, u, true, RecordCut(event), v, RootEvent(identity, u.memory.value, event));
  }

  lemma RecordLeads(identity: Identity, w: World, u: World, event: Event, v: World)
    requires ValidIdentity(identity) && Leads(identity, w, u, true) && RecordStep(identity, u, event, v)
    ensures u.memory.Some? && Leads(identity, w, v, RootEvent(identity, u.memory.value, event))
  {
    hide C.Step, ApplyEvent, EncodeEvent, GoodEvent, Leads, ValidIdentity, RootEvent;
    assert Step(identity, u, Recorded(event), v);
    LeadsOn(identity, w, u, true, Recorded(event), v, RootEvent(identity, u.memory.value, event));
  }

  lemma SequenceIsRoot(identity: Identity, s: Snapshot)
    ensures RootEvent(identity, s, NextSequence(s))
  {
  }

  /** A reserved sequence, signed with or not. */
  lemma SequenceLeads(identity: Identity, w: World, u: World, s: Snapshot, v: World, signs: bool)
    requires ValidIdentity(identity) && Leads(identity, w, u, true) && u.memory == Some(s)
    requires if signs then SignStep(u, v) else RecordStep(identity, u, NextSequence(s), v)
    ensures Leads(identity, w, v, true) && (Safe(identity, w) ==> Safe(identity, v))
  {
    hide Leads, ValidIdentity, SignStep, RecordStep, Safe;
    if signs {
      assert Step(identity, u, Signed, v);
      LeadsOn(identity, w, u, true, Signed, v, true);
    } else {
      RecordLeads(identity, w, u, NextSequence(s), v);
      SequenceIsRoot(identity, s);
    }
    LeadsSafe(identity, w, v, true);
  }

  lemma ReopenLeads(identity: Identity, w: World, v: World)
    requires ValidIdentity(identity) && ReopenStep(identity, w, v)
    ensures Leads(identity, w, v, true)
  {
    hide Leads, ValidIdentity, ReopenStep, SignStep, RecordStep, RecordCutStep, FoundStep, FoundCutStep, CompactsTo;
    LeadsNowhere(identity, w);
    assert Step(identity, w, Reopened, v);
    LeadsOn(identity, w, w, true, Reopened, v, true);
  }

  lemma FoundingLeads(identity: Identity, w: World, genesis: Event, v: World)
    requires ValidIdentity(identity) && FoundStep(identity, w, genesis, v) && FounderEvent(genesis)
    ensures Leads(identity, w, v, true)
  {
    hide Leads, ValidIdentity, ReopenStep, SignStep, RecordStep, RecordCutStep, FoundStep, FoundCutStep, CompactsTo;
    LeadsNowhere(identity, w);
    assert Step(identity, w, Founded(genesis), v);
    LeadsOn(identity, w, w, true, Founded(genesis), v, true);
  }

  lemma FoundingCutLeads(identity: Identity, w: World, genesis: Event, v: World)
    requires ValidIdentity(identity) && FoundCutStep(identity, w, genesis, v) && FounderEvent(genesis)
    ensures Leads(identity, w, v, true)
  {
    hide Leads, ValidIdentity, ReopenStep, SignStep, RecordStep, RecordCutStep, FoundStep, FoundCutStep, CompactsTo;
    LeadsNowhere(identity, w);
    assert Step(identity, w, FoundCut(genesis), v);
    LeadsOn(identity, w, w, true, FoundCut(genesis), v, true);
  }
}
