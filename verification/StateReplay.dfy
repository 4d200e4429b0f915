/** Replaying the authoritative journal, and the snapshot compaction writes. */
module StateReplay {
  import opened Prelude
  import opened Contacts
  import opened StateEvents
  import R = Revocation
  import G = RevocationGossip

  /** The root secret, as what it signs. */
  datatype RootSecret = RootSecret(
    signCertificate: Certificate -> Signature,
    signList: R.RevocationList -> Signature)

  /** The protected local identity; only the founder holds the root secret. */
  datatype Identity = Identity(
    hive: HiveId,
    node: NodeId,
    deviceKey: Key,
    rootKey: Key,
    root: Option<RootSecret>,
    signMark: Mark -> Signature)

  /** Whether a device signature verifies over a checkpoint mark. */
  const MARK_SIGNED: (Key, Mark, Signature) -> bool

  /** The digest of the frames a checkpoint stands for. */
  const SNAPSHOT_HASH: FramesHash

  type FramesHash = f: seq<Bytes> -> Bytes | forall x :: |f(x)| == 32 witness (x => seq(32, _ => 0))

  function SnapshotDigest(frames: seq<Bytes>): (digest: Bytes)
    ensures |digest| == 32
  {
    SNAPSHOT_HASH(frames)
  }

  /** The stored secrets belong to the stored public keys. */
  ghost predicate ValidIdentity(identity: Identity) {
    && IsId(identity.hive) && IsId(identity.node) && |identity.deviceKey| == 32
    && identity.hive == HIVE_OF_ROOT(identity.rootKey) && identity.node == NODE_OF_KEY(identity.deviceKey)
    && (forall mark :: |identity.signMark(mark)| == 64 && MARK_SIGNED(identity.deviceKey, mark, identity.signMark(mark)))
    && (identity.root.Some? ==>
          var root := identity.root.value;
          && (forall c :: |root.signCertificate(c)| == 64 && CERTIFICATE_SIGNED(identity.rootKey, c, root.signCertificate(c)))
          && (forall l :: |root.signList(l)| == 64 && G.LIST_SIGNED(identity.rootKey, l, root.signList(l))))
  }

  type Members = map<NodeId, SignedMembership>

  /** The state in memory. */
  datatype Snapshot = Snapshot(
    members: Members,
    revocations: R.SignedRevocations,
    generation: nat,
    sequence: nat,
    lastSerial: nat,
    eventCount: nat)

  datatype Replayed = Replayed(state: Snapshot, checkpointed: bool)

  // ---------- replay ----------

  function Serial(m: SignedMembership): nat { m.certificate.serial }
  function MemberNode(m: SignedMembership): NodeId { m.certificate.node }

  /** The founder event fixes identity, membership and revocations. */
  function ReplayGenesis(identity: Identity, event: Event): Result<Replayed, StateError> {
    if !event.Genesis? then Err(InvalidGenesis)
    else if MembershipVerify(event.membership, identity.rootKey).Some? then Err(BadMembership)
    else if G.VerifySnapshot(event.revocations, identity.rootKey).Err? then Err(BadRevocations)
    else
      var c := event.membership.certificate;
      if c.hive != identity.hive || c.node != identity.node || c.deviceKey != identity.deviceKey then Err(IdentityMismatch)
      else Ok(Replayed(Snapshot(map[c.node := event.membership], event.revocations, 0, 0, c.serial, 1), false))
  }

  /** Every later event must be the exact next step. */
  function ApplyEvent(identity: Identity, s: Snapshot, event: Event): Result<Snapshot, StateError> {
    match event
    case Genesis(_, _) => Err(InvalidGenesis)
    case Checkpoint(_, _) => Err(InvalidCheckpoint)
    case SequenceReserved(generation, sequence) =>
      if generation != s.generation then Err(InvalidSequence)
      else if s.sequence >= U64_MAX then Err(CounterExhausted)
      else if sequence != s.sequence + 1 then Err(InvalidSequence)
      else Ok(s.(sequence := sequence, eventCount := s.eventCount + 1))
    case MembershipIssued(m) =>
      if MembershipVerify(m, identity.rootKey).Some? then Err(BadMembership)
      else if s.lastSerial >= U64_MAX then Err(CounterExhausted)
      else if Serial(m) != s.lastSerial + 1 then Err(InvalidMembershipSerial)
      else if |s.members| >= MAX_HIVE_MEMBERS then Err(HiveFull)
      else if MemberNode(m) in s.members then Err(DuplicateMember)
      else Ok(s.(members := s.members[MemberNode(m) := m], lastSerial := Serial(m), eventCount := s.eventCount + 1))
    case RevocationsReplaced(r) =>
      if G.VerifySnapshot(r, identity.rootKey).Err? then Err(BadRevocations)
      else if r.list.serial <= s.revocations.list.serial || !G.Extends(r, s.revocations) then Err(StateError.RevocationRollback)
      else Ok(s.(revocations := r, eventCount := s.eventCount + 1))
  }

  /** A checkpoint is taken once, before any sequence, and only if it was signed
      over exactly the frames before it. */
  function ApplyCheckpoint(identity: Identity, prev: Replayed, mark: Mark, signature: Bytes, before: seq<Bytes>): Result<Replayed, StateError> {
    if prev.checkpointed || prev.state.sequence != 0 || mark.generation != prev.state.generation then Err(InvalidCheckpoint)
    else if mark.hive != identity.hive || mark.node != identity.node then Err(IdentityMismatch)
    else if SnapshotDigest(before) != mark.digest || !MARK_SIGNED(identity.deviceKey, mark, signature) then Err(InvalidCheckpoint)
    else Ok(Replayed(prev.state.(sequence := mark.sequence, eventCount := prev.state.eventCount + 1), true))
  }

  function ReplayFrame(identity: Identity, prev: Replayed, frame: Bytes, before: seq<Bytes>): Result<Replayed, StateError> {
    match DecodeEvent(frame)
    case Err(error) => Err(error)
    case Ok(event) =>
      if event.Checkpoint? then ApplyCheckpoint(identity, prev, event.mark, event.signature, before)
      else match ApplyEvent(identity, prev.state, event)
           case Err(error) => Err(error)
           case Ok(state) => Ok(prev.(state := state))
  }

  /** The state after all of `frames`. */
  function Replay(identity: Identity, frames: seq<Bytes>): Result<Replayed, StateError>
    decreases |frames|
  {
    if frames == [] then Err(MissingGenesis)
    else if |frames| == 1 then ReplayFirst(identity, frames[0])
    else
      match Replay(identity, frames[..|frames| - 1])
      case Err(error) => Err(error)
      case Ok(prev) => ReplayFrame(identity, prev, frames[|frames| - 1], frames[..|frames| - 1])
  }

  /** The founder event, decoded and applied. */
  function ReplayFirst(identity: Identity, frame: Bytes): Result<Replayed, StateError> {
    match DecodeEvent(frame)
    case Err(error) => Err(error)
    case Ok(event) => ReplayGenesis(identity, event)
  }

  /** The loop over the frames. */
  method ReplayFrames(identity: Identity, frames: seq<Bytes>) returns (result: Result<Replayed, StateError>)
    ensures result == Replay(identity, frames)
  {
    hide ReplayFirst, ReplayFrame, Replay;
    ReplayBase(identity, frames);
    if frames == [] {
      return Err(MissingGenesis);
    }
    result := ReplayFirst(identity, frames[0]);
    var i := 1;
    while result.Ok? && i < |frames|
      invariant 1 <= i <= |frames|
      invariant result == Replay(identity, frames[..i])
    {
      ReplayNext(identity, frames, i);
      result := ReplayFrame(identity, result.value, frames[i], frames[..i]);
      i := i + 1;
    }
    if result.Err? {
      ReplayStuck(identity, frames, i);
    } else {
      assert frames[..i] == frames;
    }
  }

  lemma ReplayBase(identity: Identity, frames: seq<Bytes>)
    ensures frames == [] ==> Replay(identity, frames) == Err(MissingGenesis)
    ensures frames != [] ==> Replay(identity, frames[..1]) == ReplayFirst(identity, frames[0])
  {
    hide ReplayFirst, ReplayFrame;
  }

  lemma ReplayNext(identity: Identity, frames: seq<Bytes>, i: nat)
    requires 1 <= i < |frames| && Replay(identity, frames[..i]).Ok?
    ensures Replay(identity, frames[..i + 1]) == ReplayFrame(identity, Replay(identity, frames[..i]).value, frames[i], frames[..i])
  {
    hide ReplayFirst, ReplayFrame;
    var prefix := frames[..i + 1];
    assert prefix[..|prefix| - 1] == frames[..i];
  }

  /** An error in a prefix is the error of the whole. */
  lemma {:induction false} ReplayStuck(identity: Identity, frames: seq<Bytes>, i: nat)
    requires 1 <= i <= |frames| && Replay(identity, frames[..i]).Err?
    ensures Replay(identity, frames) == Replay(identity, frames[..i])
    decreases |frames|
  {
    hide ReplayFirst, ReplayFrame;
    if i == |frames| {
      assert frames[..i] == frames;
    } else {
      var shorter := frames[..|frames| - 1];
      assert shorter[..i] == frames[..i];
      ReplayStuck(identity, shorter, i);
    }
  }

  /** Replaying one more good event that is the next step gives the next state. */
  lemma ReplayAppend(identity: Identity, frames: seq<Bytes>, prev: Replayed, event: Event)
    requires Replay(identity, frames) == Ok(prev) && GoodEvent(event) && !event.Checkpoint?
    requires ApplyEvent(identity, prev.state, event).Ok?
    ensures Replay(identity, frames + [EncodeEvent(event)]) == Ok(prev.(state := ApplyEvent(identity, prev.state, event).value))
  {
    hide DecodeEvent, EncodeEvent, GoodEvent, ApplyEvent, ReplayFirst;
    EventRoundTrip(event);
    var longer := frames + [EncodeEvent(event)];
    assert longer[..|longer| - 1] == frames;
  }

  lemma ReplayAppendCheckpoint(identity: Identity, frames: seq<Bytes>, prev: Replayed, mark: Mark, signature: Bytes)
    requires Replay(identity, frames) == Ok(prev) && GoodEvent(Checkpoint(mark, signature))
    ensures Replay(identity, frames + [EncodeEvent(Checkpoint(mark, signature))])
         == ApplyCheckpoint(identity, prev, mark, signature, frames)
  {
    hide DecodeEvent, EncodeEvent, GoodEvent, ApplyEvent, ReplayFirst, ApplyCheckpoint;
    EventRoundTrip(Checkpoint(mark, signature));
    var longer := frames + [EncodeEvent(Checkpoint(mark, signature))];
    assert longer[..|longer| - 1] == frames;
  }

  // ---------- reachable states ----------

  /** The member map that grows by one issued membership after the other. */
  function MembersOf(local: SignedMembership, issued: seq<SignedMembership>): Members {
    if issued == [] then map[MemberNode(local) := local]
    else
      var last := issued[|issued| - 1];
      MembersOf(local, issued[..|issued| - 1])[MemberNode(last) := last]
  }

  predicate ReplayableMember(identity: Identity, m: SignedMembership) {
    MembershipVerify(m, identity.rootKey).None? && GoodMembership(m)
  }

  predicate LocalMember(identity: Identity, m: SignedMembership) {
    && ReplayableMember(identity, m)
    && m.certificate.hive == identity.hive && MemberNode(m) == identity.node
    && m.certificate.deviceKey == identity.deviceKey
  }

  /** `issued` are all other members, in the order of their consecutive serials. */
  predicate IssuedInOrder(identity: Identity, local: SignedMembership, issued: seq<SignedMembership>)
    decreases |issued|
  {
    issued == [] ||
    (var before, last := issued[..|issued| - 1], issued[|issued| - 1];
     && IssuedInOrder(identity, local, before)
     && ReplayableMember(identity, last)
     && Serial(last) == Serial(local) + |issued|
     && MemberNode(last) !in MembersOf(local, before)
     && |MembersOf(local, before)| < MAX_HIVE_MEMBERS)
  }

  /** What holds of every state a replay or a run can reach. */
  predicate Reachable(identity: Identity, s: Snapshot, local: SignedMembership, issued: seq<SignedMembership>) {
    && LocalMember(identity, local)
    && IssuedInOrder(identity, local, issued)
    && s.members == MembersOf(local, issued)
    && s.lastSerial == Serial(local) + |issued| <= U64_MAX
    && G.VerifySnapshot(s.revocations, identity.rootKey).Ok? && GoodRevocations(s.revocations)
    && s.generation == 0 && s.sequence <= U64_MAX
  }

  ghost predicate IsReachable(identity: Identity, s: Snapshot) {
    exists local, issued :: Reachable(identity, s, local, issued)
  }

  /** Every step from a reachable state is to a reachable state. */
  lemma ApplyKeepsReachable(identity: Identity, s: Snapshot, local: SignedMembership, issued: seq<SignedMembership>, event: Event)
      returns (issued': seq<SignedMembership>)
    requires Reachable(identity, s, local, issued) && GoodEvent(event) && ApplyEvent(identity, s, event).Ok?
    ensures Reachable(identity, ApplyEvent(identity, s, event).value, local, issued')
  {
    hide MembershipVerify, G.VerifySnapshot, GoodMembership, GoodRevocations, G.Extends, LocalMember, IssuedInOrder, MembersOf;
    issued' := issued;
    if event.MembershipIssued? {
      issued' := issued + [event.membership];
      IssuedOneMore(identity, local, issued, event.membership);
    }
  }

  lemma IssuedOneMore(identity: Identity, local: SignedMembership, issued: seq<SignedMembership>, m: SignedMembership)
    requires IssuedInOrder(identity, local, issued) && ReplayableMember(identity, m) && Serial(m) == Serial(local) + |issued| + 1
    requires MemberNode(m) !in MembersOf(local, issued) && |MembersOf(local, issued)| < MAX_HIVE_MEMBERS
    ensures IssuedInOrder(identity, local, issued + [m])
    ensures MembersOf(local, issued + [m]) == MembersOf(local, issued)[MemberNode(m) := m]
  {
    hide ReplayableMember;
    assert (issued + [m])[..|issued + [m]| - 1] == issued;
  }

  lemma NextIsReachable(identity: Identity, s: Snapshot, event: Event)
    requires IsReachable(identity, s) && GoodEvent(event) && ApplyEvent(identity, s, event).Ok?
    ensures IsReachable(identity, ApplyEvent(identity, s, event).value)
  {
    hide Reachable, ApplyEvent, GoodEvent;
    var local, issued :| Reachable(identity, s, local, issued);
    var issued' := ApplyKeepsReachable(identity, s, local, issued, event);
  }

  /** Only reachable states replay. */
  lemma {:induction false} ReplayIsReachable(identity: Identity, frames: seq<Bytes>)
    requires Replay(identity, frames).Ok?
    ensures IsReachable(identity, Replay(identity, frames).value.state)
    decreases |frames|
  {
    hide DecodeEvent, ApplyEvent, ReplayGenesis, ApplyCheckpoint, Reachable;
    if |frames| == 1 {
      GenesisIsReachable(identity, DecodeEvent(frames[0]).value);
    } else {
      var before, last := frames[..|frames| - 1], frames[|frames| - 1];
      ReplayIsReachable(identity, before);
      var prev := Replay(identity, before).value;
      var event := DecodeEvent(last).value;
      if event.Checkpoint? {
        CheckpointIsReachable(identity, prev, event, before);
      } else {
        NextIsReachable(identity, prev.state, event);
      }
    }
  }

  lemma GenesisIsReachable(identity: Identity, event: Event)
    requires GoodEvent(event) && ReplayGenesis(identity, event).Ok?
    ensures IsReachable(identity, ReplayGenesis(identity, event).value.state)
  {
    hide MembershipVerify, G.VerifySnapshot, GoodMembership, GoodRevocations;
    var s := ReplayGenesis(identity, event).value.state;
    assert Serial(event.membership) <= U64_MAX by { SerialFits(event.membership); }
    assert IssuedInOrder(identity, event.membership, []);
    assert Reachable(identity, s, event.membership, []);
  }

  lemma SerialFits(m: SignedMembership)
    requires GoodMembership(m)
    ensures Serial(m) <= U64_MAX
  {
    hide CertificateShape;
  }

  lemma CheckpointIsReachable(identity: Identity, prev: Replayed, event: Event, before: seq<Bytes>)
    requires IsReachable(identity, prev.state) && GoodEvent(event) && event.Checkpoint?
    requires ApplyCheckpoint(identity, prev, event.mark, event.signature, before).Ok?
    ensures IsReachable(identity, ApplyCheckpoint(identity, prev, event.mark, event.signature, before).value.state)
  {
    hide LocalMember, IssuedInOrder, MembersOf, G.VerifySnapshot, GoodRevocations;
    var local, issued :| Reachable(identity, prev.state, local, issued);
    assert Reachable(identity, ApplyCheckpoint(identity, prev, event.mark, event.signature, before).value.state, local, issued);
  }

  // ---------- compaction ----------

  function EncodeMembers(issued: seq<SignedMembership>): seq<Bytes>
    requires forall i :: 0 <= i < |issued| ==> GoodMembership(issued[i])
  {
    if issued == [] then []
    else EncodeMembers(issued[..|issued| - 1]) + [EncodeEvent(MembershipIssued(issued[|issued| - 1]))]
  }

  lemma {:induction false} IssuedAreGood(identity: Identity, local: SignedMembership, issued: seq<SignedMembership>)
    requires IssuedInOrder(identity, local, issued)
    ensures forall i :: 0 <= i < |issued| ==> ReplayableMember(identity, issued[i]) && Serial(issued[i]) == Serial(local) + i + 1
    decreases |issued|
  {
    hide ReplayableMember, MembersOf;
    if issued != [] {
      IssuedAreGood(identity, local, issued[..|issued| - 1]);
    }
  }

  function StateMark(identity: Identity, s: Snapshot, before: seq<Bytes>): Mark {
    Mark(identity.hive, identity.node, s.generation, s.sequence, SnapshotDigest(before))
  }

  /** The frames that stand for the members and revocations. */
  function AuthorityFrames(local: SignedMembership, issued: seq<SignedMembership>, revocations: R.SignedRevocations): seq<Bytes>
    requires GoodMembership(local) && GoodRevocations(revocations)
    requires forall i :: 0 <= i < |issued| ==> GoodMembership(issued[i])
  {
    [EncodeEvent(Genesis(local, revocations))] + EncodeMembers(issued)
  }

  /** A founder event with the current revocations, the members by serial, and a
      signed checkpoint with the sequence. */
  function CompactionFrames(identity: Identity, s: Snapshot, local: SignedMembership, issued: seq<SignedMembership>): seq<Bytes>
    requires ValidIdentity(identity) && Reachable(identity, s, local, issued)
  {
    IssuedAreGood(identity, local, issued);
    var frames := AuthorityFrames(local, issued, s.revocations);
    var mark := StateMark(identity, s, frames);
    frames + [EncodeEvent(Checkpoint(mark, identity.signMark(mark)))]
  }

  lemma {:induction false} AuthorityReplays(identity: Identity, s: Snapshot, local: SignedMembership, issued: seq<SignedMembership>)
    requires Reachable(identity, s, local, issued)
    ensures forall i :: 0 <= i < |issued| ==> GoodMembership(issued[i])
    ensures Replay(identity, AuthorityFrames(local, issued, s.revocations))
         == Ok(Replayed(Snapshot(s.members, s.revocations, 0, 0, s.lastSerial, 1 + |issued|), false))
    decreases |issued|
  {
    hide MembershipVerify, G.VerifySnapshot, GoodMembership, GoodRevocations, EncodeEvent, DecodeEvent, Replay;
    IssuedAreGood(identity, local, issued);
    if issued == [] {
      GenesisReplays(identity, local, s.revocations);
      assert AuthorityFrames(local, issued, s.revocations) == [EncodeEvent(Genesis(local, s.revocations))];
    } else {
      var before, last := issued[..|issued| - 1], issued[|issued| - 1];
      var s' := s.(members := MembersOf(local, before), lastSerial := s.lastSerial - 1);
      AuthorityReplays(identity, s', local, before);
      var prev := Replayed(Snapshot(s'.members, s.revocations, 0, 0, s'.lastSerial, 1 + |before|), false);
      ReplayAppend(identity, AuthorityFrames(local, before, s.revocations), prev, MembershipIssued(last));
      Assoc([EncodeEvent(Genesis(local, s.revocations))], EncodeMembers(before), [EncodeEvent(MembershipIssued(last))]);
    }
  }

  lemma GenesisReplays(identity: Identity, local: SignedMembership, revocations: R.SignedRevocations)
    requires GoodEvent(Genesis(local, revocations)) && LocalMember(identity, local)
    requires G.VerifySnapshot(revocations, identity.rootKey).Ok?
    ensures Replay(identity, [EncodeEvent(Genesis(local, revocations))])
         == Ok(Replayed(Snapshot(map[MemberNode(local) := local], revocations, 0, 0, Serial(local), 1), false))
  {
    hide MembershipVerify, G.VerifySnapshot, GoodMembership, GoodRevocations, EncodeEvent, DecodeEvent;
    EventRoundTrip(Genesis(local, revocations));
  }

  /** Compaction keeps the state: replaying what it writes gives the state back,
      members, revocations, sequence and serials alike. */
  lemma CompactionReplays(identity: Identity, s: Snapshot, local: SignedMembership, issued: seq<SignedMembership>)
    requires ValidIdentity(identity) && Reachable(identity, s, local, issued)
    ensures var frames := CompactionFrames(identity, s, local, issued);
            Replay(identity, frames) == Ok(Replayed(s.(eventCount := |frames|), true))
  {
    hide MembershipVerify, G.VerifySnapshot, GoodMembership, GoodRevocations, EncodeEvent, DecodeEvent, Replay, IssuedInOrder, EncodeMembers;
    AuthorityReplays(identity, s, local, issued);
    var frames := AuthorityFrames(local, issued, s.revocations);
    EncodeMembersLength(issued);
    var mark := StateMark(identity, s, frames);
    var prev := Replayed(Snapshot(s.members, s.revocations, 0, 0, s.lastSerial, 1 + |issued|), false);
    ReplayAppendCheckpoint(identity, frames, prev, mark, identity.signMark(mark));
  }

  lemma {:induction false} EncodeMembersLength(issued: seq<SignedMembership>)
    requires forall i :: 0 <= i < |issued| ==> GoodMembership(issued[i])
    ensures |EncodeMembers(issued)| == |issued|
  {
    hide GoodMembership, EncodeEvent;
    if issued != [] {
      EncodeMembersLength(issued[..|issued| - 1]);
    }
  }

  // ---------- what replay accepts, said outright ----------

  /** The founder event that is accepted: signed by the root, for this device. */
  lemma GenesisExactly(identity: Identity, event: Event)
    ensures ReplayGenesis(identity, event).Ok? <==>
            && event.Genesis? && RootSays(event.membership, identity.rootKey) && G.VerifySnapshot(event.revocations, identity.rootKey).Ok?
            && event.membership.certificate.hive == identity.hive && event.membership.certificate.node == identity.node
            && event.membership.certificate.deviceKey == identity.deviceKey
    ensures ReplayGenesis(identity, event).Ok? ==>
              ReplayGenesis(identity, event).value ==
              Replayed(Snapshot(map[identity.node := event.membership], event.revocations, 0, 0, event.membership.certificate.serial, 1), false)
  {
    hide RootSays, MembershipVerify, G.VerifySnapshot;
    if event.Genesis? {
      MembershipVerifyExactly(event.membership, identity.rootKey);
    }
  }

  /** Every other event that is accepted is the exact next one, and this is what it
      does: the next sequence of the generation; a member the root signed, under the
      next serial, that is not one yet; or a snapshot the root signed that is newer
      and forgets nothing. */
  lemma EventExactly(identity: Identity, s: Snapshot, event: Event)
    ensures ApplyEvent(identity, s, event).Ok? <==>
            match event
            case Genesis(_, _) => false
            case Checkpoint(_, _) => false
            case SequenceReserved(generation, sequence) => generation == s.generation && sequence == s.sequence + 1 && s.sequence < U64_MAX
            case MembershipIssued(m) =>
              && RootSays(m, identity.rootKey) && m.certificate.serial == s.lastSerial + 1 && s.lastSerial < U64_MAX
              && |s.members| < 256 && m.certificate.node !in s.members
            case RevocationsReplaced(r) =>
              && G.VerifySnapshot(r, identity.rootKey).Ok? && r.list.serial > s.revocations.list.serial
              && r.list.issuedAt >= s.revocations.list.issuedAt
              && forall n :: n in s.revocations.list.revokedNodes ==> n in r.list.revokedNodes
    ensures ApplyEvent(identity, s, event).Ok? ==>
              ApplyEvent(identity, s, event).value ==
              match event
              case SequenceReserved(_, sequence) => s.(sequence := sequence, eventCount := s.eventCount + 1)
              case MembershipIssued(m) =>
                s.(members := s.members[m.certificate.node := m], lastSerial := m.certificate.serial, eventCount := s.eventCount + 1)
              case RevocationsReplaced(r) => s.(revocations := r, eventCount := s.eventCount + 1)
              case _ => s
  {
    hide RootSays, MembershipVerify, G.VerifySnapshot;
    if event.MembershipIssued? {
      MembershipVerifyExactly(event.membership, identity.rootKey);
    }
  }

  /** The checkpoint that is accepted: the first, before any sequence, signed by this
      device over the hash of exactly the frames before it. */
  lemma CheckpointExactly(identity: Identity, prev: Replayed, mark: Mark, signature: Bytes, before: seq<Bytes>)
    ensures ApplyCheckpoint(identity, prev, mark, signature, before).Ok? <==>
            && !prev.checkpointed && prev.state.sequence == 0 && mark.generation == prev.state.generation
            && mark.hive == identity.hive && mark.node == identity.node
            && mark.digest == SNAPSHOT_HASH(before) && MARK_SIGNED(identity.deviceKey, mark, signature)
    ensures ApplyCheckpoint(identity, prev, mark, signature, before).Ok? ==>
              ApplyCheckpoint(identity, prev, mark, signature, before).value ==
              Replayed(prev.state.(sequence := mark.sequence, eventCount := prev.state.eventCount + 1), true)
  {
  }

  /** The event a frame holds, if it holds one. */
  function EventOf(frame: Bytes): Option<Event> {
    match DecodeEvent(frame)
    case Ok(event) => Some(event)
    case Err(_) => None
  }

  predicate IsCheckpoint(frame: Bytes) {
    EventOf(frame).Some? && EventOf(frame).value.Checkpoint?
  }

  /** The snapshot an event carries is of no greater serial than the last one, and all
      that it revokes still is. */
  predicate NotAhead(event: Option<Event>, last: R.RevocationList) {
    event.Some? && (event.value.Genesis? || event.value.RevocationsReplaced?) ==>
      var list := event.value.revocations.list;
      list.serial <= last.serial && forall n :: n in list.revokedNodes ==> n in last.revokedNodes
  }

  /** A checkpoint of this device over the frames before it. */
  predicate OwnCheckpoint(identity: Identity, event: Option<Event>, before: seq<Bytes>) {
    event.Some? && event.value.Checkpoint? ==>
      var mark := event.value.mark;
      && mark.hive == identity.hive && mark.node == identity.node && mark.digest == SNAPSHOT_HASH(before)
      && MARK_SIGNED(identity.deviceKey, mark, event.value.signature)
  }

  /** Every member was signed by the root, and so was the snapshot. */
  predicate SignedState(identity: Identity, s: Snapshot) {
    && identity.node in s.members && G.VerifySnapshot(s.revocations, identity.rootKey).Ok?
    && forall n :: n in s.members ==> RootSays(s.members[n], identity.rootKey) && s.members[n].certificate.node == n
  }

  /** All frames are events and only the first founds; no event revokes what the state
      does not; and there is at most one checkpoint, signed by this device over what
      comes before it. */
  predicate SoundFrames(identity: Identity, frames: seq<Bytes>, r: Replayed) {
    && (forall i :: 0 <= i < |frames| ==> EventOf(frames[i]).Some? && (EventOf(frames[i]).value.Genesis? <==> i == 0))
    && (forall i :: 0 <= i < |frames| ==> NotAhead(EventOf(frames[i]), r.state.revocations.list))
    && (forall i :: 0 <= i < |frames| ==> OwnCheckpoint(identity, EventOf(frames[i]), frames[..i]))
    && (forall i :: 0 <= i < |frames| && IsCheckpoint(frames[i]) ==> r.checkpointed)
    && (forall i, j :: 0 <= i < j < |frames| ==> !(IsCheckpoint(frames[i]) && IsCheckpoint(frames[j])))
  }

  /** What holds of every journal that replays. */
  lemma {:induction false} ReplayMeans(identity: Identity, frames: seq<Bytes>)
    requires Replay(identity, frames).Ok?
    ensures frames != [] && SignedState(identity, Replay(identity, frames).value.state)
    ensures SoundFrames(identity, frames, Replay(identity, frames).value)
    decreases |frames|
  {
    hide SignedState, SoundFrames, ReplayFirst, ReplayFrame, EventOf;
    if |frames| == 1 {
      FounderMeans(identity, frames[0]);
      assert frames == [frames[0]];
    } else {
      var before, last := frames[..|frames| - 1], frames[|frames| - 1];
      var prev := Replay(identity, before).value;
      ReplayMeans(identity, before);
      var event := FrameEvent(identity, prev, last, before);
      StateMore(identity, prev, event, before, Replay(identity, frames).value);
      FramesMore(identity, before, prev, last, event, Replay(identity, frames).value);
      assert frames == before + [last];
    }
  }

  /** What accepting one more event does to the replay. */
  predicate Takes(identity: Identity, prev: Replayed, event: Event, before: seq<Bytes>, next: Replayed) {
    if event.Checkpoint? then ApplyCheckpoint(identity, prev, event.mark, event.signature, before) == Ok(next)
    else ApplyEvent(identity, prev.state, event) == Ok(next.state) && next.checkpointed == prev.checkpointed
  }

  lemma FrameEvent(identity: Identity, prev: Replayed, frame: Bytes, before: seq<Bytes>) returns (event: Event)
    requires ReplayFrame(identity, prev, frame, before).Ok?
    ensures EventOf(frame) == Some(event) && Takes(identity, prev, event, before, ReplayFrame(identity, prev, frame, before).value)
  {
    hide DecodeEvent, ApplyEvent, ApplyCheckpoint;
    event := DecodeEvent(frame).value;
  }

  lemma FounderMeans(identity: Identity, frame: Bytes)
    requires ReplayFirst(identity, frame).Ok?
    ensures SignedState(identity, ReplayFirst(identity, frame).value.state)
    ensures SoundFrames(identity, [frame], ReplayFirst(identity, frame).value)
  {
    hide RootSays, G.VerifySnapshot, ReplayGenesis, EventOf, ReplayFirst;
    var event := FounderEventOf(identity, frame);
    GenesisExactly(identity, event);
  }

  lemma FounderEventOf(identity: Identity, frame: Bytes) returns (event: Event)
    requires ReplayFirst(identity, frame).Ok?
    ensures EventOf(frame) == Some(event) && ReplayFirst(identity, frame) == ReplayGenesis(identity, event)
  {
    hide DecodeEvent, ReplayGenesis;
    event := DecodeEvent(frame).value;
  }

  lemma StateMore(identity: Identity, prev: Replayed, event: Event, before: seq<Bytes>, next: Replayed)
    requires Takes(identity, prev, event, before, next) && SignedState(identity, prev.state)
    ensures SignedState(identity, next.state)
  {
    hide RootSays, G.VerifySnapshot, ApplyEvent, ApplyCheckpoint;
    if event.Checkpoint? {
      CheckpointExactly(identity, prev, event.mark, event.signature, before);
    } else {
      EventExactly(identity, prev.state, event);
    }
  }

  lemma EventFacts(identity: Identity, prev: Replayed, event: Event, before: seq<Bytes>, next: Replayed)
    requires Takes(identity, prev, event, before, next)
    ensures !event.Genesis? && NotAhead(Some(event), next.state.revocations.list) && OwnCheckpoint(identity, Some(event), before)
    ensures forall e :: NotAhead(e, prev.state.revocations.list) ==> NotAhead(e, next.state.revocations.list)
    ensures (event.Checkpoint? ==> !prev.checkpointed) && next.checkpointed == (prev.checkpointed || event.Checkpoint?)
  {
    hide RootSays, G.VerifySnapshot, ApplyEvent, ApplyCheckpoint;
    if event.Checkpoint? {
      CheckpointExactly(identity, prev, event.mark, event.signature, before);
    } else {
      EventExactly(identity, prev.state, event);
    }
  }

  lemma FramesMore(identity: Identity, before: seq<Bytes>, prev: Replayed, frame: Bytes, event: Event, next: Replayed)
    requires SoundFrames(identity, before, prev) && before != [] && EventOf(frame) == Some(event) && Takes(identity, prev, event, before, next)
    ensures SoundFrames(identity, before + [frame], next)
  {
    hide EventOf, NotAhead, OwnCheckpoint, Takes;
    EventFacts(identity, prev, event, before, next);
    var frames := before + [frame];
    forall i | 0 <= i < |frames| ensures OwnCheckpoint(identity, EventOf(frames[i]), frames[..i]) {
      assert frames[..i] == before[..i];
    }
  }
}
