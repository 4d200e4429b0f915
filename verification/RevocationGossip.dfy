/** How revocation snapshots are issued, merged from peers and handed to the
    directory. */
module RevocationGossip {
  import opened Prelude
  import opened Contacts
  import opened Sorting
  import opened Revocation

  /** Whether a root signature verifies over a list's canonical bytes. */
  const LIST_SIGNED: (Key, RevocationList, Bytes) -> bool

  function VerifySnapshot(value: SignedRevocations, root: Key): Result<(), RevocationError> {
    var _ :- ValidateShape(value.list);
    if value.list.hive != HIVE_OF_ROOT(root) then Err(RevocationError.HiveRootMismatch)
    else if |value.signature| != Revocation.SIGNATURE_BYTES || !LIST_SIGNED(root, value.list, value.signature) then Err(RevocationError.InvalidSignature)
    else Ok(())
  }

  /** What it means that a snapshot verifies: the root signed a list of its hive, in
      strict order and within bounds. */
  lemma VerifySnapshotExactly(value: SignedRevocations, root: Key)
    ensures VerifySnapshot(value, root).Ok? <==>
            && value.list.version == 1 && value.list.hive == HIVE_OF_ROOT(root) && |value.list.revokedNodes| <= 256
            && (value.list.serial == 0 <==> value.list.revokedNodes == [])
            && (forall i, j :: 0 <= i < j < |value.list.revokedNodes| ==> value.list.revokedNodes[i] < value.list.revokedNodes[j])
            && |value.signature| == 64 && LIST_SIGNED(root, value.list, value.signature)
  {
  }

  datatype GossipError =
    | BadSnapshot(cause: RevocationError)
    | RevocationRollback
    | RevocationEquivocation

  /** Nothing revoked is forgotten and time does not go back. */
  predicate Extends(incoming: SignedRevocations, current: SignedRevocations) {
    && incoming.list.issuedAt >= current.list.issuedAt
    && forall n :: n in current.list.revokedNodes ==> Contains(incoming, n)
  }

  /** Whether a snapshot from a peer replaces the local one. */
  function Merge(current: SignedRevocations, incoming: SignedRevocations, root: Key): Result<bool, GossipError> {
    match VerifySnapshot(incoming, root)
    case Err(cause) => Err(BadSnapshot(cause))
    case Ok(_) =>
      if incoming.list.serial < current.list.serial then Ok(false)
      else if incoming.list.serial == current.list.serial then
        if incoming == current then Ok(false) else Err(RevocationEquivocation)
      else if !Extends(incoming, current) then Err(RevocationRollback)
      else if incoming.list.revokedNodes == current.list.revokedNodes then Ok(false)
      else Ok(true)
  }

  function Merged(current: SignedRevocations, incoming: SignedRevocations, root: Key): SignedRevocations {
    if Merge(current, incoming, root) == Ok(true) then incoming else current
  }

  /** The directory's own view, which refuses what a merge only ignores. */
  function SetRevocations(current: SignedRevocations, incoming: SignedRevocations, root: Key): Result<SignedRevocations, GossipError> {
    match VerifySnapshot(incoming, root)
    case Err(cause) => Err(BadSnapshot(cause))
    case Ok(_) =>
      if incoming.list.serial < current.list.serial then Err(RevocationRollback)
      else if incoming.list.serial == current.list.serial then
        if incoming == current then Ok(current) else Err(RevocationEquivocation)
      else if !Extends(incoming, current) then Err(RevocationRollback)
      else Ok(incoming)
  }

  /** The incoming snapshot is no older and revokes all that the current one does. */
  predicate NotBehind(current: SignedRevocations, incoming: SignedRevocations) {
    && incoming.list.issuedAt >= current.list.issuedAt
    && forall n :: n in current.list.revokedNodes ==> n in incoming.list.revokedNodes
  }

  /** Every answer of a merge and exactly when it is given, for a snapshot that
      verifies. One that does not is refused, with its cause. */
  lemma MergeExactly(current: SignedRevocations, incoming: SignedRevocations, root: Key)
    ensures var answer, was, now := Merge(current, incoming, root), current.list.serial, incoming.list.serial;
            if VerifySnapshot(incoming, root).Err? then answer == Err(BadSnapshot(VerifySnapshot(incoming, root).error))
            else
              && (answer == Ok(true) <==> now > was && NotBehind(current, incoming) && incoming.list.revokedNodes != current.list.revokedNodes)
              && (answer == Ok(false) <==>
                    now < was || incoming == current ||
                    (now > was && NotBehind(current, incoming) && incoming.list.revokedNodes == current.list.revokedNodes))
              && (answer == Err(RevocationEquivocation) <==> now == was && incoming != current)
              && (answer == Err(RevocationRollback) <==> now > was && !NotBehind(current, incoming))
  {
    hide VerifySnapshot;
  }

  /** The same for the directory: it advances on every newer snapshot that is not
      behind, and calls an older one a rollback. */
  lemma SetExactly(current: SignedRevocations, incoming: SignedRevocations, root: Key)
    ensures var answer, was, now := SetRevocations(current, incoming, root), current.list.serial, incoming.list.serial;
            if VerifySnapshot(incoming, root).Err? then answer == Err(BadSnapshot(VerifySnapshot(incoming, root).error))
            else
              && (answer.Ok? <==> incoming == current || (now > was && NotBehind(current, incoming)))
              && (answer.Ok? ==> answer.value == incoming)
              && (answer == Err(RevocationEquivocation) <==> now == was && incoming != current)
              && (answer == Err(RevocationRollback) <==> now < was || (now > was && !NotBehind(current, incoming)))
  {
    hide VerifySnapshot;
  }

  /** A snapshot replaces the local one exactly when the directory holding the
      same prior one would advance to it and it revokes something new. */
  lemma MergeFeedsDirectory(current: SignedRevocations, incoming: SignedRevocations, root: Key)
    ensures Merge(current, incoming, root) == Ok(true) <==>
            && SetRevocations(current, incoming, root) == Ok(incoming)
            && incoming.list.serial > current.list.serial
            && incoming.list.revokedNodes != current.list.revokedNodes
    ensures Merge(current, incoming, root).Err? ==> SetRevocations(current, incoming, root) == Err(Merge(current, incoming, root).error)
  {
    hide VerifySnapshot;
  }

  // ---------- one root's snapshots ----------

  function NodeKey(n: nat): int { n }

  /** The list that revokes one more node: pushed, then sorted. */
  function NextList(list: RevocationList, node: nat, issuedAt: nat): RevocationList {
    list.(serial := list.serial + 1, issuedAt := issuedAt, revokedNodes := SortBy(list.revokedNodes + [node], NodeKey))
  }

  /** Revoking a node that was not revoked keeps the list ordered and adds just it. */
  lemma NextListShape(list: RevocationList, node: nat, issuedAt: nat)
    requires StrictlyAscending(list.revokedNodes) && node !in list.revokedNodes
    ensures var next := NextList(list, node, issuedAt);
            && StrictlyAscending(next.revokedNodes)
            && |next.revokedNodes| == |list.revokedNodes| + 1
            && (forall n :: n in next.revokedNodes <==> n in list.revokedNodes || n == node)
  {
    var pushed := list.revokedNodes + [node];
    SortStrict(pushed, NodeKey);
    SortElements(pushed, NodeKey);
    var sorted := SortBy(pushed, NodeKey);
    assert forall i, j :: 0 <= i < j < |sorted| ==> NodeKey(sorted[i]) < NodeKey(sorted[j]);
  }

  /** Each snapshot verifies and revokes one node more than the one before it. */
  ghost predicate RootRun(chain: seq<SignedRevocations>, root: Key) {
    && |chain| > 0
    && (forall i :: 0 <= i < |chain| ==> VerifySnapshot(chain[i], root).Ok?)
    && forall i :: 0 < i < |chain| ==> RevokesOne(chain[i - 1], chain[i])
  }

  ghost predicate RevokesOne(before: SignedRevocations, after: SignedRevocations) {
    exists node :: !Contains(before, node) && after.list.issuedAt >= before.list.issuedAt &&
                   after.list == NextList(before.list, node, after.list.issuedAt)
  }

  /** Later snapshots are newer in every respect. */
  lemma {:induction false} ChainGrows(chain: seq<SignedRevocations>, root: Key, i: nat, j: nat)
    requires RootRun(chain, root) && i <= j < |chain|
    ensures chain[j].list.serial == chain[i].list.serial + (j - i)
    ensures |chain[j].list.revokedNodes| == |chain[i].list.revokedNodes| + (j - i)
    ensures Extends(chain[j], chain[i])
    decreases j
  {
    hide VerifySnapshot, RevokesOne;
    if i < j {
      ChainGrows(chain, root, i, j - 1);
      StepGrows(chain[j - 1], chain[j], root);
    }
  }

  lemma StepGrows(before: SignedRevocations, after: SignedRevocations, root: Key)
    requires VerifySnapshot(before, root).Ok? && RevokesOne(before, after)
    ensures after.list.serial == before.list.serial + 1
    ensures |after.list.revokedNodes| == |before.list.revokedNodes| + 1
    ensures Extends(after, before)
  {
    hide SortBy, StrictlyAscending;
    var node :| !Contains(before, node) && after.list.issuedAt >= before.list.issuedAt &&
                after.list == NextList(before.list, node, after.list.issuedAt);
    NextListShape(before.list, node, after.list.issuedAt);
  }

  /** Merging two snapshots of one run takes the later one, without error. */
  lemma MergeInChain(chain: seq<SignedRevocations>, root: Key, i: nat, j: nat)
    requires RootRun(chain, root) && i < |chain| && j < |chain|
    ensures Merge(chain[i], chain[j], root) == Ok(i < j)
    ensures Merged(chain[i], chain[j], root) == chain[if i < j then j else i]
  {
    hide VerifySnapshot, Extends;
    if i <= j {
      ChainGrows(chain, root, i, j);
    } else {
      ChainGrows(chain, root, j, i);
    }
  }

  /** Snapshots received one after the other. */
  function MergeAll(current: SignedRevocations, incoming: seq<SignedRevocations>, root: Key): SignedRevocations
    decreases |incoming|
  {
    if incoming == [] then current else MergeAll(Merged(current, incoming[0], root), incoming[1..], root)
  }

  predicate NeverRefused(current: SignedRevocations, incoming: seq<SignedRevocations>, root: Key)
    decreases |incoming|
  {
    incoming != [] ==> Merge(current, incoming[0], root).Ok? && NeverRefused(Merged(current, incoming[0], root), incoming[1..], root)
  }

  /** The snapshots at given places of a run. */
  function Snapshots(chain: seq<SignedRevocations>, deliveries: seq<nat>): seq<SignedRevocations>
    requires forall k :: 0 <= k < |deliveries| ==> deliveries[k] < |chain|
  {
    if deliveries == [] then [] else [chain[deliveries[0]]] + Snapshots(chain, deliveries[1..])
  }

  function Latest(start: nat, deliveries: seq<nat>): nat
    decreases |deliveries|
  {
    if deliveries == [] then start
    else Latest(if start < deliveries[0] then deliveries[0] else start, deliveries[1..])
  }

  lemma {:induction false} LatestIsGreatest(start: nat, deliveries: seq<nat>)
    ensures var latest := Latest(start, deliveries);
            && start <= latest && (latest == start || latest in deliveries)
            && forall d :: d in deliveries ==> d <= latest
    decreases |deliveries|
  {
    if deliveries != [] {
      LatestIsGreatest(if start < deliveries[0] then deliveries[0] else start, deliveries[1..]);
      assert deliveries == [deliveries[0]] + deliveries[1..];
    }
  }

  /** Gossip converges: snapshots of one root's run, in any order and with any
      repeats, merge without error to the one of greatest serial, which revokes
      every node that any of them revokes. */
  lemma {:induction false} GossipConverges(chain: seq<SignedRevocations>, root: Key, start: nat, deliveries: seq<nat>)
    requires RootRun(chain, root) && start < |chain|
    requires forall k :: 0 <= k < |deliveries| ==> deliveries[k] < |chain|
    ensures var incoming := Snapshots(chain, deliveries);
            var latest := Latest(start, deliveries);
            && latest < |chain|
            && NeverRefused(chain[start], incoming, root)
            && MergeAll(chain[start], incoming, root) == chain[latest]
            && Extends(chain[latest], chain[start])
            && (forall d :: d in deliveries ==> Extends(chain[latest], chain[d]) && chain[d].list.serial <= chain[latest].list.serial)
    decreases |deliveries|
  {
    hide Merge, Merged, RootRun, Extends;
    LatestIsGreatest(start, deliveries);
    if deliveries != [] {
      var first, rest := deliveries[0], deliveries[1..];
      MergeInChain(chain, root, start, first);
      GossipConverges(chain, root, if start < first then first else start, rest);
      assert Snapshots(chain, deliveries)[1..] == Snapshots(chain, rest);
    }
    var latest := Latest(start, deliveries);
    ChainGrows(chain, root, start, latest);
    forall d | d in deliveries
      ensures Extends(chain[latest], chain[d]) && chain[d].list.serial <= chain[latest].list.serial
    {
      ChainGrows(chain, root, d, latest);
    }
  }
}
