/** The directory of peers as a map of entries and a log of contacts: what a
    replay of the log rebuilds. */
module PeerReplay {
  import opened Prelude
  import opened Contacts
  import opened PeerHistory
  import opened PeerMerge

  const MAX_PEERS := MAX_HIVE_MEMBERS - 1

  datatype Config = Config(root: Key, localNode: NodeId, limit: nat)

  type Entries = map<NodeId, Entry>

  function Get(entries: Entries, node: NodeId): Option<Entry> {
    if node in entries then Some(entries[node]) else None
  }

  datatype DirectoryError =
    | InvalidContact
    | RevokedPeer
    | LocalNode
    | DirectoryFull
    | EquivocationDetected
    | GenerationTransition
    | JournalFailed
    | InvalidHistoryLimit
    | RevocationsInvalid

  datatype ImportDecision = AcceptedFirst | AcceptedNewer | DuplicateContact | RejectedStale

  /** What applying a contact answers; only the answer to conflicting evidence
      differs between an import and a replay. */
  function Answer(config: Config, entries: Entries, contact: Contact, persist: bool): Result<ImportDecision, DirectoryError> {
    if Node(contact) == config.localNode then Err(LocalNode) else
    var entry := Get(entries, Node(contact));
    match DecideEntry(entry, contact)
    case AcceptFirst => if |entries| >= MAX_PEERS then Err(DirectoryFull) else Ok(AcceptedFirst)
    case AcceptNewer => if entry.value.conflict.Some? then Err(EquivocationDetected) else Ok(AcceptedNewer)
    case Duplicate => Ok(DuplicateContact)
    case RejectStale => Ok(RejectedStale)
    case Equivocation => if persist then Err(EquivocationDetected) else Ok(RejectedStale)
    case GenerationTransitionRequired => Err(GenerationTransition)
  }

  /** The peer is known, and the contact is of its generation. */
  predicate OfKnown(config: Config, entries: Entries, contact: Contact) {
    Node(contact) != config.localNode && Node(contact) in entries && Generation(contact) == Generation(entries[Node(contact)].current)
  }

  /** Every answer and exactly when it is given. */
  lemma AnswerExactly(config: Config, entries: Entries, contact: Contact, persist: bool)
    ensures var answer, node := Answer(config, entries, contact, persist), Node(contact);
            && (answer == Err(LocalNode) <==> node == config.localNode)
            && (answer == Ok(AcceptedFirst) <==> node != config.localNode && node !in entries && |entries| < 255)
            && (answer == Err(DirectoryFull) <==> node != config.localNode && node !in entries && |entries| >= 255)
            && (answer == Err(GenerationTransition) <==>
                  node != config.localNode && node in entries && Generation(contact) != Generation(entries[node].current))
            && (answer == Ok(DuplicateContact) <==>
                  node != config.localNode && node in entries && contact.endpoint == entries[node].current.endpoint)
            && (answer == Ok(AcceptedNewer) <==>
                  && OfKnown(config, entries, contact) && Sequence(contact) > Sequence(entries[node].current)
                  && entries[node].conflict.None?)
            && (answer == Err(EquivocationDetected) <==>
                  && OfKnown(config, entries, contact)
                  && ((Sequence(contact) > Sequence(entries[node].current) && entries[node].conflict.Some?) ||
                      (persist && Sequence(contact) == Sequence(entries[node].current) && contact.endpoint != entries[node].current.endpoint)))
            && (answer == Ok(RejectedStale) <==>
                  && OfKnown(config, entries, contact)
                  && (Sequence(contact) < Sequence(entries[node].current) ||
                      (!persist && Sequence(contact) == Sequence(entries[node].current) && contact.endpoint != entries[node].current.endpoint)))
  {
  }

  /** Whether applying it changes the entries, which is when it is persisted. */
  predicate Changes(config: Config, entries: Entries, contact: Contact) {
    Node(contact) != config.localNode &&
    var entry := Get(entries, Node(contact));
    match DecideEntry(entry, contact)
    case AcceptFirst => |entries| < MAX_PEERS
    case AcceptNewer => entry.value.conflict.None?
    case Equivocation => entry.value.conflict.None?
    case _ => false
  }

  function Apply(config: Config, entries: Entries, contact: Contact): Entries {
    if Changes(config, entries, contact)
    then entries[Node(contact) := Next(Get(entries, Node(contact)), contact, config.limit)]
    else entries
  }

  /** A contact is logged exactly when it changed the entries. */
  lemma ChangesExactly(config: Config, entries: Entries, contact: Contact)
    ensures Changes(config, entries, contact) <==> Apply(config, entries, contact) != entries
  {
    hide Trim, DialStateChanged;
    var node := Node(contact);
    if Changes(config, entries, contact) && node in entries {
      assert Apply(config, entries, contact)[node] != entries[node];
    }
  }

  /** What applying a contact does: to other peers nothing; a first contact is the
      whole entry; a newer one takes the place of the current one, which joins the
      history when the peer is now reached differently; a different record of the
      same version is kept as evidence, once; anything else does nothing. */
  lemma ApplyExactly(config: Config, entries: Entries, contact: Contact)
    ensures var after, node := Apply(config, entries, contact), Node(contact);
            && (forall n :: n != node ==> (n in after <==> n in entries) && (n in entries ==> after[n] == entries[n]))
            && if node == config.localNode || (node !in entries && |entries| >= 255) then after == entries
               else if node !in entries then node in after && after[node] == Entry(contact, [], None)
               else
                 var before := entries[node];
                 && node in after
                 && if Generation(contact) != Generation(before.current) || before.conflict.Some? then after[node] == before
                    else if Sequence(contact) > Sequence(before.current) then
                      && after[node].current == contact && after[node].conflict.None?
                      && after[node].history == if contact.endpoint.record.transportKey == before.current.endpoint.record.transportKey
                                                   && contact.endpoint.record.candidates == before.current.endpoint.record.candidates
                                                then before.history else Trim([before.current] + before.history, {}, config.limit)
                    else if Sequence(contact) == Sequence(before.current) && contact.endpoint != before.current.endpoint then
                      after[node] == before.(conflict := Some(contact))
                    else after[node] == before
  {
    hide Trim;
  }

  /** A contact that can be in the journal: it has bytes, and it verified when it
      was issued. */
  predicate Storable(contact: Contact, root: Key) {
    VerifyHistorical(contact, root) && CONTACTS.encode(contact).Some?
  }

  /** What opening does with each contact it reads. */
  function ReplayOne(config: Config, entries: Entries, contact: Contact): Result<Entries, DirectoryError> {
    if !Storable(contact, config.root) then Err(InvalidContact) else
    match Answer(config, entries, contact, false)
    case Err(error) => Err(error)
    case Ok(_) => Ok(Apply(config, entries, contact))
  }

  function Replay(config: Config, entries: Entries, log: seq<Contact>): Result<Entries, DirectoryError>
    decreases |log|
  {
    if log == [] then Ok(entries) else
    match ReplayOne(config, entries, log[0])
    case Err(error) => Err(error)
    case Ok(next) => Replay(config, next, log[1..])
  }

  function ReplayAll(config: Config, log: seq<Contact>): Result<Entries, DirectoryError> {
    Replay(config, map[], log)
  }

  lemma {:induction false} ReplayConcat(config: Config, entries: Entries, a: seq<Contact>, b: seq<Contact>)
    ensures Replay(config, entries, a + b) == match Replay(config, entries, a)
                                              case Err(error) => Err(error)
                                              case Ok(middle) => Replay(config, middle, b)
    decreases |a|
  {
    hide ReplayOne;
    if a == [] {
      assert a + b == b;
    } else {
      assert (a + b)[1..] == a[1..] + b;
      var next := ReplayOne(config, entries, a[0]);
      if next.Ok? {
        ReplayConcat(config, next.value, a[1..], b);
      }
    }
  }

  /** Replaying one more contact that changed things never fails. */
  lemma ReplayAppend(config: Config, log: seq<Contact>, entries: Entries, contact: Contact)
    requires ReplayAll(config, log) == Ok(entries)
    requires Changes(config, entries, contact) && Storable(contact, config.root)
    ensures ReplayAll(config, log + [contact]) == Ok(Apply(config, entries, contact))
  {
    hide Next, Storable;
    ReplayConcat(config, map[], log, [contact]);
    assert [contact][1..] == [];
    assert Replay(config, entries, [contact]) == Replay(config, Apply(config, entries, contact), []);
  }

  // ---------- blocks of one node ----------

  predicate OfNode(contacts: seq<Contact>, node: NodeId, root: Key) {
    forall c :: c in contacts ==> Node(c) == node && Storable(c, root)
  }

  /** Replaying one node's frames only touches that node's entry. */
  lemma {:induction false} ReplayBlock(config: Config, entries: Entries, node: NodeId, frames: seq<Contact>)
    requires frames != [] && OfNode(frames, node, config.root) && node != config.localNode
    requires Replays(Get(entries, node), frames, config.limit)
    requires node in entries || |entries| < MAX_PEERS
    ensures Deliver(Get(entries, node), frames, config.limit).Some?
    ensures Replay(config, entries, frames)
         == Ok(entries[node := Deliver(Get(entries, node), frames, config.limit).value])
    decreases |frames|
  {
    hide Supersede, Storable;
    var first, rest := frames[0], frames[1..];
    var next := Next(Get(entries, node), first, config.limit);
    assert !ReplayFails(Get(entries, node), first);
    UnchangedNext(config, entries, first);
    assert ReplayOne(config, entries, first) == Ok(entries[node := next]);
    if rest == [] {
      assert Replay(config, entries, frames) == Ok(entries[node := next]);
    } else {
      var entries' := entries[node := next];
      ReplayBlock(config, entries', node, rest);
      assert entries'[node := Deliver(Some(next), rest, config.limit).value]
          == entries[node := Deliver(Some(next), rest, config.limit).value];
    }
  }

  /** Applying is always taking the next entry, also where nothing changes. */
  lemma UnchangedNext(config: Config, entries: Entries, contact: Contact)
    requires Node(contact) != config.localNode
    requires Node(contact) in entries || |entries| < MAX_PEERS
    ensures Apply(config, entries, contact)
         == entries[Node(contact) := Next(Get(entries, Node(contact)), contact, config.limit)]
  {
    hide Supersede;
    var node := Node(contact);
    if node in entries && !Changes(config, entries, contact) {
      assert entries[node := entries[node]] == entries;
    }
  }

  // ---------- what compaction writes ----------

  /** The frames of the listed nodes, node after node. */
  function CanonicalLog(entries: Entries, nodes: seq<NodeId>): seq<Contact> {
    if nodes == [] then []
    else (if nodes[0] in entries then CanonicalFrames(entries[nodes[0]]) else []) + CanonicalLog(entries, nodes[1..])
  }

  predicate Distinct(nodes: seq<NodeId>) {
    forall i, j :: 0 <= i < j < |nodes| ==> nodes[i] != nodes[j]
  }

  /** `nodes` lists the keys of `entries`, each once. */
  predicate Enumerates(nodes: seq<NodeId>, entries: Entries) {
    Distinct(nodes) && Elements(nodes) == entries.Keys
  }

  predicate VerifiedEntry(entry: Entry, root: Key) {
    && Storable(entry.current, root)
    && (forall h :: h in entry.history ==> Storable(h, root))
    && (entry.conflict.Some? ==> Storable(entry.conflict.value, root))
  }

  predicate GoodEntry(config: Config, node: NodeId, entry: Entry) {
    node != config.localNode && WellFormed(entry, node, config.limit) && VerifiedEntry(entry, config.root)
  }

  predicate GoodEntries(config: Config, entries: Entries) {
    |entries| <= MAX_PEERS && forall n :: n in entries ==> GoodEntry(config, n, entries[n])
  }

  /** Two directories that differ only by alike entries. */
  predicate AlikeEntries(live: Entries, replayed: Entries) {
    live.Keys == replayed.Keys && forall n :: n in live ==> Alike(live[n], replayed[n])
  }

  lemma {:induction false} ReverseElements(history: seq<Contact>)
    ensures forall c :: c in Reverse(history) <==> c in history
  {
    if history != [] {
      ReverseElements(history[1..]);
      assert history == [history[0]] + history[1..];
    }
  }

  lemma {:induction false} DescendingNodes(history: seq<Contact>, node: NodeId, generation: nat, bound: nat)
    requires Descending(history, node, generation, bound)
    ensures forall c :: c in history ==> Node(c) == node
  {
    if history != [] {
      DescendingNodes(history[1..], node, generation, Sequence(history[0]));
      assert history == [history[0]] + history[1..];
    }
  }

  lemma CanonicalOfNode(config: Config, node: NodeId, entry: Entry)
    requires GoodEntry(config, node, entry)
    ensures CanonicalFrames(entry) != [] && OfNode(CanonicalFrames(entry), node, config.root)
  {
    hide Storable, Trim, Reverse, Descending;
    ReverseElements(entry.history);
    DescendingNodes(entry.history, node, Generation(entry.current), Sequence(entry.current));
  }

  /** What was there is untouched, what is new is alike. */
  predicate Rebuilds(entries: Entries, before: Entries, after: Entries) {
    forall n :: n in after ==>
      if n in before then after[n] == before[n] else n in entries && Alike(entries[n], after[n])
  }

  predicate GoodNodes(config: Config, entries: Entries, nodes: seq<NodeId>) {
    forall n :: n in nodes ==> n in entries && GoodEntry(config, n, entries[n])
  }

  /** Replaying canonical frames node by node rebuilds entries alike. */
  lemma {:induction false} ReplayNodes(config: Config, entries: Entries, nodes: seq<NodeId>, done: Entries)
    requires GoodNodes(config, entries, nodes) && Distinct(nodes)
    requires Elements(nodes) !! done.Keys && |done| + |nodes| <= MAX_PEERS
    ensures var result := Replay(config, done, CanonicalLog(entries, nodes));
            && result.Ok?
            && result.value.Keys == done.Keys + Elements(nodes)
            && Rebuilds(entries, done, result.value)
    decreases |nodes|
  {
    hide GoodNodes, Replay, Alike, CanonicalFrames, Distinct;
    if nodes == [] {
      ReplayNothing(config, done);
    } else {
      var node, rest := nodes[0], nodes[1..];
      var done' := FirstNode(config, entries, nodes, done);
      hide Elements, Rebuilds;
      ReplayNodes(config, entries, rest, done');
      ReplayConcat(config, done, CanonicalFrames(entries[node]), CanonicalLog(entries, rest));
      RebuildsOneMore(entries, done, node, done', Replay(config, done', CanonicalLog(entries, rest)).value);
    }
  }

  lemma FirstNode(config: Config, entries: Entries, nodes: seq<NodeId>, done: Entries) returns (done': Entries)
    requires nodes != [] && GoodNodes(config, entries, nodes) && Distinct(nodes)
    requires Elements(nodes) !! done.Keys && |done| + |nodes| <= MAX_PEERS
    ensures var node, rest := nodes[0], nodes[1..];
            && node in entries && node !in done
            && Replay(config, done, CanonicalFrames(entries[node])) == Ok(done')
            && node in done' && done' == done[node := done'[node]] && Alike(entries[node], done'[node])
            && done'.Keys == done.Keys + {node} && |done'| == |done| + 1
            && GoodNodes(config, entries, rest) && Distinct(rest)
            && Elements(nodes) == {node} + Elements(rest) && Elements(rest) !! done'.Keys
  {
    hide GoodEntry, Replay, Alike, CanonicalFrames, Distinct;
    var node, rest := nodes[0], nodes[1..];
    assert nodes == [node] + rest;
    ElementsPrepend(node, rest);
    DistinctRest(nodes);
    assert node in nodes && node in Elements(nodes);
    ReplayNode(config, done, node, entries[node]);
    done' := Replay(config, done, CanonicalFrames(entries[node])).value;
    assert done'.Keys == done.Keys + {node};
    assert |done'| == |done'.Keys| == |done.Keys| + 1;
  }

  lemma RebuildsOneMore(entries: Entries, before: Entries, node: NodeId, middle: Entries, after: Entries)
    requires node !in before && node in middle && middle == before[node := middle[node]] && middle.Keys <= after.Keys
    requires node in entries && Alike(entries[node], middle[node]) && Rebuilds(entries, middle, after)
    ensures Rebuilds(entries, before, after)
  {
    hide Alike;
  }

  lemma ReplayNothing(config: Config, entries: Entries)
    ensures Replay(config, entries, []) == Ok(entries)
  {
  }

  lemma DistinctRest(nodes: seq<NodeId>)
    requires nodes != [] && Distinct(nodes)
    ensures Distinct(nodes[1..]) && nodes[0] !in nodes[1..]
  {
    forall n | n in nodes[1..] ensures n != nodes[0] {
      var i :| 0 <= i < |nodes[1..]| && nodes[1..][i] == n;
      assert nodes[i + 1] == n;
    }
  }

  lemma ReplayNode(config: Config, done: Entries, node: NodeId, entry: Entry)
    requires GoodEntry(config, node, entry) && node !in done && |done| < MAX_PEERS
    ensures var result := Replay(config, done, CanonicalFrames(entry));
            result.Ok? && node in result.value && result.value == done[node := result.value[node]] && Alike(entry, result.value[node])
  {
    hide Trim, Storable, Replay, Replays, CanonicalFrames, OfNode;
    CanonicalOfNode(config, node, entry);
    CompactionReplays(entry, node, config.limit);
    ReplayBlock(config, done, node, CanonicalFrames(entry));
  }

  /** Compaction preserves meaning: from any good directory, in whatever order the
      nodes are written, replaying the compacted log never fails and keeps every
      current contact and conflict; a history loses at most a newest element that
      is reached exactly as the current contact is. */
  lemma CompactedLogReplays(config: Config, entries: Entries, nodes: seq<NodeId>)
    requires GoodEntries(config, entries) && Enumerates(nodes, entries)
    ensures var result := ReplayAll(config, CanonicalLog(entries, nodes));
            result.Ok? && AlikeEntries(entries, result.value)
  {
    hide GoodEntry, Replay, Alike, CanonicalLog;
    DistinctLength(nodes);
    assert forall n :: n in nodes ==> n in Elements(nodes);
    ReplayNodes(config, entries, nodes, map[]);
  }

  lemma {:induction false} DistinctLength(nodes: seq<NodeId>)
    requires Distinct(nodes)
    ensures |Elements(nodes)| == |nodes|
  {
    if nodes != [] {
      DistinctRest(nodes);
      DistinctLength(nodes[1..]);
      assert nodes == [nodes[0]] + nodes[1..];
      ElementsPrepend(nodes[0], nodes[1..]);
    }
  }

  // ---------- every step keeps it ----------

  lemma ApplyKeepsGood(config: Config, entries: Entries, contact: Contact)
    requires GoodEntries(config, entries) && Storable(contact, config.root)
    ensures GoodEntries(config, Apply(config, entries, contact))
  {
    hide GoodEntry, Storable, Next;
    if Changes(config, entries, contact) {
      var node := Node(contact);
      NextGood(config, node, Get(entries, node), contact);
      var entries' := Apply(config, entries, contact);
      assert entries'.Keys == entries.Keys + {node};
      if node in entries {
        assert entries'.Keys == entries.Keys;
      } else {
        assert |entries'| == |entries'.Keys| == |entries.Keys| + 1;
      }
    }
  }

  lemma NextGood(config: Config, node: NodeId, entry: Option<Entry>, contact: Contact)
    requires Node(contact) == node != config.localNode && Storable(contact, config.root)
    requires entry.Some? ==> GoodEntry(config, node, entry.value)
    ensures GoodEntry(config, node, Next(entry, contact, config.limit))
  {
    hide WellFormed, VerifiedEntry, Next;
    NextWellFormed(entry, contact, node, config.limit);
    NextVerified(entry, contact, config);
  }

  lemma NextVerified(entry: Option<Entry>, contact: Contact, config: Config)
    requires Storable(contact, config.root) && (entry.Some? ==> VerifiedEntry(entry.value, config.root))
    ensures VerifiedEntry(Next(entry, contact, config.limit), config.root)
  {
    hide Storable, Decide, Trim;
    if entry.Some? {
      TrimElements([entry.value.current] + entry.value.history, {}, config.limit);
    }
  }

  lemma {:induction false} TrimElements(history: seq<Contact>, seen: set<SocketAddr>, limit: nat)
    ensures forall c :: c in Trim(history, seen, limit) ==> c in history
    decreases |history|
  {
    hide Adds, Count;
    if history != [] {
      TrimElements(history[1..], seen, limit);
      TrimElements(history[1..], Count(history[0], seen, limit), limit);
      assert history == [history[0]] + history[1..];
    }
  }

  /** Alike directories answer alike, change alike and stay alike. */
  lemma ApplyAlike(config: Config, live: Entries, replayed: Entries, contact: Contact)
    requires AlikeEntries(live, replayed)
    ensures forall persist :: Answer(config, live, contact, persist) == Answer(config, replayed, contact, persist)
    ensures Changes(config, live, contact) <==> Changes(config, replayed, contact)
    ensures AlikeEntries(Apply(config, live, contact), Apply(config, replayed, contact))
  {
    hide Trim, DialStateChanged;
    var node := Node(contact);
    assert |live| == |live.Keys| == |replayed.Keys| == |replayed|;
    if node in live {
      assert Alike(live[node], replayed[node]);
      NextAlike(live[node], replayed[node], contact, config.limit);
    }
  }
}
