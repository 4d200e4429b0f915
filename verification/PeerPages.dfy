/** Pages of contacts: what is kept of a page before it is merged. */
module PeerPages {
  import opened Prelude
  import opened Contacts
  import opened PeerHistory
  import opened PeerMerge
  import opened PeerReplay
  import opened PeerRuns
  import Revocation

  const MAX_PAGE_CONTACTS := 8

  /** One contact more than a page may hold is still looked at. */
  function PageOf(contacts: seq<Contact>): seq<Contact> {
    if |contacts| <= MAX_PAGE_CONTACTS + 1 then contacts else contacts[..MAX_PAGE_CONTACTS + 1]
  }

  predicate Eligible(config: Config, revocations: Revocation.SignedRevocations, now: nat, contact: Contact) {
    Node(contact) != config.localNode && !Revocation.Contains(revocations, Node(contact)) && Verify(contact, config.root, now)
  }

  predicate Older(a: Contact, b: Contact) {
    Generation(a) < Generation(b) || (Generation(a) == Generation(b) && Sequence(a) < Sequence(b))
  }

  predicate SameVersion(a: Contact, b: Contact) {
    Generation(a) == Generation(b) && Sequence(a) == Sequence(b)
  }

  type Newest = map<NodeId, seq<Contact>>

  function ValuesOf(newest: Newest, node: NodeId): seq<Contact> {
    if node in newest then newest[node] else []
  }

  /** The contacts of a node that count, in order. */
  function Own(config: Config, revocations: Revocation.SignedRevocations, now: nat, contacts: seq<Contact>, node: NodeId): seq<Contact> {
    if contacts == [] then [] else
    var last := contacts[|contacts| - 1];
    Own(config, revocations, now, contacts[..|contacts| - 1], node) +
    if Eligible(config, revocations, now, last) && Node(last) == node then [last] else []
  }

  /** The list kept for a node once one more of its contacts was seen. */
  function Retained(values: seq<Contact>, contact: Contact): seq<Contact> {
    if values == [] then [contact]
    else if Older(contact, values[0]) then values
    else if SameVersion(contact, values[0]) then if contact !in values && |values| < 2 then values + [contact] else values
    else [contact]
  }

  function RetainAll(contacts: seq<Contact>): seq<Contact> {
    if contacts == [] then [] else Retained(RetainAll(contacts[..|contacts| - 1]), contacts[|contacts| - 1])
  }

  /** One contact of the newest version, or two when there are several. */
  predicate Keeps(values: seq<Contact>, among: set<Contact>) {
    && |values| <= 2 && (forall v :: v in values ==> v in among)
    && (values == [] ==> among == {})
    && (|values| == 2 ==> values[0] != values[1] && SameVersion(values[0], values[1]))
    && (values != [] ==> forall c :: c in among ==> !Older(values[0], c))
    && (|values| == 1 ==> forall c :: c in among && SameVersion(c, values[0]) ==> c == values[0])
  }

  lemma {:induction false} KeepsNewest(contacts: seq<Contact>)
    ensures Keeps(RetainAll(contacts), Elements(contacts))
    decreases |contacts|
  {
    if contacts != [] {
      var before, last := contacts[..|contacts| - 1], contacts[|contacts| - 1];
      KeepsNewest(before);
      assert contacts == before + [last];
      RetainedKeeps(RetainAll(before), Elements(before), last);
      assert Elements(contacts) == Elements(before) + {last};
    }
  }

  lemma RetainedKeeps(values: seq<Contact>, among: set<Contact>, contact: Contact)
    requires Keeps(values, among)
    ensures Keeps(Retained(values, contact), among + {contact})
  {
  }

  /** What is kept of a page, node by node. */
  ghost predicate Coalesced(config: Config, revocations: Revocation.SignedRevocations, now: nat, contacts: seq<Contact>, newest: Newest) {
    forall node :: ValuesOf(newest, node) == RetainAll(Own(config, revocations, now, contacts, node))
  }

  /** Keeps, per node, the newest eligible contacts of a page. */
  method Coalesce(config: Config, revocations: Revocation.SignedRevocations, now: nat, contacts: seq<Contact>) returns (newest: Newest)
    ensures Coalesced(config, revocations, now, PageOf(contacts), newest)
    ensures forall node :: node in newest ==> newest[node] != []
  {
    hide Eligible, RetainAll, Own;
    var page := PageOf(contacts);
    newest := map[];
    NothingKept(config, revocations, now);
    for i := 0 to |page|
      invariant Coalesced(config, revocations, now, page[..i], newest)
      invariant forall node :: node in newest ==> newest[node] != []
    {
      var contact := page[i];
      assert page[..i + 1] == page[..i] + [contact];
      OneMoreSeen(config, revocations, now, page[..i], newest, contact);
      if Eligible(config, revocations, now, contact) {
        newest := newest[Node(contact) := Retained(ValuesOf(newest, Node(contact)), contact)];
      }
    }
    assert page[..|page|] == page;
  }

  lemma NothingKept(config: Config, revocations: Revocation.SignedRevocations, now: nat)
    ensures Coalesced(config, revocations, now, [], map[])
  {
  }

  lemma OneMoreSeen(config: Config, revocations: Revocation.SignedRevocations, now: nat, contacts: seq<Contact>, newest: Newest, contact: Contact)
    requires Coalesced(config, revocations, now, contacts, newest)
    ensures var newest' := if Eligible(config, revocations, now, contact)
                           then newest[Node(contact) := Retained(ValuesOf(newest, Node(contact)), contact)] else newest;
            Coalesced(config, revocations, now, contacts + [contact], newest')
  {
    hide Eligible, Retained;
    var newest' := if Eligible(config, revocations, now, contact)
                   then newest[Node(contact) := Retained(ValuesOf(newest, Node(contact)), contact)] else newest;
    forall node ensures ValuesOf(newest', node) == RetainAll(Own(config, revocations, now, contacts + [contact], node)) {
      var own := Own(config, revocations, now, contacts, node);
      assert (contacts + [contact])[..|contacts|] == contacts;
      assert (own + [contact])[..|own|] == own && own + [] == own;
      assert ValuesOf(newest, node) == RetainAll(own);
    }
  }

  lemma {:induction false} OwnElements(config: Config, revocations: Revocation.SignedRevocations, now: nat, contacts: seq<Contact>, node: NodeId)
    ensures forall c :: c in Own(config, revocations, now, contacts, node) <==>
                        c in contacts && Node(c) == node != config.localNode && node !in revocations.list.revokedNodes && Verify(c, config.root, now)
    decreases |contacts|
  {
    hide Verify;
    if contacts != [] {
      var before, last := contacts[..|contacts| - 1], contacts[|contacts| - 1];
      OwnElements(config, revocations, now, before, node);
      assert contacts == before + [last];
    }
  }

  /** What is kept for a node is its own and eligible. */
  lemma KeptIsOwn(config: Config, revocations: Revocation.SignedRevocations, now: nat, contacts: seq<Contact>, newest: Newest, node: NodeId)
    requires Coalesced(config, revocations, now, contacts, newest)
    ensures forall c :: c in ValuesOf(newest, node) ==>
                        c in contacts && Node(c) == node != config.localNode && node !in revocations.list.revokedNodes && Verify(c, config.root, now)
  {
    hide Eligible, Own, RetainAll;
    var own := Own(config, revocations, now, contacts, node);
    KeepsNewest(own);
    OwnElements(config, revocations, now, contacts, node);
    assert ValuesOf(newest, node) == RetainAll(own);
    assert forall c :: c in Elements(own) <==> c in own;
  }

  /** The kept contacts, node after node. */
  function Flatten(newest: Newest, nodes: seq<NodeId>): seq<Contact> {
    if nodes == [] then [] else ValuesOf(newest, nodes[0]) + Flatten(newest, nodes[1..])
  }

  lemma {:induction false} FlattenElements(newest: Newest, nodes: seq<NodeId>)
    ensures forall c :: c in Flatten(newest, nodes) <==> exists n :: n in nodes && c in ValuesOf(newest, n)
  {
    if nodes != [] {
      FlattenElements(newest, nodes[1..]);
      assert nodes == [nodes[0]] + nodes[1..];
    }
  }

  // ---------- what a page does to a peer ----------

  predicate OwnNodes(newest: Newest) {
    forall n, v :: n in newest && v in newest[n] ==> Node(v) == n
  }

  lemma {:induction false} ApplyAllConcat(config: Config, entries: Entries, a: seq<Contact>, b: seq<Contact>)
    ensures ApplyAll(config, entries, a + b) == ApplyAll(config, ApplyAll(config, entries, a), b)
    decreases |a|
  {
    hide Apply;
    if a == [] {
      assert a + b == b;
    } else {
      assert (a + b)[1..] == a[1..] + b;
      ApplyAllConcat(config, Apply(config, entries, a[0]), a[1..], b);
    }
  }

  /** Contacts of other nodes leave a node's entry alone. */
  lemma {:induction false} ApplyAllOthers(config: Config, entries: Entries, contacts: seq<Contact>, node: NodeId)
    requires node in entries && forall c :: c in contacts ==> Node(c) != node
    ensures node in ApplyAll(config, entries, contacts) && ApplyAll(config, entries, contacts)[node] == entries[node]
    decreases |contacts|
  {
    hide Changes, Next;
    if contacts != [] {
      assert contacts[0] in contacts;
      ApplyAllOthers(config, Apply(config, entries, contacts[0]), contacts[1..], node);
    }
  }

  /** Its own contacts are merged into it in order. */
  lemma {:induction false} ApplyAllOwn(config: Config, entries: Entries, contacts: seq<Contact>, node: NodeId)
    requires node in entries && node != config.localNode && forall c :: c in contacts ==> Node(c) == node
    ensures node in ApplyAll(config, entries, contacts)
    ensures Some(ApplyAll(config, entries, contacts)[node]) == Deliver(Some(entries[node]), contacts, config.limit)
    decreases |contacts|
  {
    hide Changes, Next;
    if contacts != [] {
      assert contacts[0] in contacts;
      UnchangedNext(config, entries, contacts[0]);
      ApplyAllOwn(config, Apply(config, entries, contacts[0]), contacts[1..], node);
    }
  }

  /** Of a whole page, a known peer sees exactly the contacts kept for it. */
  lemma {:induction false} PageOnKnown(config: Config, entries: Entries, newest: Newest, nodes: seq<NodeId>, node: NodeId)
    requires OwnNodes(newest) && Distinct(nodes) && node in entries && node != config.localNode
    ensures var after := ApplyAll(config, entries, Flatten(newest, nodes));
            && node in after
            && Some(after[node]) == if node in nodes then Deliver(Some(entries[node]), ValuesOf(newest, node), config.limit) else Some(entries[node])
    decreases |nodes|
  {
    hide Apply, ApplyAll, Deliver;
    if nodes == [] {
      ApplyAllOthers(config, entries, [], node);
    } else {
      var first, rest := nodes[0], nodes[1..];
      var values := ValuesOf(newest, first);
      assert nodes == [first] + rest;
      DistinctRest(nodes);
      ApplyAllConcat(config, entries, values, Flatten(newest, rest));
      if first == node {
        ApplyAllOwn(config, entries, values, node);
      } else {
        ApplyAllOthers(config, entries, values, node);
      }
      PageOnKnown(config, ApplyAll(config, entries, values), newest, rest, node);
    }
  }

  /** A known peer's entry after contacts of it were imported one by one. */
  function OneByOne(before: Entry, contacts: seq<Contact>, limit: nat): Entry
    decreases |contacts|
  {
    if contacts == [] then before else OneByOne(Next(Some(before), contacts[0], limit), contacts[1..], limit)
  }

  /** Its entry after a page that held them. */
  function PageEntry(before: Entry, contacts: seq<Contact>, limit: nat): Entry {
    OneByOne(before, RetainAll(contacts), limit)
  }

  lemma {:induction false} DeliverIsOneByOne(before: Entry, contacts: seq<Contact>, limit: nat)
    ensures Deliver(Some(before), contacts, limit) == Some(OneByOne(before, contacts, limit))
    decreases |contacts|
  {
    hide Next;
    if contacts != [] {
      DeliverIsOneByOne(Next(Some(before), contacts[0], limit), contacts[1..], limit);
    }
  }

  /** What importing a whole page makes of a known peer. */
  lemma PageOnPeer(config: Config, revocations: Revocation.SignedRevocations, now: nat, contacts: seq<Contact>, entries: Entries,
                   newest: Newest, nodes: seq<NodeId>, node: NodeId)
    requires Coalesced(config, revocations, now, contacts, newest) && Distinct(nodes) && Elements(nodes) == newest.Keys
    requires node in entries && node != config.localNode
    ensures var after := ApplyAll(config, entries, Flatten(newest, nodes));
            node in after && after[node] == PageEntry(entries[node], Own(config, revocations, now, contacts, node), config.limit)
  {
    hide ApplyAll, Flatten, Distinct, RetainAll, Own, Eligible;
    forall n, v | n in newest && v in newest[n] ensures Node(v) == n {
      KeptIsOwn(config, revocations, now, contacts, newest, n);
      assert v in ValuesOf(newest, n);
    }
    PageOnKnown(config, entries, newest, nodes, node);
    assert node in nodes <==> node in Elements(nodes);
    assert ValuesOf(newest, node) == RetainAll(Own(config, revocations, now, contacts, node));
    DeliverIsOneByOne(entries[node], ValuesOf(newest, node), config.limit);
    if node !in nodes {
      assert ValuesOf(newest, node) == [];
    }
  }

  /** At most two contacts, merged. */
  lemma AtMostTwo(before: Entry, values: seq<Contact>, limit: nat)
    requires |values| <= 2
    ensures OneByOne(before, values, limit) ==
            if values == [] then before
            else if |values| == 1 then Next(Some(before), values[0], limit)
            else Next(Some(Next(Some(before), values[0], limit)), values[1], limit)
  {
    hide Next;
    if |values| == 2 {
      assert values[1..] == [values[1]] && [values[1]][1..] == [];
      var first := Next(Some(before), values[0], limit);
      assert OneByOne(first, [values[1]], limit) == OneByOne(Next(Some(first), values[1], limit), [], limit);
    }
  }

  predicate Equivocates(a: Contact, b: Contact) {
    SameVersion(a, b) && a.endpoint != b.endpoint
  }

  /** The first of the kept contacts whose record differs from this one's. */
  function Evidence(values: seq<Contact>, record: SignedRecord): Option<Contact> {
    if values == [] then None
    else if values[0].endpoint != record then Some(values[0])
    else Evidence(values[1..], record)
  }

  /** What a page makes of a peer, in all cases. A quarantined peer keeps its entry.
      The newest version the page holds is taken exactly when it has the peer's
      generation and a larger sequence; when it is the peer's own version the peer
      stays; in both cases a kept contact with another record is the evidence. An
      older version or another generation changes nothing, whatever else the page
      held. */
  lemma PageEffect(before: Entry, contacts: seq<Contact>, limit: nat)
    ensures var values, after := RetainAll(contacts), PageEntry(before, contacts, limit);
            if before.conflict.Some? || values == [] || Generation(values[0]) != Generation(before.current) ||
               Sequence(values[0]) < Sequence(before.current)
            then after == before
            else if Sequence(values[0]) == Sequence(before.current)
            then after == before.(conflict := Evidence(values, before.current.endpoint))
            else after.current == values[0] && after.conflict == Evidence(values, values[0].endpoint)
  {
    hide RetainAll;
    var values := RetainAll(contacts);
    KeepsNewest(contacts);
    AtMostTwo(before, values, limit);
    EvidenceOfTwo(values, before.current.endpoint);
    if values != [] {
      EvidenceOfTwo(values, values[0].endpoint);
    }
  }

  lemma EvidenceOfTwo(values: seq<Contact>, record: SignedRecord)
    requires |values| <= 2
    ensures Evidence(values, record) == if |values| > 0 && values[0].endpoint != record then Some(values[0])
                                        else if |values| == 2 && values[1].endpoint != record then Some(values[1]) else None
  {
    if |values| == 2 {
      assert values[1..] == [values[1]] && [values[1]][1..] == [];
    }
  }

  // ---------- against importing one by one ----------

  /** Two records of one version, of the peer's generation and not below its
      current record, among that record and these contacts. */
  ghost predicate Equivocation(current: Contact, contacts: seq<Contact>) {
    exists a, b :: a in contacts && (b in contacts || b == current) && Equivocates(a, b) &&
                   Generation(a) == Generation(current) && Sequence(a) >= Sequence(current)
  }

  /** What importing one by one keeps as long as nothing conflicts: the newest record
      of the peer's generation. */
  lemma {:induction false} OneByOneNewest(before: Entry, contacts: seq<Contact>, limit: nat)
    requires before.conflict.None? && OneByOne(before, contacts, limit).conflict.None?
    ensures var after := OneByOne(before, contacts, limit).current;
            && (after == before.current || after in contacts)
            && Generation(after) == Generation(before.current) && Sequence(after) >= Sequence(before.current)
            && forall c :: c in contacts && Generation(c) == Generation(before.current) ==> Sequence(c) <= Sequence(after)
    decreases |contacts|
  {
    hide Supersede;
    if contacts != [] {
      var next := Next(Some(before), contacts[0], limit);
      if next.conflict.Some? {
        StaysConflicted(next, contacts[1..], limit);
      }
      NextCurrent(before, contacts[0], limit);
      OneByOneNewest(next, contacts[1..], limit);
      assert contacts == [contacts[0]] + contacts[1..];
    }
  }

  lemma NextCurrent(before: Entry, contact: Contact, limit: nat)
    requires before.conflict.None?
    ensures var next, newer := Next(Some(before), contact, limit), Generation(contact) == Generation(before.current) &&
                                                                  Sequence(contact) > Sequence(before.current);
            && next.current == (if newer then contact else before.current)
            && (next.conflict.Some? <==> Equivocates(contact, before.current))
  {
    hide Trim, DialStateChanged;
  }

  lemma {:induction false} StaysConflicted(before: Entry, contacts: seq<Contact>, limit: nat)
    requires before.conflict.Some?
    ensures OneByOne(before, contacts, limit) == before
    decreases |contacts|
  {
    if contacts != [] {
      StaysConflicted(before, contacts[1..], limit);
    }
  }

  /** One by one, some order of some of the contacts quarantines the peer exactly
      when there is an equivocation; so otherwise no order does. */
  lemma EquivocationExactly(before: Entry, contacts: seq<Contact>, limit: nat)
    requires before.conflict.None?
    ensures Equivocation(before.current, contacts) <==>
            exists order :: (forall c :: c in order ==> c in contacts) && OneByOne(before, order, limit).conflict.Some?
  {
    hide Next, OneByOne;
    if Equivocation(before.current, contacts) {
      var a, b :| a in contacts && (b in contacts || b == before.current) && Equivocates(a, b) &&
                  Generation(a) == Generation(before.current) && Sequence(a) >= Sequence(before.current);
      var order := if b == before.current then [a] else [a, b];
      TwoConflict(before, a, b, limit);
      assert forall c :: c in order ==> c in contacts;
    }
    if order: seq<Contact> :| (forall c :: c in order ==> c in contacts) && OneByOne(before, order, limit).conflict.Some? {
      ConflictNeedsEquivocation(before, order, limit);
      EquivocationMore(before.current, order, contacts);
    }
  }

  lemma TwoConflict(before: Entry, a: Contact, b: Contact, limit: nat)
    requires before.conflict.None? && Equivocates(a, b)
    requires Generation(a) == Generation(before.current) && Sequence(a) >= Sequence(before.current)
    ensures OneByOne(before, if b == before.current then [a] else [a, b], limit).conflict.Some?
  {
    hide Next;
    var order := if b == before.current then [a] else [a, b];
    AtMostTwo(before, order, limit);
    NextCurrent(before, a, limit);
    var next := Next(Some(before), a, limit);
    if next.conflict.None? {
      NextCurrent(next, b, limit);
    } else if |order| == 2 {
      StaysConflicted(next, [b], limit);
      AtMostTwo(next, [b], limit);
    }
  }

  lemma EquivocationMore(current: Contact, some: seq<Contact>, all: seq<Contact>)
    requires Equivocation(current, some) && forall c :: c in some ==> c in all
    ensures Equivocation(current, all)
  {
  }

  lemma {:induction false} ConflictNeedsEquivocation(before: Entry, contacts: seq<Contact>, limit: nat)
    requires before.conflict.None? && OneByOne(before, contacts, limit).conflict.Some?
    ensures Equivocation(before.current, contacts)
    decreases |contacts|
  {
    hide Next;
    if contacts != [] {
      var first, rest := contacts[0], contacts[1..];
      assert contacts == [first] + rest;
      var next := Next(Some(before), first, limit);
      NextCurrent(before, first, limit);
      if next.conflict.None? {
        ConflictNeedsEquivocation(next, rest, limit);
        assert Equivocation(next.current, rest);
      }
    }
  }

  /** A page misses nothing newer unless it also holds a higher generation. */
  predicate HigherGeneration(current: Contact, contacts: seq<Contact>) {
    exists c :: c in contacts && Generation(c) > Generation(current)
  }

  predicate HasNewer(current: Contact, contacts: seq<Contact>) {
    exists c :: c in contacts && Generation(c) == Generation(current) && Sequence(c) > Sequence(current)
  }

  /** After a page the peer is at the newest record of its generation that the page
      held, if and only if no contact of a higher generation came with a newer one. */
  lemma PageReachesNewest(before: Entry, contacts: seq<Contact>, limit: nat)
    requires before.conflict.None?
    ensures (forall c :: c in contacts && Generation(c) == Generation(before.current) ==>
                         Sequence(c) <= Sequence(PageEntry(before, contacts, limit).current))
            <==> !(HigherGeneration(before.current, contacts) && HasNewer(before.current, contacts))
  {
    hide RetainAll, PageEntry, Evidence;
    KeepsNewest(contacts);
    PageEffect(before, contacts, limit);
    var values := RetainAll(contacts);
    assert forall c :: c in contacts <==> c in Elements(contacts);
    if values != [] {
      assert values[0] in values;
    }
  }

  /** Without an equivocation a page and its contacts imported one by one, in any
      order, leave the peer unquarantined, and at the same record if and only if no
      contact of a higher generation came with a newer one. */
  lemma PageAgreesExactly(before: Entry, contacts: seq<Contact>, order: seq<Contact>, limit: nat)
    requires before.conflict.None? && !Equivocation(before.current, contacts) && Elements(order) == Elements(contacts)
    ensures var page, single := PageEntry(before, contacts, limit), OneByOne(before, order, limit);
            && page.conflict.None? && single.conflict.None?
            && (page.current.endpoint == single.current.endpoint
                <==> !(HigherGeneration(before.current, contacts) && HasNewer(before.current, contacts)))
  {
    hide RetainAll, OneByOne, Equivocation, Evidence;
    var page, single := PageEntry(before, contacts, limit), OneByOne(before, order, limit);
    SameElements(order, contacts);
    KeptAmong(contacts);
    NoEquivocation(before, contacts, order, limit);
    NoEquivocation(before, contacts, RetainAll(contacts), limit);
    OneByOneNewest(before, order, limit);
    OneByOneNewest(before, RetainAll(contacts), limit);
    PageReachesNewest(before, contacts, limit);
    if Sequence(page.current) == Sequence(single.current) {
      OneRecord(before.current, contacts, page.current, single.current);
    }
  }

  lemma SameElements(a: seq<Contact>, b: seq<Contact>)
    requires Elements(a) == Elements(b)
    ensures forall c :: c in a <==> c in b
  {
    forall c ensures c in a <==> c in b {
      assert c in a <==> c in Elements(a);
      assert c in b <==> c in Elements(b);
    }
  }

  lemma KeptAmong(contacts: seq<Contact>)
    ensures forall c :: c in RetainAll(contacts) ==> c in contacts
  {
    hide RetainAll;
    KeepsNewest(contacts);
    assert forall c :: c in Elements(contacts) <==> c in contacts;
  }

  lemma NoEquivocation(before: Entry, contacts: seq<Contact>, order: seq<Contact>, limit: nat)
    requires before.conflict.None? && !Equivocation(before.current, contacts) && forall c :: c in order ==> c in contacts
    ensures OneByOne(before, order, limit).conflict.None?
  {
    hide OneByOne, Equivocation;
    if OneByOne(before, order, limit).conflict.Some? {
      ConflictNeedsEquivocation(before, order, limit);
      EquivocationMore(before.current, order, contacts);
    }
  }

  lemma OneRecord(current: Contact, contacts: seq<Contact>, a: Contact, b: Contact)
    requires !Equivocation(current, contacts) && SameVersion(a, b) && Generation(a) == Generation(current) && Sequence(a) >= Sequence(current)
    requires (a == current || a in contacts) && (b == current || b in contacts)
    ensures a.endpoint == b.endpoint
  {
  }

  /** An equivocation at the newest version that the page and the peer hold. */
  ghost predicate NewestEquivocation(current: Contact, contacts: seq<Contact>) {
    exists a, b :: a in contacts && (b in contacts || b == current) && Equivocates(a, b) && Generation(a) == Generation(current) &&
                   !Older(a, current) && forall c :: c in contacts ==> !Older(a, c)
  }

  /** The first two contacts of the newest version carry one record, and so does the
      peer when it is at that version: whatever else that version has is not seen. */
  predicate Shadowed(current: Contact, contacts: seq<Contact>) {
    var values := RetainAll(contacts);
    && |values| == 2 && values[0].endpoint == values[1].endpoint
    && (SameVersion(values[0], current) ==> values[0].endpoint == current.endpoint)
  }

  /** A page quarantines a peer if and only if the newest version equivocates and
      the contacts kept of it show that. */
  lemma PageQuarantinesExactly(before: Entry, contacts: seq<Contact>, limit: nat)
    requires before.conflict.None?
    ensures PageEntry(before, contacts, limit).conflict.Some? <==>
            NewestEquivocation(before.current, contacts) && !Shadowed(before.current, contacts)
  {
    hide RetainAll, PageEntry, Evidence;
    var current, values := before.current, RetainAll(contacts);
    KeepsNewest(contacts);
    KeptAmong(contacts);
    assert forall c :: c in contacts <==> c in Elements(contacts);
    PageEffect(before, contacts, limit);
    EvidenceOfTwo(values, current.endpoint);
    if values != [] {
      EvidenceOfTwo(values, values[0].endpoint);
    }
    var after := PageEntry(before, contacts, limit);
    if after.conflict.Some? {
      KeptShow(current, contacts, values, after.conflict.value);
    }
  }

  /** Evidence that was kept is an equivocation of the newest version. */
  lemma KeptShow(current: Contact, contacts: seq<Contact>, values: seq<Contact>, evidence: Contact)
    requires Keeps(values, Elements(contacts)) && values != [] && evidence in values && Generation(evidence) == Generation(current)
    requires Sequence(evidence) >= Sequence(current)
    requires if SameVersion(evidence, current) then evidence.endpoint != current.endpoint else evidence.endpoint != values[0].endpoint
    ensures NewestEquivocation(current, contacts)
  {
    assert values[0] in values;
    assert forall c :: c in contacts <==> c in Elements(contacts);
    var other := if SameVersion(evidence, current) then current else values[0];
    assert Equivocates(evidence, other);
  }

  /** So an equivocation goes unrecorded if and only if the newest version is of
      another generation or equivocates with nothing, or is shadowed. */
  lemma PageMissesExactly(before: Entry, contacts: seq<Contact>, limit: nat)
    requires before.conflict.None? && Equivocation(before.current, contacts)
    ensures PageEntry(before, contacts, limit).conflict.None? <==>
            || HigherGeneration(before.current, contacts)
            || !NewestEquivocation(before.current, contacts)
            || Shadowed(before.current, contacts)
  {
    hide PageEntry, Shadowed;
    PageQuarantinesExactly(before, contacts, limit);
  }

  // ---------- the pages that lose something ----------

  /** A contact of one peer; `mark` stands for the rest of the record and `serial`
      for the certificate. */
  function Sample(generation: nat, sequence: nat, mark: byte, serial: nat): Contact {
    Contact(SignedMembership(Certificate(MEMBERSHIP_VERSION, 0, 0, [], serial, 0, 1, {ROLE_DEVICE}, []), []),
            SignedRecord(EndpointRecord(1, 0, 0, None, 0, generation, sequence, 0, 1, [], {}, []), [mark]))
  }

  /** A newer contact of the peer's generation is lost to one of a higher one. */
  lemma PageLosesNewer(limit: nat)
    ensures var before, newer, higher := Entry(Sample(1, 5, 0, 1), [], None), Sample(1, 6, 0, 1), Sample(2, 1, 0, 1);
            && PageEntry(before, [newer, higher], limit) == before
            && OneByOne(before, [newer, higher], limit).current == newer
  {
    hide Trim;
    var before, newer, higher := Entry(Sample(1, 5, 0, 1), [], None), Sample(1, 6, 0, 1), Sample(2, 1, 0, 1);
    RetainTwo(newer, higher);
    AtMostTwo(before, [newer, higher], limit);
    AtMostTwo(before, [higher], limit);
  }

  /** Evidence against the peer's own record is lost to a newer contact. */
  lemma PageLosesEvidence(limit: nat)
    ensures var before, other, newer := Entry(Sample(1, 5, 0, 1), [], None), Sample(1, 5, 1, 1), Sample(1, 6, 0, 1);
            && PageEntry(before, [other, newer], limit).current == newer && PageEntry(before, [other, newer], limit).conflict.None?
            && OneByOne(before, [other, newer], limit) == before.(conflict := Some(other))
  {
    hide Trim;
    var before, other, newer := Entry(Sample(1, 5, 0, 1), [], None), Sample(1, 5, 1, 1), Sample(1, 6, 0, 1);
    RetainTwo(other, newer);
    AtMostTwo(before, [other, newer], limit);
    AtMostTwo(before, [newer], limit);
  }

  /** Two certificates with one record shadow a third contact with another. */
  lemma PageLosesThird(limit: nat)
    ensures var before, contacts := Entry(Sample(1, 5, 0, 1), [], None), [Sample(1, 6, 0, 1), Sample(1, 6, 0, 2), Sample(1, 6, 1, 1)];
            && PageEntry(before, contacts, limit).current == contacts[0] && PageEntry(before, contacts, limit).conflict.None?
            && OneByOne(before, contacts, limit).conflict == Some(contacts[2])
  {
    hide Trim;
    var before, contacts := Entry(Sample(1, 5, 0, 1), [], None), [Sample(1, 6, 0, 1), Sample(1, 6, 0, 2), Sample(1, 6, 1, 1)];
    RetainTwo(contacts[0], contacts[1]);
    assert contacts[..2] == contacts[..2][..2] == [contacts[0], contacts[1]];
    assert RetainAll(contacts) == [contacts[0], contacts[1]];
    AtMostTwo(before, contacts[..2], limit);
    var first := Next(Some(before), contacts[0], limit);
    assert contacts[1..] == [contacts[1], contacts[2]];
    AtMostTwo(first, contacts[1..], limit);
  }

  lemma RetainTwo(a: Contact, b: Contact)
    ensures RetainAll([a, b]) == Retained([a], b)
  {
    hide Retained;
    assert [a, b][..1] == [a] && [a][..0] == [];
    assert RetainAll([a]) == Retained([], a) == [a] by { RetainOne(a); }
  }

  lemma RetainOne(a: Contact)
    ensures RetainAll([a]) == [a]
  {
    assert [a][..0] == [];
  }
}
