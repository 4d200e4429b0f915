/** One node's endpoint register: merging, quarantine and bounded history. */
module PeerMerge {
  import opened Prelude
  import opened Contacts
  import opened PeerHistory

  datatype MergeDecision =
    | AcceptFirst
    | AcceptNewer
    | Duplicate
    | RejectStale
    | Equivocation
    | GenerationTransitionRequired

  function Decide(current: Option<SignedRecord>, incoming: SignedRecord): MergeDecision {
    if current.None? then AcceptFirst else
    var current := current.value;
    if current.record.generation != incoming.record.generation then GenerationTransitionRequired
    else if incoming.record.sequence > current.record.sequence then AcceptNewer
    else if incoming.record.sequence < current.record.sequence then RejectStale
    else if current == incoming then Duplicate
    else Equivocation
  }

  datatype Entry = Entry(current: Contact, history: seq<Contact>, conflict: Option<Contact>)

  function Node(contact: Contact): NodeId { contact.endpoint.record.node }
  function Generation(contact: Contact): nat { contact.endpoint.record.generation }
  function Sequence(contact: Contact): nat { contact.endpoint.record.sequence }

  function DecideEntry(entry: Option<Entry>, contact: Contact): MergeDecision {
    Decide(if entry.Some? then Some(entry.value.current.endpoint) else None, contact.endpoint)
  }

  /** A newer contact replaces the current one, which joins the history when the
      node is now reached differently. */
  function Supersede(entry: Entry, contact: Contact, limit: nat): Entry {
    entry.(current := contact,
           history := if DialStateChanged(entry.current, contact) then Trim([entry.current] + entry.history, {}, limit)
                      else entry.history)
  }

  /** The entry of a node once a contact of that node was applied; a refused one
      leaves it as it was. */
  function Next(entry: Option<Entry>, contact: Contact, limit: nat): Entry {
    if entry.None? then Entry(contact, [], None) else
    var entry := entry.value;
    match DecideEntry(Some(entry), contact)
    case AcceptNewer => if entry.conflict.Some? then entry else Supersede(entry, contact, limit)
    case Equivocation => if entry.conflict.Some? then entry else entry.(conflict := Some(contact))
    case _ => entry
  }

  /** Contacts applied in order. */
  function Deliver(entry: Option<Entry>, contacts: seq<Contact>, limit: nat): Option<Entry>
    decreases |contacts|
  {
    if contacts == [] then entry else Deliver(Some(Next(entry, contacts[0], limit)), contacts[1..], limit)
  }

  lemma {:induction false} DeliverConcat(entry: Option<Entry>, a: seq<Contact>, b: seq<Contact>, limit: nat)
    ensures Deliver(entry, a + b, limit) == Deliver(Deliver(entry, a, limit), b, limit)
    decreases |a|
  {
    hide Next;
    if a == [] {
      assert a + b == b;
    } else {
      assert (a + b)[1..] == a[1..] + b;
      DeliverConcat(Some(Next(entry, a[0], limit)), a[1..], b, limit);
    }
  }

  lemma DeliverOne(entry: Option<Entry>, contact: Contact, limit: nat)
    ensures Deliver(entry, [contact], limit) == Some(Next(entry, contact, limit))
  {
    hide Next;
    assert [contact][1..] == [];
  }

  lemma DeliverThen(entry: Option<Entry>, first: Contact, rest: seq<Contact>, limit: nat)
    ensures Deliver(entry, [first] + rest, limit) == Deliver(Some(Next(entry, first, limit)), rest, limit)
  {
    hide Next;
    assert ([first] + rest)[1..] == rest;
  }

  // ---------- the history refines an unbounded one ----------

  /** The same register with every superseded contact kept. */
  function UnboundedNext(entry: Option<Entry>, contact: Contact): Entry {
    if entry.None? then Entry(contact, [], None) else
    var entry := entry.value;
    match DecideEntry(Some(entry), contact)
    case AcceptNewer =>
      if entry.conflict.Some? then entry
      else if DialStateChanged(entry.current, contact) then entry.(current := contact, history := [entry.current] + entry.history)
      else entry.(current := contact)
    case Equivocation => if entry.conflict.Some? then entry else entry.(conflict := Some(contact))
    case _ => entry
  }

  function UnboundedDeliver(entry: Option<Entry>, contacts: seq<Contact>): Option<Entry>
    decreases |contacts|
  {
    if contacts == [] then entry else UnboundedDeliver(Some(UnboundedNext(entry, contacts[0])), contacts[1..])
  }

  /** The unbounded entry with its history trimmed once. */
  function TrimOnce(entry: Option<Entry>, limit: nat): Option<Entry> {
    if entry.None? then None else Some(entry.value.(history := Trim(entry.value.history, {}, limit)))
  }

  /** After any contacts, the history that was trimmed at every step is one trim
      of everything superseded, and within its limit. */
  lemma {:induction false} HistoryIsOneTrim(entry: Option<Entry>, contacts: seq<Contact>, limit: nat)
    ensures Deliver(TrimOnce(entry, limit), contacts, limit) == TrimOnce(UnboundedDeliver(entry, contacts), limit)
    ensures UnboundedDeliver(entry, contacts).Some? ==>
              |Trim(UnboundedDeliver(entry, contacts).value.history, {}, limit)| <= limit
    decreases |contacts|
  {
    hide Trim, DialStateChanged, Decide;
    if UnboundedDeliver(entry, contacts).Some? {
      TrimBounds(UnboundedDeliver(entry, contacts).value.history, {}, limit);
    }
    if contacts != [] {
      if entry.Some? {
        TrimIncrementally(entry.value.current, entry.value.history, limit);
      } else {
        EmptyTrim(limit);
      }
      var next := Some(UnboundedNext(entry, contacts[0]));
      assert Some(Next(TrimOnce(entry, limit), contacts[0], limit)) == TrimOnce(next, limit);
      HistoryIsOneTrim(next, contacts[1..], limit);
    }
  }

  lemma EmptyTrim(limit: nat)
    ensures Trim([], {}, limit) == []
  {
  }

  // ---------- quarantine ----------

  /** Once conflicting evidence is kept, nothing changes the entry. */
  lemma {:induction false} QuarantineIsSticky(entry: Entry, contacts: seq<Contact>, limit: nat)
    requires entry.conflict.Some?
    ensures Deliver(Some(entry), contacts, limit) == Some(entry)
    decreases |contacts|
  {
    hide Decide, Supersede;
    if contacts != [] {
      QuarantineIsSticky(entry, contacts[1..], limit);
    }
  }

  // ---------- convergence ----------

  /** No two different records at one sequence, and one generation. */
  predicate Consistent(contacts: seq<Contact>) {
    forall a, b :: a in contacts && b in contacts ==>
      Generation(a) == Generation(b) && (Sequence(a) == Sequence(b) ==> a.endpoint == b.endpoint)
  }

  /** `entry` holds the contact of greatest sequence among `contacts`. */
  predicate HoldsGreatest(entry: Entry, contacts: seq<Contact>) {
    && entry.conflict.None?
    && entry.current in contacts
    && forall c :: c in contacts ==> Sequence(c) <= Sequence(entry.current)
  }

  lemma {:induction false} DeliverGreatest(entry: Entry, before: seq<Contact>, contacts: seq<Contact>, limit: nat)
    requires Consistent(before + contacts) && HoldsGreatest(entry, before)
    ensures var result := Deliver(Some(entry), contacts, limit);
            result.Some? && HoldsGreatest(result.value, before + contacts)
    decreases |contacts|
  {
    hide Trim, DialStateChanged;
    if contacts == [] {
      assert before + contacts == before;
    } else {
      var first, rest := contacts[0], contacts[1..];
      assert before + contacts == before + [first] + rest;
      assert first in before + contacts && entry.current in before + contacts;
      DeliverGreatest(Next(Some(entry), first, limit), before + [first], rest, limit);
    }
  }

  function Endpoints(contacts: seq<Contact>): set<SignedRecord> {
    set c | c in contacts :: c.endpoint
  }

  /** However consistent contacts are ordered and repeated, the register ends with
      the same record, the one of greatest sequence, and without a conflict. */
  lemma Convergence(a: seq<Contact>, b: seq<Contact>, limit: nat)
    requires Consistent(a) && a != [] && Endpoints(a) == Endpoints(b)
    ensures var x, y := Deliver(None, a, limit), Deliver(None, b, limit);
            && x.Some? && HoldsGreatest(x.value, a)
            && y.Some? && HoldsGreatest(y.value, b)
            && x.value.current.endpoint == y.value.current.endpoint
  {
    hide Deliver;
    assert a[0].endpoint in Endpoints(b);
    assert b != [];
    forall p, q | p in b && q in b
      ensures Generation(p) == Generation(q) && (Sequence(p) == Sequence(q) ==> p.endpoint == q.endpoint)
    {
      assert p.endpoint in Endpoints(a) && q.endpoint in Endpoints(a);
    }
    DeliverFromNone(a, limit);
    DeliverFromNone(b, limit);
    var x, y := Deliver(None, a, limit).value, Deliver(None, b, limit).value;
    assert x.current.endpoint in Endpoints(b) && y.current.endpoint in Endpoints(a);
  }

  lemma DeliverFromNone(contacts: seq<Contact>, limit: nat)
    requires Consistent(contacts) && contacts != []
    ensures var result := Deliver(None, contacts, limit);
            result.Some? && HoldsGreatest(result.value, contacts)
  {
    hide Consistent;
    assert contacts == [contacts[0]] + contacts[1..];
    DeliverGreatest(Entry(contacts[0], [], None), [contacts[0]], contacts[1..], limit);
  }

  /** Two inconsistent records end with different current ones by which came first,
      whatever follows. */
  lemma InconsistentDiverges(x: Contact, y: Contact, rest: seq<Contact>, limit: nat)
    requires !Consistent([x, y])
    ensures var a, b := Deliver(None, [x, y] + rest, limit), Deliver(None, [y, x] + rest, limit);
            a.Some? && b.Some? && a.value.current.endpoint != b.value.current.endpoint
  {
    hide Trim, Deliver;
    DeliverConcat(None, [x, y], rest, limit);
    DeliverConcat(None, [y, x], rest, limit);
    if Generation(x) == Generation(y) {
      DeliverPair(x, y, limit);
      DeliverPair(y, x, limit);
      QuarantineIsSticky(Entry(x, [], Some(y)), rest, limit);
      QuarantineIsSticky(Entry(y, [], Some(x)), rest, limit);
    } else {
      DeliverForeign(x, y, limit);
      DeliverForeign(y, x, limit);
      GenerationStays(Entry(x, [], None), rest, limit);
      GenerationStays(Entry(y, [], None), rest, limit);
    }
  }

  /** A record of another generation is refused. */
  lemma DeliverForeign(x: Contact, y: Contact, limit: nat)
    requires Generation(x) != Generation(y)
    ensures Deliver(None, [x, y], limit) == Some(Entry(x, [], None))
  {
    hide Trim;
    DeliverOne(None, x, limit);
    DeliverOne(Some(Entry(x, [], None)), y, limit);
    DeliverConcat(None, [x], [y], limit);
    assert [x] + [y] == [x, y];
  }

  lemma {:induction false} GenerationStays(entry: Entry, contacts: seq<Contact>, limit: nat)
    ensures var result := Deliver(Some(entry), contacts, limit);
            result.Some? && Generation(result.value.current) == Generation(entry.current)
    decreases |contacts|
  {
    hide Trim;
    if contacts != [] {
      GenerationStays(Next(Some(entry), contacts[0], limit), contacts[1..], limit);
    }
  }

  /** The order of arrival does not matter for the current record. */
  ghost predicate OrderFree(contacts: seq<Contact>, limit: nat) {
    forall a, b :: multiset(a) == multiset(b) == multiset(contacts) ==>
      var x, y := Deliver(None, a, limit), Deliver(None, b, limit);
      x.Some? && y.Some? && x.value.current.endpoint == y.value.current.endpoint
  }

  /** Convergence holds for exactly the consistent records. */
  lemma ConvergesExactly(contacts: seq<Contact>, limit: nat)
    requires contacts != []
    ensures OrderFree(contacts, limit) <==> Consistent(contacts)
  {
    hide Deliver;
    if Consistent(contacts) {
      forall a, b | multiset(a) == multiset(b) == multiset(contacts)
        ensures var x, y := Deliver(None, a, limit), Deliver(None, b, limit);
                x.Some? && y.Some? && x.value.current.endpoint == y.value.current.endpoint
      {
        SameElements(a, contacts);
        SameElements(b, contacts);
        assert a != [] by { assert |multiset(a)| == |a|; assert |multiset(contacts)| == |contacts|; }
        Convergence(a, b, limit);
      }
    } else {
      var x, y :| x in contacts && y in contacts &&
                  !(Generation(x) == Generation(y) && (Sequence(x) == Sequence(y) ==> x.endpoint == y.endpoint));
      var rest := PairFirst(contacts, x, y);
      assert !Consistent([x, y]) by { assert x in [x, y] && y in [x, y]; }
      InconsistentDiverges(x, y, rest, limit);
      assert multiset([y, x] + rest) == multiset([x, y] + rest);
    }
  }

  lemma SameElements(a: seq<Contact>, b: seq<Contact>)
    requires multiset(a) == multiset(b)
    ensures Endpoints(a) == Endpoints(b) && forall c :: c in a <==> c in b
  {
    forall c ensures c in a <==> c in b {
      assert c in a <==> c in multiset(a);
      assert c in b <==> c in multiset(b);
    }
  }

  /** Two different elements can come first. */
  lemma PairFirst(contacts: seq<Contact>, x: Contact, y: Contact) returns (rest: seq<Contact>)
    requires x in contacts && y in contacts && x != y
    ensures multiset([x, y] + rest) == multiset(contacts)
  {
    var i :| 0 <= i < |contacts| && contacts[i] == x;
    var others := contacts[..i] + contacts[i + 1..];
    assert contacts == contacts[..i] + [x] + contacts[i + 1..];
    assert multiset(contacts) == multiset(others) + multiset{x};
    assert y in multiset(others);
    assert y in others;
    var j :| 0 <= j < |others| && others[j] == y;
    rest := others[..j] + others[j + 1..];
    assert others == others[..j] + [y] + others[j + 1..];
  }

  lemma DeliverPair(x: Contact, y: Contact, limit: nat)
    requires Generation(x) == Generation(y) && Sequence(x) == Sequence(y) && x.endpoint != y.endpoint
    ensures Deliver(None, [x, y], limit) == Some(Entry(x, [], Some(y)))
  {
    hide Trim;
    DeliverOne(None, x, limit);
    DeliverOne(Some(Entry(x, [], None)), y, limit);
    DeliverConcat(None, [x], [y], limit);
    assert [x] + [y] == [x, y];
  }

  // ---------- what every step keeps ----------

  /** Contacts of one node and generation, newest first, all below `bound`. */
  predicate Descending(history: seq<Contact>, node: NodeId, generation: nat, bound: nat) {
    history != [] ==>
    && Node(history[0]) == node
    && Generation(history[0]) == generation
    && Sequence(history[0]) < bound
    && Descending(history[1..], node, generation, Sequence(history[0]))
  }

  lemma {:induction false} DescendingBelow(history: seq<Contact>, node: NodeId, generation: nat, low: nat, high: nat)
    requires Descending(history, node, generation, low) && low <= high
    ensures Descending(history, node, generation, high)
  {
  }

  lemma {:induction false} DescendingTrim(history: seq<Contact>, node: NodeId, generation: nat, bound: nat, seen: set<SocketAddr>, limit: nat)
    requires Descending(history, node, generation, bound)
    ensures Descending(Trim(history, seen, limit), node, generation, bound)
    decreases |history|
  {
    hide Adds, Count;
    if history != [] {
      var first, rest := history[0], history[1..];
      DescendingTrim(rest, node, generation, Sequence(first), Count(first, seen, limit), limit);
      DescendingTrim(rest, node, generation, Sequence(first), seen, limit);
      DescendingBelow(Trim(rest, seen, limit), node, generation, Sequence(first), bound);
      var kept := Trim(rest, Count(first, seen, limit), limit);
      assert ([first] + kept)[1..] == kept;
    }
  }

  predicate Conflicts(current: Contact, other: Contact) {
    && Node(other) == Node(current)
    && DecideEntry(Some(Entry(current, [], None)), other) == Equivocation
  }

  predicate WellFormed(entry: Entry, node: NodeId, limit: nat) {
    && Node(entry.current) == node
    && Descending(entry.history, node, Generation(entry.current), Sequence(entry.current))
    && Trimmed(entry.history, {}, limit)
    && (entry.conflict.Some? ==> Conflicts(entry.current, entry.conflict.value))
  }

  lemma NextWellFormed(entry: Option<Entry>, contact: Contact, node: NodeId, limit: nat)
    requires Node(contact) == node && (entry.Some? ==> WellFormed(entry.value, node, limit))
    ensures WellFormed(Next(entry, contact, limit), node, limit)
  {
    EmptyTrim(limit);
    hide Trim, DialStateChanged;
    if entry.Some? && DecideEntry(entry, contact) == AcceptNewer && entry.value.conflict.None? {
      var e := entry.value;
      var generation := Generation(contact);
      var longer := [e.current] + e.history;
      assert longer[1..] == e.history;
      assert Descending(longer, node, generation, Sequence(contact));
      DescendingTrim(longer, node, generation, Sequence(contact), {}, limit);
      DescendingBelow(e.history, node, generation, Sequence(e.current), Sequence(contact));
      TrimIncrementally(e.current, longer, limit);
    }
  }

  // ---------- replaying what compaction writes ----------

  /** Two entries that differ at most by a newest history element that is reached
      exactly as the current contact is. */
  predicate Alike(live: Entry, replayed: Entry) {
    && live.current == replayed.current
    && live.conflict == replayed.conflict
    && (live.history == replayed.history ||
        (live.history != [] && !DialStateChanged(live.history[0], live.current) && replayed.history == live.history[1..]))
  }

  /** Alike entries stay alike whatever is applied to both. */
  lemma NextAlike(live: Entry, replayed: Entry, contact: Contact, limit: nat)
    requires Alike(live, replayed)
    ensures Alike(Next(Some(live), contact, limit), Next(Some(replayed), contact, limit))
  {
    hide Trim;
    if live.history != replayed.history && DialStateChanged(live.current, contact) {
      TrimSkipsSame(live.current, live.history[0], replayed.history, limit);
      assert [live.current] + live.history == [live.current, live.history[0]] + replayed.history;
    }
  }

  function Reverse(contacts: seq<Contact>): seq<Contact> {
    if contacts == [] then [] else Reverse(contacts[1..]) + [contacts[0]]
  }

  /** Oldest history first, then the current contact, then the evidence. */
  function CanonicalFrames(entry: Entry): seq<Contact> {
    Reverse(entry.history) + [entry.current] + (if entry.conflict.Some? then [entry.conflict.value] else [])
  }

  /** Whether replaying a contact is an error: a generation change, or an advance
      of a quarantined entry. */
  predicate ReplayFails(entry: Option<Entry>, contact: Contact) {
    || DecideEntry(entry, contact) == GenerationTransitionRequired
    || (DecideEntry(entry, contact) == AcceptNewer && entry.value.conflict.Some?)
  }

  predicate Replays(entry: Option<Entry>, contacts: seq<Contact>, limit: nat)
    decreases |contacts|
  {
    contacts == [] ||
    (!ReplayFails(entry, contacts[0]) && Replays(Some(Next(entry, contacts[0], limit)), contacts[1..], limit))
  }

  lemma {:induction false} ReplaysConcat(entry: Option<Entry>, a: seq<Contact>, b: seq<Contact>, limit: nat)
    ensures Replays(entry, a + b, limit) <==> Replays(entry, a, limit) && Replays(Deliver(entry, a, limit), b, limit)
    decreases |a|
  {
    hide Next, ReplayFails;
    if a == [] {
      assert a + b == b;
    } else {
      assert (a + b)[1..] == a[1..] + b;
      ReplaysConcat(Some(Next(entry, a[0], limit)), a[1..], b, limit);
    }
  }

  lemma ReplaysOne(entry: Option<Entry>, contact: Contact, limit: nat)
    ensures Replays(entry, [contact], limit) <==> !ReplayFails(entry, contact)
  {
    hide Next, ReplayFails;
    assert [contact][1..] == [];
  }

  /** Replaying a trimmed history, oldest first, rebuilds it. */
  lemma {:induction false} ReplayHistory(history: seq<Contact>, node: NodeId, generation: nat, bound: nat, limit: nat)
    requires history != [] && Descending(history, node, generation, bound) && Trimmed(history, {}, limit)
    ensures Replays(None, Reverse(history), limit)
    ensures Deliver(None, Reverse(history), limit) == Some(Entry(history[0], history[1..], None))
    decreases |history|
  {
    hide Trim, DialStateChanged, Replays, Deliver;
    var first, rest := history[0], history[1..];
    var older := Reverse(rest);
    ReplaysConcat(None, older, [first], limit);
    DeliverConcat(None, older, [first], limit);
    if rest == [] {
      NothingReplays(None, limit);
      assert older + [first] == [first];
      ReplaysOne(None, first, limit);
      DeliverOne(None, first, limit);
    } else {
      TrimmedTail(history, limit);
      ReplayHistory(rest, node, generation, Sequence(first), limit);
      var entry := Entry(rest[0], rest[1..], None);
      ReplaysOne(Some(entry), first, limit);
      DeliverOne(Some(entry), first, limit);
      TrimmedNeighbours(history, limit);
      assert [rest[0]] + rest[1..] == rest;
    }
  }

  lemma NothingReplays(entry: Option<Entry>, limit: nat)
    ensures Replays(entry, [], limit) && Deliver(entry, [], limit) == entry
  {
  }

  /** Compaction keeps the meaning of an entry: its frames replay without error to
      an entry alike, and to the very same entry exactly when its newest history
      element is reached differently from the current contact. */
  lemma CompactionReplays(entry: Entry, node: NodeId, limit: nat)
    requires WellFormed(entry, node, limit)
    ensures Replays(None, CanonicalFrames(entry), limit)
    ensures var replayed := Deliver(None, CanonicalFrames(entry), limit);
            && replayed.Some?
            && Alike(entry, replayed.value)
            && (replayed.value == entry <==> entry.history == [] || DialStateChanged(entry.history[0], entry.current))
  {
    hide Trim, Replays, Deliver;
    var calm := Reverse(entry.history) + [entry.current];
    ReplaysConcat(None, Reverse(entry.history), [entry.current], limit);
    DeliverConcat(None, Reverse(entry.history), [entry.current], limit);
    var middle: Option<Entry> := None;
    if entry.history == [] {
      NothingReplays(None, limit);
    } else {
      ReplayHistory(entry.history, node, Generation(entry.current), Sequence(entry.current), limit);
      middle := Some(Entry(entry.history[0], entry.history[1..], None));
      assert [entry.history[0]] + entry.history[1..] == entry.history;
    }
    ReplaysOne(middle, entry.current, limit);
    DeliverOne(middle, entry.current, limit);
    var current := Next(middle, entry.current, limit);
    assert Alike(entry.(conflict := None), current);
    if entry.conflict.Some? {
      ReplaysConcat(None, calm, [entry.conflict.value], limit);
      DeliverConcat(None, calm, [entry.conflict.value], limit);
      ReplaysOne(Some(current), entry.conflict.value, limit);
      DeliverOne(Some(current), entry.conflict.value, limit);
    } else {
      assert CanonicalFrames(entry) == calm;
    }
  }

  /** The replayed history can really be shorter: a contact with one public
      address, a change to local addresses only, and a return. */
  lemma CompactionCanShortenHistory(a: Contact, b: Contact, d: Contact, limit: nat)
    requires limit > 0 && Node(a) == Node(b) == Node(d) && Generation(a) == Generation(b) == Generation(d)
    requires Sequence(a) < Sequence(b) < Sequence(d)
    requires Addresses(Candidates(a), false) != {} && Addresses(Candidates(b), false) == {}
    requires !DialStateChanged(a, d)
    ensures var live := Deliver(None, [a, b, d], limit);
            && live == Some(Entry(d, [a], None))
            && Deliver(None, CanonicalFrames(live.value), limit) == Some(Entry(d, [], None))
  {
    hide Adds, Count, Addresses;
    CountStep(a, {}, limit);
    CountStep(b, {}, limit);
    assert Trim([a] + [], {}, limit) == [a] by { assert ([a] + [])[1..] == []; }
    assert Trim([b] + [a], {}, limit) == [a] by { assert ([b] + [a])[1..] == [a]; assert [a][1..] == []; }
    hide Trim;
    DeliverThen(None, a, [b, d], limit);
    DeliverThen(Some(Entry(a, [], None)), b, [d], limit);
    DeliverOne(Some(Entry(b, [a], None)), d, limit);
    assert [a] + [b, d] == [a, b, d] && [b] + [d] == [b, d];
    assert [a][1..] == [];
    assert Reverse([a]) == [a];
    assert CanonicalFrames(Entry(d, [a], None)) == [a] + [d];
    DeliverThen(None, a, [d], limit);
    DeliverOne(Some(Entry(a, [], None)), d, limit);
  }
}
