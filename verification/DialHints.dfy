/** The addresses worth trying for a peer, from its entry, the claims about it and
    the routes that worked before. */
module DialHints {
  import opened Prelude
  import opened Contacts
  import opened PeerHistory
  import opened PeerMerge
  import opened PeerReplay

  /** Routes that worked, by node and transport key, under the interfaces of now. */
  type Routes = (NodeId, TransportKeyId) -> seq<SocketAddr>

  datatype Hint = Hint(contact: Contact, addresses: seq<SocketAddr>)

  /** The first `limit` addresses not yet seen, without repeats. */
  function TakeNew(addresses: seq<SocketAddr>, seen: set<SocketAddr>, limit: nat): seq<SocketAddr> {
    if addresses == [] || limit == 0 then []
    else if addresses[0] !in seen then [addresses[0]] + TakeNew(addresses[1..], seen + {addresses[0]}, limit - 1)
    else TakeNew(addresses[1..], seen, limit)
  }

  function RoutesOf(contact: Contact, routes: Routes): seq<SocketAddr> {
    routes(Node(contact), contact.endpoint.record.transportKey)
  }

  /** A contact's own addresses, then routes known for its key, within a budget. */
  function ContactAddresses(contact: Contact, routes: Routes, seen: set<SocketAddr>, limit: nat, current: bool): seq<SocketAddr> {
    var own := Unseen(contact, seen, limit, current);
    own + TakeNew(RoutesOf(contact, routes), seen + Elements(own), Remaining(limit, |own|))
  }

  /** No list is longer than this, so it is no limit at all. */
  function Everything(contact: Contact, routes: Routes): nat {
    |Candidates(contact)| + |RoutesOf(contact, routes)|
  }

  function CurrentAddresses(entry: Entry, claimed: seq<SocketAddr>, routes: Routes): seq<SocketAddr> {
    var claims := TakeNew(claimed, {}, |claimed|);
    claims + ContactAddresses(entry.current, routes, Elements(claims), Everything(entry.current, routes), true)
  }

  /** Earlier contacts, newest first, until the budget of addresses is spent. */
  function HistoryHints(history: seq<Contact>, routes: Routes, seen: set<SocketAddr>, limit: nat): seq<Hint> {
    if history == [] || limit == 0 then [] else
    var addresses := ContactAddresses(history[0], routes, seen, limit, false);
    if addresses == [] then HistoryHints(history[1..], routes, seen, limit)
    else [Hint(history[0], addresses)] +
         HistoryHints(history[1..], routes, seen + Elements(addresses), Remaining(limit, |addresses|))
  }

  function EntryHints(entry: Entry, claimed: seq<SocketAddr>, routes: Routes, limit: nat): seq<Hint> {
    var current := CurrentAddresses(entry, claimed, routes);
    (if current == [] then [] else [Hint(entry.current, current)]) +
    HistoryHints(entry.history, routes, Elements(current), limit)
  }

  /** Hints of all peers, in the order given, skipping the quarantined and the
      revoked. */
  function AllHints(entries: Entries, nodes: seq<NodeId>, revoked: set<NodeId>,
                    claimed: NodeId -> seq<SocketAddr>, routes: Routes, limit: nat): seq<Hint> {
    if nodes == [] then [] else
    (if nodes[0] !in entries || entries[nodes[0]].conflict.Some? || nodes[0] in revoked then []
     else EntryHints(entries[nodes[0]], claimed(nodes[0]), routes, limit)) +
    AllHints(entries, nodes[1..], revoked, claimed, routes, limit)
  }

  // ---------- alike entries are dialed the same ----------

  lemma {:induction false} TakeNewIsNew(addresses: seq<SocketAddr>, seen: set<SocketAddr>, limit: nat)
    ensures var found := TakeNew(addresses, seen, limit);
            |Elements(found)| == |found| <= limit && Elements(found) !! seen
  {
    if addresses != [] && limit != 0 {
      if addresses[0] !in seen {
        TakeNewIsNew(addresses[1..], seen + {addresses[0]}, limit - 1);
        ElementsPrepend(addresses[0], TakeNew(addresses[1..], seen + {addresses[0]}, limit - 1));
        hide Elements;
      } else {
        TakeNewIsNew(addresses[1..], seen, limit);
      }
    }
  }

  lemma {:induction false} TakeNewCovers(addresses: seq<SocketAddr>, seen: set<SocketAddr>, limit: nat)
    requires limit >= |addresses|
    ensures Elements(addresses) <= seen + Elements(TakeNew(addresses, seen, limit))
  {
    if addresses != [] {
      var first, rest := addresses[0], addresses[1..];
      assert addresses == [first] + rest;
      ElementsPrepend(first, rest);
      if first !in seen {
        TakeNewCovers(rest, seen + {first}, limit - 1);
        ElementsPrepend(first, TakeNew(rest, seen + {first}, limit - 1));
      } else {
        TakeNewCovers(rest, seen, limit);
      }
    }
  }

  lemma {:induction false} TakeNewNothing(addresses: seq<SocketAddr>, seen: set<SocketAddr>, limit: nat)
    requires Elements(addresses) <= seen
    ensures TakeNew(addresses, seen, limit) == []
  {
    if addresses != [] {
      assert addresses == [addresses[0]] + addresses[1..];
      ElementsPrepend(addresses[0], addresses[1..]);
      TakeNewNothing(addresses[1..], seen, limit);
    }
  }

  lemma {:induction false} FreshNothing(candidates: seq<Candidate>, seen: set<SocketAddr>, limit: nat)
    requires Addresses(candidates, true) <= seen
    ensures Fresh(candidates, seen, limit, false) == []
  {
    if candidates != [] {
      FreshNothing(candidates[1..], seen, limit);
    }
  }

  lemma {:induction false} FreshLength(candidates: seq<Candidate>, seen: set<SocketAddr>, limit: nat, current: bool)
    ensures |Fresh(candidates, seen, limit, current)| <= |candidates|
  {
    hide Dialable;
    if candidates != [] && limit != 0 {
      FreshLength(candidates[1..], seen + {candidates[0].address}, limit - 1, current);
      FreshLength(candidates[1..], seen, limit, current);
    }
  }

  lemma ElementsConcat<T>(a: seq<T>, b: seq<T>)
    ensures Elements(a + b) == Elements(a) + Elements(b)
  {
  }

  /** The current contact leaves none of its addresses and routes untried. */
  lemma CurrentCovers(entry: Entry, claimed: seq<SocketAddr>, routes: Routes)
    ensures var tried := Elements(CurrentAddresses(entry, claimed, routes));
            && Addresses(Candidates(entry.current), true) <= tried
            && Elements(RoutesOf(entry.current, routes)) <= tried
  {
    var contact := entry.current;
    var limit := Everything(contact, routes);
    var claims := TakeNew(claimed, {}, |claimed|);
    var seen := Elements(claims);
    var own := Unseen(contact, seen, limit, true);
    var known := RoutesOf(contact, routes);
    var more := TakeNew(known, seen + Elements(own), Remaining(limit, |own|));
    FreshLength(Candidates(contact), seen, limit, true);
    FreshCovers(Candidates(contact), seen, limit, true);
    TakeNewCovers(known, seen + Elements(own), Remaining(limit, |own|));
    if |own| == limit {
      FreshCovers(Candidates(contact), seen, limit + 1, true);
      FreshMore(Candidates(contact), seen, limit, true);
    }
    ElementsConcat(own, more);
    ElementsConcat(claims, own + more);
  }

  /** A limit no shorter than the list is no limit. */
  lemma {:induction false} FreshMore(candidates: seq<Candidate>, seen: set<SocketAddr>, limit: nat, current: bool)
    requires limit >= |candidates|
    ensures Fresh(candidates, seen, limit + 1, current) == Fresh(candidates, seen, limit, current)
  {
    hide Dialable;
    if candidates != [] {
      FreshMore(candidates[1..], seen, limit, current);
      FreshMore(candidates[1..], seen + {candidates[0].address}, limit - 1, current);
    }
  }

  /** A contact reached exactly as the current one adds no hint after it. */
  lemma SameAddsNothing(entry: Entry, older: Contact, claimed: seq<SocketAddr>, routes: Routes, limit: nat)
    requires !DialStateChanged(older, entry.current) && Node(older) == Node(entry.current)
    ensures ContactAddresses(older, routes, Elements(CurrentAddresses(entry, claimed, routes)), limit, false) == []
  {
    hide Addresses, CurrentAddresses;
    CurrentCovers(entry, claimed, routes);
    var tried := Elements(CurrentAddresses(entry, claimed, routes));
    FreshNothing(Candidates(older), tried, limit);
    ghost var none: seq<SocketAddr> := [];
    assert tried + Elements(none) == tried;
    TakeNewNothing(RoutesOf(older, routes), tried, limit);
  }

  /** Observational equality: alike entries give the same hints, contact by contact
      and address by address, for all claims and all routes. */
  lemma AlikeHints(live: Entry, replayed: Entry, node: NodeId, claimed: seq<SocketAddr>, routes: Routes, limit: nat)
    requires Alike(live, replayed) && WellFormed(live, node, limit)
    ensures EntryHints(live, claimed, routes, limit) == EntryHints(replayed, claimed, routes, limit)
  {
    hide Trim, ContactAddresses, CurrentAddresses;
    assert CurrentAddresses(live, claimed, routes) == CurrentAddresses(replayed, claimed, routes) by {
      CurrentDependsOnCurrent(live, replayed, claimed, routes);
    }
    if live.history != replayed.history {
      SameAddsNothing(live, live.history[0], claimed, routes, limit);
    }
  }

  lemma CurrentDependsOnCurrent(a: Entry, b: Entry, claimed: seq<SocketAddr>, routes: Routes)
    requires a.current == b.current
    ensures CurrentAddresses(a, claimed, routes) == CurrentAddresses(b, claimed, routes)
  {
    hide ContactAddresses, Everything;
  }

  /** So a directory and its replay are dialed the same. */
  lemma {:induction false} AlikeDirectoryHints(config: Config, live: Entries, replayed: Entries, nodes: seq<NodeId>,
                                               revoked: set<NodeId>, claimed: NodeId -> seq<SocketAddr>, routes: Routes)
    requires GoodEntries(config, live) && AlikeEntries(live, replayed)
    ensures AllHints(live, nodes, revoked, claimed, routes, config.limit)
         == AllHints(replayed, nodes, revoked, claimed, routes, config.limit)
    decreases |nodes|
  {
    hide EntryHints, WellFormed, VerifiedEntry;
    if nodes != [] {
      var node := nodes[0];
      AlikeDirectoryHints(config, live, replayed, nodes[1..], revoked, claimed, routes);
      if node in live {
        assert GoodEntry(config, node, live[node]);
        AlikeHints(live[node], replayed[node], node, claimed(node), routes, config.limit);
      }
    }
  }

  // ---------- who is used at all ----------

  /** The contact to resolve a peer by: fresh, without evidence, not revoked. */
  function Usable(config: Config, entries: Entries, revoked: set<NodeId>, node: NodeId, now: nat): Option<Contact> {
    if node !in entries || entries[node].conflict.Some? || node in revoked || !Verify(entries[node].current, config.root, now)
    then None else Some(entries[node].current)
  }

  /** The contact to pin a recovery attempt by: it may be expired. */
  function RecoveryAuthority(config: Config, entries: Entries, revoked: set<NodeId>, node: NodeId): Option<Contact> {
    if node !in entries || entries[node].conflict.Some? || node in revoked || !VerifyHistorical(entries[node].current, config.root)
    then None else Some(entries[node].current)
  }

  lemma {:induction false} HistoryHintContacts(history: seq<Contact>, routes: Routes, seen: set<SocketAddr>, limit: nat)
    ensures forall h :: h in HistoryHints(history, routes, seen, limit) ==> h.contact in history
    decreases |history|
  {
    hide ContactAddresses;
    if history != [] && limit != 0 {
      var addresses := ContactAddresses(history[0], routes, seen, limit, false);
      HistoryHintContacts(history[1..], routes, seen, limit);
      HistoryHintContacts(history[1..], routes, seen + Elements(addresses), Remaining(limit, |addresses|));
    }
  }

  lemma EntryHintNodes(config: Config, node: NodeId, entry: Entry, claimed: seq<SocketAddr>, routes: Routes)
    requires GoodEntry(config, node, entry)
    ensures forall h :: h in EntryHints(entry, claimed, routes, config.limit) ==> Node(h.contact) == node
  {
    hide HistoryHints, CurrentAddresses, Trim, VerifiedEntry;
    HistoryHintContacts(entry.history, routes, Elements(CurrentAddresses(entry, claimed, routes)), config.limit);
    DescendingNodes(entry.history, node, Generation(entry.current), Sequence(entry.current));
  }

  /** A quarantined or revoked peer is never resolved, never pinned and never
      dialed; in good entries no other peer's hint can name it either. */
  lemma {:induction false} DeniedIsNeverUsed(config: Config, entries: Entries, nodes: seq<NodeId>, revoked: set<NodeId>,
                                             claimed: NodeId -> seq<SocketAddr>, routes: Routes, denied: NodeId, now: nat)
    requires GoodEntries(config, entries)
    requires denied in revoked || (denied in entries && entries[denied].conflict.Some?)
    ensures Usable(config, entries, revoked, denied, now).None?
    ensures RecoveryAuthority(config, entries, revoked, denied).None?
    ensures forall h :: h in AllHints(entries, nodes, revoked, claimed, routes, config.limit) ==> Node(h.contact) != denied
    decreases |nodes|
  {
    hide EntryHints, GoodEntry, Verify;
    if nodes != [] {
      DeniedIsNeverUsed(config, entries, nodes[1..], revoked, claimed, routes, denied, now);
      if nodes[0] in entries {
        EntryHintNodes(config, nodes[0], entries[nodes[0]], claimed(nodes[0]), routes);
      }
    }
  }

  // ---------- what hints hold ----------

  function HintAddresses(hints: seq<Hint>): seq<SocketAddr> {
    if hints == [] then [] else hints[0].addresses + HintAddresses(hints[1..])
  }

  lemma ContactAddressesBounded(contact: Contact, routes: Routes, seen: set<SocketAddr>, limit: nat, current: bool)
    ensures var found := ContactAddresses(contact, routes, seen, limit, current);
            |Elements(found)| == |found| <= limit && Elements(found) !! seen
  {
    hide Fresh, TakeNew;
    var own := Unseen(contact, seen, limit, current);
    var more := TakeNew(RoutesOf(contact, routes), seen + Elements(own), Remaining(limit, |own|));
    FreshIsNew(Candidates(contact), seen, limit, current);
    TakeNewIsNew(RoutesOf(contact, routes), seen + Elements(own), Remaining(limit, |own|));
    ElementsConcat(own, more);
    hide Elements;
    assert |Elements(own) + Elements(more)| == |Elements(own)| + |Elements(more)|;
  }

  /** Historical hints stay within the budget and never repeat an address. */
  lemma {:induction false} HistoryHintsBounded(history: seq<Contact>, routes: Routes, seen: set<SocketAddr>, limit: nat)
    ensures var found := HintAddresses(HistoryHints(history, routes, seen, limit));
            |Elements(found)| == |found| <= limit && Elements(found) !! seen
    decreases |history|
  {
    hide ContactAddresses;
    if history != [] && limit != 0 {
      var addresses := ContactAddresses(history[0], routes, seen, limit, false);
      ContactAddressesBounded(history[0], routes, seen, limit, false);
      if addresses == [] {
        HistoryHintsBounded(history[1..], routes, seen, limit);
      } else {
        var rest := HistoryHints(history[1..], routes, seen + Elements(addresses), Remaining(limit, |addresses|));
        HistoryHintsBounded(history[1..], routes, seen + Elements(addresses), Remaining(limit, |addresses|));
        assert ([Hint(history[0], addresses)] + rest)[1..] == rest;
        ElementsConcat(addresses, HintAddresses(rest));
        hide Elements;
        assert |Elements(addresses) + Elements(HintAddresses(rest))| == |Elements(addresses)| + |Elements(HintAddresses(rest))|;
      }
    }
  }

  // ---------- what is dialled, said outright ----------

  /** The first place of an element. */
  function First(source: seq<SocketAddr>, x: SocketAddr): (i: nat)
    requires x in source
    ensures i < |source| && source[i] == x && forall k :: 0 <= k < i ==> source[k] != x
  {
    if source[0] == x then 0 else 1 + First(source[1..], x)
  }

  /** `taken` are the first addresses of `source` that were not seen, each once and
      in order: all of them, or as many as the limit allows. */
  predicate Picks(source: seq<SocketAddr>, seen: set<SocketAddr>, limit: nat, taken: seq<SocketAddr>) {
    && |taken| <= limit
    && (forall x :: x in taken ==> x in source && x !in seen)
    && (forall i, j :: 0 <= i < j < |taken| ==> First(source, taken[i]) < First(source, taken[j]))
    && (forall x :: x in source && x !in seen && x !in taken ==>
          |taken| == limit && forall i :: 0 <= i < |taken| ==> First(source, taken[i]) < First(source, x))
  }

  lemma {:induction false} TakeNewPicks(source: seq<SocketAddr>, seen: set<SocketAddr>, limit: nat)
    ensures Picks(source, seen, limit, TakeNew(source, seen, limit))
  {
    if source != [] && limit != 0 {
      var first, rest := source[0], source[1..];
      assert source == [first] + rest;
      if first !in seen {
        TakeNewPicks(rest, seen + {first}, limit - 1);
        PickedFirst(first, rest, seen, limit, TakeNew(rest, seen + {first}, limit - 1));
      } else {
        TakeNewPicks(rest, seen, limit);
        NotPicked(first, rest, seen, limit, TakeNew(rest, seen, limit));
      }
    }
  }

  lemma FirstAfter(first: SocketAddr, rest: seq<SocketAddr>, x: SocketAddr)
    requires x in rest
    ensures First([first] + rest, x) == if x == first then 0 else 1 + First(rest, x)
  {
    assert ([first] + rest)[1..] == rest;
  }

  lemma PickedFirst(first: SocketAddr, rest: seq<SocketAddr>, seen: set<SocketAddr>, limit: nat, more: seq<SocketAddr>)
    requires limit > 0 && first !in seen && Picks(rest, seen + {first}, limit - 1, more)
    ensures Picks([first] + rest, seen, limit, [first] + more)
  {
    hide First;
    var source, taken := [first] + rest, [first] + more;
    forall i, j | 0 <= i < j < |taken| ensures First(source, taken[i]) < First(source, taken[j]) {
      PlaceOfMore(first, rest, more, j);
      PlaceOfMore(first, rest, more, i);
    }
    forall x | x in source && x !in seen && x !in taken
      ensures |taken| == limit && forall i :: 0 <= i < |taken| ==> First(source, taken[i]) < First(source, x)
    {
      assert x in rest && x != first && x !in more;
      FirstAfter(first, rest, x);
      forall i | 0 <= i < |taken| ensures First(source, taken[i]) < First(source, x) {
        PlaceOfMore(first, rest, more, i);
      }
    }
  }

  lemma PlaceOfMore(first: SocketAddr, rest: seq<SocketAddr>, more: seq<SocketAddr>, i: nat)
    requires i < |[first] + more| && forall x :: x in more ==> x in rest && x != first
    ensures First([first] + rest, ([first] + more)[i]) == if i == 0 then 0 else 1 + First(rest, more[i - 1])
  {
    if i > 0 {
      assert more[i - 1] in more;
      FirstAfter(first, rest, more[i - 1]);
    }
  }

  lemma NotPicked(first: SocketAddr, rest: seq<SocketAddr>, seen: set<SocketAddr>, limit: nat, taken: seq<SocketAddr>)
    requires first in seen && Picks(rest, seen, limit, taken)
    ensures Picks([first] + rest, seen, limit, taken)
  {
    hide First;
    forall x | x in rest ensures First([first] + rest, x) == if x == first then 0 else 1 + First(rest, x) {
      FirstAfter(first, rest, x);
    }
    assert forall i :: 0 <= i < |taken| ==> taken[i] in taken;
  }

  /** The addresses of the candidates of some kinds, in order. */
  function OfKinds(candidates: seq<Candidate>, kinds: set<CandidateKind>): seq<SocketAddr> {
    if candidates == [] then []
    else (if candidates[0].kind in kinds then [candidates[0].address] else []) + OfKinds(candidates[1..], kinds)
  }

  /** Only the current contact is dialled on its local candidates, and none on the
      reflexive ones. */
  const CURRENT_KINDS: set<CandidateKind> := {Local, Direct, Mapped, OwnedRelay}
  const HISTORY_KINDS: set<CandidateKind> := {Direct, Mapped, OwnedRelay}

  function Kinds(current: bool): set<CandidateKind> {
    if current then CURRENT_KINDS else HISTORY_KINDS
  }

  lemma {:induction false} FreshTakes(candidates: seq<Candidate>, seen: set<SocketAddr>, limit: nat, current: bool)
    ensures Fresh(candidates, seen, limit, current) == TakeNew(OfKinds(candidates, Kinds(current)), seen, limit)
  {
    if candidates != [] {
      var kinds, first, rest := Kinds(current), candidates[0], candidates[1..];
      FreshTakes(rest, seen, limit, current);
      if limit > 0 {
        FreshTakes(rest, seen + {first.address}, limit - 1, current);
      }
      assert first.kind in kinds <==> Dialable(first, current);
      assert ([first.address] + OfKinds(rest, kinds))[1..] == OfKinds(rest, kinds);
      assert [] + OfKinds(rest, kinds) == OfKinds(rest, kinds);
    }
  }

  lemma {:induction false} OfKindsElements(candidates: seq<Candidate>, kinds: set<CandidateKind>, x: SocketAddr)
    ensures x in OfKinds(candidates, kinds) <==> exists c :: c in candidates && c.kind in kinds && c.address == x
  {
    if candidates != [] {
      OfKindsElements(candidates[1..], kinds, x);
      assert candidates == [candidates[0]] + candidates[1..];
    }
  }

  /** A contact's addresses: its candidates of the kinds that count, then its routes,
      each the first that were not seen, within the limit. */
  ghost predicate Tries(contact: Contact, routes: Routes, seen: set<SocketAddr>, limit: nat, kinds: set<CandidateKind>, addresses: seq<SocketAddr>) {
    var record := contact.endpoint.record;
    exists own, more :: addresses == own + more && Picks(OfKinds(record.candidates, kinds), seen, limit, own) &&
                        Picks(routes(record.node, record.transportKey), seen + Elements(own), limit - |own|, more)
  }

  lemma ContactTries(contact: Contact, routes: Routes, seen: set<SocketAddr>, limit: nat, current: bool)
    ensures Tries(contact, routes, seen, limit, Kinds(current), ContactAddresses(contact, routes, seen, limit, current))
  {
    hide TakeNew, Picks, OfKinds, Kinds, Fresh;
    FreshTakes(Candidates(contact), seen, limit, current);
    var own := Unseen(contact, seen, limit, current);
    TakeNewPicks(OfKinds(Candidates(contact), Kinds(current)), seen, limit);
    TakeNewPicks(RoutesOf(contact, routes), seen + Elements(own), Remaining(limit, |own|));
  }

  /** What the current contact is dialled on: the claimed addresses, then those of
      its candidates, then its routes. All of them, each once, and nothing else. */
  ghost predicate DialsCurrent(contact: Contact, claimed: seq<SocketAddr>, routes: Routes, addresses: seq<SocketAddr>) {
    var record := contact.endpoint.record;
    exists claims, own, more :: addresses == claims + own + more &&
      OnceEach(claimed, {}, claims) &&
      OnceEach(OfKinds(record.candidates, CURRENT_KINDS), Elements(claims), own) &&
      OnceEach(routes(record.node, record.transportKey), Elements(claims) + Elements(own), more)
  }

  /** All of `source` that was not seen, each once, in order of first appearance. */
  ghost predicate OnceEach(source: seq<SocketAddr>, seen: set<SocketAddr>, taken: seq<SocketAddr>) {
    && (forall x :: x in taken <==> x in source && x !in seen)
    && (forall i, j :: 0 <= i < j < |taken| ==> First(source, taken[i]) < First(source, taken[j]))
  }

  lemma TakeAll(source: seq<SocketAddr>, seen: set<SocketAddr>, limit: nat)
    requires limit >= |source|
    ensures OnceEach(source, seen, TakeNew(source, seen, limit))
  {
    hide TakeNew, First;
    TakeNewPicks(source, seen, limit);
    TakeNewCovers(source, seen, limit);
    var taken := TakeNew(source, seen, limit);
    forall x ensures x in taken <==> x in source && x !in seen {
      assert x in source ==> x in Elements(source);
      assert x in taken <==> x in Elements(taken);
    }
  }

  lemma CurrentDialled(entry: Entry, claimed: seq<SocketAddr>, routes: Routes)
    ensures DialsCurrent(entry.current, claimed, routes, CurrentAddresses(entry, claimed, routes))
  {
    hide TakeNew, OnceEach, OfKinds, Fresh;
    var contact, limit := entry.current, Everything(entry.current, routes);
    var claims := TakeNew(claimed, {}, |claimed|);
    var own := Unseen(contact, Elements(claims), limit, true);
    var more := TakeNew(RoutesOf(contact, routes), Elements(claims) + Elements(own), Remaining(limit, |own|));
    TakeAll(claimed, {}, |claimed|);
    FreshTakes(Candidates(contact), Elements(claims), limit, true);
    OfKindsLength(Candidates(contact), CURRENT_KINDS);
    TakeAll(OfKinds(Candidates(contact), CURRENT_KINDS), Elements(claims), limit);
    FreshLength(Candidates(contact), Elements(claims), limit, true);
    TakeAll(RoutesOf(contact, routes), Elements(claims) + Elements(own), Remaining(limit, |own|));
    Assoc(claims, own, more);
  }

  lemma {:induction false} OfKindsLength(candidates: seq<Candidate>, kinds: set<CandidateKind>)
    ensures |OfKinds(candidates, kinds)| <= |candidates|
  {
    if candidates != [] {
      OfKindsLength(candidates[1..], kinds);
    }
  }

  /** What an earlier contact has to offer: its direct, mapped and relayed candidates
      and the routes that worked for its key. */
  ghost predicate Offers(contact: Contact, routes: Routes, x: SocketAddr) {
    var record := contact.endpoint.record;
    || (exists c :: c in record.candidates && (c.kind.Direct? || c.kind.Mapped? || c.kind.OwnedRelay?) && c.address == x)
    || x in routes(record.node, record.transportKey)
  }

  lemma OffersKinds(contact: Contact, routes: Routes, x: SocketAddr)
    ensures Offers(contact, routes, x) <==> x in OfKinds(Candidates(contact), HISTORY_KINDS) || x in RoutesOf(contact, routes)
  {
    hide OfKinds;
    OfKindsElements(Candidates(contact), HISTORY_KINDS, x);
  }

  /** An earlier contact gives nothing but what it offers and was not seen, and all
      of that unless the limit is reached. */
  lemma ContactOffers(contact: Contact, routes: Routes, seen: set<SocketAddr>, limit: nat, x: SocketAddr)
    ensures var found := ContactAddresses(contact, routes, seen, limit, false);
            && (x in found ==> Offers(contact, routes, x) && x !in seen)
            && (Offers(contact, routes, x) && x !in seen && |found| < limit ==> x in found)
  {
    hide ContactAddresses, OfKinds, First;
    ContactTries(contact, routes, seen, limit, false);
    OffersKinds(contact, routes, x);
    var found := ContactAddresses(contact, routes, seen, limit, false);
    var own, more :| found == own + more && Picks(OfKinds(Candidates(contact), HISTORY_KINDS), seen, limit, own) &&
                     Picks(RoutesOf(contact, routes), seen + Elements(own), limit - |own|, more);
  }

  /** The hints of the history: contacts in its order, each with what it offers, own
      addresses before routes, and each address with the newest contact to offer it. */
  lemma {:induction false} HistoryPlaces(history: seq<Contact>, routes: Routes, seen: set<SocketAddr>, limit: nat) returns (at: seq<nat>)
    ensures var hints := HistoryHints(history, routes, seen, limit);
            && |at| == |hints| && (forall i, j :: 0 <= i < j < |at| ==> at[i] < at[j])
            && (forall i :: 0 <= i < |at| ==> at[i] < |history| && FromContact(history, routes, seen, at[i], hints[i]))
    decreases |history|
  {
    hide ContactAddresses, FromContact;
    at := [];
    if history != [] && limit != 0 {
      var contact := history[0];
      var addresses := ContactAddresses(contact, routes, seen, limit, false);
      var seen', limit' := seen + Elements(addresses), Remaining(limit, |addresses|);
      assert addresses == [] ==> seen' == seen;
      ContactAddressesBounded(contact, routes, seen, limit, false);
      var later := HistoryPlaces(history[1..], routes, seen', limit');
      var hints := HistoryHints(history[1..], routes, seen', limit');
      forall i | 0 <= i < |later| ensures later[i] + 1 < |history| && FromContact(history, routes, seen, later[i] + 1, hints[i]) {
        AllFromFirst(contact, routes, seen, limit);
        OneEarlier(history, routes, seen, addresses, later[i], hints[i]);
      }
      at := seq(|later|, i requires 0 <= i < |later| => later[i] + 1);
      if addresses != [] {
        FirstHint(history, routes, seen, limit);
        at := [0] + at;
      }
    }
  }

  lemma FirstHint(history: seq<Contact>, routes: Routes, seen: set<SocketAddr>, limit: nat)
    requires history != [] && ContactAddresses(history[0], routes, seen, limit, false) != []
    ensures FromContact(history, routes, seen, 0, Hint(history[0], ContactAddresses(history[0], routes, seen, limit, false)))
  {
    hide ContactAddresses, Offers, Tries;
    var addresses := ContactAddresses(history[0], routes, seen, limit, false);
    ContactTries(history[0], routes, seen, limit, false);
    forall x | x in addresses ensures Offers(history[0], routes, x) && x !in seen {
      ContactOffers(history[0], routes, seen, limit, x);
    }
  }

  /** Unless the limit is reached, a contact gives all it offers. */
  lemma AllFromFirst(contact: Contact, routes: Routes, seen: set<SocketAddr>, limit: nat)
    ensures var addresses := ContactAddresses(contact, routes, seen, limit, false);
            |addresses| < limit ==> forall x :: Offers(contact, routes, x) && x !in seen ==> x in addresses
  {
    hide ContactAddresses, Offers;
    var addresses := ContactAddresses(contact, routes, seen, limit, false);
    forall x | |addresses| < limit && Offers(contact, routes, x) && x !in seen ensures x in addresses {
      ContactOffers(contact, routes, seen, limit, x);
    }
  }

  /** All that the history offers is in some hint, unless the budget is spent. */
  lemma {:induction false} HistoryComplete(history: seq<Contact>, routes: Routes, seen: set<SocketAddr>, limit: nat)
    ensures var found := HintAddresses(HistoryHints(history, routes, seen, limit));
            |found| == limit || AllOffered(history, routes, seen, found)
    decreases |history|
  {
    hide ContactAddresses, Offers, AllOffered;
    if history == [] {
      NothingOffered(routes, seen);
    } else if limit != 0 {
      var addresses := ContactAddresses(history[0], routes, seen, limit, false);
      var seen', limit' := seen + Elements(addresses), Remaining(limit, |addresses|);
      assert addresses == [] ==> seen' == seen;
      ContactAddressesBounded(history[0], routes, seen, limit, false);
      HistoryComplete(history[1..], routes, seen', limit');
      var hints := HistoryHints(history[1..], routes, seen', limit');
      assert ([Hint(history[0], addresses)] + hints)[1..] == hints;
      assert [] + HintAddresses(hints) == HintAddresses(hints);
      AllFromFirst(history[0], routes, seen, limit);
      if |addresses| < limit && AllOffered(history[1..], routes, seen', HintAddresses(hints)) {
        AllOfferedMore(history, routes, seen, addresses, HintAddresses(hints));
      }
    }
  }

  lemma NothingOffered(routes: Routes, seen: set<SocketAddr>)
    ensures AllOffered([], routes, seen, [])
  {
  }

  /** A hint of the contact at this place of the history. */
  ghost predicate FromContact(history: seq<Contact>, routes: Routes, seen: set<SocketAddr>, at: nat, hint: Hint)
    requires at < |history|
  {
    && hint.contact == history[at] && hint.addresses != []
    && (exists seen', limit :: seen <= seen' && Tries(history[at], routes, seen', limit, HISTORY_KINDS, hint.addresses))
    && forall x :: x in hint.addresses ==>
         Offers(history[at], routes, x) && x !in seen && forall k :: 0 <= k < at ==> !Offers(history[k], routes, x)
  }

  ghost predicate AllOffered(history: seq<Contact>, routes: Routes, seen: set<SocketAddr>, found: seq<SocketAddr>) {
    forall k, x :: 0 <= k < |history| && Offers(history[k], routes, x) && x !in seen ==> x in found
  }

  lemma OneEarlier(history: seq<Contact>, routes: Routes, seen: set<SocketAddr>, addresses: seq<SocketAddr>, at: nat, hint: Hint)
    requires history != [] && at < |history[1..]| && FromContact(history[1..], routes, seen + Elements(addresses), at, hint)
    requires forall x :: Offers(history[0], routes, x) && x !in seen ==> x in addresses
    ensures FromContact(history, routes, seen, at + 1, hint)
  {
    hide Offers, Tries;
    var seen', limit :| seen + Elements(addresses) <= seen' && Tries(history[1..][at], routes, seen', limit, HISTORY_KINDS, hint.addresses);
    assert seen <= seen';
    forall x, k | x in hint.addresses && 0 <= k < at + 1 ensures !Offers(history[k], routes, x) {
      if k > 0 {
        assert history[k] == history[1..][k - 1];
      }
    }
  }

  lemma AllOfferedMore(history: seq<Contact>, routes: Routes, seen: set<SocketAddr>, addresses: seq<SocketAddr>, found: seq<SocketAddr>)
    requires history != [] && AllOffered(history[1..], routes, seen + Elements(addresses), found)
    requires forall x :: Offers(history[0], routes, x) && x !in seen ==> x in addresses
    ensures AllOffered(history, routes, seen, addresses + found)
  {
    hide Offers;
    forall k, x | 0 <= k < |history| && Offers(history[k], routes, x) && x !in seen ensures x in addresses + found {
      if k > 0 {
        assert history[k] == history[1..][k - 1];
        assert x in addresses <==> x in Elements(addresses);
      }
    }
  }

  /** Hints of contacts at ascending places of the history, within the limit and,
      unless it is reached, of all that the history offers. */
  ghost predicate DialsHistory(history: seq<Contact>, routes: Routes, seen: set<SocketAddr>, limit: nat, hints: seq<Hint>, at: seq<nat>) {
    && |at| == |hints| && (forall i, j :: 0 <= i < j < |at| ==> at[i] < at[j])
    && (forall i :: 0 <= i < |at| ==> at[i] < |history| && FromContact(history, routes, seen, at[i], hints[i]))
    && |HintAddresses(hints)| <= limit && (|HintAddresses(hints)| == limit || AllOffered(history, routes, seen, HintAddresses(hints)))
  }

  lemma HistoryDialled(history: seq<Contact>, routes: Routes, seen: set<SocketAddr>, limit: nat) returns (at: seq<nat>)
    ensures DialsHistory(history, routes, seen, limit, HistoryHints(history, routes, seen, limit), at)
  {
    hide HistoryHints, FromContact, AllOffered, HintAddresses;
    at := HistoryPlaces(history, routes, seen, limit);
    HistoryComplete(history, routes, seen, limit);
    HistoryHintsBounded(history, routes, seen, limit);
  }

  /** All the hints of an entry: first the current contact, if it has any address,
      then the history with what is left. */
  lemma EntryExactly(entry: Entry, claimed: seq<SocketAddr>, routes: Routes, limit: nat) returns (current: seq<SocketAddr>, at: seq<nat>)
    ensures DialsCurrent(entry.current, claimed, routes, current)
    ensures var hints := EntryHints(entry, claimed, routes, limit);
            var skip := if current == [] then 0 else 1;
            && skip <= |hints| && (current != [] ==> hints[0] == Hint(entry.current, current))
            && DialsHistory(entry.history, routes, Elements(current), limit, hints[skip..], at)
  {
    hide CurrentAddresses, HistoryHints, DialsCurrent, DialsHistory, Elements;
    current := CurrentAddresses(entry, claimed, routes);
    CurrentDialled(entry, claimed, routes);
    at := HistoryDialled(entry.history, routes, Elements(current), limit);
    var skip := if current == [] then 0 else 1;
    assert EntryHints(entry, claimed, routes, limit)[skip..] == HistoryHints(entry.history, routes, Elements(current), limit);
  }

  /** Every peer that is known, not quarantined and not revoked is hinted, and no
      other; the hints of earlier nodes come first. */
  lemma {:induction false} AllHintsExactly(entries: Entries, nodes: seq<NodeId>, revoked: set<NodeId>,
                                           claimed: NodeId -> seq<SocketAddr>, routes: Routes, limit: nat, i: nat)
    requires i < |nodes|
    ensures AllHints(entries, nodes, revoked, claimed, routes, limit)
         == AllHints(entries, nodes[..i], revoked, claimed, routes, limit) +
            (if nodes[i] in entries && entries[nodes[i]].conflict.None? && nodes[i] !in revoked
             then EntryHints(entries[nodes[i]], claimed(nodes[i]), routes, limit) else []) +
            AllHints(entries, nodes[i + 1..], revoked, claimed, routes, limit)
    decreases |nodes|
  {
    hide EntryHints;
    if i > 0 {
      AllHintsExactly(entries, nodes[1..], revoked, claimed, routes, limit, i - 1);
      assert nodes[..i][1..] == nodes[1..][..i - 1] && nodes[i + 1..] == nodes[1..][i..];
    }
  }

  /** Exactly the peers that may be used are. */
  lemma UsableExactly(config: Config, entries: Entries, revoked: set<NodeId>, node: NodeId, now: nat)
    ensures Usable(config, entries, revoked, node, now).Some? <==>
            node in entries && entries[node].conflict.None? && node !in revoked && Verify(entries[node].current, config.root, now)
    ensures Usable(config, entries, revoked, node, now).Some? ==> Usable(config, entries, revoked, node, now).value == entries[node].current
    ensures GoodEntries(config, entries) ==>
              (RecoveryAuthority(config, entries, revoked, node).Some? <==> node in entries && entries[node].conflict.None? && node !in revoked)
    ensures RecoveryAuthority(config, entries, revoked, node).Some? ==> RecoveryAuthority(config, entries, revoked, node).value == entries[node].current
  {
    hide Verify, WellFormed;
  }
}
