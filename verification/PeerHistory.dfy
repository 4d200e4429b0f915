/** The bounded list of earlier contacts worth dialing. */
module PeerHistory {
  import opened Prelude
  import opened Contacts

  /** What decides whether a new contact can be reached differently. */
  predicate DialStateChanged(previous: Contact, current: Contact) {
    || previous.endpoint.record.transportKey != current.endpoint.record.transportKey
    || previous.endpoint.record.candidates != current.endpoint.record.candidates
  }

  /** Reflexive candidates are never dialed, local ones only while current. */
  predicate Dialable(candidate: Candidate, current: bool) {
    candidate.kind != Reflexive && (current || candidate.kind != Local)
  }

  /** The first `limit` dialable addresses not yet seen, without repeats. */
  function Fresh(candidates: seq<Candidate>, seen: set<SocketAddr>, limit: nat, current: bool): seq<SocketAddr> {
    if candidates == [] || limit == 0 then []
    else if Dialable(candidates[0], current) && candidates[0].address !in seen then
      [candidates[0].address] + Fresh(candidates[1..], seen + {candidates[0].address}, limit - 1, current)
    else Fresh(candidates[1..], seen, limit, current)
  }

  function Elements<T>(s: seq<T>): set<T> {
    set x | x in s
  }

  function Candidates(contact: Contact): seq<Candidate> {
    contact.endpoint.record.candidates
  }

  function Unseen(contact: Contact, seen: set<SocketAddr>, limit: nat, current: bool): seq<SocketAddr> {
    Fresh(Candidates(contact), seen, limit, current)
  }

  /** The addresses of a contact that can be dialed at all. */
  function Addresses(candidates: seq<Candidate>, current: bool): set<SocketAddr> {
    if candidates == [] then {}
    else (if Dialable(candidates[0], current) then {candidates[0].address} else {}) + Addresses(candidates[1..], current)
  }

  function Remaining(limit: nat, counted: nat): nat {
    if counted >= limit then 0 else limit - counted
  }

  /** Whether an earlier contact still adds an address to those counted. */
  predicate Adds(contact: Contact, seen: set<SocketAddr>, limit: nat) {
    Unseen(contact, seen, Remaining(limit, |seen|), false) != []
  }

  /** What is counted after it. */
  function Count(contact: Contact, seen: set<SocketAddr>, limit: nat): set<SocketAddr> {
    seen + Elements(Unseen(contact, seen, Remaining(limit, |seen|), false))
  }

  /** Keeps, newest first, the contacts that still add an address to those seen,
      until `limit` addresses are counted. */
  function Trim(history: seq<Contact>, seen: set<SocketAddr>, limit: nat): seq<Contact> {
    if history == [] then []
    else if Adds(history[0], seen, limit) then [history[0]] + Trim(history[1..], Count(history[0], seen, limit), limit)
    else Trim(history[1..], seen, limit)
  }

  /** What is counted once a whole history is. */
  function Counted(history: seq<Contact>, seen: set<SocketAddr>, limit: nat): set<SocketAddr> {
    if history == [] then seen else Counted(history[1..], Count(history[0], seen, limit), limit)
  }

  // ---------- the loops ----------

  /** Walks the candidates, adding to the shared `seen` set what it returns. */
  method UniqueAddresses(contact: Contact, seen: set<SocketAddr>, limit: nat, current: bool)
    returns (addresses: seq<SocketAddr>, seen': set<SocketAddr>)
    ensures addresses == Unseen(contact, seen, limit, current)
    ensures seen' == seen + Elements(addresses)
  {
    hide Dialable;
    addresses, seen' := [], seen;
    var candidates := Candidates(contact);
    var i := 0;
    assert candidates[i..] == candidates;
    while i < |candidates| && |addresses| < limit
      invariant 0 <= i <= |candidates| && |addresses| <= limit
      invariant seen' == seen + Elements(addresses)
      invariant Unseen(contact, seen, limit, current)
             == addresses + Fresh(candidates[i..], seen', limit - |addresses|, current)
    {
      var candidate := candidates[i];
      assert candidates[i..][1..] == candidates[i + 1..];
      if Dialable(candidate, current) && candidate.address !in seen' {
        Assoc(addresses, [candidate.address],
              Fresh(candidates[i + 1..], seen' + {candidate.address}, limit - |addresses| - 1, current));
        addresses := addresses + [candidate.address];
        seen' := seen' + {candidate.address};
      }
      i := i + 1;
    }
  }

  /** Retains in place, with one set of counted addresses. */
  method TrimHistory(history: seq<Contact>, limit: nat) returns (kept: seq<Contact>)
    ensures kept == Trim(history, {}, limit)
  {
    hide Fresh;
    kept := [];
    var seen: set<SocketAddr> := {};
    assert history[0..] == history;
    for i := 0 to |history|
      invariant Trim(history, {}, limit) == kept + Trim(history[i..], seen, limit)
    {
      assert history[i..][1..] == history[i + 1..];
      var remaining := Remaining(limit, |seen|);
      if remaining == 0 {
        CountStep(history[i], seen, limit);
      } else {
        var added, seen' := UniqueAddresses(history[i], seen, remaining, false);
        if added != [] {
          kept := kept + [history[i]];
        } else {
          assert seen' == seen;
        }
        seen := seen';
      }
    }
  }

  // ---------- what is returned ----------

  /** Only new addresses, none twice and at most `limit`. */
  lemma {:induction false} FreshIsNew(candidates: seq<Candidate>, seen: set<SocketAddr>, limit: nat, current: bool)
    ensures var found := Fresh(candidates, seen, limit, current);
            |Elements(found)| == |found| <= limit && Elements(found) !! seen
  {
    hide Dialable;
    if candidates != [] && limit != 0 {
      var first, rest := candidates[0], candidates[1..];
      if Dialable(first, current) && first.address !in seen {
        FreshIsNew(rest, seen + {first.address}, limit - 1, current);
        ElementsPrepend(first.address, Fresh(rest, seen + {first.address}, limit - 1, current));
        hide Elements;
      } else {
        FreshIsNew(rest, seen, limit, current);
      }
    }
  }

  /** Only dialable addresses, and all the new ones if the limit was not reached. */
  lemma {:induction false} FreshCovers(candidates: seq<Candidate>, seen: set<SocketAddr>, limit: nat, current: bool)
    ensures var found := Fresh(candidates, seen, limit, current);
            && Elements(found) <= Addresses(candidates, current)
            && (|found| < limit ==> Addresses(candidates, current) <= seen + Elements(found))
  {
    hide Dialable;
    if candidates != [] && limit != 0 {
      var first, rest := candidates[0], candidates[1..];
      if Dialable(first, current) && first.address !in seen {
        FreshCovers(rest, seen + {first.address}, limit - 1, current);
        ElementsPrepend(first.address, Fresh(rest, seen + {first.address}, limit - 1, current));
        hide Elements;
      } else {
        FreshCovers(rest, seen, limit, current);
      }
    }
  }

  lemma ElementsPrepend<T>(x: T, s: seq<T>)
    ensures Elements([x] + s) == {x} + Elements(s)
  {
  }

  /** One counting step: everything new is counted, or the limit is reached. */
  lemma CountStep(contact: Contact, seen: set<SocketAddr>, limit: nat)
    ensures var seen' := Count(contact, seen, limit);
            && seen <= seen' <= seen + Addresses(Candidates(contact), false)
            && |seen'| <= (if |seen| < limit then limit else |seen|)
            && (|seen'| >= limit || Addresses(Candidates(contact), false) <= seen')
            && (Adds(contact, seen, limit) <==> |seen| < limit && !(Addresses(Candidates(contact), false) <= seen))
            && (Adds(contact, seen, limit) ==> |seen'| > |seen|)
            && (!Adds(contact, seen, limit) ==> seen' == seen)
  {
    hide Dialable, Addresses;
    var remaining := Remaining(limit, |seen|);
    FreshIsNew(Candidates(contact), seen, remaining, false);
    FreshCovers(Candidates(contact), seen, remaining, false);
    hide Fresh;
    var added := Unseen(contact, seen, remaining, false);
    assert |seen + Elements(added)| == |seen| + |Elements(added)|;
    if added != [] {
      assert added[0] in Elements(added);
    }
  }

  // ---------- trimming once or step by step ----------

  /** One set of counted addresses is ahead of another, or full. */
  predicate Ahead(ahead: set<SocketAddr>, behind: set<SocketAddr>, limit: nat) {
    behind <= ahead || |ahead| >= limit
  }

  /** Whoever is ahead stays ahead, and adds nothing when the one behind does not. */
  lemma StaysAhead(contact: Contact, behind: set<SocketAddr>, ahead: set<SocketAddr>, limit: nat)
    requires Ahead(ahead, behind, limit)
    ensures Ahead(Count(contact, ahead, limit), Count(contact, behind, limit), limit)
    ensures Adds(contact, ahead, limit) ==> Adds(contact, behind, limit)
  {
    hide Adds, Count, Addresses;
    CountStep(contact, behind, limit);
    CountStep(contact, ahead, limit);
    if behind <= ahead {
      SubsetSize(behind, ahead);
    } else {
      SubsetSize(ahead, Count(contact, ahead, limit));
    }
  }

  /** Trimming with less seen first loses nothing that trimming with more seen
      would have kept. */
  lemma {:induction false} TrimAgain(history: seq<Contact>, behind: set<SocketAddr>, ahead: set<SocketAddr>, limit: nat)
    requires Ahead(ahead, behind, limit)
    ensures Trim(Trim(history, behind, limit), ahead, limit) == Trim(history, ahead, limit)
    decreases |history|
  {
    hide Adds, Count, Ahead;
    if history != [] {
      var first, rest := history[0], history[1..];
      StaysAhead(first, behind, ahead, limit);
      CountStep(first, ahead, limit);
      if Adds(first, behind, limit) {
        TrimAgain(rest, Count(first, behind, limit), Count(first, ahead, limit), limit);
        var kept := Trim(rest, Count(first, behind, limit), limit);
        assert ([first] + kept)[1..] == kept;
      } else {
        TrimAgain(rest, behind, ahead, limit);
      }
    }
  }

  /** Trimming each time a contact is superseded is trimming them all at once. */
  lemma TrimIncrementally(newest: Contact, history: seq<Contact>, limit: nat)
    ensures Trim([newest] + Trim(history, {}, limit), {}, limit) == Trim([newest] + history, {}, limit)
    ensures Trim(Trim(history, {}, limit), {}, limit) == Trim(history, {}, limit)
  {
    hide Adds, Count;
    TrimAgain(history, {}, {}, limit);
    var trimmed := Trim(history, {}, limit);
    assert ([newest] + trimmed)[1..] == trimmed;
    assert ([newest] + history)[1..] == history;
    TrimAgain(history, {}, Count(newest, {}, limit), limit);
  }

  /** A trimmed history is within the limit: at most that many addresses are
      counted, every contact kept adds at least one of them, and the contacts
      dropped would have added none. */
  lemma {:induction false} TrimBounds(history: seq<Contact>, seen: set<SocketAddr>, limit: nat)
    requires |seen| <= limit
    ensures var kept := Trim(history, seen, limit);
            && |seen| + |kept| <= |Counted(kept, seen, limit)| <= limit
            && Counted(kept, seen, limit) == Counted(history, seen, limit)
    decreases |history|
  {
    hide Adds, Count;
    if history != [] {
      var first, rest := history[0], history[1..];
      CountStep(first, seen, limit);
      TrimBounds(rest, Count(first, seen, limit), limit);
      if Adds(first, seen, limit) {
        var kept := Trim(rest, Count(first, seen, limit), limit);
        assert ([first] + kept)[1..] == kept;
      }
    }
  }

  // ---------- histories that trimming leaves alone ----------

  predicate Trimmed(history: seq<Contact>, seen: set<SocketAddr>, limit: nat) {
    Trim(history, seen, limit) == history
  }

  /** Trimming leaves a history alone exactly when each contact in turn adds. */
  lemma TrimmedStep(history: seq<Contact>, seen: set<SocketAddr>, limit: nat)
    requires history != []
    ensures Trimmed(history, seen, limit) <==>
            Adds(history[0], seen, limit) && Trimmed(history[1..], Count(history[0], seen, limit), limit)
  {
    hide Adds, Count;
    TrimLength(history[1..], seen, limit);
    var kept := Trim(history[1..], Count(history[0], seen, limit), limit);
    assert ([history[0]] + kept)[1..] == kept;
  }

  lemma {:induction false} TrimLength(history: seq<Contact>, seen: set<SocketAddr>, limit: nat)
    ensures |Trim(history, seen, limit)| <= |history|
    decreases |history|
  {
    hide Adds, Count;
    if history != [] {
      TrimLength(history[1..], seen, limit);
      TrimLength(history[1..], Count(history[0], seen, limit), limit);
    }
  }

  /** What is left alone after more was counted is left alone after less was. */
  lemma {:induction false} TrimmedStays(history: seq<Contact>, behind: set<SocketAddr>, ahead: set<SocketAddr>, limit: nat)
    requires Ahead(ahead, behind, limit) && Trimmed(history, ahead, limit)
    ensures Trimmed(history, behind, limit)
    decreases |history|
  {
    hide Adds, Count, Ahead;
    if history != [] {
      TrimmedStep(history, ahead, limit);
      TrimmedStep(history, behind, limit);
      StaysAhead(history[0], behind, ahead, limit);
      TrimmedStays(history[1..], Count(history[0], behind, limit), Count(history[0], ahead, limit), limit);
    }
  }

  /** The rest of a trimmed history is trimmed on its own. */
  lemma TrimmedTail(history: seq<Contact>, limit: nat)
    requires history != [] && Trimmed(history, {}, limit)
    ensures Trimmed(history[1..], {}, limit)
  {
    hide Adds, Count, Trimmed;
    TrimmedStep(history, {}, limit);
    TrimmedStays(history[1..], {}, Count(history[0], {}, limit), limit);
  }

  /** Neighbours in a trimmed history are reached differently. */
  lemma TrimmedNeighbours(history: seq<Contact>, limit: nat)
    requires |history| >= 2 && Trimmed(history, {}, limit)
    ensures DialStateChanged(history[1], history[0])
  {
    hide Adds, Count, Addresses, Trimmed;
    TrimmedStep(history, {}, limit);
    TrimmedStep(history[1..], Count(history[0], {}, limit), limit);
    CountStep(history[0], {}, limit);
    CountStep(history[1], Count(history[0], {}, limit), limit);
  }

  /** An older contact reached the same way adds nothing after the newer one. */
  lemma TrimSkipsSame(newer: Contact, older: Contact, history: seq<Contact>, limit: nat)
    requires !DialStateChanged(older, newer)
    ensures Trim([newer, older] + history, {}, limit) == Trim([newer] + history, {}, limit)
  {
    hide Adds, Count, Addresses;
    var long, short := [newer, older] + history, [newer] + history;
    assert long[1..] == [older] + history && short[1..] == history;
    assert ([older] + history)[1..] == history;
    CountStep(newer, {}, limit);
    CountStep(older, {}, limit);
    CountStep(older, Count(newer, {}, limit), limit);
  }
}
