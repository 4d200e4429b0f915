/** The order in which a peer's candidate addresses are dialled. */
module DialOrder {
  import opened Prelude
  import opened Contacts
  import opened Sorting

  const MAX_DIAL_CANDIDATES_PER_ROUND := 4

  datatype InterfaceNetwork = InterfaceNetwork(address: IpAddr, netmask: IpAddr) {
    /** Whether an address is in the same directly attached prefix. */
    predicate Contains(remote: IpAddr) {
      match (address, netmask, remote)
      case (V4(local), V4(mask), V4(peer)) => (local as bv32) & (mask as bv32) == (peer as bv32) & (mask as bv32)
      case (V6(local), V6(mask), V6(peer)) => (local as bv128) & (mask as bv128) == (peer as bv128) & (mask as bv128)
      case _ => false
    }
  }

  predicate Unspecified(ip: IpAddr) {
    match ip
    case V4(x) => x == 0
    case V6(x) => x == 0
  }

  predicate Loopback(ip: IpAddr) {
    match ip
    case V4(x) => x / 0x100_0000 == 127
    case V6(x) => x == 1
  }

  predicate LinkLocal(ip: IpAddr) {
    match ip
    case V4(x) => x / 0x1_0000 == 0xA9FE
    case V6(x) => x / 0x40_0000_0000_0000_0000_0000_0000_0000 == 0x3FA
  }

  predicate SameFamily(a: IpAddr, b: IpAddr) {
    a.V4? == b.V4?
  }

  predicate OnLink(networks: seq<InterfaceNetwork>, remote: IpAddr) {
    exists i :: 0 <= i < |networks| && networks[i].Contains(remote)
  }

  predicate UsableFor(network: InterfaceNetwork, remote: IpAddr) {
    SameFamily(network.address, remote) && !Unspecified(network.address) && !Loopback(network.address) && !LinkLocal(network.address)
  }

  /** Whether the kernel can select a route: `route` is the kernel's answer. */
  predicate HasRoute(candidate: Candidate, networks: seq<InterfaceNetwork>, route: SocketAddr -> bool) {
    var remote := candidate.address.ip;
    if Loopback(remote) || (remote.V6? && LinkLocal(remote)) then OnLink(networks, remote) && route(candidate.address)
    else (exists i :: 0 <= i < |networks| && UsableFor(networks[i], remote)) && route(candidate.address)
  }

  // ---------- ranks ----------

  predicate Preferable(candidate: Candidate, networks: seq<InterfaceNetwork>) {
    candidate.kind.Local? && OnLink(networks, candidate.address.ip)
  }

  /** The first local candidate on a directly attached prefix. */
  method PreferredLocal(candidates: seq<Candidate>, networks: seq<InterfaceNetwork>) returns (preferred: Option<nat>)
    ensures preferred.Some? ==>
              && preferred.value < |candidates| && Preferable(candidates[preferred.value], networks)
              && forall i :: 0 <= i < preferred.value ==> !Preferable(candidates[i], networks)
    ensures preferred.None? ==> forall i :: 0 <= i < |candidates| ==> !Preferable(candidates[i], networks)
  {
    hide OnLink;
    for i := 0 to |candidates|
      invariant forall k :: 0 <= k < i ==> !Preferable(candidates[k], networks)
    {
      if Preferable(candidates[i], networks) {
        return Some(i);
      }
    }
    return None;
  }

  function Rank(candidate: Candidate, index: nat, preferred: Option<nat>): nat {
    if Some(index) == preferred then 0 else
    match candidate.kind
    case OwnedRelay => 1
    case Mapped => 2
    case Reflexive => 3
    case Direct => 4
    case Local => 5
  }

  /** The sort key: route, then rank, then position. */
  datatype Key = Key(incompatible: bool, rank: nat, index: nat)

  function KeyOf(candidates: seq<Candidate>, networks: seq<InterfaceNetwork>, route: SocketAddr -> bool, preferred: Option<nat>, index: nat): Key
    requires index < |candidates|
  {
    Key(!HasRoute(candidates[index], networks, route), Rank(candidates[index], index, preferred), index)
  }

  predicate KeyLess(a: Key, b: Key) {
    if a.incompatible != b.incompatible then b.incompatible
    else a.rank < b.rank || (a.rank == b.rank && a.index < b.index)
  }

  /** The same order as one number. */
  function Flat(key: Key, count: nat): int {
    ((if key.incompatible then 6 else 0) + key.rank) * count + key.index
  }

  lemma FlatOrders(a: Key, b: Key, count: nat)
    requires a.rank <= 5 && b.rank <= 5 && a.index < count && b.index < count
    ensures Flat(a, count) < Flat(b, count) <==> KeyLess(a, b)
  {
    var x, y := (if a.incompatible then 6 else 0) + a.rank, (if b.incompatible then 6 else 0) + b.rank;
    if x < y {
      Scaled(x, y, count, a.index, b.index);
    } else if y < x {
      Scaled(y, x, count, b.index, a.index);
    }
  }

  lemma Scaled(x: nat, y: nat, count: nat, a: nat, b: nat)
    requires x < y && a < count
    ensures x * count + a < y * count + b
  {
    var more := y - x - 1;
    assert y * count == x * count + count + more * count;
  }

  // ---------- the order ----------

  /** A permutation of all positions, in strictly increasing key order. */
  method CandidateDialOrder(candidates: seq<Candidate>, networks: seq<InterfaceNetwork>, route: SocketAddr -> bool)
    returns (order: seq<nat>, ghost first: Option<nat>)
    ensures |order| == |candidates| && IsDialOrder(candidates, networks, route, first, order)
    ensures first.Some? ==> Preferable(candidates[first.value], networks) && forall i :: 0 <= i < first.value ==> !Preferable(candidates[i], networks)
    ensures first.None? ==> forall i :: 0 <= i < |candidates| ==> !Preferable(candidates[i], networks)
  {
    hide HasRoute, OnLink, SortBy, Rank, Flat;
    var preferred := PreferredLocal(candidates, networks);
    first := preferred;
    var indices: seq<nat> := [];
    for i := 0 to |candidates|
      invariant |indices| == i && forall k :: 0 <= k < i ==> indices[k] == k
    {
      indices := indices + [i];
    }
    var key := (i: nat) => if i < |candidates| then Flat(KeyOf(candidates, networks, route, preferred, i), |candidates|) else 0;
    order := SortBy(indices, key);
    SortElements(indices, key);
    forall i | 0 <= i < |candidates| ensures i in order {
      assert indices[i] == i;
    }
    forall i | 0 <= i < |order| ensures order[i] < |candidates| {
      assert order[i] in order;
      assert order[i] in indices;
    }
    KeysDiffer(candidates, networks, route, preferred);
    SortStrict(indices, key);
    SortedIsOrdered(candidates, networks, route, preferred, order, key);
  }

  predicate Ordered(candidates: seq<Candidate>, networks: seq<InterfaceNetwork>, route: SocketAddr -> bool, preferred: Option<nat>, order: seq<nat>)
    requires forall i :: 0 <= i < |order| ==> order[i] < |candidates|
  {
    forall i, j :: 0 <= i < j < |order| ==>
      KeyLess(KeyOf(candidates, networks, route, preferred, order[i]), KeyOf(candidates, networks, route, preferred, order[j]))
  }

  lemma RankBound(candidate: Candidate, index: nat, preferred: Option<nat>)
    ensures Rank(candidate, index, preferred) <= 5
  {
  }

  lemma KeysDiffer(candidates: seq<Candidate>, networks: seq<InterfaceNetwork>, route: SocketAddr -> bool, preferred: Option<nat>)
    ensures forall i, j :: 0 <= i < j < |candidates| ==>
              Flat(KeyOf(candidates, networks, route, preferred, i), |candidates|) != Flat(KeyOf(candidates, networks, route, preferred, j), |candidates|)
  {
    hide HasRoute, Rank, Flat;
    forall i, j | 0 <= i < j < |candidates|
      ensures Flat(KeyOf(candidates, networks, route, preferred, i), |candidates|) != Flat(KeyOf(candidates, networks, route, preferred, j), |candidates|)
    {
      var a, b := KeyOf(candidates, networks, route, preferred, i), KeyOf(candidates, networks, route, preferred, j);
      RankBound(candidates[i], i, preferred);
      RankBound(candidates[j], j, preferred);
      FlatOrders(a, b, |candidates|);
      FlatOrders(b, a, |candidates|);
    }
  }

  lemma SortedIsOrdered(candidates: seq<Candidate>, networks: seq<InterfaceNetwork>, route: SocketAddr -> bool, preferred: Option<nat>,
                        order: seq<nat>, key: nat -> int)
    requires forall i :: 0 <= i < |order| ==> order[i] < |candidates|
    requires forall i :: 0 <= i < |candidates| ==> key(i) == Flat(KeyOf(candidates, networks, route, preferred, i), |candidates|)
    requires StrictlySortedBy(order, key)
    ensures Ordered(candidates, networks, route, preferred, order)
  {
    hide HasRoute, Rank, Flat;
    forall i, j | 0 <= i < j < |order|
      ensures KeyLess(KeyOf(candidates, networks, route, preferred, order[i]), KeyOf(candidates, networks, route, preferred, order[j]))
    {
      RankBound(candidates[order[i]], order[i], preferred);
      RankBound(candidates[order[j]], order[j], preferred);
      FlatOrders(KeyOf(candidates, networks, route, preferred, order[i]), KeyOf(candidates, networks, route, preferred, order[j]), |candidates|);
    }
  }

  // ---------- what the order guarantees ----------

  predicate IsDialOrder(candidates: seq<Candidate>, networks: seq<InterfaceNetwork>, route: SocketAddr -> bool, preferred: Option<nat>, order: seq<nat>) {
    && (forall i :: 0 <= i < |order| ==> order[i] < |candidates|)
    && (forall i :: 0 <= i < |candidates| ==> i in order)
    && Ordered(candidates, networks, route, preferred, order)
    && (preferred.Some? ==> preferred.value < |candidates| && candidates[preferred.value].kind.Local?)
  }

  /** Every candidate with a route is dialled before every one without. */
  lemma RoutesFirst(candidates: seq<Candidate>, networks: seq<InterfaceNetwork>, route: SocketAddr -> bool, preferred: Option<nat>, order: seq<nat>,
                    a: nat, b: nat)
    requires IsDialOrder(candidates, networks, route, preferred, order) && a < |order| && b < |order|
    requires HasRoute(candidates[order[a]], networks, route) && !HasRoute(candidates[order[b]], networks, route)
    ensures a < b
  {
    hide HasRoute;
    assert b < a ==>
      KeyLess(KeyOf(candidates, networks, route, preferred, order[b]), KeyOf(candidates, networks, route, preferred, order[a]));
  }

  /** If any candidate that is not local has a route, one is in the first two
      places, so within the first round of attempts. */
  lemma RoutedRemoteIsEarly(candidates: seq<Candidate>, networks: seq<InterfaceNetwork>, route: SocketAddr -> bool, preferred: Option<nat>,
                            order: seq<nat>, c: nat)
    requires IsDialOrder(candidates, networks, route, preferred, order)
    requires c < |candidates| && !candidates[c].kind.Local? && HasRoute(candidates[c], networks, route)
    ensures exists p :: 0 <= p < |order| && p < 2 < MAX_DIAL_CANDIDATES_PER_ROUND
                        && !candidates[order[p]].kind.Local? && HasRoute(candidates[order[p]], networks, route)
  {
    hide HasRoute;
    assert c in order;
    var at :| 0 <= at < |order| && order[at] == c;
    if at >= 2 {
      EarlierIsRemote(candidates, networks, route, preferred, order, 0, at);
      EarlierIsRemote(candidates, networks, route, preferred, order, 1, at);
      assert KeyLess(KeyOf(candidates, networks, route, preferred, order[0]), KeyOf(candidates, networks, route, preferred, order[1]));
      if candidates[order[0]].kind.Local? {
        assert !candidates[order[1]].kind.Local?;
      }
    }
  }

  /** What comes before a routed candidate that is not local has a route, and is
      the preferred local candidate or not local either. */
  lemma EarlierIsRemote(candidates: seq<Candidate>, networks: seq<InterfaceNetwork>, route: SocketAddr -> bool, preferred: Option<nat>,
                        order: seq<nat>, p: nat, at: nat)
    requires IsDialOrder(candidates, networks, route, preferred, order) && p < at < |order|
    requires !candidates[order[at]].kind.Local? && HasRoute(candidates[order[at]], networks, route)
    ensures HasRoute(candidates[order[p]], networks, route)
    ensures !candidates[order[p]].kind.Local? || preferred == Some(order[p])
  {
    hide HasRoute;
    assert KeyLess(KeyOf(candidates, networks, route, preferred, order[p]), KeyOf(candidates, networks, route, preferred, order[at]));
  }

  /** A routed preferred local candidate is dialled first of all. */
  lemma PreferredIsFirst(candidates: seq<Candidate>, networks: seq<InterfaceNetwork>, route: SocketAddr -> bool, preferred: Option<nat>, order: seq<nat>)
    requires IsDialOrder(candidates, networks, route, preferred, order) && preferred.Some?
    requires HasRoute(candidates[preferred.value], networks, route)
    ensures order != [] && order[0] == preferred.value
  {
    hide HasRoute;
    assert preferred.value in order;
    var at :| 0 <= at < |order| && order[at] == preferred.value;
    if at > 0 {
      assert KeyLess(KeyOf(candidates, networks, route, preferred, order[0]), KeyOf(candidates, networks, route, preferred, order[at]));
    }
  }

  // ---------- the order, said outright ----------

  /** Whether a kind is dialled before another: relays, mapped, reflexive and direct
      addresses, then local ones. */
  predicate Sooner(a: CandidateKind, b: CandidateKind) {
    match a
    case OwnedRelay => !b.OwnedRelay?
    case Mapped => b.Reflexive? || b.Direct? || b.Local?
    case Reflexive => b.Direct? || b.Local?
    case Direct => b.Local?
    case Local => false
  }

  /** Of two candidates the earlier one has a route if the later one has; then it is
      the preferred one, or its kind is sooner, or it comes first in the record. */
  lemma DialledBefore(candidates: seq<Candidate>, networks: seq<InterfaceNetwork>, route: SocketAddr -> bool, preferred: Option<nat>, order: seq<nat>,
                      p: nat, q: nat)
    requires IsDialOrder(candidates, networks, route, preferred, order) && p < q < |order|
    ensures var i, j := order[p], order[q];
            && i != j && (HasRoute(candidates[j], networks, route) ==> HasRoute(candidates[i], networks, route))
            && (HasRoute(candidates[i], networks, route) == HasRoute(candidates[j], networks, route) ==>
                  preferred == Some(i) || (preferred != Some(j) && (Sooner(candidates[i].kind, candidates[j].kind) ||
                                                                    (candidates[i].kind == candidates[j].kind && i < j))))
  {
    hide HasRoute;
    assert KeyLess(KeyOf(candidates, networks, route, preferred, order[p]), KeyOf(candidates, networks, route, preferred, order[q]));
  }

  /** What it takes to have a route: the kernel has one, and for a loopback or IPv6
      link-local address a network with its prefix is attached, for any other some
      network of its family whose own address is none of those and not unset. */
  lemma HasRouteExactly(candidate: Candidate, networks: seq<InterfaceNetwork>, route: SocketAddr -> bool)
    ensures HasRoute(candidate, networks, route) <==>
            && route(candidate.address)
            && match candidate.address.ip
               case V4(x) =>
                 if 0x7F00_0000 <= x <= 0x7FFF_FFFF then exists n :: n in networks && n.Contains(candidate.address.ip)
                 else exists n :: n in networks && n.address.V4? && RoutableV4(n.address.v4)
               case V6(x) =>
                 if x == 1 || InLinkLocalV6(x) then exists n :: n in networks && n.Contains(candidate.address.ip)
                 else exists n :: n in networks && n.address.V6? && n.address.v6 > 1 && !InLinkLocalV6(n.address.v6)
  {
    hide InterfaceNetwork.Contains, Loopback, LinkLocal, UsableFor, RoutableV4, InLinkLocalV6;
    var remote := candidate.address.ip;
    SpecialExactly(remote);
    forall i | 0 <= i < |networks| ensures UsableFor(networks[i], remote) <==> Serves(networks[i].address, remote) {
      UsableForExactly(networks[i], remote);
    }
  }

  /** Whether an interface address serves for addresses like the remote one. */
  predicate Serves(address: IpAddr, remote: IpAddr) {
    match remote
    case V4(_) => address.V4? && RoutableV4(address.v4)
    case V6(_) => address.V6? && address.v6 > 1 && !InLinkLocalV6(address.v6)
  }

  lemma UsableForExactly(network: InterfaceNetwork, remote: IpAddr)
    ensures UsableFor(network, remote) <==> Serves(network.address, remote)
  {
    match network.address
    case V4(x) => Prefixes(x, 0);
    case V6(x) => Prefixes(0, x);
  }

  lemma SpecialExactly(remote: IpAddr)
    ensures Loopback(remote) || (remote.V6? && LinkLocal(remote)) <==>
            match remote
            case V4(x) => 0x7F00_0000 <= x <= 0x7FFF_FFFF
            case V6(x) => x == 1 || InLinkLocalV6(x)
  {
    match remote
    case V4(x) => Prefixes(x, 0);
    case V6(x) => Prefixes(0, x);
  }

  predicate RoutableV4(x: U32) {
    x != 0 && !(0x7F00_0000 <= x <= 0x7FFF_FFFF) && !(0xA9FE_0000 <= x <= 0xA9FE_FFFF)
  }

  predicate InLinkLocalV6(x: U128) {
    0xFE80_0000_0000_0000_0000_0000_0000_0000 <= x <= 0xFEBF_FFFF_FFFF_FFFF_FFFF_FFFF_FFFF_FFFF
  }

  /** The prefixes as ranges. */
  lemma Prefixes(x: U32, y: U128)
    ensures x / 0x100_0000 == 127 <==> 0x7F00_0000 <= x <= 0x7FFF_FFFF
    ensures x / 0x1_0000 == 0xA9FE <==> 0xA9FE_0000 <= x <= 0xA9FE_FFFF
    ensures y / 0x40_0000_0000_0000_0000_0000_0000_0000 == 0x3FA <==> InLinkLocalV6(y)
  {
  }
}
