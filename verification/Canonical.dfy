/** The canonical form a record is brought into before it is signed. */
module Canonical {
  import opened Prelude
  import opened Contacts

  ghost predicate StrictOrder<T(!new)>(less: (T, T) -> bool) {
    && (forall a, b :: !(less(a, b) && less(b, a)))
    && (forall a, b :: a == b || less(a, b) || less(b, a))
    && (forall a, b, c :: less(a, b) && less(b, c) ==> less(a, c))
  }

  ghost predicate Strict<T>(s: seq<T>, less: (T, T) -> bool) {
    forall i, j :: 0 <= i < j < |s| ==> less(s[i], s[j])
  }

  function InsertNew<T(==)>(s: seq<T>, x: T, less: (T, T) -> bool): seq<T> {
    if s == [] then [x]
    else if s[0] == x then s
    else if less(x, s[0]) then [x] + s
    else [s[0]] + InsertNew(s[1..], x, less)
  }

  /** Sorted, with repeats removed. */
  function SortDedup<T(==)>(s: seq<T>, less: (T, T) -> bool): seq<T> {
    if s == [] then [] else InsertNew(SortDedup(s[1..], less), s[0], less)
  }

  lemma {:induction false} InsertNewElements<T>(s: seq<T>, x: T, less: (T, T) -> bool, y: T)
    ensures y in InsertNew(s, x, less) <==> y == x || y in s
  {
    if s != [] {
      InsertNewElements(s[1..], x, less, y);
      assert s == [s[0]] + s[1..];
    }
  }

  lemma {:induction false} InsertNewStrict<T(!new)>(s: seq<T>, x: T, less: (T, T) -> bool)
    requires StrictOrder(less) && Strict(s, less)
    ensures Strict(InsertNew(s, x, less), less)
  {
    if s != [] && s[0] != x && !less(x, s[0]) {
      InsertNewStrict(s[1..], x, less);
      var rest := InsertNew(s[1..], x, less);
      forall i | 0 <= i < |rest| ensures less(s[0], rest[i]) {
        InsertNewElements(s[1..], x, less, rest[i]);
      }
    }
  }

  /** The canonical list is strictly ordered and has exactly the same elements. */
  lemma {:induction false} SortDedupCanonical<T(!new)>(s: seq<T>, less: (T, T) -> bool)
    requires StrictOrder(less)
    ensures Strict(SortDedup(s, less), less)
    ensures forall x :: x in SortDedup(s, less) <==> x in s
  {
    if s != [] {
      SortDedupCanonical(s[1..], less);
      var rest := SortDedup(s[1..], less);
      InsertNewStrict(rest, s[0], less);
      forall x ensures x in SortDedup(s, less) <==> x in s {
        InsertNewElements(rest, s[0], less, x);
        assert s == [s[0]] + s[1..];
      }
    }
  }

  /** There is one such list, so sorting and removing repeats in any way gives it. */
  lemma {:induction false} CanonicalUnique<T(!new)>(a: seq<T>, b: seq<T>, less: (T, T) -> bool)
    requires StrictOrder(less) && Strict(a, less) && Strict(b, less) && forall x :: x in a <==> x in b
    ensures a == b
    decreases |a|
  {
    assert b != [] ==> b[0] in a;
    if a != [] {
      assert a[0] in b && b[0] in a;
      forall x ensures x in a[1..] <==> x in b[1..] {
        NotFirst(a, less, x);
        NotFirst(b, less, x);
      }
      CanonicalUnique(a[1..], b[1..], less);
      assert a == [a[0]] + a[1..] && b == [b[0]] + b[1..];
    }
  }

  lemma NotFirst<T(!new)>(a: seq<T>, less: (T, T) -> bool, x: T)
    requires StrictOrder(less) && Strict(a, less) && a != []
    ensures x in a[1..] <==> x in a && x != a[0]
  {
    assert a == [a[0]] + a[1..];
  }

  // ---------- the two orders ----------

  lemma SocketOrder()
    ensures StrictOrder(SocketLess)
  {
  }

  lemma CandidateOrder()
    ensures StrictOrder(CandidateLess)
  {
    SocketOrder();
    hide SocketLess;
  }

  predicate AdvertLess(a: ServiceAdvert, b: ServiceAdvert) {
    || a.name < b.name
    || (a.name == b.name && (a.port < b.port || (a.port == b.port && BytesLess(a.keyPin, b.keyPin))))
  }

  lemma AdvertOrder()
    ensures StrictOrder(AdvertLess)
  {
    hide BytesLess;
    forall a: ServiceAdvert, b: ServiceAdvert
      ensures !(AdvertLess(a, b) && AdvertLess(b, a)) && (a == b || AdvertLess(a, b) || AdvertLess(b, a))
    {
      LessAsymmetric(a.keyPin, b.keyPin);
      LessTotal(a.keyPin, b.keyPin);
    }
    forall a: ServiceAdvert, b: ServiceAdvert, c: ServiceAdvert | AdvertLess(a, b) && AdvertLess(b, c) ensures AdvertLess(a, c) {
      if BytesLess(a.keyPin, b.keyPin) && BytesLess(b.keyPin, c.keyPin) {
        LessTransitive(a.keyPin, b.keyPin, c.keyPin);
      }
    }
  }

  // ---------- records ----------

  function Canonicalized(r: EndpointRecord): EndpointRecord {
    r.(candidates := SortDedup(r.candidates, CandidateLess), services := SortDedup(r.services, AdvertLess))
  }

  /** The canonical record claims the same candidates and services; its candidates
      are in order, and its services are exactly when no name is claimed with two
      contents, which is left to the shape check to refuse. */
  lemma CanonicalRecord(r: EndpointRecord)
    ensures var c := Canonicalized(r);
            && (forall x :: x in c.candidates <==> x in r.candidates) && (forall x :: x in c.services <==> x in r.services)
            && (forall i :: 0 < i < |c.candidates| ==> CandidateLess(c.candidates[i - 1], c.candidates[i]))
            && ((forall i :: 0 < i < |c.services| ==> c.services[i - 1].name < c.services[i].name) <==>
                forall a, b :: a in r.services && b in r.services && a.name == b.name ==> a == b)
  {
    CandidateOrder();
    AdvertOrder();
    hide SortDedup, BytesLess, SocketLess;
    SortDedupCanonical(r.candidates, CandidateLess);
    SortDedupCanonical(r.services, AdvertLess);
    NamesInOrder(SortDedup(r.services, AdvertLess));
  }

  lemma NamesInOrder(s: seq<ServiceAdvert>)
    requires Strict(s, AdvertLess)
    ensures (forall i :: 0 < i < |s| ==> s[i - 1].name < s[i].name) <==> forall a, b :: a in s && b in s && a.name == b.name ==> a == b
  {
    hide BytesLess;
    if forall i :: 0 < i < |s| ==> s[i - 1].name < s[i].name {
      forall a, b | a in s && b in s && a.name == b.name ensures a == b {
        var i :| 0 <= i < |s| && s[i] == a;
        var j :| 0 <= j < |s| && s[j] == b;
        NamesGrow(s, i, j);
        NamesGrow(s, j, i);
      }
    }
    if forall a, b :: a in s && b in s && a.name == b.name ==> a == b {
      AdvertOrder();
      forall i | 0 < i < |s| ensures s[i - 1].name < s[i].name {
        assert AdvertLess(s[i - 1], s[i]);
      }
    }
  }

  lemma {:induction false} NamesGrow(s: seq<ServiceAdvert>, i: nat, j: nat)
    requires (forall k :: 0 < k < |s| ==> s[k - 1].name < s[k].name) && j < |s|
    ensures i < j ==> s[i].name < s[j].name
    decreases j
  {
    if i < j - 1 {
      NamesGrow(s, i, j - 1);
    }
  }
}
