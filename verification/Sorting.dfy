/** Sorting by an integer key, as the library sorts do. */
module Sorting {

  predicate SortedBy<T>(s: seq<T>, key: T -> int) {
    forall i, j :: 0 <= i < j < |s| ==> key(s[i]) <= key(s[j])
  }

  predicate StrictlySortedBy<T>(s: seq<T>, key: T -> int) {
    forall i, j :: 0 <= i < j < |s| ==> key(s[i]) < key(s[j])
  }

  function Insert<T>(s: seq<T>, x: T, key: T -> int): (r: seq<T>)
    ensures multiset(r) == multiset(s) + multiset{x}
    ensures |r| == |s| + 1
  {
    if s == [] || key(x) < key(s[0]) then [x] + s
    else
      assert s == [s[0]] + s[1..];
      [s[0]] + Insert(s[1..], x, key)
  }

  /** A stable sort: elements with equal keys keep their order. */
  function SortBy<T>(s: seq<T>, key: T -> int): (r: seq<T>)
    ensures multiset(r) == multiset(s)
    ensures |r| == |s|
  {
    if s == [] then []
    else
      assert s == s[..|s| - 1] + [s[|s| - 1]];
      Insert(SortBy(s[..|s| - 1], key), s[|s| - 1], key)
  }

  lemma {:induction false} InsertSorts<T>(s: seq<T>, x: T, key: T -> int)
    requires SortedBy(s, key)
    ensures SortedBy(Insert(s, x, key), key)
  {
    if s != [] && key(x) >= key(s[0]) {
      InsertSorts(s[1..], x, key);
      var rest := Insert(s[1..], x, key);
      forall y | y in rest ensures key(s[0]) <= key(y) {
        assert y in multiset(rest);
        assert y in s[1..] || y == x;
      }
    }
  }

  lemma {:induction false} SortSorts<T>(s: seq<T>, key: T -> int)
    ensures SortedBy(SortBy(s, key), key)
  {
    if s != [] {
      SortSorts(s[..|s| - 1], key);
      InsertSorts(SortBy(s[..|s| - 1], key), s[|s| - 1], key);
    }
  }

  /** Elements are kept, one by one. */
  lemma SortElements<T>(s: seq<T>, key: T -> int)
    ensures forall x :: x in SortBy(s, key) <==> x in s
  {
    forall x ensures x in SortBy(s, key) <==> x in s {
      assert x in SortBy(s, key) <==> x in multiset(SortBy(s, key));
      assert x in s <==> x in multiset(s);
    }
  }

  /** A list already in strict order is left as it is, and a strictly ordered list
      is determined by its elements. */
  lemma {:induction false} StrictUnique<T>(a: seq<T>, b: seq<T>, key: T -> int)
    requires StrictlySortedBy(a, key) && StrictlySortedBy(b, key)
    requires forall x :: x in a <==> x in b
    ensures a == b
    decreases |a|
  {
    assert b != [] ==> b[0] in a;
    if a != [] {
      assert a[0] in b && b != [];
      assert b[0] in a;
      FirstIsLeast(a, key, b[0]);
      FirstIsLeast(b, key, a[0]);
      assert a[0] == b[0] by {
        var i :| 0 <= i < |b| && b[i] == a[0];
      }
      forall x ensures x in a[1..] <==> x in b[1..] {
        InRest(a, key, x);
        InRest(b, key, x);
      }
      StrictUnique(a[1..], b[1..], key);
      assert a == [a[0]] + a[1..] && b == [b[0]] + b[1..];
    }
  }

  lemma FirstIsLeast<T>(s: seq<T>, key: T -> int, x: T)
    requires StrictlySortedBy(s, key) && x in s
    ensures key(s[0]) <= key(x)
  {
  }

  lemma InRest<T>(s: seq<T>, key: T -> int, x: T)
    requires s != [] && StrictlySortedBy(s, key)
    ensures x in s[1..] <==> x in s && x != s[0]
  {
    if x in s && x != s[0] {
      var i :| 0 <= i < |s| && s[i] == x;
      assert s[1..][i - 1] == x;
    }
    if x in s[1..] {
      var i :| 0 <= i < |s[1..]| && s[1..][i] == x;
      assert key(s[0]) < key(s[i + 1]);
    }
  }

  /** Sorting a list without equal keys orders it strictly. */
  lemma SortStrict<T>(s: seq<T>, key: T -> int)
    requires forall i, j :: 0 <= i < j < |s| ==> key(s[i]) != key(s[j])
    ensures StrictlySortedBy(SortBy(s, key), key)
  {
    SortSorts(s, key);
    var r := SortBy(s, key);
    forall i, j | 0 <= i < j < |r| ensures key(r[i]) < key(r[j]) {
      if key(r[i]) == key(r[j]) {
        TwiceInSorted(s, r, i, j, key);
      }
    }
  }

  /** Two places of a permutation with one key come from two places with it. */
  lemma TwiceInSorted<T>(s: seq<T>, r: seq<T>, i: nat, j: nat, key: T -> int)
    requires multiset(s) == multiset(r) && i < j < |r| && key(r[i]) == key(r[j])
    ensures exists a, b :: 0 <= a < b < |s| && key(s[a]) == key(s[b])
  {
    var x, y := r[i], r[j];
    SplitTwo(r, i, j);
    assert x in multiset(s) && y in multiset(s);
    var a :| 0 <= a < |s| && s[a] == x;
    var b := if x == y then AnotherPlace(s, a) else InPlace(s, y);
    if a < b {
      assert key(s[a]) == key(s[b]);
    } else {
      assert key(s[b]) == key(s[a]);
    }
  }

  ghost function InPlace<T>(s: seq<T>, x: T): (i: nat)
    requires x in multiset(s)
    ensures i < |s| && s[i] == x
  {
    assert x in s;
    var i :| 0 <= i < |s| && s[i] == x;
    i
  }

  /** A second place of an element that occurs twice. */
  ghost function AnotherPlace<T>(s: seq<T>, a: nat): (b: nat)
    requires a < |s| && multiset(s)[s[a]] >= 2
    ensures b < |s| && b != a && s[b] == s[a]
  {
    var without := s[..a] + s[a + 1..];
    assert s == s[..a] + [s[a]] + s[a + 1..];
    assert multiset(s) == multiset(without) + multiset{s[a]};
    var i := InPlace(without, s[a]);
    if i < a then i else i + 1
  }

  lemma SplitTwo<T>(r: seq<T>, i: nat, j: nat)
    requires i < j < |r|
    ensures multiset(r) >= multiset{r[i], r[j]}
  {
    assert r == r[..i] + [r[i]] + r[i + 1..j] + [r[j]] + r[j + 1..];
  }
}
