/** The bounded edit distance behind fuzzy peer selection. */
module EditDistance {
  import opened Prelude

  // ---------- what an edit distance is ----------

  datatype Edit = Keep | Substitute | Insert | Delete

  /** Whether the edits, made from left to right, turn one text into another. */
  predicate Transforms(script: seq<Edit>, left: Bytes, right: Bytes)
    decreases |script|
  {
    if script == [] then left == [] && right == [] else
    var before := script[..|script| - 1];
    match script[|script| - 1]
    case Keep => left != [] && right != [] && Last(left) == Last(right) && Transforms(before, Init(left), Init(right))
    case Substitute => left != [] && right != [] && Transforms(before, Init(left), Init(right))
    case Insert => right != [] && Transforms(before, left, Init(right))
    case Delete => left != [] && Transforms(before, Init(left), right)
  }

  function Last(s: Bytes): byte
    requires s != []
  {
    s[|s| - 1]
  }

  function Init(s: Bytes): Bytes
    requires s != []
  {
    s[..|s| - 1]
  }

  function Cost(script: seq<Edit>): nat
    decreases |script|
  {
    if script == [] then 0
    else Cost(script[..|script| - 1]) + if script[|script| - 1] == Keep then 0 else 1
  }

  function Min(a: nat, b: nat): nat {
    if b < a then b else a
  }

  /** The recursive Levenshtein distance. */
  function Distance(left: Bytes, right: Bytes): nat
    decreases |left| + |right|
  {
    if left == [] then |right|
    else if right == [] then |left|
    else Min(Min(Distance(Init(left), Init(right)) + (if Last(left) != Last(right) then 1 else 0),
                 Distance(left, Init(right)) + 1),
             Distance(Init(left), right) + 1)
  }

  /** No script is cheaper than the distance. */
  lemma {:induction false} NoCheaperScript(script: seq<Edit>, left: Bytes, right: Bytes)
    requires Transforms(script, left, right)
    ensures Distance(left, right) <= Cost(script)
    decreases |script|
  {
    if script != [] {
      var before := script[..|script| - 1];
      match script[|script| - 1]
      case Keep => NoCheaperScript(before, Init(left), Init(right));
      case Substitute => NoCheaperScript(before, Init(left), Init(right));
      case Insert => NoCheaperScript(before, left, Init(right));
      case Delete => NoCheaperScript(before, Init(left), right);
      StepsBound(left, right);
    }
  }

  /** One more edit at the end costs at most one, also where a text is empty. */
  lemma {:induction false} StepsBound(left: Bytes, right: Bytes)
    ensures left != [] ==> Distance(left, right) <= Distance(Init(left), right) + 1
    ensures right != [] ==> Distance(left, right) <= Distance(left, Init(right)) + 1
    ensures left != [] && right != [] ==>
              Distance(left, right) <= Distance(Init(left), Init(right)) + (if Last(left) != Last(right) then 1 else 0)
  {
  }

  /** Some script costs exactly the distance. */
  lemma {:induction false} CheapestScript(left: Bytes, right: Bytes) returns (script: seq<Edit>)
    ensures Transforms(script, left, right) && Cost(script) == Distance(left, right)
    decreases |left| + |right|
  {
    hide Transforms, Cost;
    var before: seq<Edit>, edit: Edit;
    if left == [] && right == [] {
      Nothing();
      return [];
    } else if left == [] {
      before := CheapestScript(left, Init(right));
      edit := Insert;
    } else if right == [] {
      before := CheapestScript(Init(left), right);
      edit := Delete;
    } else if Distance(left, right) == Distance(left, Init(right)) + 1 {
      before := CheapestScript(left, Init(right));
      edit := Insert;
    } else if Distance(left, right) == Distance(Init(left), right) + 1 {
      before := CheapestScript(Init(left), right);
      edit := Delete;
    } else {
      before := CheapestScript(Init(left), Init(right));
      edit := if Last(left) == Last(right) then Keep else Substitute;
    }
    script := before + [edit];
    OneMore(before, edit, left, right);
  }

  lemma Nothing()
    ensures Transforms([], [], []) && Cost([]) == 0
  {
  }

  lemma OneMore(before: seq<Edit>, edit: Edit, left: Bytes, right: Bytes)
    ensures Cost(before + [edit]) == Cost(before) + if edit == Keep then 0 else 1
    ensures Transforms(before + [edit], left, right) <==>
            match edit
            case Keep => left != [] && right != [] && Last(left) == Last(right) && Transforms(before, Init(left), Init(right))
            case Substitute => left != [] && right != [] && Transforms(before, Init(left), Init(right))
            case Insert => right != [] && Transforms(before, left, Init(right))
            case Delete => left != [] && Transforms(before, Init(left), right)
  {
    assert (before + [edit])[..|before + [edit]| - 1] == before;
  }

  // ---------- bounds ----------

  /** At least the difference of the lengths, at most the longer one. */
  lemma {:induction false} LengthBounds(left: Bytes, right: Bytes)
    ensures |left| - |right| <= Distance(left, right) && |right| - |left| <= Distance(left, right)
    ensures Distance(left, right) <= |left| || Distance(left, right) <= |right|
    decreases |left| + |right|
  {
    if left != [] && right != [] {
      LengthBounds(Init(left), Init(right));
      LengthBounds(left, Init(right));
      LengthBounds(Init(left), right);
    }
  }

  /** The table of the distances of prefixes. */
  function Cell(left: Bytes, right: Bytes, i: nat, j: nat): nat
    requires i <= |left| && j <= |right|
  {
    Distance(left[..i], right[..j])
  }

  lemma CellSteps(left: Bytes, right: Bytes, i: nat, j: nat)
    requires i < |left| && j < |right|
    ensures Cell(left, right, i + 1, j + 1)
         == Min(Min(Cell(left, right, i, j) + (if left[i] != right[j] then 1 else 0), Cell(left, right, i + 1, j) + 1),
                Cell(left, right, i, j + 1) + 1)
  {
    assert Init(left[..i + 1]) == left[..i] && Init(right[..j + 1]) == right[..j];
  }

  /** A row that is all above a limit keeps all later rows above it. */
  lemma {:induction false} RowsStayAbove(left: Bytes, right: Bytes, i: nat, limit: nat, k: nat, j: nat)
    requires i <= k <= |left| && j <= |right|
    requires forall c :: 0 <= c <= |right| ==> Cell(left, right, i, c) > limit
    ensures Cell(left, right, k, j) > limit
    decreases k, j
  {
    if k > i {
      RowsStayAbove(left, right, i, limit, k - 1, j);
      if j == 0 {
        assert Cell(left, right, k, 0) == k && Cell(left, right, k - 1, 0) == k - 1;
      } else {
        RowsStayAbove(left, right, i, limit, k - 1, j - 1);
        RowsStayAbove(left, right, i, limit, k, j - 1);
        CellSteps(left, right, k - 1, j - 1);
      }
    }
  }

  // ---------- two rows ----------

  ghost predicate IsRow(row: array<nat>, left: Bytes, right: Bytes, i: nat, upTo: nat)
    requires i <= |left| && upTo <= |right|
    reads row
  {
    row.Length == |right| + 1 && forall j :: 0 <= j <= upTo ==> row[j] == Cell(left, right, i, j)
  }

  /** The least entry of a row's first cells. */
  ghost predicate IsLeast(minimum: nat, left: Bytes, right: Bytes, i: nat, upTo: nat)
    requires i <= |left| && upTo <= |right|
  {
    && (forall j :: 0 <= j <= upTo ==> minimum <= Cell(left, right, i, j))
    && (exists j :: 0 <= j <= upTo && minimum == Cell(left, right, i, j))
  }

  /** Fills one row from the row before it; the least entry is returned. */
  method FillRow(left: Bytes, right: Bytes, i: nat, previous: array<nat>, current: array<nat>) returns (minimum: nat)
    requires i < |left| && previous != current && current.Length == |right| + 1
    requires IsRow(previous, left, right, i, |right|)
    modifies current
    ensures IsRow(current, left, right, i + 1, |right|)
    ensures IsLeast(minimum, left, right, i + 1, |right|)
  {
    hide Distance;
    FirstColumn(left, right, i + 1);
    current[0] := i + 1;
    minimum := i + 1;
    for j := 0 to |right|
      invariant IsRow(current, left, right, i + 1, j)
      invariant IsLeast(minimum, left, right, i + 1, j)
    {
      CellSteps(left, right, i, j);
      hide Cell;
      var substitution := previous[j] + if left[i] != right[j] then 1 else 0;
      var insertion := current[j] + 1;
      var deletion := previous[j + 1] + 1;
      var next := Min(Min(substitution, insertion), deletion);
      current[j + 1] := next;
      if next < minimum {
        minimum := next;
      }
    }
  }

  lemma FirstColumn(left: Bytes, right: Bytes, i: nat)
    requires i <= |left|
    ensures Cell(left, right, i, 0) == i
  {
  }

  lemma FirstRow(left: Bytes, right: Bytes)
    ensures forall j :: 0 <= j <= |right| ==> Cell(left, right, 0, j) == j
  {
  }

  /** The distance when it is within the limit, and nothing otherwise. */
  method BoundedEditDistance(left: Bytes, right: Bytes, maximum: nat) returns (result: Option<nat>)
    ensures result == if Distance(left, right) <= maximum then Some(Distance(left, right)) else None
  {
    LengthBounds(left, right);
    assert left[..|left|] == left && right[..|right|] == right;
    if |left| > |right| + maximum || |right| > |left| + maximum {
      return None;
    }
    var previous := new nat[|right| + 1](j => j);
    var current := new nat[|right| + 1](_ => 0);
    FirstRow(left, right);
    for i := 0 to |left|
      invariant previous != current && current.Length == |right| + 1
      invariant IsRow(previous, left, right, i, |right|)
      invariant fresh(previous) && fresh(current)
    {
      hide Distance;
      var minimum := FillRow(left, right, i, previous, current);
      if minimum > maximum {
        RowsStayAbove(left, right, i + 1, maximum, |left|, |right|);
        return None;
      }
      previous, current := current, previous;
    }
    var distance := previous[|right|];
    return if distance <= maximum then Some(distance) else None;
  }

  // ---------- scores ----------

  predicate IsPrefix(query: Bytes, candidate: Bytes) {
    query <= candidate
  }

  predicate FoundAt(candidate: Bytes, query: Bytes, p: nat) {
    p + |query| <= |candidate| && candidate[p..p + |query|] == query
  }

  /** The first place where the query occurs. */
  method Find(candidate: Bytes, query: Bytes) returns (position: Option<nat>)
    ensures position.Some? ==> FirstAt(candidate, query, position.value)
    ensures position.None? ==> forall p :: 0 <= p ==> !FoundAt(candidate, query, p)
  {
    var p := 0;
    while p + |query| <= |candidate|
      invariant forall q :: 0 <= q < p ==> !FoundAt(candidate, query, q)
    {
      if candidate[p..p + |query|] == query {
        return Some(p);
      }
      p := p + 1;
    }
    return None;
  }

  function LengthPenalty(candidate: Bytes, query: Bytes): nat {
    Min(if |candidate| > |query| then |candidate| - |query| else |query| - |candidate|, 15)
  }

  function MaximumDistance(query: Bytes): nat {
    if |query| <= 4 then 1 else if |query| <= 8 then 2 else 3
  }

  function SaturatingSub(a: nat, b: nat): nat {
    if b > a then 0 else a - b
  }

  /** Where the query occurs first. */
  predicate FirstAt(candidate: Bytes, query: Bytes, p: nat) {
    FoundAt(candidate, query, p) && forall q :: 0 <= q < p ==> !FoundAt(candidate, query, q)
  }

  /** A text scores when it starts with the query, contains a query of three
      bytes or more, or is within the query's edit budget. A near miss ranks below
      every text that starts with the query or contains it; a long text that starts
      with it can rank below one that contains it early. */
  method FuzzyTextScore(candidate: Bytes, query: Bytes) returns (score: Option<nat>)
    ensures score.Some? <==>
            || IsPrefix(query, candidate)
            || (|query| >= 3 && exists p :: 0 <= p && FoundAt(candidate, query, p))
            || Distance(candidate, query) <= MaximumDistance(query)
    ensures IsPrefix(query, candidate) ==> score == Some(95 - LengthPenalty(candidate, query)) && 80 <= score.value <= 95
    ensures forall p :: 0 <= p && FirstAt(candidate, query, p) && !IsPrefix(query, candidate) && |query| >= 3 ==>
              score == Some(85 - Min(p, 10)) && 75 <= score.value <= 84
    ensures !IsPrefix(query, candidate) && (|query| < 3 || forall p :: 0 <= p ==> !FoundAt(candidate, query, p)) && score.Some? ==>
              score.value == 75 - 10 * Distance(candidate, query) - LengthPenalty(candidate, query) && 30 <= score.value <= 65
  {
    if query <= candidate {
      return Some(SaturatingSub(95, LengthPenalty(candidate, query)));
    }
    if |query| >= 3 {
      var position := Find(candidate, query);
      if position.Some? {
        NotAtStart(candidate, query);
        return Some(SaturatingSub(85, Min(position.value, 10)));
      }
    }
    var distance := BoundedEditDistance(candidate, query, MaximumDistance(query));
    match distance
    case None => return None;
    case Some(d) =>
      if d == 0 {
        ZeroIsEqual(candidate, query);
      }
      LengthBounds(candidate, query);
      return Some(SaturatingSub(SaturatingSub(75, 10 * d), LengthPenalty(candidate, query)));
  }

  lemma NotAtStart(candidate: Bytes, query: Bytes)
    requires !IsPrefix(query, candidate)
    ensures !FoundAt(candidate, query, 0)
  {
  }

  /** Only equal texts are at distance zero. */
  lemma {:induction false} ZeroIsEqual(left: Bytes, right: Bytes)
    requires Distance(left, right) == 0
    ensures left == right
    decreases |left| + |right|
  {
    if left != [] && right != [] {
      ZeroIsEqual(Init(left), Init(right));
      assert left == Init(left) + [Last(left)] && right == Init(right) + [Last(right)];
    }
  }
}
