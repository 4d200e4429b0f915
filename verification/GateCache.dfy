/** The quality gate's cache keys: the dependency closure of a package and the
    bytes that are hashed for it. */
module GateCache {
  import opened Prelude

  datatype Package = Package(name: Bytes, directory: Bytes, dependencies: seq<Bytes>)

  const SLASH: byte := 0x2F

  /** The first package of a name. */
  function Lookup(packages: seq<Package>, name: Bytes): (found: Option<Package>)
    ensures found.Some? ==> found.value in packages && found.value.name == name
    ensures found.None? ==> forall p :: p in packages ==> p.name != name
  {
    if packages == [] then None
    else if packages[0].name == name then Some(packages[0])
    else Lookup(packages[1..], name)
  }

  /** Packages live in directories of their own. */
  predicate DistinctDirectories(packages: seq<Package>) {
    forall p, q :: p in packages && q in packages && p.directory == q.directory ==> p == q
  }

  function Prefix(p: Package): Bytes {
    p.directory + [SLASH]
  }

  function Prefixes(packages: seq<Package>): set<Bytes> {
    set p | p in packages :: Prefix(p)
  }

  // ---------- reachability ----------

  /** Whether following `steps` dependencies leads from one name to the other. */
  ghost predicate Leads(packages: seq<Package>, from: Bytes, to: Bytes, steps: nat)
    decreases steps
  {
    if steps == 0 then from == to else
    var p := Lookup(packages, from);
    p.Some? && exists d :: d in p.value.dependencies && Leads(packages, d, to, steps - 1)
  }

  ghost predicate Reachable(packages: seq<Package>, from: Bytes, to: Bytes) {
    exists steps: nat :: Leads(packages, from, to, steps)
  }

  ghost predicate Collected(packages: seq<Package>, directories: set<Bytes>, name: Bytes) {
    Lookup(packages, name).Some? && Prefix(Lookup(packages, name).value) in directories
  }

  /** Every package added since `before`, except `open`, has its dependencies collected. */
  ghost predicate Closed(packages: seq<Package>, before: set<Bytes>, after: set<Bytes>, open: set<Bytes>) {
    forall p, d :: p in packages && Prefix(p) in after - before - open && d in p.dependencies ==> Collected(packages, after, d)
  }

  ghost predicate OnlyReachable(packages: seq<Package>, before: set<Bytes>, after: set<Bytes>, name: Bytes) {
    forall directory :: directory in after - before ==>
      exists to :: Reachable(packages, name, to) && Lookup(packages, to).Some? && Prefix(Lookup(packages, to).value) == directory
  }

  lemma ReachesItself(packages: seq<Package>, name: Bytes)
    ensures Reachable(packages, name, name)
  {
    assert Leads(packages, name, name, 0);
  }

  lemma ReachesThrough(packages: seq<Package>, name: Bytes, dependency: Bytes, to: Bytes)
    requires Lookup(packages, name).Some? && dependency in Lookup(packages, name).value.dependencies
    requires Reachable(packages, dependency, to)
    ensures Reachable(packages, name, to)
  {
    var steps: nat :| Leads(packages, dependency, to, steps);
    assert Leads(packages, name, to, steps + 1);
  }

  // ---------- the closure ----------

  datatype CacheError = UnknownPackage(name: Bytes)

  /** Collects the directories of a package and all it depends on. Whatever the
      graph, this ends; a directory already collected is not entered again. */
  method AddClosure(packages: seq<Package>, name: Bytes, before: set<Bytes>) returns (result: Result<(), CacheError>, after: set<Bytes>)
    requires DistinctDirectories(packages) && before <= Prefixes(packages)
    ensures before <= after <= Prefixes(packages)
    ensures result.Ok? ==> Collected(packages, after, name) && Closed(packages, before, after, {}) && OnlyReachable(packages, before, after, name)
    ensures result.Err? ==> Reachable(packages, name, result.error.name) && Lookup(packages, result.error.name).None?
    decreases Prefixes(packages) - before
  {
    hide Leads, Lookup;
    ReachesItself(packages, name);
    after := before;
    var package := Lookup(packages, name);
    if package.None? {
      return Err(UnknownPackage(name)), after;
    }
    var prefix := Prefix(package.value);
    if prefix in before {
      return Ok(()), after;
    }
    after := after + {prefix};
    var dependencies := package.value.dependencies;
    OwnPackage(packages, package.value);
    for i := 0 to |dependencies|
      invariant before + {prefix} <= after <= Prefixes(packages)
      invariant forall k :: 0 <= k < i ==> Collected(packages, after, dependencies[k])
      invariant Closed(packages, before, after, {prefix})
      invariant OnlyReachable(packages, before, after, name)
    {
      var r, next := AddClosure(packages, dependencies[i], after);
      if r.Err? {
        ReachesThrough(packages, name, dependencies[i], r.error.name);
        return r, next;
      }
      KeepsReachable(packages, before, after, next, name, dependencies[i]);
      KeepsClosed(packages, before, after, next, prefix);
      after := next;
    }
    return Ok(()), after;
  }

  lemma OwnPackage(packages: seq<Package>, package: Package)
    requires DistinctDirectories(packages) && package in packages
    ensures forall p :: p in packages && Prefix(p) == Prefix(package) ==> p == package
  {
    forall p | p in packages && Prefix(p) == Prefix(package) ensures p == package {
      assert p.directory == Prefix(p)[..|p.directory|] && package.directory == Prefix(package)[..|package.directory|];
    }
  }

  lemma KeepsReachable(packages: seq<Package>, before: set<Bytes>, middle: set<Bytes>, after: set<Bytes>, name: Bytes, dependency: Bytes)
    requires Lookup(packages, name).Some? && dependency in Lookup(packages, name).value.dependencies
    requires OnlyReachable(packages, before, middle, name) && OnlyReachable(packages, middle, after, dependency)
    ensures OnlyReachable(packages, before, after, name)
  {
    forall directory | directory in after - before
      ensures exists to :: Reachable(packages, name, to) && Lookup(packages, to).Some? && Prefix(Lookup(packages, to).value) == directory
    {
      if directory !in middle {
        assert directory in after - middle;
        var to :| Reachable(packages, dependency, to) && Lookup(packages, to).Some? && Prefix(Lookup(packages, to).value) == directory;
        ReachesThrough(packages, name, dependency, to);
      } else {
        assert directory in middle - before;
      }
    }
  }

  lemma KeepsClosed(packages: seq<Package>, before: set<Bytes>, middle: set<Bytes>, after: set<Bytes>, prefix: Bytes)
    requires before + {prefix} <= middle <= after
    requires Closed(packages, before, middle, {prefix}) && Closed(packages, middle, after, {})
    ensures Closed(packages, before, after, {prefix})
    ensures forall name :: Collected(packages, middle, name) ==> Collected(packages, after, name)
  {
    hide Lookup;
    forall p, d | p in packages && Prefix(p) in after - before - {prefix} && d in p.dependencies ensures Collected(packages, after, d) {
      if Prefix(p) in middle {
        assert Prefix(p) in middle - before - {prefix};
        assert Collected(packages, middle, d);
      } else {
        var none: set<Bytes> := {};
        assert Prefix(p) in after - middle - none;
      }
    }
  }

  // ---------- exactness ----------

  /** The directories of all packages a name reaches. */
  ghost predicate ExactClosure(packages: seq<Package>, name: Bytes, directories: set<Bytes>) {
    && (forall to :: Reachable(packages, name, to) ==> Collected(packages, directories, to))
    && OnlyReachable(packages, {}, directories, name)
  }

  lemma {:induction false} ClosedContains(packages: seq<Package>, directories: set<Bytes>, from: Bytes, to: Bytes, steps: nat)
    requires Closed(packages, {}, directories, {}) && Collected(packages, directories, from) && Leads(packages, from, to, steps)
    ensures Collected(packages, directories, to)
    decreases steps
  {
    hide Lookup;
    if steps > 0 {
      var p := Lookup(packages, from).value;
      var d :| d in p.dependencies && Leads(packages, d, to, steps - 1);
      assert Prefix(p) in directories - {} - {};
      ClosedContains(packages, directories, d, to, steps - 1);
    }
  }

  /** Starting from nothing, the collected directories are exactly those of the
      reachable packages; and collecting fails exactly when a reachable name is
      unknown. */
  method Closure(packages: seq<Package>, name: Bytes) returns (result: Result<set<Bytes>, CacheError>)
    requires DistinctDirectories(packages)
    ensures result.Ok? <==> forall to :: Reachable(packages, name, to) ==> Lookup(packages, to).Some?
    ensures result.Ok? ==> ExactClosure(packages, name, result.value)
  {
    hide Lookup, Leads;
    var r, directories := AddClosure(packages, name, {});
    if r.Err? {
      return Err(r.error);
    }
    forall to | Reachable(packages, name, to) ensures Collected(packages, directories, to) {
      var steps: nat :| Leads(packages, name, to, steps);
      ClosedContains(packages, directories, name, to, steps);
    }
    return Ok(directories);
  }

  /** There is one exact closure. */
  lemma ClosureUnique(packages: seq<Package>, name: Bytes, a: set<Bytes>, b: set<Bytes>)
    requires ExactClosure(packages, name, a) && ExactClosure(packages, name, b)
    ensures a == b
  {
    hide Lookup, Reachable;
    forall directory | directory in a ensures directory in b {
      assert directory in a - {};
    }
    forall directory | directory in b ensures directory in a {
      assert directory in b - {};
    }
  }

  // ---------- what is hashed ----------

  type Inventory = seq<(Bytes, Bytes)>   // path and digest, in the order of the paths

  predicate Sorted(inputs: Inventory) {
    forall i, j :: 0 <= i < j < |inputs| ==> BytesLess(inputs[i].0, inputs[j].0)
  }

  predicate ValidInventory(inputs: Inventory) {
    Sorted(inputs) && forall i :: 0 <= i < |inputs| ==> |inputs[i].0| <= U64_MAX && |inputs[i].1| == 32
  }

  const CRATES: Bytes := [0x63, 0x72, 0x61, 0x74, 0x65, 0x73, 0x2F]   // crates/
  const QUALITY: Bytes := CRATES + [0x73, 0x75, 0x70, 0x67, 0x61, 0x6E, 0x67, 0x2D, 0x71, 0x75, 0x61, 0x6C, 0x69, 0x74, 0x79, 0x2F]

  predicate Common(path: Bytes) {
    !(CRATES <= path) || QUALITY <= path
  }

  /** The files a package's key depends on. */
  predicate Selected(directories: set<Bytes>, path: Bytes) {
    Common(path) || exists directory :: directory in directories && directory <= path
  }

  function Chosen(directories: set<Bytes>, inputs: Inventory): Inventory {
    if inputs == [] then []
    else (if Selected(directories, inputs[0].0) then [inputs[0]] else []) + Chosen(directories, inputs[1..])
  }

  /** The `width` low bytes of `n`, least significant first. */
  function LittleEndian(n: nat, width: nat): (b: Bytes)
    ensures |b| == width
  {
    if width == 0 then [] else [n % 256] + LittleEndian(n / 256, width - 1)
  }

  function Field(b: Bytes): Bytes {
    LittleEndian(|b|, 8) + b
  }

  function WriteInputs(inputs: Inventory): Bytes {
    if inputs == [] then [] else Field(inputs[0].0) + inputs[0].1 + WriteInputs(inputs[1..])
  }

  /** The fixed first bytes, a name and version ended by zero. */
  const PACKAGE_MARK: Bytes :=
    [0x73, 0x75, 0x70, 0x67, 0x61, 0x6E, 0x67, 0x2D, 0x71, 0x75, 0x61, 0x6C, 0x69, 0x74, 0x79, 0x2D,
     0x70, 0x61, 0x63, 0x6B, 0x61, 0x67, 0x65, 0x2D, 0x76, 0x31, 0x00]

  function KeyBytes(context: Bytes, stage: Bytes, name: Bytes, chosen: Inventory): Bytes {
    PACKAGE_MARK + context + Field(stage) + Field(name) + WriteInputs(chosen)
  }

  const HASH: Bytes -> Bytes

  ghost predicate IsKey(packages: seq<Package>, inputs: Inventory, context: Bytes, stage: Bytes, name: Bytes, key: Bytes) {
    exists directories :: ExactClosure(packages, name, directories) && key == HASH(KeyBytes(context, stage, name, Chosen(directories, inputs)))
  }

  /** The key of a package: the hash of its context, stage, name and chosen files. */
  method PackageKey(packages: seq<Package>, inputs: Inventory, context: Bytes, stage: Bytes, name: Bytes)
    returns (result: Result<Bytes, CacheError>)
    requires DistinctDirectories(packages)
    ensures result.Ok? <==> forall to :: Reachable(packages, name, to) ==> Lookup(packages, to).Some?
    ensures result.Ok? ==> IsKey(packages, inputs, context, stage, name, result.value)
  {
    hide Lookup, Reachable, ExactClosure, Selected, Field;
    var closure := Closure(packages, name);
    if closure.Err? {
      return Err(closure.error);
    }
    var directories := closure.value;
    var fed := PACKAGE_MARK + context + Field(stage) + Field(name);
    ghost var start := fed;
    assert inputs[0..] == inputs;
    for i := 0 to |inputs|
      invariant fed + WriteInputs(Chosen(directories, inputs[i..])) == start + WriteInputs(Chosen(directories, inputs))
    {
      ChosenFrom(directories, inputs, i);
      var (path, digest) := inputs[i];
      ghost var rest := WriteInputs(Chosen(directories, inputs[i + 1..]));
      if Selected(directories, path) {
        Assoc(fed + Field(path), digest, rest);
        Assoc(fed, Field(path), digest + rest);
        Assoc(Field(path), digest, rest);
        fed := fed + Field(path) + digest;
      }
    }
    assert inputs[|inputs|..] == [] && fed + [] == fed;
    return Ok(HASH(fed));
  }

  lemma ChosenFrom(directories: set<Bytes>, inputs: Inventory, i: nat)
    requires i < |inputs|
    ensures WriteInputs(Chosen(directories, inputs[i..]))
         == (if Selected(directories, inputs[i].0) then Field(inputs[i].0) + inputs[i].1 else [])
            + WriteInputs(Chosen(directories, inputs[i + 1..]))
  {
    hide Selected, Field;
    assert inputs[i..][1..] == inputs[i + 1..];
    var rest := Chosen(directories, inputs[i + 1..]);
    assert ([inputs[i]] + rest)[1..] == rest && [] + rest == rest;
  }

  // ---------- injectivity ----------

  lemma {:induction false} LittleEndianInjective(m: nat, n: nat, width: nat)
    requires m < Pow256(width) && n < Pow256(width) && LittleEndian(m, width) == LittleEndian(n, width)
    ensures m == n
  {
    if width > 0 {
      var a, b := LittleEndian(m, width), LittleEndian(n, width);
      assert a[0] == b[0] && a[1..] == b[1..];
      LittleEndianInjective(m / 256, n / 256, width - 1);
    }
  }

  /** What follows a field does not change what it says. */
  lemma FieldPrefix(a: Bytes, b: Bytes, x: Bytes, y: Bytes)
    requires |a| <= U64_MAX && |b| <= U64_MAX && Field(a) + x == Field(b) + y
    ensures a == b && x == y
  {
    Widths();
    hide LittleEndian, Pow256;
    var s, t := Field(a) + x, Field(b) + y;
    assert s[..8] == LittleEndian(|a|, 8) && t[..8] == LittleEndian(|b|, 8);
    LittleEndianInjective(|a|, |b|, 8);
    assert s[8..8 + |a|] == a && t[8..8 + |b|] == b;
    assert s[8 + |a|..] == x && t[8 + |b|..] == y;
  }

  lemma {:induction false} InputsInjective(a: Inventory, b: Inventory)
    requires Digests(a) && Digests(b) && WriteInputs(a) == WriteInputs(b)
    ensures a == b
    decreases |a|
  {
    hide Field;
    if a != [] && b != [] {
      var x, y := WriteInputs(a[1..]), WriteInputs(b[1..]);
      Assoc(Field(a[0].0), a[0].1, x);
      Assoc(Field(b[0].0), b[0].1, y);
      FieldPrefix(a[0].0, b[0].0, a[0].1 + x, b[0].1 + y);
      assert (a[0].1 + x)[..32] == a[0].1 && (b[0].1 + y)[..32] == b[0].1;
      assert (a[0].1 + x)[32..] == x && (b[0].1 + y)[32..] == y;
      InputsInjective(a[1..], b[1..]);
      assert a == [a[0]] + a[1..] && b == [b[0]] + b[1..];
    }
  }

  predicate Digests(inputs: Inventory) {
    forall i :: 0 <= i < |inputs| ==> |inputs[i].0| <= U64_MAX && |inputs[i].1| == 32
  }

  /** The hashed bytes determine all that was fed. */
  lemma KeyBytesInjective(context: Bytes, stage: Bytes, name: Bytes, chosen: Inventory,
                          context': Bytes, stage': Bytes, name': Bytes, chosen': Inventory)
    requires |context| == |context'| == 32 && Digests(chosen) && Digests(chosen')
    requires |stage| <= U64_MAX && |stage'| <= U64_MAX && |name| <= U64_MAX && |name'| <= U64_MAX
    requires KeyBytes(context, stage, name, chosen) == KeyBytes(context', stage', name', chosen')
    ensures context == context' && stage == stage' && name == name' && chosen == chosen'
  {
    hide Field, WriteInputs, Digests;
    var mark := PACKAGE_MARK;
    var x, y := Field(name) + WriteInputs(chosen), Field(name') + WriteInputs(chosen');
    Assemble(mark, context, Field(stage), Field(name), WriteInputs(chosen));
    Assemble(mark, context', Field(stage'), Field(name'), WriteInputs(chosen'));
    SplitAfter(mark, context, Field(stage) + x, mark, context', Field(stage') + y);
    FieldPrefix(stage, stage', x, y);
    FieldPrefix(name, name', WriteInputs(chosen), WriteInputs(chosen'));
    InputsInjective(chosen, chosen');
  }

  lemma Assemble(a: Bytes, b: Bytes, c: Bytes, d: Bytes, e: Bytes)
    ensures a + b + c + d + e == a + b + (c + (d + e))
  {
  }

  lemma SplitAfter(a: Bytes, b: Bytes, c: Bytes, a': Bytes, b': Bytes, c': Bytes)
    requires |a| == |a'| && |b| == |b'| && a + b + c == a' + b' + c'
    ensures b == b' && c == c'
  {
    var s, t := a + b + c, a' + b' + c';
    assert s[|a|..|a| + |b|] == b && t[|a'|..|a'| + |b'|] == b';
    assert s[|a| + |b|..] == c && t[|a'| + |b'|..] == c';
  }

  // ---------- which changes matter ----------

  lemma {:induction false} ChosenElements(directories: set<Bytes>, inputs: Inventory, entry: (Bytes, Bytes))
    ensures entry in Chosen(directories, inputs) <==> entry in inputs && Selected(directories, entry.0)
    decreases |inputs|
  {
    hide Selected;
    if inputs != [] {
      ChosenElements(directories, inputs[1..], entry);
      assert inputs == [inputs[0]] + inputs[1..];
    }
  }

  lemma {:induction false} ChosenValid(directories: set<Bytes>, inputs: Inventory)
    requires ValidInventory(inputs)
    ensures ValidInventory(Chosen(directories, inputs))
    decreases |inputs|
  {
    hide Selected, BytesLess;
    if inputs != [] {
      ChosenValid(directories, inputs[1..]);
      var rest := Chosen(directories, inputs[1..]);
      forall i | 0 <= i < |rest| ensures BytesLess(inputs[0].0, rest[i].0) {
        ChosenElements(directories, inputs[1..], rest[i]);
        assert rest[i] in inputs[1..];
      }
    }
  }

  lemma NotFirst(a: Inventory, e: (Bytes, Bytes))
    requires Sorted(a) && a != []
    ensures e in a[1..] <==> e in a && e != a[0]
  {
    assert a == [a[0]] + a[1..];
    if e in a[1..] {
      LessAsymmetric(a[0].0, e.0);
    }
  }

  /** Sorted inventories with the same entries are the same. */
  lemma {:induction false} SortedUnique(a: Inventory, b: Inventory)
    requires Sorted(a) && Sorted(b) && forall e :: e in a <==> e in b
    ensures a == b
    decreases |a|
  {
    hide BytesLess;
    assert b != [] ==> b[0] in a;
    if a != [] {
      assert a[0] in b && b[0] in a;
      var i :| 0 <= i < |b| && b[i] == a[0];
      var j :| 0 <= j < |a| && a[j] == b[0];
      LessAsymmetric(a[0].0, b[0].0);
      assert a[0] == b[0];
      forall e ensures e in a[1..] <==> e in b[1..] {
        LessAsymmetric(a[0].0, e.0);
        NotFirst(a, e);
        NotFirst(b, e);
      }
      SortedUnique(a[1..], b[1..]);
      assert a == [a[0]] + a[1..] && b == [b[0]] + b[1..];
    }
  }

  /** A common file, or one below the directory of a package that is reachable. */
  ghost predicate Relevant(packages: seq<Package>, name: Bytes, path: Bytes) {
    || Common(path)
    || exists to :: Reachable(packages, name, to) && Lookup(packages, to).Some? && Prefix(Lookup(packages, to).value) <= path
  }

  lemma SelectedExactly(packages: seq<Package>, name: Bytes, directories: set<Bytes>, path: Bytes)
    requires ExactClosure(packages, name, directories)
    ensures Selected(directories, path) <==> Relevant(packages, name, path)
  {
    hide Lookup, Reachable, Common;
    if directory :| directory in directories && directory <= path {
      assert directory in directories - {};
    }
  }

  /** For one choice of directories the same bytes are fed exactly when the
      inventories agree on every selected file. */
  lemma BytesChangeExactly(context: Bytes, stage: Bytes, name: Bytes, directories: set<Bytes>, before: Inventory, after: Inventory)
    requires |context| == 32 && |stage| <= U64_MAX && |name| <= U64_MAX && ValidInventory(before) && ValidInventory(after)
    ensures KeyBytes(context, stage, name, Chosen(directories, before)) == KeyBytes(context, stage, name, Chosen(directories, after))
            <==> forall entry: (Bytes, Bytes) :: Selected(directories, entry.0) ==> (entry in before <==> entry in after)
  {
    hide Selected, BytesLess, KeyBytes, Chosen;
    var a, b := Chosen(directories, before), Chosen(directories, after);
    ChosenValid(directories, before);
    ChosenValid(directories, after);
    forall entry ensures (entry in a <==> entry in before && Selected(directories, entry.0))
                      && (entry in b <==> entry in after && Selected(directories, entry.0)) {
      ChosenElements(directories, before, entry);
      ChosenElements(directories, after, entry);
    }
    if KeyBytes(context, stage, name, a) == KeyBytes(context, stage, name, b) {
      KeyBytesInjective(context, stage, name, a, context, stage, name, b);
    }
    if forall entry: (Bytes, Bytes) :: Selected(directories, entry.0) ==> (entry in before <==> entry in after) {
      SortedUnique(a, b);
    }
  }

  /** Under a hash without collisions the key of a package changes exactly when a
      common file or a file of a reachable package does. */
  lemma KeyChangesExactly(packages: seq<Package>, context: Bytes, stage: Bytes, name: Bytes, before: Inventory, after: Inventory,
                          key: Bytes, key': Bytes)
    requires |context| == 32 && |stage| <= U64_MAX && |name| <= U64_MAX && ValidInventory(before) && ValidInventory(after)
    requires IsKey(packages, before, context, stage, name, key) && IsKey(packages, after, context, stage, name, key')
    requires forall x, y :: HASH(x) == HASH(y) ==> x == y
    ensures key == key' <==> forall entry: (Bytes, Bytes) :: Relevant(packages, name, entry.0) ==> (entry in before <==> entry in after)
  {
    hide ExactClosure, Selected, Relevant, KeyBytes, Chosen, ValidInventory;
    var a :| ExactClosure(packages, name, a) && key == HASH(KeyBytes(context, stage, name, Chosen(a, before)));
    var b :| ExactClosure(packages, name, b) && key' == HASH(KeyBytes(context, stage, name, Chosen(b, after)));
    ClosureUnique(packages, name, a, b);
    BytesChangeExactly(context, stage, name, a, before, after);
    forall entry: (Bytes, Bytes) ensures Selected(a, entry.0) <==> Relevant(packages, name, entry.0) {
      SelectedExactly(packages, name, a, entry.0);
    }
  }

  function Ascii(text: string): (b: Bytes)
    requires forall i :: 0 <= i < |text| ==> text[i] < 128 as char
    ensures |b| == |text|
  {
    seq(|text|, i requires 0 <= i < |text| => text[i] as int)
  }

  /** What is relevant to every package: all files outside the crates, and the quality
      crate's own, which decides what passing means. */
  lemma CommonExactly(path: Bytes)
    ensures Common(path) <==> !(Ascii("crates/") <= path) || Ascii("crates/supgang-quality/") <= path
    ensures forall packages, name :: Common(path) ==> Relevant(packages, name, path)
  {
    assert CRATES == Ascii("crates/");
    assert QUALITY == Ascii("crates/supgang-quality/");
  }
}
