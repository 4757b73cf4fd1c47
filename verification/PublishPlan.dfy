/**
 * `planExpectedEvidencePublication` from records to records: the evidence is matched with the publish
 * configuration, turned into a dependency graph, and ordered.
 */
module PublishPlan {
  import opened Common
  import opened Evidence
  import opened PublishOrder
  import Sorting

  function NameOf(r: Record): string { r.name }

  function KeyOf(d: Dependency): string { d.name }

  function DirOf(d: Definition): string { d.dir }

  function TitleOf(d: Definition): string { d.name }

  /** The package table names every directory and every package once. */
  ghost predicate TableIsSound(release: Release) {
    Sorting.DistinctBy(DirOf, release.definitions) && Sorting.DistinctBy(TitleOf, release.definitions)
  }

  function Dirs(definitions: seq<Definition>): (r: seq<string>)
    ensures |r| == |definitions| && forall i | 0 <= i < |r| :: r[i] == definitions[i].dir
  {
    seq(|definitions|, i requires 0 <= i < |definitions| => definitions[i].dir)
  }

  /** JavaScript objects have each key once. */
  ghost predicate KeysAreDistinct(records: seq<Record>) {
    forall i | 0 <= i < |records| :: Sorting.DistinctBy(KeyOf, records[i].dependencies)
  }

  // ---------------------------------------------------------------- which evidence can be planned

  /** The publish configuration is the table, and the records are exactly the packages of the table. */
  ghost predicate Matches(packages: seq<string>, release: Release, records: seq<Record>) {
    && multiset(packages) == multiset(Dirs(release.definitions))
    && Sorting.DistinctBy(NameOf, records)
    && (forall d | d in release.definitions :: exists r :: r in records && r.name == d.name && r.dir == d.dir)
    && (forall r | r in records :: KnownName(release, r.name))
  }

  /** One supported version throughout, dependencies included. */
  ghost predicate OneVersion(release: Release, records: seq<Record>) {
    records != [] && forall r | r in records ::
      r.version == records[0].version && ExactDependencies(release, r.dependencies, records[0].version)
  }

  function FindByName(records: seq<Record>, name: string): (r: Option<nat>)
    ensures r.None? ==> forall i | 0 <= i < |records| :: records[i].name != name
    ensures r.Some? ==> r.value < |records| && records[r.value].name == name
  {
    if records == [] then None
    else if records[0].name == name then Some(0)
    else match FindByName(records[1..], name)
      case None =>
        assert forall i | 0 < i < |records| :: records[i] == records[1..][i - 1];
        None
      case Some(i) => Some(i + 1)
  }

  function FindByDir(definitions: seq<Definition>, dir: string): (r: Option<Definition>)
    ensures r.None? <==> forall d | d in definitions :: d.dir != dir
    ensures r.Some? ==> r.value in definitions && r.value.dir == dir
  {
    if definitions == [] then None
    else if definitions[0].dir == dir then Some(definitions[0])
    else
      assert definitions == [definitions[0]] + definitions[1..];
      FindByDir(definitions[1..], dir)
  }

  /** The declared record of one configured package. */
  ghost predicate DeclaredAs(release: Release, records: seq<Record>, dir: string, r: Record) {
    r in records && r.dir == dir && Definition(dir, r.name) in release.definitions
  }

  lemma SameRecord(records: seq<Record>, r: Record, s: Record)
    requires Sorting.DistinctBy(NameOf, records) && r in records && s in records && r.name == s.name
    ensures r == s
  {
    var i :| 0 <= i < |records| && records[i] == r;
    var j :| 0 <= j < |records| && records[j] == s;
    assert NameOf(records[i]) == NameOf(records[j]);
  }

  lemma SameDefinition(release: Release, a: Definition, b: Definition)
    requires TableIsSound(release) && a in release.definitions && b in release.definitions
    requires a.dir == b.dir || a.name == b.name
    ensures a == b
  {
    var i :| 0 <= i < |release.definitions| && release.definitions[i] == a;
    var j :| 0 <= j < |release.definitions| && release.definitions[j] == b;
    assert DirOf(a) == a.dir && DirOf(b) == b.dir && TitleOf(a) == a.name && TitleOf(b) == b.name;
  }

  method HasDuplicateName(records: seq<Record>) returns (duplicate: bool)
    ensures duplicate <==> !Sorting.DistinctBy(NameOf, records)
  {
    var seen: set<string> := {};
    for i := 0 to |records|
      invariant Sorting.DistinctBy(NameOf, records[..i])
      invariant forall name :: name in seen <==> exists k | 0 <= k < i :: records[k].name == name
    {
      if records[i].name in seen {
        var k :| 0 <= k < i && records[k].name == records[i].name;
        assert NameOf(records[k]) == NameOf(records[i]);
        return true;
      }
      seen := seen + {records[i].name};
      assert forall k | 0 <= k < i :: NameOf(records[k]) != NameOf(records[i]);
      assert records[..i + 1] == records[..i] + [records[i]];
    }
    assert records[..|records|] == records;
    return false;
  }

  lemma PackagesAreDistinct(packages: seq<string>, release: Release)
    requires TableIsSound(release) && multiset(packages) == multiset(Dirs(release.definitions))
    ensures Distinct(packages)
  {
    var dirs := Dirs(release.definitions);
    assert Sorting.DistinctBy((x: string) => x, dirs) by {
      forall i, j | 0 <= i < j < |dirs| ensures dirs[i] != dirs[j] {
        assert DirOf(release.definitions[i]) != DirOf(release.definitions[j]);
      }
    }
    Sorting.PermutationKeepsDistinct((x: string) => x, dirs, packages);
    assert forall i, j | 0 <= i < j < |packages| :: ((x: string) => x)(packages[i]) != ((x: string) => x)(packages[j]);
  }

  lemma PackageHasDefinition(packages: seq<string>, release: Release, dir: string)
    requires multiset(packages) == multiset(Dirs(release.definitions)) && dir in packages
    ensures FindByDir(release.definitions, dir).Some?
  {
    assert dir in multiset(Dirs(release.definitions));
    var i :| 0 <= i < |release.definitions| && Dirs(release.definitions)[i] == dir;
    assert release.definitions[i] in release.definitions;
  }

  lemma DefinitionIsPackage(packages: seq<string>, release: Release, d: Definition)
    requires multiset(packages) == multiset(Dirs(release.definitions)) && d in release.definitions
    ensures d.dir in packages
  {
    var i :| 0 <= i < |release.definitions| && release.definitions[i] == d;
    assert Dirs(release.definitions)[i] in multiset(packages);
  }

  /** The records declared so far, one per configured package. */
  ghost predicate DeclaredUpTo(packages: seq<string>, release: Release, records: seq<Record>, declared: seq<Record>) {
    |declared| <= |packages| && forall i | 0 <= i < |declared| :: DeclaredAs(release, records, packages[i], declared[i])
  }

  lemma DeclaredHasDistinctNames(packages: seq<string>, release: Release, records: seq<Record>, declared: seq<Record>)
    requires TableIsSound(release) && Distinct(packages) && DeclaredUpTo(packages, release, records, declared)
    ensures Sorting.DistinctBy(NameOf, declared)
  {
    forall i, j | 0 <= i < j < |declared| ensures NameOf(declared[i]) != NameOf(declared[j]) {
      var a, b := Definition(packages[i], declared[i].name), Definition(packages[j], declared[j].name);
      assert DeclaredAs(release, records, packages[i], declared[i]);
      assert DeclaredAs(release, records, packages[j], declared[j]);
      if a.name == b.name { SameDefinition(release, a, b); }
    }
  }

  /** Records with distinct names that are the same set are the same multiset. */
  lemma SameRecords(a: seq<Record>, b: seq<Record>)
    requires Sorting.DistinctBy(NameOf, a) && Sorting.DistinctBy(NameOf, b)
    requires forall r :: r in a <==> r in b
    ensures multiset(a) == multiset(b)
  {
    forall r ensures multiset(a)[r] == multiset(b)[r] {
      Sorting.DistinctOccursOnce(NameOf, a, r);
      Sorting.DistinctOccursOnce(NameOf, b, r);
      assert r in multiset(a) <==> r in a;
      assert r in multiset(b) <==> r in b;
    }
  }

  predicate HasName(records: seq<Record>, name: string) {
    exists i | 0 <= i < |records| :: records[i].name == name
  }

  lemma DefinitionIsDeclared(packages: seq<string>, release: Release, records: seq<Record>, declared: seq<Record>,
                             d: Definition) returns (r: Record)
    requires TableIsSound(release) && multiset(packages) == multiset(Dirs(release.definitions))
    requires |declared| == |packages| && DeclaredUpTo(packages, release, records, declared)
    requires d in release.definitions
    ensures r in records && r.name == d.name && r.dir == d.dir && HasName(declared, d.name)
  {
    DefinitionIsPackage(packages, release, d);
    var i :| 0 <= i < |packages| && packages[i] == d.dir;
    assert DeclaredAs(release, records, packages[i], declared[i]);
    SameDefinition(release, d, Definition(packages[i], declared[i].name));
    r := declared[i];
  }

  lemma DeclaredIsKnown(release: Release, records: seq<Record>, dir: string, r: Record)
    requires DeclaredAs(release, records, dir, r)
    ensures KnownName(release, r.name) && r in records
  {
    var k :| 0 <= k < |release.definitions| && release.definitions[k] == Definition(dir, r.name);
    assert release.definitions[k].name == r.name;
  }

  /** With every package declared, the evidence matches exactly when no record is left over. */
  lemma FullyDeclared(packages: seq<string>, release: Release, records: seq<Record>, declared: seq<Record>)
    requires TableIsSound(release) && multiset(packages) == multiset(Dirs(release.definitions))
    requires Sorting.DistinctBy(NameOf, records)
    requires |declared| == |packages| && DeclaredUpTo(packages, release, records, declared)
    ensures (forall r | r in records :: HasName(declared, r.name)) <==> Matches(packages, release, records)
  {
    hide DeclaredAs, HasName, KnownName, TableIsSound, Sorting.DistinctBy, Dirs;
    forall d | d in release.definitions ensures exists r :: r in records && r.name == d.name && r.dir == d.dir {
      var r := DefinitionIsDeclared(packages, release, records, declared, d);
    }
    forall r | r in records ensures KnownName(release, r.name) <==> HasName(declared, r.name) {
      NameIsKnown(packages, release, records, declared, r.name);
    }
  }

  lemma NameIsKnown(packages: seq<string>, release: Release, records: seq<Record>, declared: seq<Record>, name: string)
    requires TableIsSound(release) && multiset(packages) == multiset(Dirs(release.definitions))
    requires |declared| == |packages| && DeclaredUpTo(packages, release, records, declared)
    ensures KnownName(release, name) <==> HasName(declared, name)
  {
    if KnownName(release, name) {
      var k :| 0 <= k < |release.definitions| && release.definitions[k].name == name;
      var r := DefinitionIsDeclared(packages, release, records, declared, release.definitions[k]);
    }
    if HasName(declared, name) {
      var i :| 0 <= i < |declared| && declared[i].name == name;
      DeclaredIsKnown(release, records, packages[i], declared[i]);
    }
  }

  lemma DeclaredIsAPermutation(packages: seq<string>, release: Release, records: seq<Record>, declared: seq<Record>)
    requires TableIsSound(release) && Matches(packages, release, records)
    requires |declared| == |packages| && DeclaredUpTo(packages, release, records, declared)
    requires forall r | r in records :: HasName(declared, r.name)
    ensures multiset(declared) == multiset(records)
  {
    PackagesAreDistinct(packages, release);
    DeclaredHasDistinctNames(packages, release, records, declared);
    forall r ensures r in records <==> r in declared {
      if r in declared {
        var i :| 0 <= i < |declared| && declared[i] == r;
        DeclaredIsKnown(release, records, packages[i], declared[i]);
      }
      if r in records {
        assert HasName(declared, r.name);
        var i :| 0 <= i < |declared| && declared[i].name == r.name;
        DeclaredIsKnown(release, records, packages[i], declared[i]);
        SameRecord(records, r, declared[i]);
      }
    }
    SameRecords(declared, records);
  }

  /** One configured package: its record, or a reason why the evidence does not match. */
  lemma DeclareOne(packages: seq<string>, release: Release, records: seq<Record>, dir: string, d: Definition)
    requires TableIsSound(release) && Sorting.DistinctBy(NameOf, records)
    requires FindByDir(release.definitions, dir) == Some(d)
    ensures var found := FindByName(records, d.name);
            if found.Some? && records[found.value].dir == dir
            then DeclaredAs(release, records, dir, records[found.value])
            else !Matches(packages, release, records)
  {
    var found := FindByName(records, d.name);
    assert d == Definition(dir, d.name);
    if Matches(packages, release, records) {
      var r :| r in records && r.name == d.name && r.dir == d.dir;
      if found.Some? { SameRecord(records, r, records[found.value]); }
    }
  }

  lemma DeclaredMore(packages: seq<string>, release: Release, records: seq<Record>, declared: seq<Record>, r: Record)
    requires DeclaredUpTo(packages, release, records, declared) && |declared| < |packages|
    requires DeclaredAs(release, records, packages[|declared|], r)
    ensures DeclaredUpTo(packages, release, records, declared + [r])
  {
    hide DeclaredAs;
  }

  lemma NothingDeclared(packages: seq<string>, release: Release, records: seq<Record>)
    ensures DeclaredUpTo(packages, release, records, [])
  {
  }

  /** Every configured package gets its record. */
  method DeclareEach(packages: seq<string>, release: Release, records: seq<Record>) returns (r: Result<seq<Record>>)
    requires TableIsSound(release) && multiset(packages) == multiset(Dirs(release.definitions))
    requires Sorting.DistinctBy(NameOf, records)
    ensures r.Rejected? ==> !Matches(packages, release, records)
    ensures r.Ok? ==> |r.value| == |packages| && DeclaredUpTo(packages, release, records, r.value)
  {
    hide Matches, FindByName, FindByDir, DeclaredAs, DeclaredUpTo, TableIsSound, Sorting.DistinctBy, Dirs;
    var declared: seq<Record> := [];
    NothingDeclared(packages, release, records);
    for i := 0 to |packages|
      invariant |declared| == i && DeclaredUpTo(packages, release, records, declared)
    {
      PackageHasDefinition(packages, release, packages[i]);
      var definition := FindByDir(release.definitions, packages[i]).value;
      DeclareOne(packages, release, records, packages[i], definition);
      var found := FindByName(records, definition.name);
      if found.None? || records[found.value].dir != packages[i] { return Rejected; }
      DeclaredMore(packages, release, records, declared, records[found.value]);
      declared := declared + [records[found.value]];
    }
    return Ok(declared);
  }

  /** The first part of the planner: every configured package gets its record, and no record is left over. */
  method Declare(packages: seq<string>, release: Release, records: seq<Record>) returns (r: Result<seq<Record>>)
    requires TableIsSound(release)
    ensures r.Ok? <==> Matches(packages, release, records)
    ensures r.Ok? ==> |r.value| == |packages| && DeclaredUpTo(packages, release, records, r.value)
    ensures r.Ok? ==> multiset(r.value) == multiset(records)
  {
    if multiset(packages) != multiset(Dirs(release.definitions)) { return Rejected; }
    var duplicate := HasDuplicateName(records);
    if duplicate { return Rejected; }
    hide Matches, DeclaredUpTo, TableIsSound, Sorting.DistinctBy, HasName, Dirs;
    r := DeclareEach(packages, release, records);
    if r.Rejected? { return; }
    FullyDeclared(packages, release, records, r.value);
    if exists record | record in records :: !HasName(r.value, record.name) { return Rejected; }
    DeclaredIsAPermutation(packages, release, records, r.value);
  }

  // ---------------------------------------------------------------- orders of records

  ghost predicate DependsOn(r: Record, s: Record) {
    exists k | 0 <= k < |r.dependencies| :: r.dependencies[k].name == s.name
  }

  /** Every record once, each after all records it depends on. */
  ghost predicate Respects(records: seq<Record>, order: seq<Record>) {
    && multiset(order) == multiset(records)
    && forall k, s | 0 <= k < |order| && s in records && DependsOn(order[k], s) :: s in order[..k]
  }

  /** The two orders agree up to a place where `a` has the package configured earlier. */
  ghost predicate ComesFirst(packages: seq<string>, a: seq<Record>, b: seq<Record>) {
    exists k, i, j | 0 <= k < |a| && k < |b| && 0 <= i < j < |packages| ::
      a[..k] == b[..k] && a[k].dir == packages[i] && b[k].dir == packages[j]
  }

  ghost predicate RecordCycle(records: seq<Record>, c: seq<Record>) {
    && c != []
    && (forall i | 0 <= i < |c| :: c[i] in records)
    && (forall i | 0 < i < |c| :: DependsOn(c[i - 1], c[i]))
    && DependsOn(c[|c| - 1], c[0])
  }

  // ---------------------------------------------------------------- records as a graph

  function Lookup(declared: seq<Record>, name: string): nat {
    match FindByName(declared, name)
    case Some(i) => i
    case None => |declared|
  }

  function GraphOf(declared: seq<Record>): (g: Graph)
    ensures |g| == |declared|
    ensures forall i | 0 <= i < |g| :: |g[i]| == |declared[i].dependencies|
    ensures forall i, k | 0 <= i < |g| && 0 <= k < |g[i]| ::
      g[i][k] == Lookup(declared, declared[i].dependencies[k].name)
  {
    seq(|declared|, i requires 0 <= i < |declared| =>
      seq(|declared[i].dependencies|, k requires 0 <= k < |declared[i].dependencies| =>
        Lookup(declared, declared[i].dependencies[k].name)))
  }

  /** What holds of declared records: distinct names, and every dependency among them. */
  ghost predicate Closed(declared: seq<Record>) {
    && Sorting.DistinctBy(NameOf, declared)
    && KeysAreDistinct(declared)
    && forall i, k | 0 <= i < |declared| && 0 <= k < |declared[i].dependencies| ::
         HasName(declared, declared[i].dependencies[k].name)
  }

  lemma LookupFinds(declared: seq<Record>, name: string, j: nat)
    requires Sorting.DistinctBy(NameOf, declared) && j < |declared|
    ensures declared[j].name == name <==> HasName(declared, name) && Lookup(declared, name) == j
  {
    if declared[j].name == name {
      assert HasName(declared, name);
      var i := FindByName(declared, name).value;
      assert NameOf(declared[i]) == NameOf(declared[j]);
    }
  }

  lemma GraphIsWellFormed(declared: seq<Record>)
    requires Closed(declared)
    ensures WellFormed(GraphOf(declared))
  {
    var g := GraphOf(declared);
    forall i | 0 <= i < |g| ensures Distinct(g[i]) && forall k | 0 <= k < |g[i]| :: g[i][k] < |g| {
      var d := declared[i].dependencies;
      forall k | 0 <= k < |g[i]| ensures g[i][k] < |g| && declared[g[i][k]].name == d[k].name {
        assert HasName(declared, d[k].name);
      }
      forall k, m | 0 <= k < m < |g[i]| ensures g[i][k] != g[i][m] {
        assert KeyOf(d[k]) != KeyOf(d[m]);
      }
    }
  }

  /** An edge of the graph is a dependency between records. */
  lemma EdgeIsDependency(declared: seq<Record>, i: nat, j: nat)
    requires Closed(declared) && i < |declared| && j < |declared|
    ensures j in GraphOf(declared)[i] <==> DependsOn(declared[i], declared[j])
  {
    var g, d := GraphOf(declared), declared[i].dependencies;
    if DependsOn(declared[i], declared[j]) {
      var k :| 0 <= k < |d| && d[k].name == declared[j].name;
      LookupFinds(declared, d[k].name, j);
      assert g[i][k] == j;
    }
    if j in g[i] {
      var k :| 0 <= k < |g[i]| && g[i][k] == j;
      assert HasName(declared, d[k].name);
      LookupFinds(declared, d[k].name, j);
    }
  }

  function RecordsAt(declared: seq<Record>, order: seq<nat>): (r: seq<Record>)
    requires forall k | 0 <= k < |order| :: order[k] < |declared|
    ensures |r| == |order| && forall k | 0 <= k < |r| :: r[k] == declared[order[k]]
  {
    seq(|order|, k requires 0 <= k < |order| => declared[order[k]])
  }

  lemma OrderedRecordsRespect(declared: seq<Record>, order: seq<nat>)
    requires Closed(declared) && Topological(GraphOf(declared), order)
    ensures (forall k | 0 <= k < |order| :: order[k] < |declared|) && Respects(declared, RecordsAt(declared, order))
  {
    hide GraphOf, Closed, DependsOn, Elements;
    var g := GraphOf(declared);
    forall k | 0 <= k < |order| ensures order[k] < |declared| { assert order[k] in order; }
    var r := RecordsAt(declared, order);
    RecordsArePermuted(declared, order);
    forall k, s | 0 <= k < |r| && s in declared && DependsOn(r[k], s) ensures s in r[..k] {
      var j :| 0 <= j < |declared| && declared[j] == s;
      EdgeIsDependency(declared, order[k], j);
      InElements(g[order[k]], j);
      InElements(order[..k], j);
      var m :| 0 <= m < k && order[..k][m] == j;
      assert r[..k][m] == s;
    }
  }

  lemma InElements(s: seq<nat>, x: nat)
    ensures x in Elements(s) <==> x in s
  {
  }

  lemma RecordsArePermuted(declared: seq<Record>, order: seq<nat>)
    requires Closed(declared) && Distinct(order) && forall n: nat :: n in order <==> n < |declared|
    requires forall k | 0 <= k < |order| :: order[k] < |declared|
    ensures multiset(RecordsAt(declared, order)) == multiset(declared)
  {
    var r := RecordsAt(declared, order);
    forall i, j | 0 <= i < j < |r| ensures NameOf(r[i]) != NameOf(r[j]) {
      assert order[i] < order[j] || order[j] < order[i];
      assert NameOf(declared[order[i]]) != NameOf(declared[order[j]]);
    }
    forall x ensures x in r <==> x in declared {
      if x in declared {
        var i :| 0 <= i < |declared| && declared[i] == x;
        assert i in order;
        var k :| 0 <= k < |order| && order[k] == i;
        assert r[k] == x;
      }
    }
    SameRecords(r, declared);
  }

  /** An order of records is an order of their indices. */
  lemma RespectingIsTopological(declared: seq<Record>, t: seq<Record>) returns (u: seq<nat>)
    requires Closed(declared) && Respects(declared, t)
    ensures Topological(GraphOf(declared), u) && |u| == |t|
    ensures forall k | 0 <= k < |u| :: u[k] < |declared| && declared[u[k]] == t[k]
  {
    hide GraphOf, DependsOn, FindByName, KeysAreDistinct;
    var g := GraphOf(declared);
    forall k | 0 <= k < |t| ensures t[k] in declared { assert t[k] in multiset(t); }
    u := seq(|t|, k requires 0 <= k < |t| => Lookup(declared, t[k].name));
    forall k | 0 <= k < |t| ensures u[k] < |declared| && declared[u[k]] == t[k] {
      var j :| 0 <= j < |declared| && declared[j] == t[k];
      LookupFinds(declared, t[k].name, j);
    }
    Sorting.PermutationKeepsDistinct(NameOf, declared, t);
    forall i, j | 0 <= i < j < |u| ensures u[i] != u[j] { assert NameOf(t[i]) != NameOf(t[j]); }
    forall n: nat ensures n in u <==> n < |g| {
      if n < |g| {
        assert declared[n] in multiset(t);
        var k :| 0 <= k < |t| && t[k] == declared[n];
        LookupFinds(declared, t[k].name, n);
        assert u[k] == n;
      }
    }
    forall k | 0 <= k < |u| ensures Elements(g[u[k]]) <= Elements(u[..k]) {
      DependenciesComeBefore(declared, t, u, k);
    }
  }

  lemma DependenciesComeBefore(declared: seq<Record>, t: seq<Record>, u: seq<nat>, k: nat)
    requires Closed(declared) && Respects(declared, t) && |u| == |t| && k < |u|
    requires forall k | 0 <= k < |u| :: u[k] < |declared| && declared[u[k]] == t[k]
    ensures Elements(GraphOf(declared)[u[k]]) <= Elements(u[..k])
  {
    var g := GraphOf(declared);
    GraphIsWellFormed(declared);
    hide GraphOf, Closed, DependsOn;
    forall j | j in g[u[k]] ensures j in u[..k] {
      EdgeIsDependency(declared, u[k], j);
      assert declared[j] in declared && DependsOn(t[k], declared[j]);
      var m :| 0 <= m < k && t[m] == declared[j];
      SameIndex(declared, u[m], j);
      assert u[..k][m] == j;
    }
  }

  lemma SameIndex(declared: seq<Record>, i: nat, j: nat)
    requires Closed(declared) && i < |declared| && j < |declared| && declared[i] == declared[j]
    ensures i == j
  {
    assert NameOf(declared[i]) == NameOf(declared[j]);
  }

  lemma GraphCycleIsRecordCycle(declared: seq<Record>, c: seq<nat>)
    requires Closed(declared) && Cycle(GraphOf(declared), c)
    ensures (forall i | 0 <= i < |c| :: c[i] < |declared|) && RecordCycle(declared, RecordsAt(declared, c))
  {
    hide GraphOf, Closed, DependsOn;
    var r := RecordsAt(declared, c);
    forall i | 0 < i < |r| ensures DependsOn(r[i - 1], r[i]) { EdgeIsDependency(declared, c[i - 1], c[i]); }
    EdgeIsDependency(declared, c[|c| - 1], c[0]);
  }

  lemma RecordCycleIsGraphCycle(declared: seq<Record>, r: seq<Record>)
    requires Closed(declared) && RecordCycle(declared, r)
    ensures HasCycle(GraphOf(declared))
  {
    hide GraphOf, Closed, DependsOn;
    var g := GraphOf(declared);
    var c := IndicesOf(declared, r);
    forall i | 0 < i < |c| ensures c[i] in g[c[i - 1]] {
      assert DependsOn(r[i - 1], r[i]);
      EdgeIsDependency(declared, c[i - 1], c[i]);
    }
    EdgeIsDependency(declared, c[|c| - 1], c[0]);
    assert Cycle(g, c);
  }

  lemma CyclesAgree(declared: seq<Record>)
    requires Closed(declared)
    ensures HasCycle(GraphOf(declared)) <==> exists c :: RecordCycle(declared, c)
  {
    hide GraphOf, Closed, Cycle, RecordCycle;
    if HasCycle(GraphOf(declared)) {
      var c :| Cycle(GraphOf(declared), c);
      GraphCycleIsRecordCycle(declared, c);
    }
    if r :| RecordCycle(declared, r) { RecordCycleIsGraphCycle(declared, r); }
  }

  lemma {:induction false} IndicesOf(declared: seq<Record>, r: seq<Record>) returns (c: seq<nat>)
    requires forall i | 0 <= i < |r| :: r[i] in declared
    ensures |c| == |r| && forall i | 0 <= i < |r| :: c[i] < |declared| && declared[c[i]] == r[i]
  {
    if r == [] {
      c := [];
    } else {
      var front := IndicesOf(declared, r[..|r| - 1]);
      var j :| 0 <= j < |declared| && declared[j] == r[|r| - 1];
      c := front + [j];
    }
  }

  // ---------------------------------------------------------------- the planner

  lemma DeclaredIsClosed(release: Release, records: seq<Record>, declared: seq<Record>)
    requires OneVersion(release, records) && KeysAreDistinct(records) && Sorting.DistinctBy(NameOf, records)
    requires multiset(declared) == multiset(records)
    requires forall name :: KnownName(release, name) ==> HasName(declared, name)
    ensures Closed(declared)
  {
    Sorting.PermutationKeepsDistinct(NameOf, records, declared);
    forall i | 0 <= i < |declared| ensures declared[i] in records { assert declared[i] in multiset(records); }
  }

  lemma SameSet(records: seq<Record>, declared: seq<Record>)
    requires multiset(declared) == multiset(records)
    ensures forall r :: r in declared <==> r in records
    ensures forall c :: RecordCycle(declared, c) <==> RecordCycle(records, c)
    ensures forall t :: Respects(declared, t) <==> Respects(records, t)
  {
    hide DependsOn;
    forall r ensures r in declared <==> r in records { assert r in multiset(declared) <==> r in multiset(records); }
  }

  lemma LeastAmongRecords(packages: seq<string>, declared: seq<Record>, order: seq<nat>, t: seq<Record>)
    requires Closed(declared) && |declared| == |packages|
    requires forall i | 0 <= i < |declared| :: declared[i].dir == packages[i]
    requires Topological(GraphOf(declared), order) && forall k | 0 <= k < |order| :: order[k] < |declared|
    requires forall u | Topological(GraphOf(declared), u) :: u == order || Precedes(order, u)
    requires Respects(declared, t)
    ensures t == RecordsAt(declared, order) || ComesFirst(packages, RecordsAt(declared, order), t)
  {
    hide GraphOf, Closed, Topological, Respects;
    var u := RespectingIsTopological(declared, t);
    var r := RecordsAt(declared, order);
    if u != order {
      var k :| 0 <= k < |order| && k < |u| && order[..k] == u[..k] && order[k] < u[k];
      forall m | 0 <= m < k ensures r[m] == t[m] { assert order[m] == order[..k][m] == u[..k][m] == u[m]; }
      assert r[..k] == t[..k];
      assert r[k].dir == packages[order[k]] && t[k].dir == packages[u[k]];
    }
  }

  /** Whether all versions, dependencies included, are the one release version. */
  method CheckVersions(release: Release, records: seq<Record>) returns (ok: bool)
    ensures ok <==> OneVersion(release, records)
  {
    if records == [] { return false; }
    for i := 0 to |records|
      invariant forall k | 0 <= k < i ::
        && records[k].version == records[0].version
        && ExactDependencies(release, records[k].dependencies, records[0].version)
    {
      if records[i].version != records[0].version ||
         !ExactDependencies(release, records[i].dependencies, records[0].version) {
        assert records[i] in records;
        return false;
      }
    }
    return true;
  }

  lemma OneVersionOfPermutation(release: Release, a: seq<Record>, b: seq<Record>)
    requires multiset(a) == multiset(b) && OneVersion(release, a)
    ensures OneVersion(release, b)
  {
    hide ExactDependencies;
    forall r ensures r in a <==> r in b { assert r in multiset(a) <==> r in multiset(b); }
    assert a[0] in multiset(b);
    assert b[0] in b;
  }

  /**
   * The publication plan. It exists exactly when the evidence matches the configuration, carries one version and
   * has no dependency cycle; then it is every record once, dependencies first, and first among all such orders.
   */
  method PlanPublication(packages: seq<string>, release: Release, records: seq<Record>) returns (r: Result<seq<Record>>)
    requires TableIsSound(release) && KeysAreDistinct(records)
    ensures r.Ok? <==> Matches(packages, release, records) && OneVersion(release, records)
                       && !exists c :: RecordCycle(records, c)
    ensures r.Ok? ==> Respects(records, r.value)
    ensures r.Ok? ==> forall t | Respects(records, t) :: t == r.value || ComesFirst(packages, r.value, t)
  {
    hide RecordCycle, Respects, ComesFirst, Topological, HasCycle, WellFormed;
    var declared := Declare(packages, release, records);
    if declared.Rejected? { return Rejected; }
    var ok := CheckVersions(release, declared.value);
    if OneVersion(release, records) { OneVersionOfPermutation(release, records, declared.value); }
    if !ok { return Rejected; }
    OneVersionOfPermutation(release, declared.value, records);
    MatchedIsClosed(packages, release, records, declared.value);
    hide Matches, OneVersion, TableIsSound, KeysAreDistinct, Closed;
    GraphIsWellFormed(declared.value);
    CyclesAgree(declared.value);
    SameSet(records, declared.value);
    var order := Plan(GraphOf(declared.value));
    if order.Rejected? { return Rejected; }
    OrderedRecordsRespect(declared.value, order.value);
    forall t | Respects(records, t)
      ensures t == RecordsAt(declared.value, order.value) ||
        ComesFirst(packages, RecordsAt(declared.value, order.value), t)
    {
      LeastAmongRecords(packages, declared.value, order.value, t);
    }
    return Ok(RecordsAt(declared.value, order.value));
  }

  lemma MatchedIsClosed(packages: seq<string>, release: Release, records: seq<Record>, declared: seq<Record>)
    requires TableIsSound(release) && KeysAreDistinct(records) && Matches(packages, release, records)
    requires OneVersion(release, records) && multiset(declared) == multiset(records)
    requires |declared| == |packages| && DeclaredUpTo(packages, release, records, declared)
    ensures Closed(declared)
    ensures forall i | 0 <= i < |declared| :: declared[i].dir == packages[i]
  {
    forall name | KnownName(release, name) ensures HasName(declared, name) {
      NameIsKnown(packages, release, records, declared, name);
    }
    DeclaredIsClosed(release, records, declared);
    assert forall i | 0 <= i < |declared| :: DeclaredAs(release, records, packages[i], declared[i]);
  }
}
