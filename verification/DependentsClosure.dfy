/**
 * Which packages a change can affect: the touched ones, what depends on them, what depends on those, and so on, by
 * worklists that accept any graph. Names and inventory ids are strings; `localeCompare` is a parameter.
 */
module DependentsClosure {
  import opened Common
  import opened Sorting

  // ---------------------------------------------------------------- closures

  /** Whether selecting the first name selects the second. */
  type Edges = (string, string) -> bool

  ghost predicate Closed(edge: Edges, selected: set<string>) {
    forall m, n | m in selected && edge(m, n) :: n in selected
  }

  /** The smallest closed set that holds the start. */
  ghost predicate LeastClosed(edge: Edges, start: set<string>, selected: set<string>) {
    && start <= selected && Closed(edge, selected)
    && forall other: set<string> | start <= other && Closed(edge, other) :: selected <= other
  }

  ghost predicate Path(edge: Edges, start: set<string>, path: seq<string>) {
    && path != [] && path[0] in start
    && forall i | 0 < i < |path| :: edge(path[i - 1], path[i])
  }

  ghost predicate Reachable(edge: Edges, start: set<string>, n: string) {
    exists path :: Path(edge, start, path) && path[|path| - 1] == n
  }

  lemma {:induction false} PathStaysInside(edge: Edges, start: set<string>, selected: set<string>, path: seq<string>)
    requires start <= selected && Closed(edge, selected) && Path(edge, start, path)
    ensures path[|path| - 1] in selected
  {
    if |path| > 1 {
      var front := path[..|path| - 1];
      PathStaysInside(edge, start, selected, front);
      assert edge(path[|path| - 2], path[|path| - 1]);
    }
  }

  lemma ReachableStep(edge: Edges, start: set<string>, m: string, n: string)
    requires Reachable(edge, start, m) && edge(m, n)
    ensures Reachable(edge, start, n)
  {
    var path :| Path(edge, start, path) && path[|path| - 1] == m;
    var longer := path + [n];
    forall i | 0 < i < |longer| ensures edge(longer[i - 1], longer[i]) {
      if i < |path| { assert edge(path[i - 1], path[i]); }
    }
    assert Path(edge, start, longer);
  }

  /** The least closed set is what chains of dependents reach, however the graph loops. */
  lemma LeastClosedIsReachable(edge: Edges, start: set<string>, selected: set<string>)
    requires LeastClosed(edge, start, selected)
    ensures forall n :: n in selected <==> Reachable(edge, start, n)
  {
    var reached := set n | n in selected && Reachable(edge, start, n);
    forall n | n in start ensures n in reached { assert Path(edge, start, [n]); }
    forall m, n | m in reached && edge(m, n) ensures n in reached { ReachableStep(edge, start, m, n); }
    assert start <= reached && Closed(edge, reached);
    forall n | Reachable(edge, start, n) ensures n in selected {
      var path :| Path(edge, start, path) && path[|path| - 1] == n;
      PathStaysInside(edge, start, selected, path);
    }
  }

  /** A worklist may stop when nothing is queued: then what it selected is the least closed set. */
  ghost predicate Expanding(edge: Edges, start: set<string>, selected: set<string>, queue: seq<string>) {
    && start <= selected && (forall n | n in queue :: n in selected)
    && (forall m, n | m in selected && m !in queue && edge(m, n) :: n in selected)
    && (forall other: set<string> | start <= other && Closed(edge, other) :: selected <= other)
  }

  lemma StartIsExpanding(edge: Edges, start: set<string>, queue: seq<string>)
    requires forall n :: n in queue <==> n in start
    ensures Expanding(edge, start, start, queue)
  {
  }

  /** Handling the head of the queue: whatever it selects joins both the selection and the queue. */
  ghost predicate Handles(edge: Edges, current: string, selected: set<string>, chosen: set<string>) {
    && selected <= chosen
    && (forall n | edge(current, n) :: n in chosen)
    && (forall n | n in chosen :: n in selected || edge(current, n))
  }

  lemma HandlingExpands(edge: Edges, start: set<string>, selected: set<string>, queue: seq<string>,
                        chosen: set<string>, rest: seq<string>)
    requires queue != [] && Expanding(edge, start, selected, queue) && Handles(edge, queue[0], selected, chosen)
    requires forall n :: n in rest <==> n in queue[1..] || n in chosen - selected
    ensures Expanding(edge, start, chosen, rest)
  {
    forall n | n in queue && n != queue[0] ensures n in queue[1..] {
      assert queue == [queue[0]] + queue[1..];
    }
    forall other: set<string> | start <= other && Closed(edge, other) ensures chosen <= other {
      assert selected <= other && queue[0] in other;
    }
  }

  lemma ExpandedIsLeast(edge: Edges, start: set<string>, selected: set<string>)
    requires Expanding(edge, start, selected, [])
    ensures LeastClosed(edge, start, selected)
  {
  }

  // ---------------------------------------------------------------- insertion-ordered maps

  /** A JavaScript `Map`: the keys in insertion order. */
  datatype Ordered<V> = Ordered(keys: seq<string>, entries: map<string, V>) {
    ghost predicate Valid() { Distinct(keys) && (forall k :: k in keys <==> k in entries) }

    function Set(key: string, value: V): Ordered<V> {
      Ordered(if key in entries then keys else keys + [key], entries[key := value])
    }

    function Values(): (r: seq<V>)
      requires Valid()
      ensures |r| == |keys| && forall i | 0 <= i < |r| :: keys[i] in entries && r[i] == entries[keys[i]]
    {
      seq(|keys|, i requires 0 <= i < |keys| => assert keys[i] in keys; entries[keys[i]])
    }
  }

  function From<V>(key: V -> string, values: seq<V>): (r: Ordered<V>)
    ensures r.Valid()
    ensures forall v | v in values :: key(v) in r.entries
    ensures forall k | k in r.entries :: r.entries[k] in values && key(r.entries[k]) == k
  {
    if values == [] then Ordered([], map[])
    else
      var last := values[|values| - 1];
      assert values == values[..|values| - 1] + [last];
      From(key, values[..|values| - 1]).Set(key(last), last)
  }

  ghost function Keys<V>(key: V -> string, values: seq<V>): set<string> { set v | v in values :: key(v) }

  ghost function Pool<V>(values: seq<V>): set<V> { set v | v in values }

  /** Every entry sits under its own key and comes from the pool. */
  ghost predicate Selection<V>(key: V -> string, pool: set<V>, selected: Ordered<V>) {
    && selected.Valid()
    && forall k | k in selected.entries :: key(selected.entries[k]) == k && selected.entries[k] in pool
  }

  /** While the head of the queue is handled: what joins is what it selects, and it joins the queue too. */
  ghost predicate Growing<V>(key: V -> string, pool: set<V>, edge: Edges, current: string,
                             before: Ordered<V>, queue: seq<string>, selected: Ordered<V>, rest: seq<string>)
  {
    && Selection(key, pool, selected)
    && before.entries.Keys <= selected.entries.Keys
    && (forall n | n in selected.entries :: n in before.entries || edge(current, n))
    && (forall n :: n in rest <==> n in queue || n in selected.entries.Keys - before.entries.Keys)
    && |rest| - |queue| == |selected.entries| - |before.entries|
  }

  lemma NothingGrown<V>(key: V -> string, pool: set<V>, edge: Edges, current: string, before: Ordered<V>,
                        queue: seq<string>)
    requires Selection(key, pool, before)
    ensures Growing(key, pool, edge, current, before, queue, before, queue)
  {
  }

  lemma SelectingOne<V>(key: V -> string, pool: set<V>, edge: Edges, current: string,
                        before: Ordered<V>, queue: seq<string>, selected: Ordered<V>, rest: seq<string>, v: V)
    requires Growing(key, pool, edge, current, before, queue, selected, rest)
    requires v in pool && key(v) !in selected.entries && edge(current, key(v))
    ensures Growing(key, pool, edge, current, before, queue, selected.Set(key(v), v), rest + [key(v)])
    ensures selected.Set(key(v), v).entries.Keys == selected.entries.Keys + {key(v)}
  {
    hide Selection;
    var k, chosen := key(v), selected.Set(key(v), v);
    SettingOne(key, pool, selected, v);
    forall n ensures n in rest + [k] <==> n in queue || n in chosen.entries.Keys - before.entries.Keys {
      assert n in rest + [k] <==> n in rest || n == k;
    }
  }

  /** A value under a key that was not there. */
  lemma SettingOne<V>(key: V -> string, pool: set<V>, selected: Ordered<V>, v: V)
    requires Selection(key, pool, selected) && v in pool && key(v) !in selected.entries
    ensures var chosen := selected.Set(key(v), v);
      && Selection(key, pool, chosen) && chosen.entries.Keys == selected.entries.Keys + {key(v)}
      && |chosen.entries| == |selected.entries| + 1
  {
    var k, chosen := key(v), selected.Set(key(v), v);
    assert k !in selected.keys && chosen.keys == selected.keys + [k];
    assert Distinct(chosen.keys) by {
      assert forall i | 0 <= i < |selected.keys| :: selected.keys[i] in selected.keys;
    }
    assert chosen.entries.Keys == selected.entries.Keys + {k};
  }

  lemma GrownExpands<V>(key: V -> string, pool: set<V>, edge: Edges, start: set<string>,
                        before: Ordered<V>, queue: seq<string>, selected: Ordered<V>, rest: seq<string>)
    requires queue != [] && Expanding(edge, start, before.entries.Keys, queue) && Selection(key, pool, before)
    requires Growing(key, pool, edge, queue[0], before, queue[1..], selected, rest)
    requires forall n | edge(queue[0], n) :: n in selected.entries
    ensures Expanding(edge, start, selected.entries.Keys, rest) && Selection(key, pool, selected)
    ensures |selected.entries| <= Bound(key, pool) && |before.entries| <= Bound(key, pool)
    ensures |rest| - |queue| + 1 == |selected.entries| - |before.entries|
  {
    hide Bound, Expanding;
    SelectionIsBounded(key, pool, before);
    SelectionIsBounded(key, pool, selected);
    HandlingExpands(edge, start, before.entries.Keys, queue, selected.entries.Keys, rest);
  }

  lemma StartIsSelected<V>(key: V -> string, pool: set<V>, edge: Edges, start: seq<V>, queue: seq<string>)
    requires forall v | v in start :: v in pool
    requires queue == From(key, start).keys ||
      (|queue| == |start| && forall i | 0 <= i < |start| :: queue[i] == key(start[i]))
    ensures Selection(key, pool, From(key, start)) &&
      Expanding(edge, Keys(key, start), From(key, start).entries.Keys, queue)
  {
    FromKeys(key, start);
    if queue != From(key, start).keys { QueueOfAll(key, start, queue); }
    hide From, Keys;
    StartIsExpanding(edge, Keys(key, start), queue);
  }

  lemma FromKeys<V>(key: V -> string, start: seq<V>)
    ensures From(key, start).entries.Keys == Keys(key, start)
    ensures forall n :: n in From(key, start).keys <==> n in Keys(key, start)
  {
    var selected := From(key, start);
    hide From;
    assert selected.entries.Keys == Keys(key, start);
  }

  lemma QueueOfAll<V>(key: V -> string, start: seq<V>, queue: seq<string>)
    requires |queue| == |start| && forall i | 0 <= i < |start| :: queue[i] == key(start[i])
    ensures forall n :: n in queue <==> n in Keys(key, start)
  {
    forall n | n in Keys(key, start) ensures n in queue {
      var i :| 0 <= i < |start| && key(start[i]) == n;
      assert queue[i] in queue;
    }
    forall n | n in queue ensures n in Keys(key, start) {
      var i :| 0 <= i < |queue| && queue[i] == n;
      assert start[i] in start;
    }
  }

  ghost function Bound<V>(key: V -> string, pool: set<V>): nat { |set v | v in pool :: key(v)| }

  lemma SelectionIsBounded<V>(key: V -> string, pool: set<V>, selected: Ordered<V>)
    requires Selection(key, pool, selected)
    ensures |selected.entries| <= Bound(key, pool)
  {
    SubsetSize(selected.entries.Keys, set v | v in pool :: key(v));
  }

  lemma SelectedValues<V>(key: V -> string, pool: set<V>, selected: Ordered<V>)
    requires Selection(key, pool, selected)
    ensures selected.Valid()
    ensures var values := selected.Values();
      Keys(key, values) == selected.entries.Keys && DistinctBy(key, values) && forall v | v in values :: v in pool
  {
    var values := selected.Values();
    forall i | 0 <= i < |values| ensures key(values[i]) == selected.keys[i] && values[i] in pool {
      assert selected.keys[i] in selected.keys;
    }
    forall k | k in selected.entries ensures k in Keys(key, values) {
      var i :| 0 <= i < |selected.keys| && selected.keys[i] == k;
      assert values[i] in values;
    }
  }

  lemma Reordered<V>(key: V -> string, s: seq<V>, r: seq<V>)
    requires multiset(r) == multiset(s)
    ensures Keys(key, r) == Keys(key, s) && forall v :: v in r <==> v in s
    ensures DistinctBy(key, s) ==> DistinctBy(key, r)
  {
    assert forall v :: v in r <==> v in multiset(r);
    assert forall v :: v in s <==> v in multiset(s);
    if DistinctBy(key, s) { PermutationKeepsDistinct(key, s, r); }
  }

  /** With distinct keys, what is chosen from a list is exactly its members with the chosen keys. */
  lemma ChoiceIsExact<V>(key: V -> string, all: seq<V>, r: seq<V>)
    requires DistinctBy(key, all) && forall v | v in r :: v in all
    ensures forall v :: v in r <==> v in all && key(v) in Keys(key, r)
  {
    forall v | v in all && key(v) in Keys(key, r) ensures v in r {
      var w :| w in r && key(w) == key(v);
      var i :| 0 <= i < |all| && all[i] == v;
      var j :| 0 <= j < |all| && all[j] == w;
      assert key(all[i]) == key(all[j]);
    }
  }

  // ---------------------------------------------------------------- workspace packages

  /** A manifest lists, in each of its four dependency scopes, the versions it asks for. */
  datatype Package = Package(name: string, dir: string, scopes: seq<map<string, string>>)

  function NameOf(): Package -> string { (p: Package) => p.name }

  predicate DependsOnWorkspace(p: Package, name: string, workspace: set<string>) {
    exists scope | scope in p.scopes ::
      name in scope && scope[name] != [] && ("workspace:" <= scope[name] || name in workspace)
  }

  function Names(packages: seq<Package>): set<string> { set p | p in packages :: p.name }

  /** Some package of the second name depends on the first. Nothing follows from the empty name. */
  function DependentEdges(packages: seq<Package>): Edges {
    (m: string, n: string) =>
      m != [] && exists p | p in packages :: p.name == n && DependsOnWorkspace(p, m, Names(packages))
  }

  function ByDir(leq: (string, string) -> bool): (Package, Package) -> bool {
    (p: Package, q: Package) => leq(p.dir, q.dir)
  }

  /** One queued name: its direct dependents join, in the order the packages are listed. */
  method SelectDependents(current: string, packages: seq<Package>, workspace: set<string>,
                          before: Ordered<Package>, queue: seq<string>, ghost pool: set<Package>)
    returns (selected: Ordered<Package>, rest: seq<string>)
    requires workspace == Names(packages)
    requires Selection(NameOf(), pool, before) && forall p | p in packages :: p in pool
    ensures Growing(NameOf(), pool, DependentEdges(packages), current, before, queue, selected, rest)
    ensures forall n | DependentEdges(packages)(current, n) :: n in selected.entries
  {
    hide DependsOnWorkspace, Growing;
    selected, rest := before, queue;
    NothingGrown(NameOf(), pool, DependentEdges(packages), current, before, queue);
    if current == [] { return; }
    for i := 0 to |packages|
      invariant Growing(NameOf(), pool, DependentEdges(packages), current, before, queue, selected, rest)
      invariant forall p | p in packages[..i] && DependsOnWorkspace(p, current, workspace) :: p.name in selected.entries
    {
      var candidate := packages[i];
      assert packages[..i + 1] == packages[..i] + [candidate];
      if candidate.name in selected.entries { continue; }
      if DependsOnWorkspace(candidate, current, workspace) {
        SelectingOne(NameOf(), pool, DependentEdges(packages), current, before, queue, selected, rest, candidate);
        selected := selected.Set(candidate.name, candidate);
        rest := rest + [candidate.name];
      }
    }
    assert packages[..|packages|] == packages;
  }

  /** The worklist as a whole. */
  method ExpandNames(touched: seq<Package>, packages: seq<Package>) returns (selected: Ordered<Package>)
    ensures Selection(NameOf(), Pool(touched + packages), selected)
    ensures LeastClosed(DependentEdges(packages), Keys(NameOf(), touched), selected.entries.Keys)
  {
    hide DependsOnWorkspace, DependentEdges, Selection, Growing, Expanding, LeastClosed, Bound, Keys, From;
    var workspace := Names(packages);
    ghost var edges, start, pool := DependentEdges(packages), Keys(NameOf(), touched), Pool(touched + packages);
    selected := From(NameOf(), touched);
    var queue := seq(|touched|, i requires 0 <= i < |touched| => touched[i].name);
    StartIsSelected(NameOf(), pool, edges, touched, queue);
    while queue != []
      invariant Selection(NameOf(), pool, selected)
      invariant Expanding(edges, start, selected.entries.Keys, queue)
      decreases |queue| + Bound(NameOf(), pool) - |selected.entries|
    {
      var chosen, rest := SelectDependents(queue[0], packages, workspace, selected, queue[1..], pool);
      GrownExpands(NameOf(), pool, edges, start, selected, queue, chosen, rest);
      selected, queue := chosen, rest;
    }
    ExpandedIsLeast(edges, start, selected.entries.Keys);
  }

  /**
   * `expandWithDependents`. The selected names are the least set that holds the touched ones and is closed under
   * "depends on a selected package", for every graph, cyclic or with repeated names.
   */
  method ExpandWithDependents(touched: seq<Package>, packages: seq<Package>, leq: (string, string) -> bool)
    returns (r: seq<Package>)
    requires TotalPreorder(leq)
    ensures LeastClosed(DependentEdges(packages), Keys(NameOf(), touched), Keys(NameOf(), r))
    ensures SortedBy(ByDir(leq), r) && DistinctBy(NameOf(), r)
    ensures forall p | p in r :: p in touched || p in packages
    ensures DistinctBy(NameOf(), packages) && (forall p | p in touched :: p in packages) ==>
      forall p :: p in r <==> p in packages && p.name in Keys(NameOf(), r)
  {
    hide DependentEdges, LeastClosed, SortedBy, DistinctBy, Sort;
    var selected := ExpandNames(touched, packages);
    SelectedValues(NameOf(), Pool(touched + packages), selected);
    r := Sort(ByDir(leq), selected.Values());
    Reordered(NameOf(), selected.Values(), r);
    SortIsStable(ByDir(leq), selected.Values());
    if DistinctBy(NameOf(), packages) && (forall p | p in touched :: p in packages) {
      ChoiceIsExact(NameOf(), packages, r);
    }
  }

  // ---------------------------------------------------------------- Cargo crates

  /** A crate of the inventory. */
  datatype Unit = Unit(id: string, name: string, manifestPath: string)

  /** A `cargo metadata` package: its id, and the resolved manifest of each of its path dependencies. */
  datatype Entry = Entry(id: string, dependencies: seq<string>)

  function IdOf(): Unit -> string { (u: Unit) => u.id }

  /** The entry depends on the crate with this inventory id. */
  predicate Refers(byManifest: map<string, Unit>, e: Entry, m: string) {
    exists d | d in e.dependencies :: d in byManifest && byManifest[d].id == m
  }

  /** A crate of the second id has an entry that depends on the crate of the first. */
  ghost function CargoEdges(entries: seq<Entry>, byManifest: map<string, Unit>, byPackageId: map<string, Unit>): Edges {
    (m: string, n: string) => m != [] && exists e :: e in entries && Refers(byManifest, e, m)
                                                     && e.id in byPackageId && byPackageId[e.id].id == n
  }

  type Reverse = map<string, seq<string>>

  function Dependents(reverse: Reverse, m: string): seq<string> { if m in reverse then reverse[m] else [] }

  /** The map leads from a crate to the entries that depend on it. */
  ghost predicate Reverses(entries: seq<Entry>, byManifest: map<string, Unit>, reverse: Reverse) {
    forall m, id :: id in Dependents(reverse, m) <==> exists e :: e in entries && e.id == id && Refers(byManifest, e, m)
  }

  method ReverseEntry(before: Reverse, byManifest: map<string, Unit>, e: Entry) returns (reverse: Reverse)
    ensures forall m, id ::
      id in Dependents(reverse, m) <==> id in Dependents(before, m) || (id == e.id && Refers(byManifest, e, m))
  {
    reverse := before;
    for i := 0 to |e.dependencies|
      invariant forall m, id :: id in Dependents(reverse, m) <==>
        id in Dependents(before, m) || (id == e.id && Refers(byManifest, e.(dependencies := e.dependencies[..i]), m))
    {
      var d := e.dependencies[i];
      assert e.dependencies[..i + 1] == e.dependencies[..i] + [d];
      if d in byManifest {
        var m := byManifest[d].id;
        reverse := reverse[m := Dependents(reverse, m) + [e.id]];
      }
    }
    assert e.dependencies[..|e.dependencies|] == e.dependencies;
  }

  method ReverseEntries(entries: seq<Entry>, byManifest: map<string, Unit>) returns (reverse: Reverse)
    ensures Reverses(entries, byManifest, reverse)
  {
    hide Refers;
    reverse := map[];
    assert forall m :: Dependents(reverse, m) == [];
    for i := 0 to |entries|
      invariant Reverses(entries[..i], byManifest, reverse)
    {
      assert entries[..i + 1] == entries[..i] + [entries[i]];
      reverse := ReverseEntry(reverse, byManifest, entries[i]);
    }
    assert entries[..|entries|] == entries;
  }

  /** One queued id: the crates of the entries that depend on it join. */
  method SelectCargoDependents(current: string, dependents: seq<string>, byPackageId: map<string, Unit>,
                               before: Ordered<Unit>, queue: seq<string>, ghost edges: Edges, ghost pool: set<Unit>)
    returns (selected: Ordered<Unit>, rest: seq<string>)
    requires forall n ::
      edges(current, n) <==> exists id :: id in dependents && id in byPackageId && byPackageId[id].id == n
    requires Selection(IdOf(), pool, before) && byPackageId.Values <= pool
    ensures Growing(IdOf(), pool, edges, current, before, queue, selected, rest)
    ensures forall n | edges(current, n) :: n in selected.entries
  {
    hide Growing;
    selected, rest := before, queue;
    NothingGrown(IdOf(), pool, edges, current, before, queue);
    for i := 0 to |dependents|
      invariant Growing(IdOf(), pool, edges, current, before, queue, selected, rest)
      invariant forall id | id in dependents[..i] && id in byPackageId :: byPackageId[id].id in selected.entries
    {
      assert dependents[..i + 1] == dependents[..i] + [dependents[i]];
      if dependents[i] in byPackageId {
        var unit := byPackageId[dependents[i]];
        if unit.id !in selected.entries {
          assert unit in byPackageId.Values;
          SelectingOne(IdOf(), pool, edges, current, before, queue, selected, rest, unit);
          selected := selected.Set(unit.id, unit);
          rest := rest + [unit.id];
        }
      }
    }
    assert dependents[..|dependents|] == dependents;
  }

  lemma ReversedEdges(entries: seq<Entry>, byManifest: map<string, Unit>, byPackageId: map<string, Unit>,
                      reverse: Reverse, m: string)
    requires Reverses(entries, byManifest, reverse)
    ensures var dependents := if m == [] then [] else Dependents(reverse, m);
      forall n :: CargoEdges(entries, byManifest, byPackageId)(m, n) <==>
        exists id :: id in dependents && id in byPackageId && byPackageId[id].id == n
  {
    hide Refers;
  }

  /** The closure loop of `expandCargoDependents`. */
  method ExpandIds(initial: seq<Unit>, entries: seq<Entry>, byManifest: map<string, Unit>,
                   byPackageId: map<string, Unit>, reverse: Reverse, ghost pool: set<Unit>)
    returns (selected: Ordered<Unit>)
    requires Reverses(entries, byManifest, reverse) && pool == Pool(initial) + byPackageId.Values
    ensures Selection(IdOf(), pool, selected)
    ensures LeastClosed(CargoEdges(entries, byManifest, byPackageId), Keys(IdOf(), initial), selected.entries.Keys)
  {
    hide Refers, Selection, Growing, Expanding, LeastClosed, CargoEdges, Dependents, Bound, Keys, From, Reverses;
    ghost var edges, start := CargoEdges(entries, byManifest, byPackageId), Keys(IdOf(), initial);
    selected := From(IdOf(), initial);
    var queue := selected.keys;
    StartIsSelected(IdOf(), pool, edges, initial, queue);
    while queue != []
      invariant Selection(IdOf(), pool, selected)
      invariant Expanding(edges, start, selected.entries.Keys, queue)
      decreases |queue| + Bound(IdOf(), pool) - |selected.entries|
    {
      var current := queue[0];
      var dependents := if current == [] then [] else Dependents(reverse, current);
      ReversedEdges(entries, byManifest, byPackageId, reverse, current);
      var chosen, rest := SelectCargoDependents(current, dependents, byPackageId, selected, queue[1..], edges, pool);
      GrownExpands(IdOf(), pool, edges, start, selected, queue, chosen, rest);
      selected, queue := chosen, rest;
    }
    ExpandedIsLeast(edges, start, selected.entries.Keys);
  }

  /** `expandCargoDependents` once the metadata is mapped: the same least closed set, through a reversed map. */
  method ExpandCargoDependents(initial: seq<Unit>, entries: seq<Entry>, byManifest: map<string, Unit>,
                               byPackageId: map<string, Unit>)
    returns (r: seq<Unit>)
    ensures LeastClosed(CargoEdges(entries, byManifest, byPackageId), Keys(IdOf(), initial), Keys(IdOf(), r))
    ensures DistinctBy(IdOf(), r) && forall u | u in r :: u in initial || u in byPackageId.Values
  {
    hide Selection, LeastClosed, DistinctBy, CargoEdges, Keys, Reverses, IdOf;
    var reverse := ReverseEntries(entries, byManifest);
    ghost var pool := Pool(initial) + byPackageId.Values;
    var selected := ExpandIds(initial, entries, byManifest, byPackageId, reverse, pool);
    SelectedValues(IdOf(), pool, selected);
    r := selected.Values();
  }
}
