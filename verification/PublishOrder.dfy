/**
 * `planExpectedEvidencePublication`: Kahn's algorithm over the internal dependencies of the packages,
 * always taking the ready package that was declared first. A package is named by its declaration index.
 */
module PublishOrder {
  import opened Common
  import Sorting

  /** `g[i]` lists the packages that package `i` depends on. */
  type Graph = seq<seq<nat>>

  function Elements(s: seq<nat>): set<nat> { set x | x in s }

  ghost predicate WellFormed(g: Graph) {
    forall i | 0 <= i < |g| :: Distinct(g[i]) && forall k | 0 <= k < |g[i]| :: g[i][k] < |g|
  }

  // ---------------------------------------------------------------- what an order must satisfy

  /** Every package once, each after everything it depends on. */
  ghost predicate Topological(g: Graph, order: seq<nat>) {
    && Distinct(order)
    && (forall n: nat :: n in order <==> n < |g|)
    && forall k | 0 <= k < |order| :: order[k] < |g| && Elements(g[order[k]]) <= Elements(order[..k])
  }

  /** At the first place where the two orders differ, `a` names the package declared earlier. */
  ghost predicate Precedes(a: seq<nat>, b: seq<nat>) {
    exists k | 0 <= k < |a| && k < |b| :: a[..k] == b[..k] && a[k] < b[k]
  }

  /** A closed walk along dependencies. */
  ghost predicate Cycle(g: Graph, c: seq<nat>) {
    && c != []
    && (forall i | 0 <= i < |c| :: c[i] < |g|)
    && (forall i | 0 < i < |c| :: c[i] in g[c[i - 1]])
    && c[0] in g[c[|c| - 1]]
  }

  ghost predicate HasCycle(g: Graph) { exists c :: Cycle(g, c) }

  // ---------------------------------------------------------------- counting dependencies

  predicate Eligible(g: Graph, done: set<nat>, n: nat) {
    n < |g| && n !in done && Elements(g[n]) <= done
  }

  /** Each step took the first-declared eligible package. */
  ghost predicate Greedy(g: Graph, ordered: seq<nat>) {
    forall k | 0 <= k < |ordered| ::
      && Eligible(g, Elements(ordered[..k]), ordered[k])
      && forall n | Eligible(g, Elements(ordered[..k]), n) :: ordered[k] <= n
  }

  /** How many dependencies of `n` are still to be ordered. */
  ghost function Remaining(g: Graph, n: nat, done: set<nat>): nat
    requires n < |g|
  {
    |Elements(g[n]) - done|
  }

  lemma RemainingAfter(g: Graph, n: nat, done: set<nat>, next: nat)
    requires n < |g| && next !in done
    ensures Remaining(g, n, done + {next}) == Remaining(g, n, done) - if next in g[n] then 1 else 0
  {
    var d := Elements(g[n]);
    assert d - (done + {next}) == if next in d then (d - done) - {next} else d - done;
  }

  lemma RemainingZero(g: Graph, n: nat, done: set<nat>)
    requires n < |g|
    ensures Remaining(g, n, done) == 0 <==> Elements(g[n]) <= done
  {
    var d := Elements(g[n]);
    if d - done == {} {
      forall x | x in d ensures x in done { assert x !in d - done; }
    }
  }

  lemma {:induction false} DistinctCardinality(s: seq<nat>)
    requires Distinct(s)
    ensures |Elements(s)| == |s|
  {
    if s != [] {
      var last := |s| - 1;
      DistinctCardinality(s[..last]);
      assert Elements(s) == Elements(s[..last]) + {s[last]};
    }
  }

  ghost predicate Counts(g: Graph, indegree: seq<int>, done: set<nat>) {
    |indegree| == |g| && forall n | 0 <= n < |g| :: indegree[n] == Remaining(g, n, done)
  }

  /** `list` holds exactly the packages below `i` that depend on `d`, each once. */
  ghost predicate DependentsBelow(g: Graph, i: nat, d: nat, list: seq<nat>) {
    Distinct(list) && forall n: nat :: n in list <==> n < i && n < |g| && d in g[n]
  }

  ghost predicate AllDependentsBelow(g: Graph, i: nat, dependents: seq<seq<nat>>) {
    |dependents| == |g| && forall d | 0 <= d < |g| :: DependentsBelow(g, i, d, dependents[d])
  }

  /** One record: its in-degree, and its name pushed onto the list of each dependency. */
  method CountRecord(g: Graph, i: nat, dependents: seq<seq<nat>>) returns (degree: int, listed: seq<seq<nat>>)
    requires WellFormed(g) && i < |g| && AllDependentsBelow(g, i, dependents)
    ensures degree == |g[i]|
    ensures AllDependentsBelow(g, i + 1, listed)
  {
    degree, listed := 0, dependents;
    for k := 0 to |g[i]|
      invariant degree == k && |listed| == |g|
      invariant forall d | 0 <= d < |g| :: listed[d] == dependents[d] + if d in g[i][..k] then [i] else []
    {
      degree := degree + 1;
      var d := g[i][k];
      listed := listed[d := listed[d] + [i]];
    }
    assert g[i][..|g[i]|] == g[i];
    forall d | 0 <= d < |g| ensures DependentsBelow(g, i + 1, d, listed[d]) {
      assert DependentsBelow(g, i, d, dependents[d]);
    }
  }

  /** The in-degrees and dependents of the whole graph. */
  method CountRecords(g: Graph) returns (indegree: seq<int>, dependents: seq<seq<nat>>)
    requires WellFormed(g)
    ensures Counts(g, indegree, {})
    ensures AllDependentsBelow(g, |g|, dependents)
  {
    indegree, dependents := [], seq(|g|, _ => []);
    for i := 0 to |g|
      invariant |indegree| == i && forall n | 0 <= n < i :: indegree[n] == |g[n]|
      invariant AllDependentsBelow(g, i, dependents)
    {
      var degree;
      degree, dependents := CountRecord(g, i, dependents);
      indegree := indegree + [degree];
    }
    forall n | 0 <= n < |g| ensures indegree[n] == Remaining(g, n, {}) {
      DistinctCardinality(g[n]);
      assert Elements(g[n]) - {} == Elements(g[n]);
    }
  }

  // ---------------------------------------------------------------- the main loop

  ghost predicate ReadyList(g: Graph, ready: seq<nat>, done: set<nat>) {
    Distinct(ready) && forall n: nat :: n in ready <==> Eligible(g, done, n)
  }

  /** Those in `released` have been decremented for `next`. */
  ghost predicate CountsWhile(g: Graph, released: seq<nat>, indegree: seq<int>, done: set<nat>, next: nat) {
    && |indegree| == |g|
    && forall n | 0 <= n < |g| :: indegree[n] == Remaining(g, n, if n in released then done + {next} else done)
  }

  ghost predicate ReadyWhile(indegree: seq<int>, ready: seq<nat>, done: set<nat>) {
    Distinct(ready) && forall n: nat :: n in ready <==> n < |indegree| && n !in done && indegree[n] == 0
  }

  /** The state between two dependents of `next`. */
  ghost predicate Released(g: Graph, released: seq<nat>, indegree: seq<int>, ready: seq<nat>, done: set<nat>, next: nat)
  {
    CountsWhile(g, released, indegree, done, next) && ReadyWhile(indegree, ready, done + {next})
  }

  lemma ReleaseStarts(g: Graph, indegree: seq<int>, ready: seq<nat>, done: set<nat>)
    requires Counts(g, indegree, done) && ReadyList(g, ready, done) && ready != []
    ensures |indegree| == |g| && Eligible(g, done, ready[0])
    ensures Released(g, [], indegree, ready[1..], done, ready[0])
  {
    assert ready[0] in ready;
    forall n | 0 <= n < |g| ensures indegree[n] == 0 <==> Elements(g[n]) <= done {
      RemainingZero(g, n, done);
    }
    forall n: nat ensures n in ready[1..] <==> n in ready && n != ready[0] {
      assert ready == [ready[0]] + ready[1..];
    }
  }

  lemma ReleaseStep(g: Graph, released: seq<nat>, indegree: seq<int>, ready: seq<nat>, done: set<nat>, next: nat,
                    n: nat)
    requires Released(g, released, indegree, ready, done, next) && n !in released
    requires next !in done && n < |g| && next in g[n] && n !in done && n != next
    ensures var remaining := indegree[n] - 1;
            Released(g, released + [n], indegree[n := remaining], if remaining == 0 then ready + [n] else ready,
                     done, next)
  {
    RemainingAfter(g, n, done, next);
    assert next in Elements(g[n]) - done;
    CountsStep(g, released, indegree, done, next, n);
    ReadyStep(indegree, ready, done + {next}, n);
  }

  lemma CountsStep(g: Graph, released: seq<nat>, indegree: seq<int>, done: set<nat>, next: nat, n: nat)
    requires CountsWhile(g, released, indegree, done, next) && n !in released && n < |g|
    requires Remaining(g, n, done + {next}) == Remaining(g, n, done) - 1
    ensures CountsWhile(g, released + [n], indegree[n := indegree[n] - 1], done, next)
  {
    hide Remaining;
    assert forall m: nat :: m in released + [n] <==> m in released || m == n;
  }

  lemma ReadyStep(indegree: seq<int>, ready: seq<nat>, done: set<nat>, n: nat)
    requires ReadyWhile(indegree, ready, done) && n < |indegree| && n !in done && indegree[n] != 0
    ensures var remaining := indegree[n] - 1;
            ReadyWhile(indegree[n := remaining], if remaining == 0 then ready + [n] else ready, done)
  {
    assert n !in ready;
  }

  lemma ReleaseEnds(g: Graph, todo: seq<nat>, indegree: seq<int>, ready: seq<nat>, done: set<nat>, next: nat)
    requires Released(g, todo, indegree, ready, done, next) && next !in done
    requires DependentsBelow(g, |g|, next, todo)
    ensures Counts(g, indegree, done + {next}) && ReadyList(g, ready, done + {next})
  {
    forall n | 0 <= n < |g|
      ensures indegree[n] == Remaining(g, n, done + {next})
      ensures indegree[n] == 0 <==> Elements(g[n]) <= done + {next}
    {
      RemainingAfter(g, n, done, next);
      RemainingZero(g, n, done + {next});
    }
  }

  /** A package that waits for `next` is neither ordered nor `next` itself. */
  lemma WaitingIsNotDone(g: Graph, ordered: seq<nat>, next: nat, n: nat)
    requires Greedy(g, ordered) && Eligible(g, Elements(ordered), next)
    requires n < |g| && next in g[n]
    ensures n !in Elements(ordered) && n != next
  {
    forall k | 0 <= k < |ordered| ensures ordered[k] != n {
      assert next !in Elements(ordered[..k]) && Elements(g[ordered[k]]) <= Elements(ordered[..k]);
    }
    assert next in Elements(g[n]);
  }

  lemma EligibleIsNew(g: Graph, done: set<nat>, n: nat)
    requires Eligible(g, done, n)
    ensures n !in done
  {
  }

  lemma ListedDepends(g: Graph, d: nat, list: seq<nat>, j: nat)
    requires DependentsBelow(g, |g|, d, list) && j < |list|
    ensures list[j] < |g| && d in g[list[j]] && list[j] !in list[..j]
  {
    assert list[j] in list;
  }

  /** `next` leaves the ready list; its dependents lose one in-degree, those at zero become ready. */
  method Release(g: Graph, todo: seq<nat>, indegree0: seq<int>, ready0: seq<nat>, ghost ordered: seq<nat>)
    returns (indegree: seq<int>, ready: seq<nat>)
    requires Greedy(g, ordered) && ready0 != [] && DependentsBelow(g, |g|, ready0[0], todo)
    requires Counts(g, indegree0, Elements(ordered)) && ReadyList(g, ready0, Elements(ordered))
    ensures Counts(g, indegree, Elements(ordered) + {ready0[0]})
    ensures ReadyList(g, ready, Elements(ordered) + {ready0[0]})
  {
    hide Counts, ReadyList, Greedy, Released, Eligible, Elements, DependentsBelow;
    ghost var done, next := Elements(ordered), ready0[0];
    ReleaseStarts(g, indegree0, ready0, done);
    EligibleIsNew(g, done, next);
    indegree, ready := indegree0, ready0[1..];
    for j := 0 to |todo|
      invariant |indegree| == |g| && Released(g, todo[..j], indegree, ready, done, next)
    {
      var n := todo[j];
      ListedDepends(g, next, todo, j);
      WaitingIsNotDone(g, ordered, next, n);
      ReleaseStep(g, todo[..j], indegree, ready, done, next, n);
      assert todo[..j + 1] == todo[..j] + [n];
      var remaining := indegree[n] - 1;
      indegree := indegree[n := remaining];
      if remaining == 0 { ready := ready + [n]; }
    }
    assert todo[..|todo|] == todo;
    ReleaseEnds(g, todo, indegree, ready, done, next);
  }

  predicate DeclaredFirst(x: nat, y: nat) { x <= y }

  /** Sorting the ready list by declaration index puts the first-declared package in front. */
  lemma SortedReady(g: Graph, ready: seq<nat>, done: set<nat>)
    requires ReadyList(g, ready, done) && ready != []
    ensures var sorted := Sorting.Sort(DeclaredFirst, ready);
            ReadyList(g, sorted, done) && forall n | Eligible(g, done, n) :: sorted[0] <= n
  {
    hide Eligible;
    var sorted := Sorting.Sort(DeclaredFirst, ready);
    Sorting.SortIsStable(DeclaredFirst, ready);
    Sorting.PermutationKeepsDistinct((x: nat) => x, ready, sorted);
    assert forall i, j | 0 <= i < j < |sorted| :: sorted[i] != sorted[j];
    forall n: nat ensures n in sorted <==> n in ready { assert n in multiset(sorted) <==> n in multiset(ready); }
    forall n | Eligible(g, done, n) ensures sorted[0] <= n {
      var i :| 0 <= i < |sorted| && sorted[i] == n;
      assert i > 0 ==> DeclaredFirst(sorted[0], sorted[i]);
    }
  }

  /** `declaredRecords.filter(record => indegree.get(record.name) === 0)`. */
  method Initial(g: Graph, indegree: seq<int>) returns (ready: seq<nat>)
    requires Counts(g, indegree, {})
    ensures ReadyList(g, ready, {})
  {
    ready := [];
    for i := 0 to |g|
      invariant Distinct(ready) && forall n: nat :: n in ready <==> n < i && indegree[n] == 0
    {
      if indegree[i] == 0 { ready := ready + [i]; }
    }
    forall n: nat ensures n in ready <==> Eligible(g, {}, n) {
      if n < |g| { RemainingZero(g, n, {}); }
    }
  }

  lemma GreedyGrows(g: Graph, ordered: seq<nat>, next: nat)
    requires Greedy(g, ordered) && Eligible(g, Elements(ordered), next)
    requires forall n | Eligible(g, Elements(ordered), n) :: next <= n
    ensures Greedy(g, ordered + [next])
    ensures Elements(ordered + [next]) == Elements(ordered) + {next}
  {
    hide Eligible;
    var longer := ordered + [next];
    forall k | 0 <= k < |longer|
      ensures Eligible(g, Elements(longer[..k]), longer[k])
      ensures forall n | Eligible(g, Elements(longer[..k]), n) :: longer[k] <= n
    {
      assert longer[..k] == ordered[..k];
      assert k == |ordered| ==> ordered[..k] == ordered;
    }
  }

  ghost function Nodes(n: nat): (r: set<nat>)
    ensures forall x: nat :: x in r <==> x < n
  {
    if n == 0 then {} else Nodes(n - 1) + {n - 1}
  }

  /** Kahn's loop: what it orders is greedy, and it stops only when nothing more is eligible. */
  method Order(g: Graph) returns (ordered: seq<nat>)
    requires WellFormed(g)
    ensures Greedy(g, ordered)
    ensures forall n :: !Eligible(g, Elements(ordered), n)
  {
    var indegree, dependents := CountRecords(g);
    var ready := Initial(g, indegree);
    ordered := [];
    assert Elements(ordered) == {};
    hide Counts, Greedy;
    assert Greedy(g, ordered) by { NothingIsGreedy(g); }
    while ready != []
      invariant Greedy(g, ordered) && Elements(ordered) <= Nodes(|g|)
      invariant Counts(g, indegree, Elements(ordered)) && ReadyList(g, ready, Elements(ordered))
      decreases Nodes(|g|) - Elements(ordered)
    {
      SortedReady(g, ready, Elements(ordered));
      ready := Sorting.Sort(DeclaredFirst, ready);
      var next := ready[0];
      assert next in ready;
      indegree, ready := Release(g, dependents[next], indegree, ready, ordered);
      GreedyGrows(g, ordered, next);
      ordered := ordered + [next];
    }
  }

  lemma NothingIsGreedy(g: Graph)
    ensures Greedy(g, [])
  {
  }

  // ---------------------------------------------------------------- what the loop achieves

  lemma GreedyIsDistinct(g: Graph, ordered: seq<nat>)
    requires Greedy(g, ordered)
    ensures Distinct(ordered) && Elements(ordered) <= Nodes(|g|)
  {
    forall i, j | 0 <= i < j < |ordered| ensures ordered[i] != ordered[j] {
      assert ordered[..j][i] in Elements(ordered[..j]);
    }
  }

  lemma {:induction false} NodesCardinality(n: nat)
    ensures |Nodes(n)| == n
  {
    if n > 0 { NodesCardinality(n - 1); }
  }

  /** When nothing is left over, dependencies come first. */
  lemma GreedyIsTopological(g: Graph, ordered: seq<nat>)
    requires Greedy(g, ordered) && |ordered| == |g|
    ensures Topological(g, ordered)
  {
    GreedyIsDistinct(g, ordered);
    DistinctCardinality(ordered);
    NodesCardinality(|g|);
    SubsetOfSameSize(Elements(ordered), Nodes(|g|));
    forall n: nat ensures n in ordered <==> n < |g| { assert n in Elements(ordered) <==> n in Nodes(|g|); }
  }

  lemma TopologicalLength(g: Graph, order: seq<nat>)
    requires Topological(g, order)
    ensures |order| == |g|
  {
    DistinctCardinality(order);
    NodesCardinality(|g|);
    assert Elements(order) == Nodes(|g|);
  }

  /** No other order that respects the dependencies comes first. */
  lemma {:induction false} GreedyIsLeast(g: Graph, ordered: seq<nat>, t: seq<nat>, k: nat)
    requires Greedy(g, ordered) && Topological(g, t) && |t| == |ordered|
    requires k <= |t| && t[..k] == ordered[..k]
    ensures t == ordered || Precedes(ordered, t)
    decreases |t| - k
  {
    if k == |t| {
      assert t == t[..k] && ordered == ordered[..k];
    } else if t[k] == ordered[k] {
      assert t[..k + 1] == t[..k] + [t[k]] && ordered[..k + 1] == ordered[..k] + [ordered[k]];
      GreedyIsLeast(g, ordered, t, k + 1);
    } else {
      assert t[k] !in t[..k];
      assert Eligible(g, Elements(ordered[..k]), t[k]);
      assert ordered[..k] == t[..k] && ordered[k] < t[k];
    }
  }

  /** A walk along dependencies, all inside `s`. */
  ghost predicate Walk(g: Graph, s: set<nat>, w: seq<nat>) {
    && w != []
    && Distinct(w)
    && (forall i | 0 <= i < |w| :: w[i] < |g| && w[i] in s)
    && (forall i | 0 < i < |w| :: w[i] in g[w[i - 1]])
  }

  lemma CycleInWalk(g: Graph, s: set<nat>, w: seq<nat>, i: nat)
    requires Walk(g, s, w) && i < |w| && w[i] in g[w[|w| - 1]]
    ensures HasCycle(g)
  {
    var c := w[i..];
    forall j | 0 < j < |c| ensures c[j] in g[c[j - 1]] {
      assert c[j] == w[i + j] && c[j - 1] == w[i + j - 1];
    }
    assert Cycle(g, c);
  }

  lemma WalkGrows(g: Graph, s: set<nat>, w: seq<nat>, d: nat)
    requires Walk(g, s, w) && d < |g| && d in s && d in g[w[|w| - 1]] && d !in w
    ensures Walk(g, s, w + [d]) && |w| < |s|
  {
    DistinctCardinality(w);
    assert Elements(w) < s;
    StrictlySmaller(Elements(w), s);
  }

  /** Package `n` depends on some package of `s`. */
  ghost predicate Waits(g: Graph, s: set<nat>, n: nat) {
    n < |g| && exists d :: d in g[n] && d in s
  }

  /** In a set where every package waits for another of the set, walking on must close a cycle. */
  lemma {:induction false} WalkCloses(g: Graph, s: set<nat>, w: seq<nat>)
    requires Walk(g, s, w)
    requires forall n | n in s :: Waits(g, s, n)
    ensures HasCycle(g)
    decreases |s| - |w|
  {
    var n := w[|w| - 1];
    assert Waits(g, s, n);
    var d :| d in g[n] && d in s;
    if d in w {
      var i :| 0 <= i < |w| && w[i] == d;
      CycleInWalk(g, s, w, i);
    } else {
      WalkGrows(g, s, w, d);
      WalkCloses(g, s, w + [d]);
    }
  }

  lemma StrictlySmaller(a: set<nat>, b: set<nat>)
    requires a < b
    ensures |a| < |b|
  {
    assert b == a + (b - a);
    var x :| x in b && x !in a;
    assert x in b - a;
  }

  /** If the loop stops early, the packages left over contain a cycle. */
  lemma StuckHasCycle(g: Graph, ordered: seq<nat>)
    requires WellFormed(g) && Greedy(g, ordered) && |ordered| != |g|
    requires forall n: nat :: !Eligible(g, Elements(ordered), n)
    ensures HasCycle(g)
  {
    hide Greedy, Elements, Eligible, WellFormed, Waits, HasCycle, Nodes;
    var left := Nodes(|g|) - Elements(ordered);
    SomeLeft(g, ordered);
    forall n | n in left ensures Waits(g, left, n) {
      Blocked(g, Elements(ordered), n);
    }
    WaitingSetHasCycle(g, left);
  }

  lemma WaitingSetHasCycle(g: Graph, s: set<nat>)
    requires s != {} && forall n | n in s :: Waits(g, s, n)
    ensures HasCycle(g)
  {
    hide HasCycle;
    var n :| n in s;
    assert Waits(g, s, n);
    assert Walk(g, s, [n]);
    WalkCloses(g, s, [n]);
  }

  lemma SomeLeft(g: Graph, ordered: seq<nat>)
    requires Greedy(g, ordered) && |ordered| != |g|
    ensures Nodes(|g|) - Elements(ordered) != {}
  {
    GreedyIsDistinct(g, ordered);
    DistinctCardinality(ordered);
    NodesCardinality(|g|);
    assert Elements(ordered) != Nodes(|g|);
  }

  lemma Blocked(g: Graph, done: set<nat>, n: nat)
    requires WellFormed(g) && n in Nodes(|g|) - done && !Eligible(g, done, n)
    ensures Waits(g, Nodes(|g|) - done, n)
  {
    var d :| d in Elements(g[n]) && d !in done;
    assert d in g[n] && d < |g|;
  }

  lemma {:induction false} WalkDescends(g: Graph, order: seq<nat>, c: seq<nat>, i: nat) returns (p: nat, q: nat)
    requires Topological(g, order) && Cycle(g, c) && i < |c|
    ensures p < |order| && order[p] == c[0] && q < |order| && order[q] == c[i] && q + i <= p
  {
    if i == 0 {
      assert c[0] in order;
      p :| p < |order| && order[p] == c[0];
      q := p;
    } else {
      var q';
      p, q' := WalkDescends(g, order, c, i - 1);
      assert c[i] in Elements(order[..q']);
      q :| q < q' && order[q] == c[i];
    }
  }

  lemma EarlierIsAbsent(order: seq<nat>, p: nat, q: nat)
    requires Distinct(order) && q <= p < |order|
    ensures order[p] !in Elements(order[..q])
  {
    assert forall k | 0 <= k < q :: order[..q][k] == order[k] != order[p];
  }

  /** With a cycle there is no order at all: its last package would come before its own dependency. */
  lemma CycleHasNoOrder(g: Graph, order: seq<nat>)
    requires HasCycle(g)
    ensures !Topological(g, order)
  {
    var c :| Cycle(g, c);
    assert c[0] in Elements(g[c[|c| - 1]]);
    if Topological(g, order) {
      var p, q := WalkDescends(g, order, c, |c| - 1);
      EarlierIsAbsent(order, p, q);
    }
  }

  /** The plan of a dependency graph: the least order that respects it, or a report that it has a cycle. */
  method Plan(g: Graph) returns (r: Result<seq<nat>>)
    requires WellFormed(g)
    ensures r.Rejected? <==> HasCycle(g)
    ensures r.Ok? ==> Topological(g, r.value)
    ensures r.Ok? ==> forall t | Topological(g, t) :: t == r.value || Precedes(r.value, t)
  {
    var ordered := Order(g);
    hide Greedy, Topological, HasCycle, Eligible;
    if |ordered| != |g| {
      StuckHasCycle(g, ordered);
      return Rejected;
    }
    GreedyIsTopological(g, ordered);
    forall t | Topological(g, t) ensures t == ordered || Precedes(ordered, t) {
      TopologicalLength(g, t);
      GreedyIsLeast(g, ordered, t, 0);
    }
    if HasCycle(g) { CycleHasNoOrder(g, ordered); }
    return Ok(ordered);
  }
}
