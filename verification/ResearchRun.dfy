/**
 * `run_research`: discover a branch, harvest it, verify what was found, and branch again. A run asks for each topic
 * at most once, so any harvester is, for that run, a function of the topic.
 */
module ResearchRun {
  import opened Common
  import opened Sorting
  import opened Frontier
  import Whitespace

  /** A harvested row; a missing key is `None`. */
  datatype Row = Row(title: Option<string>, cleanTitle: Option<string>, link: Option<string>, source: Option<string>)

  type Harvest = string -> seq<Row>

  predicate Truthy(s: Option<string>) { s.Some? && s.value != [] }

  function OrElse(s: Option<string>, other: Option<string>): string {
    if s.Some? then s.value else if other.Some? then other.value else []
  }

  predicate Usable(row: Row) { Truthy(row.title) || Truthy(row.cleanTitle) || Truthy(row.link) }

  function Normalized(rows: seq<Row>): (r: seq<Row>)
    ensures forall row :: row in r <==> row in rows && Usable(row)
  {
    if rows == [] then []
    else Normalized(rows[..|rows| - 1]) + (if Usable(rows[|rows| - 1]) then [rows[|rows| - 1]] else [])
  }

  ghost predicate Increasing(places: seq<nat>) {
    forall j, k | 0 <= j < k < |places| :: places[j] < places[k]
  }

  /** The result comes from exactly the chosen elements, once each and in their order. */
  ghost predicate Picks<T, U>(places: seq<nat>, s: seq<T>, chosen: T -> bool, image: T -> U, result: seq<U>) {
    && Increasing(places) && (forall i: nat :: i in places <==> i < |s| && chosen(s[i]))
    && |result| == |places|
    && forall k | 0 <= k < |places| :: places[k] < |s| && result[k] == image(s[places[k]])
  }

  lemma PicksNone<T, U>(chosen: T -> bool, image: T -> U)
    ensures Picks([], [], chosen, image, [])
  {
  }

  lemma PicksMore<T, U>(places: seq<nat>, s: seq<T>, chosen: T -> bool, image: T -> U, result: seq<U>)
    requires s != [] && Picks(places, s[..|s| - 1], chosen, image, result)
    ensures var last := s[|s| - 1];
      if chosen(last) then Picks(places + [|s| - 1], s, chosen, image, result + [image(last)])
      else Picks(places, s, chosen, image, result)
  {
    var n := |s| - 1;
    assert forall i | 0 <= i < n :: s[..n][i] == s[i];
    assert forall k | 0 <= k < |places| :: places[k] in places;
  }

  function Itself(row: Row): Row { row }

  /** Exactly the usable rows are kept, once each and in their order. */
  lemma {:induction false} NormalizedInOrder(rows: seq<Row>) returns (places: seq<nat>)
    ensures Picks(places, rows, Usable, Itself, Normalized(rows))
  {
    hide Usable, Picks;
    if rows == [] {
      PicksNone(Usable, Itself);
      places := [];
    } else {
      var n := |rows| - 1;
      places := NormalizedInOrder(rows[..n]);
      PicksMore(places, rows, Usable, Itself, Normalized(rows[..n]));
      if Usable(rows[n]) {
        assert Normalized(rows) == Normalized(rows[..n]) + [Itself(rows[n])];
        places := places + [n];
      } else {
        assert Normalized(rows) == Normalized(rows[..n]);
      }
    }
  }

  // ---------------------------------------------------------------- verification of evidence

  function Max(a: int, b: int): int { if a < b then b else a }

  function Links(evidence: seq<Row>): set<string> { set row | row in evidence && Truthy(row.link) :: row.link.value }

  function Sources(evidence: seq<Row>): set<string> {
    set row | row in evidence && Truthy(row.source) :: row.source.value
  }

  function Titles(evidence: seq<Row>): set<string> { set row | row in evidence :: OrElse(row.title, row.cleanTitle) }

  /** The score of so many links, sources and titles. */
  function ScoreOf(links: nat, sources: nat, titles: nat, minSources: int): (r: real)
    ensures 0.0 <= r <= 1.0
  {
    var least := Max(minSources, 1) as real;
    var raw := links as real / least * 0.5 + sources as real / least * 0.3 +
      (if titles < 4 then titles else 4) as real * 0.05;
    if raw < 1.0 then raw else 1.0
  }

  function Score(evidence: seq<Row>, minSources: int): (r: real)
    ensures 0.0 <= r <= 1.0
  {
    ScoreOf(|Links(evidence)|, |Sources(evidence)|, |Titles(evidence)|, minSources)
  }

  predicate Answered(evidence: seq<Row>, minSources: int) {
    |evidence| >= minSources && |Links(evidence)| >= minSources
  }

  const EVIDENCE_BUDGET := 24

  predicate Settled(evidence: seq<Row>, minSources: int, threshold: real) {
    Answered(evidence, minSources) && Score(evidence, minSources) >= threshold
  }

  /** The reasons to stop that lie in the evidence. */
  predicate Enough(evidence: seq<Row>, minSources: int, threshold: real) {
    Settled(evidence, minSources, threshold) || |evidence| >= EVIDENCE_BUDGET
  }

  lemma Quotients(a: nat, b: nat, least: real)
    requires a <= b && least >= 1.0
    ensures a as real / least <= b as real / least
  {
    assert (b as real - a as real) / least >= 0.0;
  }

  lemma ScoreGrows(links: nat, sources: nat, titles: nat, links': nat, sources': nat, titles': nat, minSources: int)
    requires links <= links' && sources <= sources' && titles <= titles'
    ensures ScoreOf(links, sources, titles, minSources) <= ScoreOf(links', sources', titles', minSources)
  {
    var least := Max(minSources, 1) as real;
    Quotients(links, links', least);
    Quotients(sources, sources', least);
  }

  /** More evidence never unsettles a question, nor lowers its score. */
  lemma MoreEvidence(evidence: seq<Row>, more: seq<Row>, minSources: int, threshold: real)
    ensures Score(evidence, minSources) <= Score(evidence + more, minSources)
    ensures Settled(evidence, minSources, threshold) ==> Settled(evidence + more, minSources, threshold)
    ensures Enough(evidence, minSources, threshold) ==> Enough(evidence + more, minSources, threshold)
  {
    hide ScoreOf, Truthy, OrElse;
    var all := evidence + more;
    assert forall row | row in evidence :: row in all;
    SubsetSize(Links(evidence), Links(all));
    SubsetSize(Sources(evidence), Sources(all));
    SubsetSize(Titles(evidence), Titles(all));
    ScoreGrows(|Links(evidence)|, |Sources(evidence)|, |Titles(evidence)|, |Links(all)|, |Sources(all)|, |Titles(all)|,
               minSources);
  }

  /** Enough links alone are worth 0.5, any title at least 0.05. */
  lemma AnsweredScore(evidence: seq<Row>, minSources: int)
    requires minSources >= 1 && Answered(evidence, minSources)
    ensures Score(evidence, minSources) >= 0.55
  {
    hide OrElse, Truthy;
    var row := evidence[0];
    assert OrElse(row.title, row.cleanTitle) in Titles(evidence);
    assert |Titles(evidence)| >= 1;
    var least := minSources as real;
    Quotients(minSources, |Links(evidence)|, least);
    Quotients(0, |Sources(evidence)|, least);
    assert least / least == 1.0;
  }

  /** Rows with a link each, all different, one title and no source. */
  function LinkedRows(n: nat): (r: seq<Row>)
    ensures |r| == n
  {
    if n == 0 then [] else LinkedRows(n - 1) + [Row(Some("t"), None, Some(seq(n, _ => 'x')), None)]
  }

  lemma {:induction false} LinkedRowsCount(n: nat)
    ensures |Links(LinkedRows(n))| == n && Sources(LinkedRows(n)) == {}
    ensures forall l | l in Links(LinkedRows(n)) :: |l| <= n
    ensures n > 0 ==> Titles(LinkedRows(n)) == {"t"}
  {
    if n > 0 {
      LinkedRowsCount(n - 1);
      var row := Row(Some("t"), None, Some(seq(n, _ => 'x')), None);
      var before := LinkedRows(n - 1);
      assert LinkedRows(n) == before + [row];
      AddedRow(before, row);
      assert n == 1 ==> before == [];
    }
  }

  lemma AddedRow(before: seq<Row>, row: Row)
    requires Truthy(row.link) && row.source.None?
    ensures Links(before + [row]) == Links(before) + {row.link.value}
    ensures Sources(before + [row]) == Sources(before)
    ensures Titles(before + [row]) == Titles(before) + {OrElse(row.title, row.cleanTitle)}
  {
    hide OrElse;
    assert row in before + [row] && forall r | r in before :: r in before + [row];
  }

  /** The threshold decides anything only above 0.55; up to there every answered question is settled. */
  lemma ThresholdMatters(minSources: int, threshold: real)
    requires minSources >= 1
    ensures (forall evidence :: Answered(evidence, minSources) ==> Settled(evidence, minSources, threshold)) <==>
      threshold <= 0.55
  {
    hide Score, Answered;
    forall evidence | threshold <= 0.55 && Answered(evidence, minSources)
      ensures Settled(evidence, minSources, threshold)
    {
      AnsweredScore(evidence, minSources);
    }
    LeastScore(minSources);
    assert Settled(LinkedRows(minSources), minSources, threshold) ==> threshold <= 0.55;
  }

  lemma LeastScore(minSources: int)
    requires minSources >= 1
    ensures Answered(LinkedRows(minSources), minSources) && Score(LinkedRows(minSources), minSources) == 0.55
  {
    hide ScoreOf, Links, Sources, Titles, LinkedRows;
    LinkedRowsCount(minSources);
    ScoreOfLeast(minSources);
  }

  lemma ScoreOfLeast(n: nat)
    requires n >= 1
    ensures ScoreOf(n, 0, 1, n) == 0.55
  {
    var least := n as real;
    assert Max(n, 1) == n;
    var x, y := n as real / least, 0 as real / least;
    assert x == 1.0 && y == 0.0;
    assert x * 0.5 + y * 0.3 + 1 as real * 0.05 == 0.55;
  }

  // ---------------------------------------------------------------- branches

  function Seed(goal: string): Candidate { Candidate(goal, 1.0, 1.0, 0.5, 1.0, 0, None) }

  function Heading(row: Row): string { OrElse(row.cleanTitle, row.title) }

  function Branch(row: Row, parent: string, depth: int): Candidate {
    Candidate(Slice(Heading(row), 160), 0.65, 0.7, 0.55, 0.7, depth, Some(parent))
  }

  function Expand(rows: seq<Row>, parent: string, depth: int): (r: seq<Candidate>)
    ensures forall c | c in r :: exists row | row in rows :: c == Branch(row, parent, depth)
  {
    if rows == [] then []
    else Expand(rows[..|rows| - 1], parent, depth)
         + (if Strip(Heading(rows[|rows| - 1])) != [] then [Branch(rows[|rows| - 1], parent, depth)] else [])
  }

  predicate HasHeading(row: Row) { Strip(Heading(row)) != [] }

  function BranchBelow(parent: string, depth: int): Row -> Candidate { (row: Row) => Branch(row, parent, depth) }

  /** Every row with a heading becomes its own branch, once and in its place. */
  lemma {:induction false} ExpandInOrder(rows: seq<Row>, parent: string, depth: int) returns (places: seq<nat>)
    ensures Picks(places, rows, HasHeading, BranchBelow(parent, depth), Expand(rows, parent, depth))
  {
    hide Strip, Heading, Branch, Picks;
    var image := BranchBelow(parent, depth);
    if rows == [] {
      PicksNone(HasHeading, image);
      places := [];
    } else {
      var n := |rows| - 1;
      places := ExpandInOrder(rows[..n], parent, depth);
      PicksMore(places, rows, HasHeading, image, Expand(rows[..n], parent, depth));
      if HasHeading(rows[n]) {
        assert Expand(rows, parent, depth) == Expand(rows[..n], parent, depth) + [image(rows[n])];
        places := places + [n];
      } else {
        assert Expand(rows, parent, depth) == Expand(rows[..n], parent, depth);
      }
    }
  }

  /** The topics a visit can suggest: from the first four usable rows it harvested. */
  predicate Suggests(harvest: Harvest, parent: string, topic: string) {
    exists row | row in Slice(Normalized(harvest(parent)), 4) :: topic == Strip(Slice(Heading(row), 160)) && topic != []
  }

  /** Everything harvested on the visits so far. */
  function Gathered(harvest: Harvest, visited: seq<string>): seq<Row> {
    if visited == [] then []
    else Gathered(harvest, visited[..|visited| - 1]) + Normalized(harvest(visited[|visited| - 1]))
  }

  // ---------------------------------------------------------------- the discovery tree

  function Topics(history: seq<Visit>): (r: seq<string>)
    ensures |r| == |history|
    ensures forall i | 0 <= i < |r| :: r[i] == history[i].topic
  {
    seq(|history|, i requires 0 <= i < |history| => history[i].topic)
  }

  /** `v` names one of these visits as the one that suggested it. */
  ghost predicate HasParent(harvest: Harvest, history: seq<Visit>, parent: Option<string>, depth: int, topic: string) {
    exists i :: 0 <= i < |history| && parent == Some(history[i].topic) && depth == history[i].depth + 1
                && Suggests(harvest, history[i].topic, topic)
  }

  /**
   * The history is a tree grown from the goal: a root, then visits each suggested by an earlier one, one level
   * deeper than it; visits come level by level, and no topic comes twice.
   */
  ghost predicate DiscoveryTree(goal: string, harvest: Harvest, maxDepth: int, history: seq<Visit>) {
    && Distinct(Topics(history))
    && (history != [] ==> history[0] == VisitOf(Seed(Strip(goal))))
    && (forall j | 0 < j < |history| ::
          HasParent(harvest, history[..j], history[j].parent, history[j].depth, history[j].topic))
    && Levels(history, maxDepth)
  }

  /** Depths stay within the bound and never decrease. */
  ghost predicate Levels(history: seq<Visit>, maxDepth: int) {
    && (forall j | 0 <= j < |history| :: 0 <= history[j].depth <= maxDepth)
    && (forall i, j | 0 <= i < j < |history| :: history[i].depth <= history[j].depth)
  }

  /** What waits in the frontier: the seed before the first visit, afterwards branches of visits, shallow ones first. */
  ghost predicate Pending(goal: string, harvest: Harvest, maxDepth: int, history: seq<Visit>,
                          candidates: seq<Candidate>)
  {
    if history == [] then
      candidates == [] || (candidates == [Seed(Strip(goal))] && 0 <= maxDepth)
    else
      var level := history[|history| - 1].depth;
      && (forall c | c in candidates ::
            && HasParent(harvest, history, c.parent, c.depth, c.topic) && ResearchValue(c) == 0.65
            && level <= c.depth <= level + 1 && c.depth <= maxDepth)
      && (forall i, j | 0 <= i < j < |candidates| :: candidates[i].depth <= candidates[j].depth)
  }

  lemma ParentStays(harvest: Harvest, history: seq<Visit>, v: Visit, parent: Option<string>, depth: int, topic: string)
    requires HasParent(harvest, history, parent, depth, topic)
    ensures HasParent(harvest, history + [v], parent, depth, topic)
  {
    hide Suggests;
    var i :| 0 <= i < |history| && parent == Some(history[i].topic) && depth == history[i].depth + 1
      && Suggests(harvest, history[i].topic, topic);
    assert (history + [v])[i] == history[i];
  }

  lemma TopicsGrow(history: seq<Visit>, v: Visit)
    ensures Topics(history + [v]) == Topics(history) + [v.topic]
    ensures Distinct(Topics(history)) && v.topic !in Topics(history) ==> Distinct(Topics(history + [v]))
  {
    assert Topics(history + [v]) == Topics(history) + [v.topic];
    assert forall a | 0 <= a < |history| :: Topics(history)[a] in Topics(history);
  }

  lemma ParentsGrow(harvest: Harvest, history: seq<Visit>, v: Visit)
    requires forall j | 0 < j < |history| ::
      HasParent(harvest, history[..j], history[j].parent, history[j].depth, history[j].topic)
    requires history != [] ==> HasParent(harvest, history, v.parent, v.depth, v.topic)
    ensures var grown := history + [v];
      forall j | 0 < j < |grown| :: HasParent(harvest, grown[..j], grown[j].parent, grown[j].depth, grown[j].topic)
  {
    hide HasParent;
    var grown := history + [v];
    forall j | 0 < j < |grown|
      ensures HasParent(harvest, grown[..j], grown[j].parent, grown[j].depth, grown[j].topic)
    {
      if j < |history| {
        assert grown[..j] == history[..j];
      } else {
        assert grown[..j] == history;
      }
    }
  }

  /** A visit extends the tree. */
  lemma VisitGrowsTree(goal: string, harvest: Harvest, maxDepth: int, history: seq<Visit>, candidates: seq<Candidate>,
                       i: nat)
    requires DiscoveryTree(goal, harvest, maxDepth, history) && Pending(goal, harvest, maxDepth, history, candidates)
    requires i < |candidates| && candidates[i].topic !in Topics(history)
    ensures DiscoveryTree(goal, harvest, maxDepth, history + [VisitOf(candidates[i])])
  {
    hide HasParent, ResearchValue, Distinct, Strip;
    var c := candidates[i];
    assert c in candidates;
    TopicsGrow(history, VisitOf(c));
    ParentsGrow(harvest, history, VisitOf(c));
    LevelsGrow(history, VisitOf(c), maxDepth);
    hide Levels;
  }

  lemma LevelsGrow(history: seq<Visit>, v: Visit, maxDepth: int)
    requires Levels(history, maxDepth) && 0 <= v.depth <= maxDepth
    requires history != [] ==> history[|history| - 1].depth <= v.depth
    ensures Levels(history + [v], maxDepth)
  {
  }

  /** What is left after a visit still fits the tree. */
  lemma VisitKeepsPending(goal: string, harvest: Harvest, maxDepth: int, history: seq<Visit>,
                          candidates: seq<Candidate>, i: nat)
    requires Pending(goal, harvest, maxDepth, history, candidates) && i < |candidates|
    ensures Pending(goal, harvest, maxDepth, history + [VisitOf(candidates[i])], candidates[i + 1..])
  {
    hide HasParent, ResearchValue;
    var v, rest := VisitOf(candidates[i]), candidates[i + 1..];
    if history != [] {
      forall k | 0 <= k < |rest|
        ensures HasParent(harvest, history + [v], rest[k].parent, rest[k].depth, rest[k].topic)
      {
        assert rest[k] == candidates[i + 1 + k] && rest[k] in candidates;
        ParentStays(harvest, history, v, rest[k].parent, rest[k].depth, rest[k].topic);
      }
      assert candidates[i] in candidates;
    }
  }

  lemma AcceptedBranch(row: Row, parent: string, depth: int, maxDepth: int, visited: set<string>, c: Candidate)
    requires c in Accept(Branch(row, parent, depth), maxDepth, visited)
    ensures c.parent == Some(parent) && c.depth == depth <= maxDepth && ResearchValue(c) == 0.65
    ensures c.topic == Strip(Slice(Heading(row), 160)) != []
  {
  }

  /** New branches all come from the visit and lie one level below it. */
  lemma {:induction false} AcceptedBranches(rows: seq<Row>, parent: string, depth: int, maxDepth: int,
                                            visited: set<string>, c: Candidate)
    requires c in Accepted(Expand(rows, parent, depth), maxDepth, visited)
    ensures c.parent == Some(parent) && c.depth == depth <= maxDepth && ResearchValue(c) == 0.65
    ensures exists row | row in rows :: c.topic == Strip(Slice(Heading(row), 160)) != []
  {
    hide Strip, Slice, Heading, Branch, ResearchValue, Accept;
    if rows != [] {
      var front, row := rows[..|rows| - 1], rows[|rows| - 1];
      var all := Expand(rows, parent, depth);
      if Strip(Heading(row)) != [] {
        assert all[..|all| - 1] == Expand(front, parent, depth);
        if c in Accept(Branch(row, parent, depth), maxDepth, visited) {
          AcceptedBranch(row, parent, depth, maxDepth, visited, c);
        } else {
          AcceptedBranches(front, parent, depth, maxDepth, visited, c);
        }
      } else {
        assert all == Expand(front, parent, depth);
        AcceptedBranches(front, parent, depth, maxDepth, visited, c);
      }
    }
  }

  lemma NewBranches(harvest: Harvest, parent: string, depth: int, maxDepth: int, visited: set<string>, c: Candidate)
    requires c in Accepted(Expand(Slice(Normalized(harvest(parent)), 4), parent, depth), maxDepth, visited)
    ensures c.parent == Some(parent) && c.depth == depth <= maxDepth && ResearchValue(c) == 0.65 &&
      Suggests(harvest, parent, c.topic)
  {
    hide Strip, Normalized, ResearchValue;
    AcceptedBranches(Slice(Normalized(harvest(parent)), 4), parent, depth, maxDepth, visited, c);
  }

  /** Candidates of equal value queue up: the frontier is then first in, first out. */
  lemma EqualValuesQueue(cs: seq<Candidate>)
    requires forall c | c in cs :: ResearchValue(c) == 0.65
    ensures Sort(NotBelow, cs) == cs
  {
    hide Sort;
    ValueOrder();
    assert SortedBy(NotBelow, cs);
    SortOfSorted(NotBelow, cs);
  }

  lemma QueueingKeepsPending(goal: string, harvest: Harvest, maxDepth: int, history: seq<Visit>,
                             candidates: seq<Candidate>, branches: seq<Candidate>, k: int)
    requires history != [] && Pending(goal, harvest, maxDepth, history, candidates)
    requires forall c | c in branches ::
      ResearchValue(c) == 0.65 && c.depth == history[|history| - 1].depth + 1 <= maxDepth
    requires forall c | c in branches :: HasParent(harvest, history, c.parent, c.depth, c.topic)
    ensures Pending(goal, harvest, maxDepth, history, Slice(Sort(NotBelow, candidates + branches), k))
  {
    hide Sort, ResearchValue, NotBelow, HasParent;
    var all := candidates + branches;
    assert forall c | c in all :: c in candidates || c in branches;
    EqualValuesQueue(all);
    forall i, j | 0 <= i < j < |all| ensures all[i].depth <= all[j].depth {
      assert all[i] in all && all[j] in all;
      if j >= |candidates| { assert all[j] in branches; }
    }
    assert forall c | c in Slice(all, k) :: c in all;
  }

  /** Branching from the latest visit keeps the frontier in line with the tree. */
  lemma BranchingKeepsPending(goal: string, harvest: Harvest, maxDepth: int, history: seq<Visit>,
                              candidates: seq<Candidate>, visited: set<string>, k: int)
    requires history != [] && Pending(goal, harvest, maxDepth, history, candidates)
    ensures var v := history[|history| - 1];
      var branches := Accepted(Expand(Slice(Normalized(harvest(v.topic)), 4), v.topic, v.depth + 1), maxDepth, visited);
      Pending(goal, harvest, maxDepth, history, Slice(Sort(NotBelow, candidates + branches), k))
  {
    hide Sort, Normalized, Slice, Expand, Accepted, ResearchValue, NotBelow, Suggests, Pending;
    var v := history[|history| - 1];
    var branches := Accepted(Expand(Slice(Normalized(harvest(v.topic)), 4), v.topic, v.depth + 1), maxDepth, visited);
    forall c | c in branches
      ensures ResearchValue(c) == 0.65 && c.depth == v.depth + 1 <= maxDepth &&
        HasParent(harvest, history, c.parent, c.depth, c.topic)
    {
      NewBranches(harvest, v.topic, v.depth + 1, maxDepth, visited, c);
    }
    QueueingKeepsPending(goal, harvest, maxDepth, history, candidates, branches, k);
  }

  // ---------------------------------------------------------------- nothing suggested is lost

  ghost predicate Among(topic: string, cs: seq<Candidate>) { exists c :: c in cs && c.topic == topic }

  /** Every topic that one of the first `n` visits suggests within the depth has been visited, waits or was cut off. */
  ghost predicate Covered(harvest: Harvest, maxDepth: int, history: seq<Visit>, n: nat, candidates: seq<Candidate>,
                          dropped: seq<Candidate>)
    requires n <= |history|
  {
    forall i, topic | 0 <= i < n && history[i].depth < maxDepth && Suggests(harvest, history[i].topic, topic) ::
      topic in Topics(history) || Among(topic, candidates) || Among(topic, dropped)
  }

  /** A heading that is not blank within its first 160 characters is not blank. */
  lemma CutHeading(heading: string)
    requires Strip(Slice(heading, 160)) != []
    ensures Strip(heading) != []
  {
    hide Space;
    Whitespace.TrimsToNothing(Space, Slice(heading, 160));
    Whitespace.TrimsToNothing(Space, heading);
  }

  lemma {:induction false} AcceptedMember(cs: seq<Candidate>, c: Candidate, maxDepth: int, visited: set<string>)
    requires c in cs
    ensures forall d | d in Accept(c, maxDepth, visited) :: d in Accepted(cs, maxDepth, visited)
  {
    hide Accept;
    if c != cs[|cs| - 1] { AcceptedMember(cs[..|cs| - 1], c, maxDepth, visited); }
  }

  /** What a visit suggests is branched, unless it has been visited. */
  lemma SuggestedIsBranched(harvest: Harvest, parent: string, depth: int, maxDepth: int, visited: set<string>,
                            topic: string)
    requires Suggests(harvest, parent, topic) && depth <= maxDepth && topic !in visited
    ensures Among(topic, Accepted(Expand(Slice(Normalized(harvest(parent)), 4), parent, depth), maxDepth, visited))
  {
    hide Strip, Normalized, Slice, Expand;
    var rows := Slice(Normalized(harvest(parent)), 4);
    var row :| row in rows && topic == Strip(Slice(Heading(row), 160)) && topic != [];
    CutHeading(Heading(row));
    var places := ExpandInOrder(rows, parent, depth);
    var i :| 0 <= i < |rows| && rows[i] == row;
    assert HasHeading(rows[i]) && i in places;
    var k :| 0 <= k < |places| && places[k] == i;
    var c := Branch(row, parent, depth);
    assert Expand(rows, parent, depth)[k] == BranchBelow(parent, depth)(row) == c;
    AcceptedMember(Expand(rows, parent, depth), c, maxDepth, visited);
    assert c.(topic := topic) in Accept(c, maxDepth, visited);
  }

  /** A visit takes only visited topics from the frontier. */
  lemma VisitKeepsCover(harvest: Harvest, maxDepth: int, history: seq<Visit>, candidates: seq<Candidate>,
                        dropped: seq<Candidate>, i: nat)
    requires Covered(harvest, maxDepth, history, |history|, candidates, dropped) && i < |candidates|
    requires forall j | 0 <= j < i :: candidates[j].topic in Topics(history)
    ensures Covered(harvest, maxDepth, history + [VisitOf(candidates[i])], |history|, candidates[i + 1..], dropped)
  {
    hide Suggests;
    var v := VisitOf(candidates[i]);
    TopicsGrow(history, v);
    forall j, topic | 0 <= j < |history| && history[j].depth < maxDepth && Suggests(harvest, history[j].topic, topic)
      ensures topic in Topics(history + [v]) || Among(topic, candidates[i + 1..]) || Among(topic, dropped)
    {
      if topic !in Topics(history) && !Among(topic, dropped) {
        var c :| c in candidates && c.topic == topic;
        var k :| 0 <= k < |candidates| && candidates[k] == c;
        assert k > i ==> candidates[i + 1..][k - i - 1] == c;
      }
    }
  }

  /** With nothing left to visit, all that waited has been visited. */
  lemma EmptyKeepsCover(harvest: Harvest, maxDepth: int, history: seq<Visit>, candidates: seq<Candidate>,
                        dropped: seq<Candidate>)
    requires Covered(harvest, maxDepth, history, |history|, candidates, dropped)
    requires forall j | 0 <= j < |candidates| :: candidates[j].topic in Topics(history)
    ensures Covered(harvest, maxDepth, history, |history|, [], dropped)
  {
    hide Suggests;
  }

  lemma ConservedAmong(before: seq<Candidate>, cut: seq<Candidate>, added: seq<Candidate>, after: seq<Candidate>,
                       cutAfter: seq<Candidate>, topic: string)
    requires Conserved(before, cut, added, after, cutAfter)
    requires Among(topic, before) || Among(topic, cut) || Among(topic, added)
    ensures Among(topic, after) || Among(topic, cutAfter)
  {
    var c :| (c in before || c in cut || c in added) && c.topic == topic;
    assert c in multiset(before) + multiset(cut) + multiset(added);
    assert c in multiset(after) || c in multiset(cutAfter);
  }

  /** Branching covers the latest visit too. */
  lemma BranchingCovers(harvest: Harvest, maxDepth: int, history: seq<Visit>, visited: set<string>,
                        before: seq<Candidate>, cut: seq<Candidate>, after: seq<Candidate>, cutAfter: seq<Candidate>)
    requires history != [] && Covered(harvest, maxDepth, history, |history| - 1, before, cut)
    requires forall t :: t in visited <==> t in Topics(history)
    requires var v := history[|history| - 1];
      v.depth < maxDepth &&
      Conserved(before, cut, Accepted(Expand(Slice(Normalized(harvest(v.topic)), 4), v.topic, v.depth + 1), maxDepth,
                                      visited), after, cutAfter)
    ensures Covered(harvest, maxDepth, history, |history|, after, cutAfter)
  {
    hide Suggests, Conserved, Accepted, Expand, Normalized, Slice, Among;
    var v := history[|history| - 1];
    var branches := Accepted(Expand(Slice(Normalized(harvest(v.topic)), 4), v.topic, v.depth + 1), maxDepth, visited);
    forall i, topic |
      0 <= i < |history| && history[i].depth < maxDepth && Suggests(harvest, history[i].topic, topic)
      ensures topic in Topics(history) || Among(topic, after) || Among(topic, cutAfter)
    {
      if topic !in Topics(history) {
        if i == |history| - 1 { SuggestedIsBranched(harvest, v.topic, v.depth + 1, maxDepth, visited, topic); }
        ConservedAmong(before, cut, branches, after, cutAfter, topic);
      }
    }
  }

  lemma OnlyTheSeed(goal: string, harvest: Harvest, maxDepth: int)
    ensures DiscoveryTree(goal, harvest, maxDepth, []) && Pending(goal, harvest, maxDepth, [], [])
    ensures maxDepth >= 0 ==> Pending(goal, harvest, maxDepth, [], [Seed(Strip(goal))])
    ensures AddedAll(12, [], [Seed(Strip(goal))]) == [Seed(Strip(goal))]
  {
    AddedOne(12, [], Seed(Strip(goal)));
    assert [] + [Seed(Strip(goal))] == [Seed(Strip(goal))];
  }

  // ---------------------------------------------------------------- when nothing is cut off

  lemma {:induction false} FewBranches(rows: seq<Row>, parent: string, depth: int)
    ensures |Expand(rows, parent, depth)| <= |rows|
  {
    if rows != [] { FewBranches(rows[..|rows| - 1], parent, depth); }
  }

  lemma {:induction false} FewAccepted(cs: seq<Candidate>, maxDepth: int, visited: set<string>)
    ensures |Accepted(cs, maxDepth, visited)| <= |cs|
  {
    if cs != [] { FewAccepted(cs[..|cs| - 1], maxDepth, visited); }
  }

  /** A visit brings at most four branches, and a frontier with room for them cuts nothing off. */
  lemma RoomCutsNothing(rows: seq<Row>, parent: string, depth: int, maxDepth: int, visited: set<string>, k: nat,
                        before: seq<Candidate>, cut: seq<Candidate>, cutAfter: seq<Candidate>)
    requires var branches := Accepted(Expand(Slice(rows, 4), parent, depth), maxDepth, visited);
      Conserved(before, cut, branches, Slice(Sort(NotBelow, before + branches), k), cutAfter)
    ensures var branches := Accepted(Expand(Slice(rows, 4), parent, depth), maxDepth, visited);
      && |Slice(Sort(NotBelow, before + branches), k)| <= |before| + 4
      && (|before| + 4 <= k ==> cutAfter == cut)
  {
    hide Expand, Accepted;
    var few := Expand(Slice(rows, 4), parent, depth);
    FewBranches(Slice(rows, 4), parent, depth);
    FewAccepted(few, maxDepth, visited);
    var branches := Accepted(few, maxDepth, visited);
    var sorted := Sort(NotBelow, before + branches);
    assert |multiset(sorted)| == |multiset(before + branches)|;
    var after := Slice(sorted, k);
    if |before| + 4 <= k { AllKept(before, cut, branches, after, cutAfter); }
  }

  lemma AllKept(before: seq<Candidate>, cut: seq<Candidate>, added: seq<Candidate>, after: seq<Candidate>,
                cutAfter: seq<Candidate>)
    requires Conserved(before, cut, added, after, cutAfter) && |after| == |before| + |added|
    ensures cutAfter == cut
  {
    assert |multiset(after) + multiset(cutAfter)| == |multiset(before) + multiset(cut) + multiset(added)|;
  }

  lemma NothingToCover(harvest: Harvest, maxDepth: int, candidates: seq<Candidate>, dropped: seq<Candidate>)
    ensures Covered(harvest, maxDepth, [], 0, candidates, dropped)
  {
  }

  // ---------------------------------------------------------------- the run

  /** Why a run ended. */
  datatype Stop = FrontierEmpty | Verified | EvidenceBudget | StepsUsed

  class ResearchState {
    const goal: string
    const maxDepth: int
    const frontier: DiscoveryFrontier
    var evidence: seq<Row>
    var visited: seq<string>

    ghost predicate Valid(harvest: Harvest)
      reads this, frontier
    {
      && frontier.Valid() && frontier.maxDepth == maxDepth && frontier.maxCandidates == 12
      && DiscoveryTree(goal, harvest, maxDepth, frontier.history)
      && Pending(goal, harvest, maxDepth, frontier.history, frontier.candidates)
      && visited == Topics(frontier.history) && frontier.visited == (set t | t in visited)
      && evidence == Gathered(harvest, visited)
    }

    /** What the first `n` visits suggest is not lost. */
    ghost predicate Complete(harvest: Harvest, n: nat)
      reads this, frontier
    {
      n <= |frontier.history| &&
      Covered(harvest, maxDepth, frontier.history, n, frontier.candidates, frontier.dropped)
    }

    /** Three visits cannot fill the frontier. */
    ghost predicate Roomy()
      reads this, frontier
    {
      |frontier.candidates| <= 3 * |visited| + 1 && (|visited| <= 3 ==> frontier.dropped == [])
    }

    constructor (goal: string, maxDepth: int)
      ensures fresh(frontier) && this.goal == goal && this.maxDepth == maxDepth
      ensures forall harvest :: Valid(harvest)
      ensures visited == [] && Roomy() && forall harvest :: Complete(harvest, 0)
      ensures frontier.candidates == if Strip(goal) != [] && maxDepth >= 0 then [Seed(Strip(goal))] else []
    {
      hide DiscoveryTree, Pending, AddedAll, SortedBy, Strip, Conserved, Covered;
      this.goal, this.maxDepth := goal, maxDepth;
      evidence, visited := [], [];
      var f := new DiscoveryFrontier(maxDepth, 12);
      var added := f.Add(Seed(goal));
      frontier := f;
      AddedOne(12, [], Seed(Strip(goal)));
      assert Seed(goal).(topic := Strip(goal)) == Seed(Strip(goal));
      AllKept([], [], Accept(Seed(goal), maxDepth, {}), f.candidates, f.dropped);
      forall harvest
        ensures DiscoveryTree(goal, harvest, maxDepth, []) && Pending(goal, harvest, maxDepth, [], f.candidates)
        ensures Covered(harvest, maxDepth, [], 0, f.candidates, f.dropped)
      {
        OnlyTheSeed(goal, harvest, maxDepth);
        NothingToCover(harvest, maxDepth, f.candidates, f.dropped);
      }
    }

    /** Loop 1: the next branch becomes the latest visit, and its harvest joins the evidence. */
    method Visit(harvest: Harvest) returns (next: Option<Candidate>)
      requires Valid(harvest) && Complete(harvest, |visited|) && Roomy()
      modifies this, frontier
      ensures Valid(harvest) && Complete(harvest, |old(visited)|) && Roomy()
      ensures next.Some? ==> |frontier.candidates| <= 3 * |visited| - 3
      ensures next.None? ==>
        visited == old(visited) && frontier.history == old(frontier.history) && frontier.candidates == []
      ensures next.Some? <==> exists c :: c in old(frontier.candidates) && c.topic !in old(visited)
      ensures next.Some? ==> visited == old(visited) + [next.value.topic]
                             && frontier.history == old(frontier.history) + [VisitOf(next.value)]
      ensures next.Some? ==> |frontier.history| == |visited|
                             && frontier.history[|visited| - 1].depth == next.value.depth
    {
      hide DiscoveryTree, Pending, Gathered, SortedBy, Normalized, Covered, DiscoveryFrontier.Valid, ResearchValue;
      ghost var candidates, history := frontier.candidates, frontier.history;
      ghost var i := FirstUnvisited(candidates, frontier.visited);
      next := frontier.PopNext();
      assert i < |candidates| ==> candidates[i] in candidates;
      if next.None? {
        PendingNothing(goal, harvest, maxDepth, history);
        EmptyKeepsCover(harvest, maxDepth, history, candidates, frontier.dropped);
        return;
      }
      VisitKeepsCover(harvest, maxDepth, history, candidates, frontier.dropped, i);
      VisitGrowsTree(goal, harvest, maxDepth, history, candidates, i);
      VisitKeepsPending(goal, harvest, maxDepth, history, candidates, i);
      GatheredOneMore(harvest, visited, next.value.topic);
      visited := visited + [next.value.topic];
      evidence := evidence + Normalized(harvest(next.value.topic));
    }

    /** Loop 3: branches of the latest visit join the frontier. */
    method BranchOut(harvest: Harvest, harvested: seq<Row>, depth: int)
      requires Valid(harvest) && visited != []
      requires harvested == Normalized(harvest(visited[|visited| - 1])) &&
        depth == frontier.history[|visited| - 1].depth < maxDepth
      requires Complete(harvest, |visited| - 1) && Roomy() && |frontier.candidates| <= 3 * |visited| - 3
      modifies frontier
      ensures Valid(harvest) && frontier.history == old(frontier.history)
      ensures Complete(harvest, |visited|) && Roomy()
    {
      hide DiscoveryTree, Pending, Gathered, Normalized, Expand, Accepted, Sort, NotBelow, SortedBy, AddedAll, Slice,
        Covered, Conserved;
      BranchingKeepsPending(goal, harvest, maxDepth, frontier.history, frontier.candidates, frontier.visited, 12);
      var topic := visited[|visited| - 1];
      ghost var before, cut := frontier.candidates, frontier.dropped;
      frontier.Extend(Expand(Slice(harvested, 4), topic, depth + 1));
      BranchingCovers(harvest, maxDepth, frontier.history, frontier.visited, before, cut, frontier.candidates,
                      frontier.dropped);
      RoomCutsNothing(harvested, topic, depth + 1, maxDepth, frontier.visited, 12, before, cut, frontier.dropped);
    }
  }

  lemma PendingNothing(goal: string, harvest: Harvest, maxDepth: int, history: seq<Visit>)
    ensures Pending(goal, harvest, maxDepth, history, [])
  {
  }

  lemma GatheredOneMore(harvest: Harvest, visited: seq<string>, topic: string)
    ensures Gathered(harvest, visited + [topic]) == Gathered(harvest, visited) + Normalized(harvest(topic))
  {
    assert (visited + [topic])[..|visited|] == visited;
  }

  lemma ValidStateIsTree(state: ResearchState, harvest: Harvest)
    requires state.Valid(harvest)
    ensures DiscoveryTree(state.goal, harvest, state.maxDepth, state.frontier.history)
    ensures state.visited == Topics(state.frontier.history) && Distinct(state.visited)
    ensures state.evidence == Gathered(harvest, state.visited)
  {
  }

  /** No visit before the last had gathered enough. */
  ghost predicate NotEnoughBefore(harvest: Harvest, visited: seq<string>, minSources: int, threshold: real) {
    forall k | 0 < k < |visited| :: !Enough(Gathered(harvest, visited[..k]), minSources, threshold)
  }

  lemma NoVisitYet(harvest: Harvest, minSources: int, threshold: real)
    ensures NotEnoughBefore(harvest, [], minSources, threshold)
  {
  }

  lemma OneMoreVisit(harvest: Harvest, visited: seq<string>, topic: string, minSources: int, threshold: real)
    requires NotEnoughBefore(harvest, visited, minSources, threshold)
    requires visited != [] ==> !Enough(Gathered(harvest, visited), minSources, threshold)
    ensures NotEnoughBefore(harvest, visited + [topic], minSources, threshold)
  {
    hide Enough, Gathered;
    forall k | 0 < k < |visited + [topic]|
      ensures !Enough(Gathered(harvest, (visited + [topic])[..k]), minSources, threshold)
    {
      if k < |visited| {
        assert (visited + [topic])[..k] == visited[..k];
      } else {
        assert (visited + [topic])[..k] == visited;
      }
    }
  }

  /**
   * Every run grows a discovery tree, within its step bound, and stops where the evidence first suffices, the steps
   * run out or no branch is left. Unless it stopped on a verified answer, every topic its visits suggest within the
   * depth has been visited, still waits, or was cut off by the frontier's bound, which three visits cannot reach.
   */
  method RunResearch(goal: string, harvest: Harvest, maxDepth: int, maxSteps: int, minSources: int, threshold: real)
    returns (state: ResearchState, stop: Stop)
    ensures fresh(state) && fresh(state.frontier)
    ensures DiscoveryTree(goal, harvest, maxDepth, state.frontier.history)
    ensures state.visited == Topics(state.frontier.history) && Distinct(state.visited)
    ensures state.evidence == Gathered(harvest, state.visited)
    ensures |state.visited| <= Max(0, maxSteps)
    ensures NotEnoughBefore(harvest, state.visited, minSources, threshold)
    ensures stop.FrontierEmpty? ==> state.frontier.candidates == [] && |state.visited| < maxSteps
    ensures stop.StepsUsed? ==> |state.visited| == Max(0, maxSteps)
    ensures stop.FrontierEmpty? || stop.StepsUsed? ==>
      state.visited != [] ==> !Enough(state.evidence, minSources, threshold)
    ensures stop.Verified? ==> state.visited != [] && Settled(state.evidence, minSources, threshold)
    ensures stop.EvidenceBudget? ==> && state.visited != [] && !Settled(state.evidence, minSources, threshold)
                                     && |state.evidence| >= EVIDENCE_BUDGET
    ensures state.visited == [] <==> Strip(goal) == [] || maxDepth < 0 || maxSteps <= 0
    ensures !stop.Verified? ==> Covered(harvest, maxDepth, state.frontier.history, |state.frontier.history|,
                                        state.frontier.candidates, state.frontier.dropped)
    ensures |state.visited| <= 3 ==> state.frontier.dropped == []
    ensures stop.FrontierEmpty? && state.frontier.dropped == [] ==>
      forall v, topic | v in state.frontier.history && v.depth < maxDepth && Suggests(harvest, v.topic, topic) ::
        topic in state.visited
  {
    hide Settled, Gathered, Pending, Normalized, Expand, Seed, Strip, DiscoveryFrontier.Valid, NotEnoughBefore,
      ResearchState.Valid, DiscoveryTree, VisitOf, Covered, Suggests, ResearchState.Complete, ResearchState.Roomy,
      Topics, Distinct, Answered, Score;
    NoVisitYet(harvest, minSources, threshold);
    state := new ResearchState(goal, maxDepth);
    stop := StepsUsed;
    var step := 0;
    while step < maxSteps
      invariant fresh(state) && fresh(state.frontier) && state.goal == goal && state.maxDepth == maxDepth
      invariant state.Valid(harvest)
      invariant |state.visited| == step <= Max(0, maxSteps) && stop == StepsUsed
      invariant state.Complete(harvest, |state.visited|) && state.Roomy()
      invariant NotEnoughBefore(harvest, state.visited, minSources, threshold)
      invariant state.visited != [] ==> !Enough(state.evidence, minSources, threshold)
      invariant state.visited != [] ==> Strip(goal) != [] && maxDepth >= 0
      invariant state.visited == [] ==>
        state.frontier.candidates == if Strip(goal) != [] && maxDepth >= 0 then [Seed(Strip(goal))] else []
    {
      ghost var before := state.visited;
      ValidStateIsTree(state, harvest);
      assert state.visited == [] && Strip(goal) != [] && maxDepth >= 0 ==>
        Seed(Strip(goal)) in state.frontier.candidates;
      var next := state.Visit(harvest);
      if next.None? { stop := FrontierEmpty; break; }
      var candidate := next.value;
      OneMoreVisit(harvest, before, candidate.topic, minSources, threshold);
      var harvested := Normalized(harvest(candidate.topic));
      if Settled(state.evidence, minSources, threshold) { stop := Verified; break; }
      if candidate.depth < maxDepth {
        state.BranchOut(harvest, harvested, candidate.depth);
      } else {
        DeepestIsCovered(state, harvest);
      }
      if |state.evidence| >= EVIDENCE_BUDGET { stop := EvidenceBudget; break; }
      step := step + 1;
    }
    ValidStateIsTree(state, harvest);
    CompleteMeans(state, harvest);
  }

  /** The deepest visits have nothing to branch. */
  lemma DeepestIsCovered(state: ResearchState, harvest: Harvest)
    requires state.visited != [] && |state.visited| == |state.frontier.history|
    requires state.Complete(harvest, |state.visited| - 1)
    requires state.frontier.history[|state.visited| - 1].depth >= state.maxDepth
    ensures state.Complete(harvest, |state.visited|)
  {
    hide Suggests, Among;
  }

  lemma CompleteMeans(state: ResearchState, harvest: Harvest)
    requires state.Roomy() && state.visited == Topics(state.frontier.history)
    ensures |state.visited| <= 3 ==> state.frontier.dropped == []
    ensures state.Complete(harvest, |state.visited|) ==>
      Covered(harvest, state.maxDepth, state.frontier.history, |state.frontier.history|, state.frontier.candidates,
              state.frontier.dropped)
    ensures state.Complete(harvest, |state.visited|) && state.frontier.candidates == state.frontier.dropped == [] ==>
      forall v, topic | v in state.frontier.history && v.depth < state.maxDepth && Suggests(harvest, v.topic, topic) ::
        topic in state.visited
  {
    hide Suggests, Covered;
    if state.Complete(harvest, |state.visited|) && state.frontier.candidates == state.frontier.dropped == [] {
      CoveredIsVisited(harvest, state.maxDepth, state.frontier.history);
    }
  }

  lemma CoveredIsVisited(harvest: Harvest, maxDepth: int, history: seq<Visit>)
    requires Covered(harvest, maxDepth, history, |history|, [], [])
    ensures forall v, topic | v in history && v.depth < maxDepth && Suggests(harvest, v.topic, topic) ::
      topic in Topics(history)
  {
    hide Suggests;
    forall v, topic | v in history && v.depth < maxDepth && Suggests(harvest, v.topic, topic)
      ensures topic in Topics(history)
    {
      var i :| 0 <= i < |history| && history[i] == v;
    }
  }
}
