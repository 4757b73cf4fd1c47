/**
 * `DiscoveryFrontier`: research branches by descending value, at most so many of them. Each addition sorts and
 * truncates on its own; scores are exact reals.
 */
module Frontier {
  import opened Common
  import opened Sorting
  import Whitespace

  datatype Candidate = Candidate(topic: string, relevance: real, novelty: real, verification: real,
                                 informationGain: real, depth: int, parent: Option<string>)

  function ResearchValue(c: Candidate): real {
    (c.relevance + c.novelty + c.verification + c.informationGain) / 4.0
  }

  function Scores(c: Candidate): seq<real> { [c.relevance, c.novelty, c.verification, c.informationGain] }

  function SumOf(s: seq<real>): real { if s == [] then 0.0 else s[0] + SumOf(s[1..]) }

  lemma {:induction false} SumWithout(s: seq<real>, i: nat)
    requires i < |s|
    ensures SumOf(s) == s[i] + SumOf(s[..i] + s[i + 1..])
  {
    var rest := s[..i] + s[i + 1..];
    if i > 0 {
      assert SumOf(s) == s[0] + SumOf(s[1..]);
      assert rest[0] == s[0] && rest[1..] == s[1..][..i - 1] + s[1..][i - 1 + 1..];
      assert SumOf(rest) == s[0] + SumOf(rest[1..]);
      hide SumOf;
      SumWithout(s[1..], i - 1);
    } else {
      assert rest == s[1..];
    }
  }

  lemma Removed<T>(s: seq<T>, i: nat)
    requires i < |s|
    ensures multiset(s) == multiset(s[..i] + s[i + 1..]) + multiset{s[i]}
  {
    assert s == s[..i] + ([s[i]] + s[i + 1..]);
  }

  lemma Cancel<T>(a: multiset<T>, b: multiset<T>, x: T)
    requires a + multiset{x} == b + multiset{x}
    ensures a == b
  {
    assert (a + multiset{x}) - multiset{x} == a && (b + multiset{x}) - multiset{x} == b;
  }

  lemma SameRest(s: seq<real>, t: seq<real>, i: nat)
    requires multiset(s) == multiset(t) && s != [] && i < |t| && t[i] == s[0]
    ensures multiset(s[1..]) == multiset(t[..i] + t[i + 1..])
  {
    Removed(t, i);
    Removed(s, 0);
    assert s[..0] + s[0 + 1..] == s[1..];
    Cancel(multiset(s[1..]), multiset(t[..i] + t[i + 1..]), s[0]);
  }

  lemma {:induction false} SameScoresSameSum(s: seq<real>, t: seq<real>)
    requires multiset(s) == multiset(t)
    ensures SumOf(s) == SumOf(t)
  {
    if s == [] {
      assert |multiset(t)| == 0;
    } else {
      assert SumOf(s) == s[0] + SumOf(s[1..]);
      hide SumOf;
      assert s[0] in multiset(t);
      var i :| 0 <= i < |t| && t[i] == s[0];
      SumWithout(t, i);
      SameRest(s, t, i);
      SameScoresSameSum(s[1..], t[..i] + t[i + 1..]);
    }
  }

  lemma SumOfFour(a: real, b: real, c: real, d: real)
    ensures SumOf([a, b, c, d]) == a + b + c + d
  {
    assert [a, b, c, d][1..] == [b, c, d] && [b, c, d][1..] == [c, d] && [c, d][1..] == [d];
    assert SumOf([d]) == d;
    assert SumOf([c, d]) == c + d;
    assert SumOf([b, c, d]) == b + c + d;
  }

  /** The order of the four scores does not matter. */
  lemma ScoresWeighTheSame(c: Candidate, d: Candidate)
    requires multiset(Scores(c)) == multiset(Scores(d))
    ensures ResearchValue(c) == ResearchValue(d)
  {
    SameScoresSameSum(Scores(c), Scores(d));
    hide SumOf;
    SumOfFour(c.relevance, c.novelty, c.verification, c.informationGain);
    SumOfFour(d.relevance, d.novelty, d.verification, d.informationGain);
  }

  /** Raising any score raises the value; four equal scores are the value. */
  lemma ValueGrowsWithScores(c: Candidate, d: Candidate)
    requires c.relevance <= d.relevance && c.novelty <= d.novelty
    requires c.verification <= d.verification && c.informationGain <= d.informationGain
    ensures Scores(c) != Scores(d) ==> ResearchValue(c) < ResearchValue(d)
    ensures Scores(c) == seq(4, _ => c.relevance) ==> ResearchValue(c) == c.relevance
  {
    var x, y := c.relevance, d.relevance;
    assert c.relevance + c.novelty + c.verification + c.informationGain == x + x + x + x ==> ResearchValue(c) == x;
    assert Scores(c) == seq(4, _ => x) ==> Scores(c)[1] == x && Scores(c)[2] == x && Scores(c)[3] == x;
  }

  /** Descending value. */
  predicate NotBelow(x: Candidate, y: Candidate) { ResearchValue(x) >= ResearchValue(y) }

  /** `s[:k]`, which for a negative bound counts from the end. */
  function Slice<T>(s: seq<T>, k: int): (r: seq<T>)
    ensures r <= s
  {
    if k >= |s| then s else if k >= 0 then s[..k] else if -k >= |s| then [] else s[..|s| + k]
  }

  /** White space that `str.strip()` removes. */
  predicate Space(c: char) {
    var n := c as int;
    || 0x09 <= n <= 0x0D || 0x1C <= n <= 0x20 || n == 0x85 || n == 0xA0 || n == 0x1680 || 0x2000 <= n <= 0x200A
    || n == 0x2028 || n == 0x2029 || n == 0x202F || n == 0x205F || n == 0x3000
  }

  function Strip(s: string): string { Whitespace.TrimBy(Space, s) }

  // ---------------------------------------------------------------- streaming top-k

  /** What a slice leaves behind. */
  function Beyond<T>(s: seq<T>, k: int): (r: seq<T>)
    ensures Slice(s, k) + r == s
  {
    s[|Slice(s, k)|..]
  }

  /** Nothing is lost: what was added is still there or was cut off. */
  ghost predicate Conserved(before: seq<Candidate>, cut: seq<Candidate>, added: seq<Candidate>,
                            after: seq<Candidate>, cutAfter: seq<Candidate>)
  {
    cut <= cutAfter &&
    multiset(after) + multiset(cutAfter) == multiset(before) + multiset(cut) + multiset(added)
  }

  lemma NothingAdded(before: seq<Candidate>, cut: seq<Candidate>)
    ensures Conserved(before, cut, [], before, cut)
  {
  }

  lemma AdditionConserves(k: int, before: seq<Candidate>, cut: seq<Candidate>, c: Candidate)
    ensures var sorted := Sort(NotBelow, before + [c]);
      Conserved(before, cut, [c], Slice(sorted, k), cut + Beyond(sorted, k))
  {
    hide Sort, Slice, Beyond;
    var sorted := Sort(NotBelow, before + [c]);
    var kept, beyond := Slice(sorted, k), Beyond(sorted, k);
    assert multiset(kept + beyond) == multiset(sorted) == multiset(before + [c]);
    assert multiset(kept) + multiset(beyond) == multiset(before) + multiset([c]);
    assert multiset(cut + beyond) == multiset(cut) + multiset(beyond);
    assert multiset(kept) + multiset(cut + beyond) == multiset(before) + multiset([c]) + multiset(cut);
  }

  lemma ConservedTwice(before: seq<Candidate>, cut: seq<Candidate>, a: seq<Candidate>, b: seq<Candidate>,
                       middle: seq<Candidate>, cutMiddle: seq<Candidate>, after: seq<Candidate>,
                       cutAfter: seq<Candidate>)
    requires Conserved(before, cut, a, middle, cutMiddle) && Conserved(middle, cutMiddle, b, after, cutAfter)
    ensures Conserved(before, cut, a + b, after, cutAfter)
  {
  }

  /** One addition to the list: append, sort, truncate. */
  function Added(k: int, frontier: seq<Candidate>, c: Candidate): seq<Candidate> {
    Slice(Sort(NotBelow, frontier + [c]), k)
  }

  /** Additions one after the other. */
  function AddedAll(k: int, frontier: seq<Candidate>, cs: seq<Candidate>): seq<Candidate> {
    if cs == [] then frontier else Added(k, AddedAll(k, frontier, cs[..|cs| - 1]), cs[|cs| - 1])
  }

  lemma ValueOrder()
    ensures TotalPreorder(NotBelow)
  {
  }

  lemma InsertBehindPrefix(s: seq<Candidate>, x: Candidate, k: nat)
    requires SortedBy(NotBelow, s) && k < |s| && NotBelow(s[|s| - 1], x)
    ensures Insert(NotBelow, s, x)[..k] == s[..k] && Slice(Insert(NotBelow, s[..k], x), k) == s[..k]
  {
    assert Insert(NotBelow, s, x) == s + [x];
    if k > 0 {
      assert k - 1 < |s| - 1 ==> NotBelow(s[k - 1], s[|s| - 1]);
      assert s[..k][k - 1] == s[k - 1];
      assert Insert(NotBelow, s[..k], x) == s[..k] + [x];
    }
  }

  lemma InsertBeforeLast(s: seq<Candidate>, x: Candidate, k: nat)
    requires k < |s| && !NotBelow(s[|s| - 1], x)
    ensures Slice(Insert(NotBelow, s, x), k) == Slice(Insert(NotBelow, s[..|s| - 1], x), k)
  {
    hide NotBelow;
    var r := Insert(NotBelow, s[..|s| - 1], x);
    assert Insert(NotBelow, s, x) == r + [s[|s| - 1]];
    assert (r + [s[|s| - 1]])[..k] == r[..k];
  }

  /** What lies beyond the first `k` places cannot come back by an insertion. */
  lemma {:induction false} InsertIntoPrefix(s: seq<Candidate>, x: Candidate, k: nat)
    requires SortedBy(NotBelow, s)
    ensures Slice(Insert(NotBelow, Slice(s, k), x), k) == Slice(Insert(NotBelow, s, x), k)
  {
    hide NotBelow;
    if k < |s| {
      var last := |s| - 1;
      if NotBelow(s[last], x) {
        InsertBehindPrefix(s, x, k);
      } else {
        InsertBeforeLast(s, x, k);
        hide Insert;
        InsertIntoPrefix(s[..last], x, k);
        assert Slice(s[..last], k) == s[..k];
      }
    }
  }

  lemma SortSnoc(s: seq<Candidate>, x: Candidate)
    ensures Sort(NotBelow, s + [x]) == Insert(NotBelow, Sort(NotBelow, s), x)
  {
    assert (s + [x])[..|s|] == s;
  }

  lemma PrefixIsSorted(s: seq<Candidate>, k: int)
    requires SortedBy(NotBelow, s)
    ensures SortedBy(NotBelow, Slice(s, k))
  {
  }

  lemma AddedToPrefix(k: nat, s: seq<Candidate>, x: Candidate)
    requires SortedBy(NotBelow, s)
    ensures Added(k, Slice(s, k), x) == Slice(Insert(NotBelow, s, x), k)
  {
    hide NotBelow, Insert, Sort;
    ValueOrder();
    PrefixIsSorted(s, k);
    SortOfSorted(NotBelow, Slice(s, k));
    SortSnoc(Slice(s, k), x);
    InsertIntoPrefix(s, x, k);
  }

  /** Sorting and truncating after every addition is the same as sorting everything once and truncating. */
  lemma {:induction false} StreamingTopK(k: nat, frontier: seq<Candidate>, cs: seq<Candidate>)
    requires SortedBy(NotBelow, frontier) && |frontier| <= k
    ensures AddedAll(k, frontier, cs) == Slice(Sort(NotBelow, frontier + cs), k)
  {
    hide NotBelow, Insert, Sort, Added;
    ValueOrder();
    if cs == [] {
      SortOfSorted(NotBelow, frontier);
      assert frontier + cs == frontier;
    } else {
      var front, x := cs[..|cs| - 1], cs[|cs| - 1];
      StreamingTopK(k, frontier, front);
      SortIsStable(NotBelow, frontier + front);
      AddedToPrefix(k, Sort(NotBelow, frontier + front), x);
      SortSnoc(frontier + front, x);
      assert frontier + front + [x] == frontier + cs;
    }
  }

  /** An addition keeps the order and the bound. */
  lemma AddedIsSorted(k: int, frontier: seq<Candidate>, c: Candidate)
    ensures SortedBy(NotBelow, Added(k, frontier, c)) && (k >= 0 ==> |Added(k, frontier, c)| <= k)
  {
    hide NotBelow, Insert, Sort;
    ValueOrder();
    SortIsStable(NotBelow, frontier + [c]);
    PrefixIsSorted(Sort(NotBelow, frontier + [c]), k);
  }

  lemma AddedOne(k: int, frontier: seq<Candidate>, c: Candidate)
    ensures AddedAll(k, frontier, [c]) == Added(k, frontier, c) && AddedAll(k, frontier, []) == frontier
  {
    assert [c][..0] == [];
  }

  lemma {:induction false} NegativeBoundKeepsNothing(k: int, cs: seq<Candidate>)
    requires k < 0
    ensures AddedAll(k, [], cs) == []
  {
    if cs != [] { NegativeBoundKeepsNothing(k, cs[..|cs| - 1]); }
  }

  /** The law holds for all additions exactly when the bound is not negative. */
  lemma StreamingNeedsABound(k: int, c: Candidate)
    ensures (forall cs :: AddedAll(k, [], cs) == Slice(Sort(NotBelow, cs), k)) <==> k >= 0
  {
    if k >= 0 {
      forall cs ensures AddedAll(k, [], cs) == Slice(Sort(NotBelow, cs), k) {
        StreamingTopK(k, [], cs);
        assert [] + cs == cs;
      }
    } else {
      var cs := seq(1 - k, _ => c);
      NegativeBoundKeepsNothing(k, cs);
      assert |Slice(Sort(NotBelow, cs), k)| == 1;
    }
  }

  // ---------------------------------------------------------------- the frontier

  datatype Visit = Visit(topic: string, parent: Option<string>, researchValue: real, depth: int)

  function VisitOf(c: Candidate): Visit { Visit(c.topic, c.parent, ResearchValue(c), c.depth) }

  /** The candidate a frontier would take, with its topic stripped, or nothing. */
  function Accept(c: Candidate, maxDepth: int, visited: set<string>): (r: seq<Candidate>) {
    var topic := Strip(c.topic);
    if topic == [] || c.depth > maxDepth || topic in visited then [] else [c.(topic := topic)]
  }

  function Accepted(cs: seq<Candidate>, maxDepth: int, visited: set<string>): (r: seq<Candidate>) {
    if cs == [] then []
    else Accepted(cs[..|cs| - 1], maxDepth, visited) + Accept(cs[|cs| - 1], maxDepth, visited)
  }

  /** The place of the first candidate whose topic has not been visited. */
  function FirstUnvisited(cs: seq<Candidate>, visited: set<string>): (i: nat)
    ensures i <= |cs| && (i < |cs| ==> cs[i].topic !in visited)
    ensures forall j | 0 <= j < i :: cs[j].topic in visited
  {
    if cs == [] || cs[0].topic !in visited then 0
    else
      var i := FirstUnvisited(cs[1..], visited);
      assert forall j | 0 < j < i + 1 :: cs[j] == cs[1..][j - 1];
      i + 1
  }

  class DiscoveryFrontier {
    const maxDepth: int
    const maxCandidates: int
    var candidates: seq<Candidate>
    var visited: set<string>
    var history: seq<Visit>
    /** Everything the bound has cut off so far. */
    ghost var dropped: seq<Candidate>

    /** Candidates are in order and, with a sensible bound, within it. */
    ghost predicate Valid()
      reads this
    {
      SortedBy(NotBelow, candidates) && (maxCandidates >= 0 ==> |candidates| <= maxCandidates)
    }

    constructor (maxDepth: int, maxCandidates: int)
      ensures Valid() && candidates == [] && visited == {} && history == [] && dropped == []
      ensures this.maxDepth == maxDepth && this.maxCandidates == maxCandidates
    {
      this.maxDepth, this.maxCandidates := maxDepth, maxCandidates;
      candidates, visited, history, dropped := [], {}, [], [];
    }

    method Add(candidate: Candidate) returns (added: bool)
      requires Valid()
      modifies this`candidates, this`dropped
      ensures Valid()
      ensures added <==> Accept(candidate, maxDepth, visited) != []
      ensures Conserved(old(candidates), old(dropped), Accept(candidate, maxDepth, visited), candidates, dropped)
      ensures candidates == AddedAll(maxCandidates, old(candidates), Accept(candidate, maxDepth, visited))
    {
      hide Sort, NotBelow, AddedAll, Conserved;
      NothingAdded(candidates, dropped);
      AdditionConserves(maxCandidates, candidates, dropped, candidate.(topic := Strip(candidate.topic)));
      var topic := Strip(candidate.topic);
      AddedOne(maxCandidates, candidates, candidate.(topic := topic));
      if topic == [] || candidate.depth > maxDepth || topic in visited { return false; }
      AddedIsSorted(maxCandidates, candidates, candidate.(topic := topic));
      var sorted := Sort(NotBelow, candidates + [candidate.(topic := topic)]);
      candidates, dropped := Slice(sorted, maxCandidates), dropped + Beyond(sorted, maxCandidates);
      return true;
    }

    /** All additions at once: the top candidates of what was there and everything acceptable. */
    method Extend(cs: seq<Candidate>)
      requires Valid()
      modifies this`candidates, this`dropped
      ensures Valid()
      ensures Conserved(old(candidates), old(dropped), Accepted(cs, maxDepth, visited), candidates, dropped)
      ensures candidates == AddedAll(maxCandidates, old(candidates), Accepted(cs, maxDepth, visited))
      ensures maxCandidates >= 0 ==>
        candidates == Slice(Sort(NotBelow, old(candidates) + Accepted(cs, maxDepth, visited)), maxCandidates)
    {
      hide Sort, NotBelow, Accept, Conserved;
      NothingAdded(candidates, dropped);
      for i := 0 to |cs|
        invariant Valid()
        invariant candidates == AddedAll(maxCandidates, old(candidates), Accepted(cs[..i], maxDepth, visited))
        invariant Conserved(old(candidates), old(dropped), Accepted(cs[..i], maxDepth, visited), candidates, dropped)
      {
        ghost var middle, cutMiddle := candidates, dropped;
        ghost var before, one := Accepted(cs[..i], maxDepth, visited), Accept(cs[i], maxDepth, visited);
        var added := Add(cs[i]);
        assert cs[..i + 1][..i] == cs[..i];
        AddedAllConcat(maxCandidates, old(candidates), before, one);
        ConservedTwice(old(candidates), old(dropped), before, one, middle, cutMiddle, candidates, dropped);
      }
      assert cs[..|cs|] == cs;
      if maxCandidates >= 0 { StreamingTopK(maxCandidates, old(candidates), Accepted(cs, maxDepth, visited)); }
    }

    /** The most valuable branch not yet visited, or none; everything before it is dropped. */
    method PopNext() returns (next: Option<Candidate>)
      requires Valid()
      modifies this
      ensures Valid() && dropped == old(dropped)
      ensures var i := FirstUnvisited(old(candidates), old(visited));
        if i == |old(candidates)|
        then next == None && candidates == [] && visited == old(visited) && history == old(history)
        else && next == Some(old(candidates)[i]) && candidates == old(candidates)[i + 1..]
             && visited == old(visited) + {next.value.topic} && history == old(history) + [VisitOf(next.value)]
    {
      ghost var i := 0;
      while candidates != []
        invariant i <= FirstUnvisited(old(candidates), old(visited)) && candidates == old(candidates)[i..]
        invariant visited == old(visited) && history == old(history) && dropped == old(dropped)
        decreases |candidates|
      {
        var candidate := candidates[0];
        candidates := candidates[1..];
        assert candidate == old(candidates)[i];
        i := i + 1;
        if candidate.topic in visited { continue; }
        visited := visited + {candidate.topic};
        history := history + [VisitOf(candidate)];
        return Some(candidate);
      }
      return None;
    }
  }

  lemma {:induction false} AddedAllConcat(k: int, frontier: seq<Candidate>, a: seq<Candidate>, b: seq<Candidate>)
    ensures AddedAll(k, frontier, a + b) == AddedAll(k, AddedAll(k, frontier, a), b)
  {
    if b == [] {
      assert a + b == a;
    } else {
      assert (a + b)[..|a + b| - 1] == a + b[..|b| - 1];
      AddedAllConcat(k, frontier, a, b[..|b| - 1]);
    }
  }

  /** The popped branch is worth at least as much as any other unvisited one. */
  lemma PoppedIsBest(cs: seq<Candidate>, visited: set<string>, j: nat)
    requires SortedBy(NotBelow, cs) && j < |cs| && cs[j].topic !in visited
    ensures FirstUnvisited(cs, visited) < |cs|
    ensures ResearchValue(cs[FirstUnvisited(cs, visited)]) >= ResearchValue(cs[j])
  {
    var i := FirstUnvisited(cs, visited);
    assert i <= j;
    assert i < j ==> NotBelow(cs[i], cs[j]);
  }
}
