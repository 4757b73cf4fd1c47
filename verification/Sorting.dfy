/**
 * Stable sorting by a total preorder, as `Array.prototype.sort` and `list.sort` promise it.
 * The sorted sequence is pinned down completely: it is the only one that is in order and keeps
 * the relative order of equivalent elements.
 */
module Sorting {

  ghost predicate TotalPreorder<T(!new)>(leq: (T, T) -> bool) {
    && (forall x, y :: leq(x, y) || leq(y, x))
    && (forall x, y, z :: leq(x, y) && leq(y, z) ==> leq(x, z))
  }

  ghost predicate SortedBy<T>(leq: (T, T) -> bool, s: seq<T>) {
    forall i, j | 0 <= i < j < |s| :: leq(s[i], s[j])
  }

  /** Puts `x` behind the last element of `s` that may precede it. */
  function Insert<T>(leq: (T, T) -> bool, s: seq<T>, x: T): (r: seq<T>)
    ensures multiset(r) == multiset(s) + multiset{x}
    ensures |r| == |s| + 1
  {
    if s == [] then [x]
    else
      var last := |s| - 1;
      assert s == s[..last] + [s[last]];
      if leq(s[last], x) then s + [x] else Insert(leq, s[..last], x) + [s[last]]
  }

  function Sort<T>(leq: (T, T) -> bool, s: seq<T>): (r: seq<T>)
    ensures multiset(r) == multiset(s)
    ensures |r| == |s|
  {
    if s == [] then []
    else
      var last := |s| - 1;
      assert s == s[..last] + [s[last]];
      Insert(leq, Sort(leq, s[..last]), s[last])
  }

  /** The elements of `s` equivalent to `v`, in their order in `s`. */
  ghost function Class<T>(leq: (T, T) -> bool, v: T, s: seq<T>): seq<T> {
    if s == [] then []
    else
      var last := |s| - 1;
      Class(leq, v, s[..last]) + (if leq(s[last], v) && leq(v, s[last]) then [s[last]] else [])
  }

  ghost predicate SameClasses<T(!new)>(leq: (T, T) -> bool, s: seq<T>, r: seq<T>) {
    forall v :: Class(leq, v, s) == Class(leq, v, r)
  }

  /** `r` is `s` in order, equivalent elements keeping their order. */
  ghost predicate StableSortOf<T(!new)>(leq: (T, T) -> bool, s: seq<T>, r: seq<T>) {
    SortedBy(leq, r) && multiset(r) == multiset(s) && SameClasses(leq, s, r)
  }

  lemma {:induction false} InsertSorted<T(!new)>(leq: (T, T) -> bool, s: seq<T>, x: T)
    requires TotalPreorder(leq) && SortedBy(leq, s)
    ensures SortedBy(leq, Insert(leq, s, x))
  {
    if s != [] {
      var last := |s| - 1;
      if !leq(s[last], x) {
        InsertSorted(leq, s[..last], x);
        var r := Insert(leq, s[..last], x);
        assert Insert(leq, s, x) == r + [s[last]];
        hide Insert;
        forall i | 0 <= i < |r| ensures leq(r[i], s[last]) {
          assert r[i] in multiset(r);
          assert r[i] == x || r[i] in s[..last];
        }
        SortedMore(leq, r, s[last]);
      } else {
        forall i | 0 <= i < |s| ensures leq(s[i], x) {
          assert i < last ==> leq(s[i], s[last]);
        }
        SortedMore(leq, s, x);
      }
    }
  }

  lemma SortedMore<T>(leq: (T, T) -> bool, s: seq<T>, x: T)
    requires SortedBy(leq, s) && forall i | 0 <= i < |s| :: leq(s[i], x)
    ensures SortedBy(leq, s + [x])
  {
  }

  lemma {:induction false} InsertClass<T(!new)>(leq: (T, T) -> bool, s: seq<T>, x: T, v: T)
    requires TotalPreorder(leq) && SortedBy(leq, s)
    ensures Class(leq, v, Insert(leq, s, x)) == Class(leq, v, s + [x])
  {
    assert (s + [x])[..|s|] == s;
    if s != [] {
      var last := |s| - 1;
      if !leq(s[last], x) {
        InsertClass(leq, s[..last], x, v);
        var r := Insert(leq, s[..last], x);
        assert (r + [s[last]])[..|r|] == r;
        assert (s[..last] + [x])[..last] == s[..last];
      }
    }
  }

  /** The sort is in order, loses nothing, and is stable. */
  lemma {:induction false} SortIsStable<T(!new)>(leq: (T, T) -> bool, s: seq<T>)
    requires TotalPreorder(leq)
    ensures StableSortOf(leq, s, Sort(leq, s))
  {
    if s != [] {
      var last := |s| - 1;
      var front := s[..last];
      SortIsStable(leq, front);
      InsertSorted(leq, Sort(leq, front), s[last]);
      forall v ensures Class(leq, v, s) == Class(leq, v, Sort(leq, s)) {
        InsertClass(leq, Sort(leq, front), s[last], v);
        var t := Sort(leq, front) + [s[last]];
        assert t[..|front|] == Sort(leq, front);
        assert Class(leq, v, front) == Class(leq, v, Sort(leq, front));
      }
    }
  }

  lemma {:induction false} ClassMembers<T>(leq: (T, T) -> bool, v: T, s: seq<T>)
    ensures forall x :: x in Class(leq, v, s) <==> x in s && leq(x, v) && leq(v, x)
  {
    if s != [] {
      ClassMembers(leq, v, s[..|s| - 1]);
      assert s == s[..|s| - 1] + [s[|s| - 1]];
    }
  }

  ghost function Last<T>(s: seq<T>): T requires s != [] { s[|s| - 1] }

  ghost function Front<T>(s: seq<T>): seq<T> requires s != [] { s[..|s| - 1] }

  /** Sequences in order with the same classes end in the same element. */
  lemma LastAgrees<T(!new)>(leq: (T, T) -> bool, r: seq<T>, t: seq<T>)
    requires TotalPreorder(leq) && SortedBy(leq, r) && SortedBy(leq, t) && SameClasses(leq, r, t)
    requires r != []
    ensures t != [] && Last(r) == Last(t)
  {
    var a := Last(r);
    ClassMembers(leq, a, r);
    ClassMembers(leq, a, t);
    assert a in Class(leq, a, t);
    var b := Last(t);
    ClassMembers(leq, b, r);
    ClassMembers(leq, b, t);
    assert b in Class(leq, b, r);
    assert leq(a, b) && leq(b, a);
    assert Last(Class(leq, a, r)) == a && Last(Class(leq, a, t)) == b;
  }

  lemma FrontClass<T(!new)>(leq: (T, T) -> bool, r: seq<T>, t: seq<T>, v: T)
    requires r != [] && t != [] && Last(r) == Last(t)
    requires Class(leq, v, r) == Class(leq, v, t)
    ensures Class(leq, v, Front(r)) == Class(leq, v, Front(t))
  {
    var tail := if leq(Last(r), v) && leq(v, Last(r)) then [Last(r)] else [];
    assert Class(leq, v, Front(r)) + tail == Class(leq, v, Front(t)) + tail;
    assert (Class(leq, v, Front(r)) + tail)[..|Class(leq, v, Front(r))|] == Class(leq, v, Front(r));
  }

  /** Order and stability leave no freedom. */
  lemma {:induction false} StableSortIsUnique<T(!new)>(leq: (T, T) -> bool, r: seq<T>, t: seq<T>)
    requires TotalPreorder(leq) && SortedBy(leq, r) && SortedBy(leq, t) && SameClasses(leq, r, t)
    ensures r == t
    decreases |r|
  {
    if r == [] {
      if t != [] { LastAgrees(leq, t, r); }
    } else {
      LastAgrees(leq, r, t);
      forall v ensures Class(leq, v, Front(r)) == Class(leq, v, Front(t)) {
        FrontClass(leq, r, t, v);
      }
      StableSortIsUnique(leq, Front(r), Front(t));
      assert r == Front(r) + [Last(r)] && t == Front(t) + [Last(t)];
    }
  }

  /** A sequence already in order is its own sort. */
  lemma SortOfSorted<T(!new)>(leq: (T, T) -> bool, s: seq<T>)
    requires TotalPreorder(leq) && SortedBy(leq, s)
    ensures Sort(leq, s) == s
  {
    SortIsStable(leq, s);
    StableSortIsUnique(leq, s, Sort(leq, s));
  }

  // ---------------------------------------------------------------- what a permutation keeps

  function Total<T>(weight: T -> nat, s: seq<T>): nat {
    if s == [] then 0 else Total(weight, s[..|s| - 1]) + weight(s[|s| - 1])
  }

  lemma {:induction false} TotalOfInsert<T>(weight: T -> nat, leq: (T, T) -> bool, s: seq<T>, x: T)
    ensures Total(weight, Insert(leq, s, x)) == Total(weight, s) + weight(x)
  {
    if s == [] {
      assert [x][..0] == [];
    } else {
      var last := |s| - 1;
      assert (s + [x])[..|s|] == s;
      if !leq(s[last], x) {
        TotalOfInsert(weight, leq, s[..last], x);
        var r := Insert(leq, s[..last], x);
        assert (r + [s[last]])[..|r|] == r;
      }
    }
  }

  lemma {:induction false} TotalOfSort<T>(weight: T -> nat, leq: (T, T) -> bool, s: seq<T>)
    ensures Total(weight, Sort(leq, s)) == Total(weight, s)
  {
    if s != [] {
      TotalOfSort(weight, leq, s[..|s| - 1]);
      TotalOfInsert(weight, leq, Sort(leq, s[..|s| - 1]), s[|s| - 1]);
    }
  }

  lemma {:induction false} TotalOfConcat<T>(weight: T -> nat, a: seq<T>, b: seq<T>)
    ensures Total(weight, a + b) == Total(weight, a) + Total(weight, b)
  {
    if b == [] {
      assert a + b == a;
    } else {
      assert (a + b)[..|a + b| - 1] == a + b[..|b| - 1];
      TotalOfConcat(weight, a, b[..|b| - 1]);
    }
  }

  lemma {:induction false} TotalPointwise<T>(weight: T -> nat, r: seq<T>, s: seq<T>)
    requires |r| == |s| && forall i | 0 <= i < |s| :: weight(r[i]) <= weight(s[i])
    ensures Total(weight, r) <= Total(weight, s)
    ensures Total(weight, r) == Total(weight, s) ==> forall i | 0 <= i < |s| :: weight(r[i]) == weight(s[i])
  {
    if s != [] {
      TotalPointwise(weight, r[..|r| - 1], s[..|s| - 1]);
      assert forall i | 0 <= i < |s| - 1 :: r[..|r| - 1][i] == r[i] && s[..|s| - 1][i] == s[i];
    }
  }

  ghost predicate DistinctBy<T, K>(key: T -> K, s: seq<T>) {
    forall i, j | 0 <= i < j < |s| :: key(s[i]) != key(s[j])
  }

  lemma {:induction false} DistinctOccursOnce<T, K>(key: T -> K, s: seq<T>, x: T)
    requires DistinctBy(key, s)
    ensures multiset(s)[x] <= 1
  {
    if s != [] {
      var last := |s| - 1;
      assert s == s[..last] + [s[last]];
      DistinctOccursOnce(key, s[..last], x);
      if x == s[last] { assert x !in s[..last]; }
    }
  }

  lemma PermutationKeepsDistinct<T, K>(key: T -> K, s: seq<T>, r: seq<T>)
    requires DistinctBy(key, s) && multiset(s) == multiset(r)
    ensures DistinctBy(key, r)
  {
    forall i, j | 0 <= i < j < |r| ensures key(r[i]) != key(r[j]) {
      DistinctOccursOnce(key, s, r[i]);
      OccursTwice(r, i, j);
      assert r[i] in multiset(s) && r[j] in multiset(s);
      var p :| 0 <= p < |s| && s[p] == r[i];
      var q :| 0 <= q < |s| && s[q] == r[j];
    }
  }

  lemma OccursTwice<T>(r: seq<T>, i: nat, j: nat)
    requires i < j < |r|
    ensures r[i] == r[j] ==> multiset(r)[r[i]] >= 2
  {
    var a, b := r[..j], r[j..];
    assert r == a + b && a[i] == r[i] && b[0] == r[j];
    assert r[i] in multiset(a) && r[j] in multiset(b);
    assert multiset(r) == multiset(a) + multiset(b);
  }
}
