/** Splitting at a separator and joining with it are inverse to each other. */
module Splitting {
  import opened Common

  lemma IndexOfFirst<T>(s: seq<T>, x: T, i: nat)
    requires i < |s| && s[i] == x && x !in s[..i]
    ensures IndexOf(s, x) == Some(i)
  {
    var j := IndexOf(s, x).value;
    assert forall k | 0 <= k < i :: s[k] == s[..i][k] != x;
    assert forall k | 0 <= k < j :: s[k] == s[..j][k] != x;
  }

  lemma IndexOfExtends<T>(a: seq<T>, rest: seq<T>, x: T)
    requires x in a
    ensures IndexOf(a + rest, x) == IndexOf(a, x)
  {
    var i := IndexOf(a, x).value;
    assert (a + rest)[..i] == a[..i];
    IndexOfFirst(a + rest, x, i);
  }

  /** `parts.join(separator)`. */
  function Joined<T>(parts: seq<seq<T>>, separator: T): seq<T>
    requires parts != []
  {
    if |parts| == 1 then parts[0] else parts[0] + [separator] + Joined(parts[1..], separator)
  }

  lemma JoinedCons<T>(a: seq<T>, parts: seq<seq<T>>, separator: T)
    requires parts != []
    ensures Joined([a] + parts, separator) == a + [separator] + Joined(parts, separator)
  {
    assert ([a] + parts)[1..] == parts;
  }

  /** Splitting loses nothing. */
  lemma {:induction false} JoinSplit<T>(s: seq<T>, separator: T)
    ensures Joined(Split(s, separator), separator) == s
    decreases |s|
  {
    hide IndexOf;
    match IndexOf(s, separator)
    case None =>
    case Some(i) =>
      var rest := Split(s[i + 1..], separator);
      assert Split(s, separator) == [s[..i]] + rest;
      hide Split;
      JoinSplit(s[i + 1..], separator);
      JoinedCons(s[..i], rest, separator);
      assert s == s[..i] + [separator] + s[i + 1..];
  }

  lemma SplitOnce<T>(a: seq<T>, rest: seq<T>, separator: T)
    requires separator !in a
    ensures Split(a + [separator] + rest, separator) == [a] + Split(rest, separator)
  {
    var s := a + [separator] + rest;
    assert s[..|a|] == a && s[|a|] == separator && s[|a| + 1..] == rest;
    IndexOfFirst(s, separator, |a|);
  }

  /** Parts that do not hold the separator come back. */
  lemma {:induction false} SplitJoin<T>(parts: seq<seq<T>>, separator: T)
    requires parts != [] && forall p | p in parts :: separator !in p
    ensures Split(Joined(parts, separator), separator) == parts
  {
    assert parts[0] in parts;
    if |parts| > 1 {
      assert forall p | p in parts[1..] :: p in parts;
      SplitJoin(parts[1..], separator);
      SplitOnce(parts[0], Joined(parts[1..], separator), separator);
      hide Split;
      assert parts == [parts[0]] + parts[1..];
    }
  }

  /** Two lists of parts whose texts are put side by side: the parts that meet become one. */
  function Glue<T>(x: seq<seq<T>>, y: seq<seq<T>>): (r: seq<seq<T>>)
    requires x != [] && y != []
  {
    x[..|x| - 1] + [x[|x| - 1] + y[0]] + y[1..]
  }

  lemma SplitPlain<T>(s: seq<T>, separator: T)
    requires separator !in s
    ensures Split(s, separator) == [s]
  {
  }

  lemma {:induction false} JoinedGlue<T>(x: seq<seq<T>>, y: seq<seq<T>>, separator: T)
    requires x != [] && y != []
    ensures Joined(Glue(x, y), separator) == Joined(x, separator) + Joined(y, separator)
  {
    if |x| == 1 {
      var met := x[0] + y[0];
      assert Glue(x, y) == [met] + y[1..];
      if |y| > 1 {
        JoinedCons(met, y[1..], separator);
        assert y == [y[0]] + y[1..];
      }
    } else {
      var rest := x[1..];
      assert Glue(x, y) == [x[0]] + Glue(rest, y) by { assert x == [x[0]] + rest; }
      JoinedGlue(rest, y, separator);
      JoinedCons(x[0], Glue(rest, y), separator);
    }
  }

  lemma SplitConcat<T>(x: seq<T>, y: seq<T>, separator: T)
    ensures Split(x + y, separator) == Glue(Split(x, separator), Split(y, separator))
  {
    hide Split, Joined;
    var xs, ys := Split(x, separator), Split(y, separator);
    JoinSplit(x, separator);
    JoinSplit(y, separator);
    JoinedGlue(xs, ys, separator);
    forall p | p in Glue(xs, ys) ensures separator !in p {
      assert p in xs || p in ys || p == xs[|xs| - 1] + ys[0];
      assert xs[|xs| - 1] in xs && ys[0] in ys;
    }
    SplitJoin(Glue(xs, ys), separator);
  }

  lemma {:induction false} JoinedEnds<T>(parts: seq<seq<T>>, separator: T)
    requires parts != [] && forall i | 0 <= i < |parts| :: parts[i] != []
    ensures var s := Joined(parts, separator);
      var last := parts[|parts| - 1];
      s != [] && s[0] == parts[0][0] && s[|s| - 1] == last[|last| - 1]
  {
    if |parts| > 1 {
      JoinedEnds(parts[1..], separator);
    }
  }

  lemma {:induction false} JoinedCharacters<T>(parts: seq<seq<T>>, separator: T, i: nat)
    requires parts != [] && i < |Joined(parts, separator)|
    ensures Joined(parts, separator)[i] == separator || exists p :: p in parts && Joined(parts, separator)[i] in p
  {
    assert parts[0] in parts;
    if |parts| > 1 && i > |parts[0]| {
      JoinedCharacters(parts[1..], separator, i - |parts[0]| - 1);
    }
  }
}
