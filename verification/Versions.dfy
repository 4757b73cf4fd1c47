/**
 * Release versions as strings: comparing them without converting to numbers, and deriving a nightly
 * version. Precedence is that of section 11 of Semantic Versioning 2.0.0.
 */
module Versions {
  import opened Common
  import opened Decimals
  import opened Splitting

  // ---------------------------------------------------------------- numeric identifiers

  /** `left < right` on strings of UTF-16 code units. */
  predicate StringLess(a: string, b: string) {
    b != [] && (a == [] || a[0] < b[0] || (a[0] == b[0] && StringLess(a[1..], b[1..])))
  }

  /** `compareNumericIdentifiers`: by length, then as strings. */
  function CompareNumeric(a: string, b: string): (r: int) {
    if |a| != |b| then if |a| < |b| then -1 else 1
    else if StringLess(a, b) then -1
    else if StringLess(b, a) then 1
    else 0
  }

  function Sign(n: int): int { if n < 0 then -1 else if n > 0 then 1 else 0 }

  function Pow10(k: nat): (r: nat)
    ensures r > 0
  {
    if k == 0 then 1 else 10 * Pow10(k - 1)
  }

  lemma TimesTen(d: int, p: int)
    ensures 10 * (d * p) == d * (10 * p)
  {
  }

  lemma NextMultiple(x: int, y: int, p: nat)
    requires x < y
    ensures x * p + p <= y * p
  {
    assert (x + 1) * p <= y * p;
  }

  function Leading(s: string): (d: nat)
    requires Digits(s) && s != []
  {
    assert Digit(s[0]);
    s[0] as int - '0' as int
  }

  lemma {:induction false} ValueFromFront(s: string)
    requires Digits(s) && s != []
    ensures Value(s) == Leading(s) * Pow10(|s| - 1) + Value(s[1..])
  {
    var last := |s| - 1;
    if last > 0 {
      var front, back := s[..last], s[1..];
      ValueFromFront(front);
      assert front[1..] == back[..|back| - 1] && back[|back| - 1] == s[last];
      TimesTen(Leading(s), Pow10(last - 1));
    } else {
      assert s[..0] == [] && s[1..] == [];
    }
  }

  lemma {:induction false} ValueBound(s: string)
    requires Digits(s)
    ensures Value(s) < Pow10(|s|)
  {
    if s != [] { ValueBound(s[..|s| - 1]); }
  }

  lemma CanonicalIsLarge(s: string)
    requires Canonical(s) && |s| > 1
    ensures Value(s) >= Pow10(|s| - 1)
  {
    ValueFromFront(s);
    assert Digit(s[0]);
    NextMultiple(0, Leading(s), Pow10(|s| - 1));
  }

  lemma {:induction false} Pow10Grows(j: nat, k: nat)
    requires j <= k
    ensures Pow10(j) <= Pow10(k)
  {
    if j < k { Pow10Grows(j, k - 1); }
  }

  lemma FrontAgrees(a: string, b: string)
    requires Digits(a) && Digits(b) && a != [] && b != []
    ensures a[0] < b[0] <==> Leading(a) < Leading(b)
    ensures a == b <==> Leading(a) == Leading(b) && a[1..] == b[1..]
  {
    assert a == [a[0]] + a[1..] && b == [b[0]] + b[1..];
  }

  /** On equal lengths the order of strings is the order of numbers. */
  lemma {:induction false} SameLengthOrder(a: string, b: string)
    requires Digits(a) && Digits(b) && |a| == |b|
    ensures StringLess(a, b) <==> Value(a) < Value(b)
    ensures a == b <==> Value(a) == Value(b)
    decreases |a|
  {
    if a != [] {
      ValueFromFront(a);
      ValueFromFront(b);
      ValueBound(a[1..]);
      ValueBound(b[1..]);
      SameLengthOrder(a[1..], b[1..]);
      var x, y, p := Leading(a), Leading(b), Pow10(|a| - 1);
      if x < y { NextMultiple(x, y, p); }
      if y < x { NextMultiple(y, x, p); }
      FrontAgrees(a, b);
    }
  }

  /** Length-then-string comparison of canonical numerals is comparison of the numbers, however large. */
  lemma CompareNumericAgrees(a: string, b: string)
    requires Canonical(a) && Canonical(b)
    ensures CompareNumeric(a, b) == Sign(Value(a) - Value(b))
    ensures CompareNumeric(a, b) == 0 <==> a == b
  {
    ValueBound(a);
    ValueBound(b);
    if |a| < |b| {
      CanonicalIsLarge(b);
      Pow10Grows(|a|, |b| - 1);
    } else if |b| < |a| {
      CanonicalIsLarge(a);
      Pow10Grows(|b|, |a| - 1);
    } else {
      SameLengthOrder(a, b);
      SameLengthOrder(b, a);
    }
  }

  // ---------------------------------------------------------------- stable versions

  /** `X.Y.Z` without leading zeroes. */
  predicate IsStable(version: string) {
    var parts := Split(version, '.');
    |parts| == 3 && Canonical(parts[0]) && Canonical(parts[1]) && Canonical(parts[2])
  }

  /** `compareStableVersions`. */
  function CompareStable(left: string, right: string): (r: Result<int>) {
    if !IsStable(left) || !IsStable(right) then Rejected
    else
      var l, r := Split(left, '.'), Split(right, '.');
      if CompareNumeric(l[0], r[0]) != 0 then Ok(CompareNumeric(l[0], r[0]))
      else if CompareNumeric(l[1], r[1]) != 0 then Ok(CompareNumeric(l[1], r[1]))
      else Ok(CompareNumeric(l[2], r[2]))
  }

  method CompareStableVersions(left: string, right: string) returns (r: Result<int>)
    ensures r == CompareStable(left, right)
  {
    if !IsStable(left) || !IsStable(right) { return Rejected; }
    var leftParts, rightParts := Split(left, '.'), Split(right, '.');
    for index := 0 to |leftParts|
      invariant index > 0 ==> CompareNumeric(leftParts[0], rightParts[0]) == 0
      invariant index > 1 ==> CompareNumeric(leftParts[1], rightParts[1]) == 0
      invariant index > 2 ==> CompareNumeric(leftParts[2], rightParts[2]) == 0
    {
      var comparison := CompareNumeric(leftParts[index], rightParts[index]);
      if comparison != 0 { return Ok(comparison); }
    }
    return Ok(0);
  }

  datatype Core = Core(major: nat, minor: nat, patch: nat)

  function CoreOf(version: string): (c: Core)
    requires IsStable(version)
  {
    var parts := Split(version, '.');
    Core(Value(parts[0]), Value(parts[1]), Value(parts[2]))
  }

  predicate CoreLess(a: Core, b: Core) {
    || a.major < b.major
    || (a.major == b.major && (a.minor < b.minor || (a.minor == b.minor && a.patch < b.patch)))
  }

  /** Only digits and dots, digits at both ends. */
  lemma StableCharacters(version: string)
    requires IsStable(version)
    ensures version != [] && '0' <= version[0] <= '9' && '0' <= version[|version| - 1] <= '9'
    ensures forall i | 0 <= i < |version| :: version[i] == '.' || '0' <= version[i] <= '9'
  {
    var parts := Split(version, '.');
    JoinSplit(version, '.');
    hide Split, Joined;
    JoinedEnds(parts, '.');
    forall i | 0 <= i < |version| ensures version[i] == '.' || '0' <= version[i] <= '9' {
      JoinedCharacters(parts, '.', i);
      if version[i] != '.' {
        var p :| p in parts && version[i] in p;
        assert p == parts[0] || p == parts[1] || p == parts[2];
      }
    }
  }

  /** The comparison is the order of number triples; equal versions are equal strings. */
  lemma CompareStableIsTripleOrder(left: string, right: string)
    requires IsStable(left) && IsStable(right)
    ensures CompareStable(left, right).Ok?
    ensures CompareStable(left, right).value == -1 <==> CoreLess(CoreOf(left), CoreOf(right))
    ensures CompareStable(left, right).value == 1 <==> CoreLess(CoreOf(right), CoreOf(left))
    ensures CompareStable(left, right).value == 0 <==> left == right
    ensures CoreOf(left) == CoreOf(right) <==> left == right
  {
    hide Split, CompareNumeric, Canonical;
    var l, r := Split(left, '.'), Split(right, '.');
    CompareNumericAgrees(l[0], r[0]);
    CompareNumericAgrees(l[1], r[1]);
    CompareNumericAgrees(l[2], r[2]);
    PartsAgree(left, right);
  }

  lemma PartsAgree(left: string, right: string)
    ensures left == right <==> Split(left, '.') == Split(right, '.')
  {
    JoinSplit(left, '.');
    JoinSplit(right, '.');
  }

  /** `assertMonotonicLatestVersion` passes. */
  predicate NotBelow(target: string, latest: string) {
    CompareStable(latest, target).Ok? && CompareStable(latest, target).value >= 0
  }
}
