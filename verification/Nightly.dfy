/** `deriveNightlyVersion`, and where its result stands in the order of versions. */
module Nightly {
  import opened Common
  import opened Decimals
  import opened Splitting
  import opened Versions

  // ---------------------------------------------------------------- precedence, after Semantic Versioning 2.0.0

  datatype Semver = Semver(core: Core, pre: Option<seq<string>>)

  function Parse(version: string): (r: Option<Semver>) {
    var core := match IndexOf(version, '-') case None => version case Some(i) => version[..i];
    if !IsStable(core) then None
    else match IndexOf(version, '-')
      case None => Some(Semver(CoreOf(core), None))
      case Some(i) => Some(Semver(CoreOf(core), Some(Split(version[i + 1..], '.'))))
  }

  /** One pre-release identifier against another: numbers below words, numbers by value, words by ASCII. */
  predicate IdentifierLess(a: string, b: string) {
    if a != [] && Digits(a) then (b != [] && Digits(b) ==> Value(a) < Value(b))
    else !(b != [] && Digits(b)) && StringLess(a, b)
  }

  predicate IdentifiersLess(a: seq<string>, b: seq<string>) {
    b != [] && (a == [] || if a[0] == b[0] then IdentifiersLess(a[1..], b[1..]) else IdentifierLess(a[0], b[0]))
  }

  predicate Less(a: Semver, b: Semver) {
    || CoreLess(a.core, b.core)
    || (a.core == b.core && a.pre.Some? && (b.pre.None? || IdentifiersLess(a.pre.value, b.pre.value)))
  }

  // ---------------------------------------------------------------- deriving a nightly

  function Patch(version: string): string
    requires IsStable(version)
  {
    Split(version, '.')[2]
  }

  /** Stable, with the major and minor numerals of the first. */
  predicate OnLineOf(version: string, first: string) {
    && IsStable(version) && IsStable(first)
    && Split(version, '.')[0] == Split(first, '.')[0] && Split(version, '.')[1] == Split(first, '.')[1]
  }

  /** All versions stable and on one major.minor line. */
  predicate OneLine(versions: seq<string>) {
    versions != [] && forall i | 0 <= i < |versions| :: OnLineOf(versions[i], versions[0])
  }

  /** The `reduce` over patch numbers. */
  function HighestPatch(versions: seq<string>): (p: string)
    requires versions != [] && forall i | 0 <= i < |versions| :: IsStable(versions[i])
  {
    var last := |versions| - 1;
    if last == 0 then Patch(versions[0])
    else
      var highest := HighestPatch(versions[..last]);
      if CompareNumeric(Patch(versions[last]), highest) > 0 then Patch(versions[last]) else highest
  }

  lemma PatchIsCanonical(version: string)
    requires IsStable(version)
    ensures Canonical(Patch(version))
  {
  }

  lemma {:induction false} HighestPatchIsMaximum(versions: seq<string>)
    requires versions != [] && forall i | 0 <= i < |versions| :: IsStable(versions[i])
    ensures Canonical(HighestPatch(versions))
    ensures forall i | 0 <= i < |versions| :: Digits(Patch(versions[i]))
    ensures forall i | 0 <= i < |versions| :: Value(Patch(versions[i])) <= Value(HighestPatch(versions))
    ensures exists i | 0 <= i < |versions| :: Patch(versions[i]) == HighestPatch(versions)
  {
    hide IsStable, Patch, CompareNumeric, Value;
    var last := |versions| - 1;
    forall i | 0 <= i < |versions| ensures Canonical(Patch(versions[i])) { PatchIsCanonical(versions[i]); }
    if last > 0 {
      HighestPatchIsMaximum(versions[..last]);
      var highest := HighestPatch(versions[..last]);
      CompareNumericAgrees(Patch(versions[last]), highest);
      assert forall i | 0 <= i < last :: versions[..last][i] == versions[i];
    }
  }

  /** `X.Y.(Z+1)-nightly.<utc>.<run>.g<sha12>`, `utc` being the fourteen digits of the timestamp. */
  function Derive(versions: seq<string>, utc: string, runId: string, sourceSha: string): (r: Result<string>) {
    if versions == [] || !Canonical(runId) || runId == "0" then Rejected
    else if !LowerHex(sourceSha, 40) || !OneLine(versions) then Rejected
    else
      var parts := Split(versions[0], '.');
      var nextPatch := Numeral(Value(HighestOf(versions)) + 1);
      Ok(Joined([parts[0], parts[1], nextPatch], '.') + "-" +
         Joined(["nightly", utc, runId, "g" + sourceSha[..12]], '.'))
  }

  function HighestOf(versions: seq<string>): (p: string)
    requires OneLine(versions)
    ensures Digits(p)
  {
    HighestPatchIsMaximum(versions);
    HighestPatch(versions)
  }

  /** The canonical numerals are the numerals of numbers. */
  lemma CanonicalIsNumeral(s: string)
    ensures Canonical(s) <==> exists n: nat :: s == Numeral(n)
    ensures Canonical(s) && s != "0" <==> exists n: nat :: n > 0 && s == Numeral(n)
  {
    if Canonical(s) {
      CompareNumericAgrees(s, Numeral(Value(s)));
      CompareNumericAgrees(s, "0");
      assert s == Numeral(Value(s));
    }
    assert Value("0") == 0;
  }

  /** Versions on one line have the same major and minor numbers, whatever the patch. */
  ghost predicate ShareLine(versions: seq<string>, major: nat, minor: nat) {
    forall v | v in versions :: IsStable(v) && CoreOf(v).major == major && CoreOf(v).minor == minor
  }

  lemma OnLineMeans(version: string, first: string)
    ensures OnLineOf(version, first) <==>
            && IsStable(version) && IsStable(first)
            && CoreOf(version).major == CoreOf(first).major && CoreOf(version).minor == CoreOf(first).minor
  {
    hide Value, CompareNumeric, Canonical;
    if IsStable(version) && IsStable(first) {
      var p, q := Split(version, '.'), Split(first, '.');
      CompareNumericAgrees(p[0], q[0]);
      CompareNumericAgrees(p[1], q[1]);
    }
  }

  lemma OneLineMeans(versions: seq<string>)
    ensures OneLine(versions) <==> versions != [] && exists major, minor :: ShareLine(versions, major, minor)
  {
    hide Value, CoreOf, IsStable, OnLineOf;
    if versions != [] {
      forall i | 0 <= i < |versions|
        ensures OnLineOf(versions[i], versions[0]) <==>
                && IsStable(versions[i]) && IsStable(versions[0])
                && CoreOf(versions[i]).major == CoreOf(versions[0]).major
                && CoreOf(versions[i]).minor == CoreOf(versions[0]).minor
      {
        OnLineMeans(versions[i], versions[0]);
      }
      assert forall i | 0 <= i < |versions| :: versions[i] in versions;
      assert OneLine(versions) ==> OnLineOf(versions[0], versions[0]);
      if OneLine(versions) {
        assert ShareLine(versions, CoreOf(versions[0]).major, CoreOf(versions[0]).minor);
      }
    }
  }

  /** A nightly is derived exactly from stable versions on one line, a positive run number and a full commit hash. */
  lemma DeriveSucceeds(versions: seq<string>, utc: string, runId: string, sourceSha: string)
    ensures Derive(versions, utc, runId, sourceSha).Ok? <==>
            && versions != [] && (exists major, minor :: ShareLine(versions, major, minor))
            && (exists n: nat :: n > 0 && runId == Numeral(n))
            && LowerHex(sourceSha, 40)
  {
    hide LowerHex, ShareLine, OneLine, Canonical;
    OneLineMeans(versions);
    CanonicalIsNumeral(runId);
  }

  lemma NoCharacter(s: string, c: char)
    requires Digits(s) && !Digit(c)
    ensures c !in s
  {
  }

  lemma StableHasNoHyphen(version: string)
    requires IsStable(version)
    ensures '-' !in version
  {
    var p := Split(version, '.');
    NoCharacter(p[0], '-');
    NoCharacter(p[1], '-');
    NoCharacter(p[2], '-');
    JoinThree(p[0], p[1], p[2]);
    assert p == [p[0], p[1], p[2]];
    JoinSplit(version, '.');
  }

  lemma JoinThree(a: string, b: string, c: string)
    ensures Joined([a, b, c], '.') == a + "." + (b + "." + c)
  {
    assert Joined([c], '.') == c;
    assert [b, c][1..] == [c] && Joined([b, c], '.') == b + "." + c;
    assert [a, b, c][1..] == [b, c];
  }

  lemma CoreIsStable(a: string, b: string, c: string)
    requires Canonical(a) && Canonical(b) && Canonical(c)
    ensures IsStable(Joined([a, b, c], '.')) && CoreOf(Joined([a, b, c], '.')) == Core(Value(a), Value(b), Value(c))
  {
    NoCharacter(a, '.');
    NoCharacter(b, '.');
    NoCharacter(c, '.');
    SplitJoin([a, b, c], '.');
  }

  lemma ParseStable(version: string)
    requires IsStable(version)
    ensures Parse(version) == Some(Semver(CoreOf(version), None))
  {
    StableHasNoHyphen(version);
  }

  lemma ParsePreRelease(core: string, ids: seq<string>)
    requires IsStable(core) && ids != [] && forall p | p in ids :: '.' !in p
    ensures Parse(core + "-" + Joined(ids, '.')) == Some(Semver(CoreOf(core), Some(ids)))
  {
    hide IsStable;
    var v := core + "-" + Joined(ids, '.');
    StableHasNoHyphen(core);
    assert v[..|core|] == core && v[|core|] == '-' && v[|core| + 1..] == Joined(ids, '.');
    IndexOfFirst(v, '-', |core|);
    SplitJoin(ids, '.');
  }

  /** The identifiers of a nightly. */
  function Identifiers(utc: string, runId: string, sourceSha: string): seq<string>
    requires |sourceSha| >= 12
  {
    ["nightly", utc, runId, "g" + sourceSha[..12]]
  }

  /** What a derived nightly parses as: the next patch, below its release. */
  lemma DerivedParses(versions: seq<string>, utc: string, runId: string, sourceSha: string)
    requires Derive(versions, utc, runId, sourceSha).Ok? && Digits(utc)
    ensures var line := CoreOf(versions[0]);
            Parse(Derive(versions, utc, runId, sourceSha).value) ==
            Some(Semver(Core(line.major, line.minor, Value(HighestOf(versions)) + 1),
                        Some(Identifiers(utc, runId, sourceSha))))
  {
    var parts := Split(versions[0], '.');
    var nextPatch := Numeral(Value(HighestOf(versions)) + 1);
    CoreIsStable(parts[0], parts[1], nextPatch);
    IdentifiersAreDotless(utc, runId, sourceSha);
    hide Split, IsStable, Parse, Joined, LowerHex;
    ParsePreRelease(Joined([parts[0], parts[1], nextPatch], '.'), Identifiers(utc, runId, sourceSha));
  }

  lemma IdentifiersAreDotless(utc: string, runId: string, sourceSha: string)
    requires Digits(utc) && Digits(runId) && LowerHex(sourceSha, 40)
    ensures forall p | p in Identifiers(utc, runId, sourceSha) :: '.' !in p
  {
    NoCharacter(utc, '.');
    NoCharacter(runId, '.');
    var ids := Identifiers(utc, runId, sourceSha);
    assert '.' !in sourceSha[..12] by { assert forall i | 0 <= i < 12 :: sourceSha[..12][i] == sourceSha[i] != '.'; }
    forall p | p in ids ensures '.' !in p {
      assert p == ids[0] || p == ids[1] || p == ids[2] || p == ids[3];
    }
  }

  /** The nightly is above every version it was derived from, and below every stable version above all of those. */
  lemma NightlyIsBetween(versions: seq<string>, utc: string, runId: string, sourceSha: string, stable: string)
    requires Derive(versions, utc, runId, sourceSha).Ok? && Digits(utc) && IsStable(stable)
    ensures var v := Parse(Derive(versions, utc, runId, sourceSha).value);
            && v.Some? && Parse(stable) == Some(Semver(CoreOf(stable), None))
            && (stable in versions ==> Less(Parse(stable).value, v.value))
            && ((forall i | 0 <= i < |versions| :: CoreLess(CoreOf(versions[i]), CoreOf(stable))) ==>
                  Less(v.value, Parse(stable).value))
  {
    hide Parse, Derive, HighestPatch, Split;
    DerivedParses(versions, utc, runId, sourceSha);
    ParseStable(stable);
    DerivedLine(versions, utc, runId, sourceSha);
    HighestPatchIsMaximum(versions);
    var top :| 0 <= top < |versions| && Patch(versions[top]) == HighestPatch(versions);
    assert CoreOf(versions[top]) ==
           Core(CoreOf(versions[0]).major, CoreOf(versions[0]).minor, Value(HighestPatch(versions)));
  }

  lemma DerivedLine(versions: seq<string>, utc: string, runId: string, sourceSha: string)
    requires Derive(versions, utc, runId, sourceSha).Ok?
    ensures OneLine(versions)
  {
  }

  /** Of two nightlies on one line the later timestamp is higher, and on equal timestamps the later run. */
  lemma NightliesAreOrdered(versions: seq<string>, utc: string, runId: string, sha: string,
                            utc': string, runId': string, sha': string)
    requires Derive(versions, utc, runId, sha).Ok? && Derive(versions, utc', runId', sha').Ok?
    requires Digits(utc) && Digits(utc') && |utc| == |utc'| == 14
    requires Value(utc) < Value(utc') || (utc == utc' && Value(runId) < Value(runId'))
    ensures var a := Parse(Derive(versions, utc, runId, sha).value);
            var b := Parse(Derive(versions, utc', runId', sha').value);
            a.Some? && b.Some? && Less(a.value, b.value)
  {
    hide Parse, Derive, HighestOf, CoreOf, Value, IsStable, IdentifiersLess, Identifiers;
    DerivedParses(versions, utc, runId, sha);
    DerivedParses(versions, utc', runId', sha');
    DerivedRun(versions, utc, runId, sha);
    DerivedRun(versions, utc', runId', sha');
    IdentifiersAreOrdered(utc, runId, sha, utc', runId', sha');
  }

  lemma DerivedRun(versions: seq<string>, utc: string, runId: string, sha: string)
    requires Derive(versions, utc, runId, sha).Ok?
    ensures Canonical(runId) && |sha| == 40
  {
  }

  lemma IdentifiersAreOrdered(utc: string, runId: string, sha: string, utc': string, runId': string, sha': string)
    requires |sha| >= 12 && |sha'| >= 12 && Canonical(runId) && Canonical(runId')
    requires Digits(utc) && Digits(utc') && utc != [] && utc' != []
    requires Value(utc) < Value(utc') || (utc == utc' && Value(runId) < Value(runId'))
    ensures IdentifiersLess(Identifiers(utc, runId, sha), Identifiers(utc', runId', sha'))
  {
    hide Value, Digits;
    var a, b := Identifiers(utc, runId, sha), Identifiers(utc', runId', sha');
    assert a[1..] == [utc] + a[2..] && b[1..] == [utc'] + b[2..];
    assert a[2..][0] == runId && b[2..][0] == runId';
    if utc == utc' {
      assert runId != runId';
      assert IdentifiersLess(a[2..], b[2..]);
      assert a[1..][1..] == a[2..] && b[1..][1..] == b[2..];
    }
    assert IdentifiersLess(a[1..], b[1..]);
  }
}
