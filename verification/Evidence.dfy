/**
 * Expected and final release evidence. The public package table is a parameter; `sri` stands for the
 * subresource-integrity string of a SHA-512 digest. A record's dependencies are its sorted key-value list,
 * the form in which canonical JSON compares them.
 */
module Evidence {
  import opened Common

  datatype Definition = Definition(dir: string, name: string)

  datatype Dependency = Dependency(name: string, version: string)

  datatype Record = Record(dir: string, name: string, version: string, tarballSha512: string, expectedSri: string,
                           manifestSha256: string, unpackedSize: int, fileCount: int, dependencies: seq<Dependency>)

  datatype Observation = Observation(sri: string, tarballSha512: string, manifestSha256: string,
                                     dependencies: seq<Dependency>, latestVersion: Option<string>)

  datatype Expected = Expected(sourceCommit: string, releaseVersion: string, packages: seq<Record>)

  datatype FinalRecord = FinalRecord(record: Record, registrySri: string, registryTarballSha512: string,
                                     registryManifestSha256: string, registryDependencies: seq<Dependency>)

  datatype Final = Final(sourceCommit: string, releaseVersion: string, expectedSha256: string,
                         packages: seq<FinalRecord>)

  /** The fixed surroundings of a release: the package table, the version grammar and the digest encoding. */
  datatype Release = Release(definitions: seq<Definition>, supported: string -> bool, sri: string -> string)

  predicate KnownName(release: Release, name: string) {
    exists i | 0 <= i < |release.definitions| :: release.definitions[i].name == name
  }

  /** `assertExactInternalReleaseDependencies`. */
  predicate ExactDependencies(release: Release, dependencies: seq<Dependency>, version: string) {
    && release.supported(version)
    && forall k | 0 <= k < |dependencies| ::
         KnownName(release, dependencies[k].name) && dependencies[k].version == version
  }

  predicate ValidRecord(release: Release, r: Record) {
    && Definition(r.dir, r.name) in release.definitions
    && release.supported(r.version)
    && LowerHex(r.tarballSha512, 128)
    && r.expectedSri == release.sri(r.tarballSha512)
    && LowerHex(r.manifestSha256, 64)
    && 0 <= r.unpackedSize <= MAX_SAFE_INTEGER && 0 <= r.fileCount <= MAX_SAFE_INTEGER
    && ExactDependencies(release, r.dependencies, r.version)
  }

  /** `validateExpectedEvidence`. */
  predicate ValidExpected(release: Release, e: Expected) {
    && LowerHex(e.sourceCommit, 40)
    && release.supported(e.releaseVersion)
    && |e.packages| == |release.definitions|
    && forall i | 0 <= i < |e.packages| ::
         && ValidRecord(release, e.packages[i])
         && e.packages[i].name == release.definitions[i].name
         && e.packages[i].version == e.releaseVersion
  }

  predicate ValidFinalRecord(release: Release, f: FinalRecord) {
    && ValidRecord(release, f.record)
    && LowerHex(f.registryTarballSha512, 128)
    && f.registrySri == release.sri(f.registryTarballSha512)
    && LowerHex(f.registryManifestSha256, 64)
    && ExactDependencies(release, f.registryDependencies, f.record.version)
  }

  /** `validateFinalEvidence`. */
  predicate ValidFinal(release: Release, f: Final) {
    && LowerHex(f.sourceCommit, 40)
    && release.supported(f.releaseVersion)
    && LowerHex(f.expectedSha256, 64)
    && |f.packages| == |release.definitions|
    && forall i | 0 <= i < |f.packages| ::
         && ValidFinalRecord(release, f.packages[i])
         && f.packages[i].record.name == release.definitions[i].name
         && f.packages[i].record.version == f.releaseVersion
  }

  // ---------------------------------------------------------------- what expected evidence consists of

  /** What a release measures of one package; everything else in its record follows. */
  datatype Measured = Measured(tarballSha512: string, manifestSha256: string, unpackedSize: nat, fileCount: nat,
                               dependencies: seq<string>)

  predicate Sound(release: Release, m: Measured) {
    && LowerHex(m.tarballSha512, 128) && LowerHex(m.manifestSha256, 64)
    && m.unpackedSize <= MAX_SAFE_INTEGER && m.fileCount <= MAX_SAFE_INTEGER
    && forall k | 0 <= k < |m.dependencies| :: KnownName(release, m.dependencies[k])
  }

  function At(names: seq<string>, version: string): (r: seq<Dependency>)
    ensures |r| == |names| && forall k | 0 <= k < |r| :: r[k] == Dependency(names[k], version)
  {
    seq(|names|, k requires 0 <= k < |names| => Dependency(names[k], version))
  }

  function RecordFor(release: Release, d: Definition, version: string, m: Measured): Record {
    Record(d.dir, d.name, version, m.tarballSha512, release.sri(m.tarballSha512), m.manifestSha256, m.unpackedSize,
           m.fileCount, At(m.dependencies, version))
  }

  /** The record is what some sound measurement makes it. */
  ghost predicate IsMeasured(release: Release, d: Definition, version: string, r: Record) {
    exists m :: Sound(release, m) && r == RecordFor(release, d, version, m)
  }

  ghost predicate DistinctNames(release: Release) {
    forall i, j | 0 <= i < j < |release.definitions| :: release.definitions[i].name != release.definitions[j].name
  }

  lemma ValidRecordIsMeasured(release: Release, i: nat, version: string, r: Record)
    requires DistinctNames(release) && release.supported(version) && i < |release.definitions|
    ensures ValidRecord(release, r) && r.name == release.definitions[i].name && r.version == version <==>
            IsMeasured(release, release.definitions[i], version, r)
  {
    hide LowerHex;
    if ValidRecord(release, r) && r.name == release.definitions[i].name && r.version == version {
      var names := seq(|r.dependencies|, k requires 0 <= k < |r.dependencies| => r.dependencies[k].name);
      var m := Measured(r.tarballSha512, r.manifestSha256, r.unpackedSize, r.fileCount, names);
      assert At(names, version) == r.dependencies;
      assert Sound(release, m);
      assert r == RecordFor(release, release.definitions[i], version, m);
    }
    if m :| Sound(release, m) && r == RecordFor(release, release.definitions[i], version, m) {
      assert release.definitions[i] in release.definitions;
    }
  }

  /** Expected evidence is valid exactly when it is what its commit, its version and the measurements make it. */
  lemma ExpectedIsMeasured(release: Release, e: Expected)
    requires DistinctNames(release)
    ensures ValidExpected(release, e) <==>
            && LowerHex(e.sourceCommit, 40) && release.supported(e.releaseVersion)
            && |e.packages| == |release.definitions|
            && forall i | 0 <= i < |e.packages| ::
                 IsMeasured(release, release.definitions[i], e.releaseVersion, e.packages[i])
  {
    hide LowerHex, ValidRecord, IsMeasured, DistinctNames;
    if release.supported(e.releaseVersion) && |e.packages| == |release.definitions| {
      forall i | 0 <= i < |e.packages|
        ensures ValidRecord(release, e.packages[i]) && e.packages[i].name == release.definitions[i].name &&
                e.packages[i].version == e.releaseVersion <==>
                IsMeasured(release, release.definitions[i], e.releaseVersion, e.packages[i])
      {
        ValidRecordIsMeasured(release, i, e.releaseVersion, e.packages[i]);
      }
    }
  }

  datatype Status = Publish | Skip | Conflict

  /** `classifyRegistryObservation`. */
  function Classify(record: Record, observation: Option<Observation>): (r: Status) {
    match observation
    case None => Publish
    case Some(o) =>
      if o.sri == record.expectedSri && o.tarballSha512 == record.tarballSha512 &&
         o.manifestSha256 == record.manifestSha256 && o.dependencies == record.dependencies
      then Skip else Conflict
  }

  function ObservationOf(f: FinalRecord): Observation {
    Observation(f.registrySri, f.registryTarballSha512, f.registryManifestSha256, f.registryDependencies, None)
  }

  // ---------------------------------------------------------------- final evidence

  /** The `packages` of `createFinalEvidence`, from index `i` on. */
  function FinalizeFrom(packages: seq<Record>, observations: map<string, Observation>): (r: Result<seq<FinalRecord>>) {
    if packages == [] then Ok([])
    else
      var record := packages[0];
      if record.name !in observations then Rejected
      else
        var o := observations[record.name];
        if Classify(record, Some(o)) != Skip then Rejected
        else
          var rest :- FinalizeFrom(packages[1..], observations);
          Ok([FinalRecord(record, o.sri, o.tarballSha512, o.manifestSha256, o.dependencies)] + rest)
  }

  /** `createFinalEvidence`, including the validation of its own result. */
  function CreateFinal(release: Release, e: Expected, sha: string, observations: map<string, Observation>)
    : (r: Result<Final>)
  {
    if !ValidExpected(release, e) || !LowerHex(sha, 64) then Rejected
    else
      var packages :- FinalizeFrom(e.packages, observations);
      if exists name | name in observations :: !KnownName(release, name) then Rejected
      else
        var final := Final(e.sourceCommit, e.releaseVersion, sha, packages);
        if ValidFinal(release, final) then Ok(final) else Rejected
  }

  /** `verifyFinalEvidence` with an explicit digest. */
  predicate VerifyFinal(release: Release, e: Expected, f: Final, digest: string) {
    && ValidExpected(release, e)
    && ValidFinal(release, f)
    && f.expectedSha256 == digest
    && f.sourceCommit == e.sourceCommit
    && f.releaseVersion == e.releaseVersion
    && forall i | 0 <= i < |e.packages| ::
         f.packages[i].record == e.packages[i] && Classify(e.packages[i], Some(ObservationOf(f.packages[i]))) == Skip
  }

  /** Every record, confirmed by the registry. */
  ghost function Confirmed(packages: seq<Record>): (r: seq<FinalRecord>)
    ensures |r| == |packages|
  {
    seq(|packages|, i requires 0 <= i < |packages| =>
      var p := packages[i];
      FinalRecord(p, p.expectedSri, p.tarballSha512, p.manifestSha256, p.dependencies))
  }

  /** The one document a release can be finalised with. */
  ghost function TheFinal(e: Expected, digest: string): Final {
    Final(e.sourceCommit, e.releaseVersion, digest, Confirmed(e.packages))
  }

  /** Verification pins the document down: exactly one passes, and it is the registry's agreement with every record. */
  lemma VerifiedIsDetermined(release: Release, e: Expected, f: Final, digest: string)
    ensures VerifyFinal(release, e, f, digest) <==>
            ValidExpected(release, e) && LowerHex(digest, 64) && f == TheFinal(e, digest)
  {
    hide ExactDependencies, LowerHex;
    var the := TheFinal(e, digest);
    if VerifyFinal(release, e, f, digest) {
      forall i | 0 <= i < |e.packages| ensures f.packages[i] == the.packages[i] {
        assert f.packages[i].record == e.packages[i];
      }
      assert f.packages == the.packages;
    }
    if ValidExpected(release, e) && LowerHex(digest, 64) && f == the {
      forall i | 0 <= i < |f.packages| ensures ValidFinalRecord(release, f.packages[i]) {
        assert ValidRecord(release, e.packages[i]);
      }
    }
  }

  lemma TwoVerifiedAreEqual(release: Release, e: Expected, f: Final, g: Final, digest: string)
    requires VerifyFinal(release, e, f, digest) && VerifyFinal(release, e, g, digest)
    ensures f == g
  {
    VerifiedIsDetermined(release, e, f, digest);
    VerifiedIsDetermined(release, e, g, digest);
  }

  /** The registry showed exactly the expected bytes of this package. */
  predicate Agrees(record: Record, observations: map<string, Observation>) {
    record.name in observations && Classify(record, Some(observations[record.name])) == Skip
  }

  lemma {:induction false} FinalizeSucceeds(packages: seq<Record>, observations: map<string, Observation>)
    ensures var r := FinalizeFrom(packages, observations);
            && (r.Ok? <==> forall i | 0 <= i < |packages| :: Agrees(packages[i], observations))
            && (r.Ok? ==> r.value == Confirmed(packages))
  {
    if packages != [] {
      FinalizeSucceeds(packages[1..], observations);
      assert forall i | 0 <= i < |packages[1..]| :: packages[1..][i] == packages[i + 1];
      if forall i | 0 <= i < |packages| :: Agrees(packages[i], observations) {
        assert Agrees(packages[0], observations);
      } else {
        var i :| 0 <= i < |packages| && !Agrees(packages[i], observations);
        assert i > 0 ==> !Agrees(packages[1..][i - 1], observations);
      }
    }
  }

  /** Creation succeeds exactly when every package agrees and no stranger was observed, and then it verifies. */
  lemma CreatedEvidenceVerifies(release: Release, e: Expected, sha: string, observations: map<string, Observation>)
    ensures var r := CreateFinal(release, e, sha, observations);
            && (r.Ok? <==> && ValidExpected(release, e) && LowerHex(sha, 64)
                           && (forall i | 0 <= i < |e.packages| :: Agrees(e.packages[i], observations))
                           && (forall name | name in observations :: KnownName(release, name)))
            && (r.Ok? ==> r.value == TheFinal(e, sha) && VerifyFinal(release, e, r.value, sha))
  {
    hide ValidExpected, LowerHex, KnownName, ValidFinal, VerifyFinal, Agrees, Confirmed;
    FinalizeSucceeds(e.packages, observations);
    VerifiedIsDetermined(release, e, TheFinal(e, sha), sha);
    if VerifyFinal(release, e, TheFinal(e, sha), sha) { VerifiedIsValid(release, e, TheFinal(e, sha), sha); }
  }

  lemma VerifiedIsValid(release: Release, e: Expected, f: Final, digest: string)
    requires VerifyFinal(release, e, f, digest)
    ensures ValidFinal(release, f)
  {
  }
}
