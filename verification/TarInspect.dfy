/**
 * The canonical archive as its callers see it: through `inspectPackageTarball` and through gzip.
 * Compression is any pair of functions with `gunzip(gzip(x)) == x`; parsing the package manifest is any
 * function of the manifest bytes.
 */
module TarInspect {
  import opened Common
  import opened TarReader
  import opened TarWriter
  import opened TarRoundTrip
  import opened TarCanonical
  import opened TarReread
  import Sorting
  import Utf8

  /** `package/package.json`. */
  const MANIFEST: Bytes := [0x70, 0x61, 0x63, 0x6B, 0x61, 0x67, 0x65, 0x2F, 0x70, 0x61, 0x63, 0x6B, 0x61, 0x67, 0x65,
                            0x2E, 0x6A, 0x73, 0x6F, 0x6E]

  predicate IsManifest(e: Entry) { e.path == MANIFEST && e.kind.File? }

  function FindManifest(entries: seq<Entry>): (r: Option<Bytes>)
    ensures r.None? ==> forall i | 0 <= i < |entries| :: !IsManifest(entries[i])
    ensures r.Some? ==> exists i | 0 <= i < |entries| :: IsManifest(entries[i]) && entries[i].data == r.value
  {
    if entries == [] then None
    else if IsManifest(entries[0]) then Some(entries[0].data)
    else
      var r := FindManifest(entries[1..]);
      assert forall i | 0 <= i < |entries[1..]| :: entries[1..][i] == entries[i + 1];
      r
  }

  datatype Inspection<+M> = Inspection(manifestBytes: Bytes, manifest: M, unpackedSize: nat, fileCount: nat)

  function Inspect<M>(tar: Bytes, limits: Limits, parseManifest: Bytes -> Result<M>): (r: Result<Inspection<M>>) {
    var entries :- ParseTar(tar, limits);
    match FindManifest(entries)
    case None => Rejected
    case Some(bytes) =>
      if parseManifest(bytes).Rejected? then Rejected
      else Ok(Inspection(bytes, parseManifest(bytes).value, FileBytes(entries), FileCount(entries)))
  }

  // ---------------------------------------------------------------- what an inspection says

  /** Which members are files. */
  function FileIndices(entries: seq<Entry>): set<nat> {
    set i: nat | i < |entries| && entries[i].kind.File?
  }

  /** Every byte of every file, as member and position. */
  function FilePositions(entries: seq<Entry>): set<(nat, nat)> {
    set i: nat, k: nat | i < |entries| && entries[i].kind.File? && k < |entries[i].data| :: (i, k)
  }

  function Row(i: nat, n: nat): set<(nat, nat)> { set k: nat | k < n :: (i, k) }

  lemma {:induction false} RowSize(i: nat, n: nat)
    ensures |Row(i, n)| == n
  {
    if n > 0 {
      assert Row(i, n) == Row(i, n - 1) + {(i, n - 1)};
      RowSize(i, n - 1);
    }
  }

  lemma {:induction false} FilesAreCounted(entries: seq<Entry>)
    ensures FileCount(entries) == |FileIndices(entries)|
  {
    if entries != [] {
      var last := |entries| - 1;
      var front := entries[..last];
      FilesAreCounted(front);
      var added: set<nat> := if entries[last].kind.File? then {last} else {};
      assert FileIndices(entries) == FileIndices(front) + added;
    }
  }

  lemma PositionsGrow(front: seq<Entry>, e: Entry)
    ensures FilePositions(front + [e]) == FilePositions(front) + Row(|front|, SizeOfFile(e))
    ensures FilePositions(front) !! Row(|front|, SizeOfFile(e))
  {
    var entries := front + [e];
    assert forall i | 0 <= i < |front| :: entries[i] == front[i];
  }

  lemma {:induction false} BytesAreCounted(entries: seq<Entry>)
    ensures FileBytes(entries) == |FilePositions(entries)|
  {
    hide Row;
    if entries != [] {
      var last := |entries| - 1;
      BytesAreCounted(entries[..last]);
      RowSize(last, SizeOfFile(entries[last]));
      PositionsGrow(entries[..last], entries[last]);
      assert entries[..last] + [entries[last]] == entries;
    }
  }

  /** The file member at `package/package.json` stands there. */
  ghost predicate ManifestAt(entries: seq<Entry>, i: nat) {
    i < |entries| && entries[i].path == MANIFEST && entries[i].kind.File?
  }

  /**
   * An archive inspects exactly when it parses, holds a file at `package/package.json`, and that manifest parses. There
   * is only one such file; its data is shown, with the number of file members and of the bytes in them.
   */
  lemma InspectIsExact<M>(tar: Bytes, limits: Limits, parseManifest: Bytes -> Result<M>, shown: Inspection<M>)
    ensures Inspect(tar, limits, parseManifest) == Ok(shown) <==>
            && ParseTar(tar, limits).Ok?
            && var entries := ParseTar(tar, limits).value;
            && (exists i: nat :: ManifestAt(entries, i) && entries[i].data == shown.manifestBytes)
            && parseManifest(shown.manifestBytes) == Ok(shown.manifest)
            && shown.fileCount == |FileIndices(entries)|
            && shown.unpackedSize == |FilePositions(entries)|
    ensures ParseTar(tar, limits).Ok? ==>
            forall i: nat, j: nat | ManifestAt(ParseTar(tar, limits).value, i) &&
                                    ManifestAt(ParseTar(tar, limits).value, j) :: i == j
  {
    hide ParseTar, FileCount, FileBytes, FileIndices, FilePositions, SafeArchive, FindManifest;
    if ParseTar(tar, limits).Ok? {
      var entries := ParseTar(tar, limits).value;
      ParsedArchiveIsSafe(tar, limits);
      SafeIsDistinct(entries, limits);
      FilesAreCounted(entries);
      BytesAreCounted(entries);
      forall i: nat, j: nat | ManifestAt(entries, i) && ManifestAt(entries, j) ensures i == j {
        SameManifest(entries, i, j);
      }
      if FindManifest(entries).Some? {
        var i :| 0 <= i < |entries| && IsManifest(entries[i]) && entries[i].data == FindManifest(entries).value;
        assert ManifestAt(entries, i);
      }
    }
  }

  // ---------------------------------------------------------------- the canonical archive inspects alike

  lemma SortKeepsManifest(entries: seq<Entry>)
    requires DistinctPaths(entries)
    ensures FindManifest(SortByPath(entries)) == FindManifest(entries)
  {
    hide SortByPath, IsManifest, FindManifest;
    var s := SortByPath(entries);
    SortIsPermutation(entries);
    MembersOf(entries, s);
    Sorting.PermutationKeepsDistinct(PathOf, entries, s);
    if FindManifest(entries).Some? {
      var i :| 0 <= i < |entries| && IsManifest(entries[i]) && entries[i].data == FindManifest(entries).value;
      var j :| 0 <= j < |s| && s[j] == entries[i];
      var k :| 0 <= k < |s| && IsManifest(s[k]) && s[k].data == FindManifest(s).value;
      SameManifest(s, j, k);
    }
  }

  lemma SortIsPermutation(entries: seq<Entry>)
    ensures multiset(SortByPath(entries)) == multiset(entries)
  {
  }

  lemma SameManifest(s: seq<Entry>, j: nat, k: nat)
    requires DistinctPaths(s) && j < |s| && k < |s| && IsManifest(s[j]) && IsManifest(s[k])
    ensures j == k
  {
    assert PathOf(s[j]) == PathOf(s[k]);
  }

  /** Losing a byte order mark neither makes nor unmakes the manifest: only long paths can lose one. */
  lemma RereadKeepsManifest(e: Entry)
    requires SplitUstar(e.path).Ok? && SafePath(e.path)
    ensures IsManifest(Reread(e)) <==> IsManifest(e)
  {
    hide Split;
    RereadLosesBom(e.path);
    assert e.path[0] != Utf8.BOM[0];
  }

  lemma {:induction false} SameManifestPointwise(r: seq<Entry>, s: seq<Entry>)
    requires |r| == |s| && forall i | 0 <= i < |s| :: (IsManifest(r[i]) <==> IsManifest(s[i])) && r[i].data == s[i].data
    ensures FindManifest(r) == FindManifest(s)
  {
    hide IsManifest;
    if s != [] && !IsManifest(s[0]) {
      assert forall i | 0 <= i < |s| - 1 :: r[1..][i] == r[i + 1] && s[1..][i] == s[i + 1];
      SameManifestPointwise(r[1..], s[1..]);
    }
  }

  lemma RereadInspectsAlike(r: seq<Entry>, s: seq<Entry>, limits: Limits)
    requires AllPrintable(s) && RereadOf(r, s) && SafeMembers(s, limits)
    ensures FindManifest(r) == FindManifest(s) && FileCount(r) == FileCount(s) && FileBytes(r) == FileBytes(s)
  {
    hide PrintEntry, RereadPath, SplitUstar, SafePath, IsManifest, FindManifest, FileCount, FileBytes;
    forall i | 0 <= i < |s| ensures (IsManifest(r[i]) <==> IsManifest(s[i])) && r[i].data == s[i].data {
      assert Printable(s[i]) && SafeMember(s[i], limits);
      RereadKeepsManifest(s[i]);
    }
    SameManifestPointwise(r, s);
    SameReread(r, s);
    SameTotals(s);
  }

  /**
   * The canonical form shows the same manifest, unpacked size and file count as the archive it came from, exactly when
   * the members' paths come back safely or there was nothing to show; without a name field that opens with a byte order
   * mark they do.
   */
  lemma CanonicalInspectsAlike<M>(tar: Bytes, limits: Limits, parseManifest: Bytes -> Result<M>)
    requires Canonicalize(tar, limits).Ok?
    ensures var entries := ParseTar(tar, limits).value;
      && (Inspect(Canonicalize(tar, limits).value, limits, parseManifest) == Inspect(tar, limits, parseManifest) <==>
          ComeBackSafely(entries) || Inspect(tar, limits, parseManifest).Rejected?)
      && (NoBomNames(entries) ==> ComeBackSafely(entries))
  {
    hide PrintTar, ParseTar, SafeArchive, AllPrintable, NoBomNames, SortByPath, FindManifest, RereadOf, FileCount,
      FileBytes, SafeMembers, ComeBackSafely;
    var entries := ParseTar(tar, limits).value;
    var out := Canonicalize(tar, limits).value;
    CanonicalParses(tar, limits);
    ParsedArchiveIsSafe(tar, limits);
    if NoBomNames(entries) { UnmarkedComesBackSafely(entries, limits); }
    SafeIsDistinct(entries, limits);
    SortKeepsManifest(entries);
    SortKeepsTotals(entries);
    if ParseTar(out, limits).Ok? {
      CanonicalReread(entries, limits);
      RereadInspectsAlike(ParseTar(out, limits).value, SortByPath(entries), limits);
    }
  }

  lemma CanonicalReread(entries: seq<Entry>, limits: Limits)
    requires SafeArchive(entries, limits) && PrintTar(entries).Ok? && ParseTar(PrintTar(entries).value, limits).Ok?
    ensures SafeMembers(SortByPath(entries), limits) && AllPrintable(SortByPath(entries))
    ensures RereadOf(ParseTar(PrintTar(entries).value, limits).value, SortByPath(entries))
  {
    hide PrintEntries, ParseFrom, SortByPath, SafeArchive, AllPrintable, RereadOf, ValidLimits, SafeMembers, TextPaths;
    var s := SortByPath(entries);
    SortKeepsSafety(entries, limits);
    SafeParts(s, limits);
    PrintedListReadsBack(s, [], limits);
    var r := ParseTar(PrintTar(entries).value, limits).value;
    assert r[0..] == r;
  }

  lemma SortKeepsTotals(entries: seq<Entry>)
    ensures FileCount(SortByPath(entries)) == FileCount(entries)
    ensures FileBytes(SortByPath(entries)) == FileBytes(entries)
  {
    Sorting.TotalOfSort(IsFile, PathLeq, entries);
    Sorting.TotalOfSort(SizeOfFile, PathLeq, entries);
  }

  lemma SafeIsDistinct(entries: seq<Entry>, limits: Limits)
    requires SafeArchive(entries, limits)
    ensures DistinctPaths(entries)
  {
  }

  // ---------------------------------------------------------------- gzip

  function ParseTarball(tarball: Bytes, limits: Limits, gunzip: Bytes -> Result<Bytes>): (r: Result<seq<Entry>>) {
    if !ValidLimits(limits) || |tarball| > limits.maxCompressedBytes then Rejected
    else
      var tar :- gunzip(tarball);
      ParseTar(tar, limits)
  }

  function CanonicalizeTarball(tarball: Bytes, limits: Limits, gzip: Bytes -> Bytes, gunzip: Bytes -> Result<Bytes>)
    : (r: Result<Bytes>)
  {
    var entries :- ParseTarball(tarball, limits, gunzip);
    var tar :- PrintTar(entries);
    Ok(gzip(tar))
  }

  /**
   * The compressed normal form: a fixed point unless a name opens with a byte order mark or gzip outgrows the limit.
   */
  lemma TarballNormalForm(tarball: Bytes, limits: Limits, gzip: Bytes -> Bytes, gunzip: Bytes -> Result<Bytes>)
    requires forall x :: gunzip(gzip(x)) == Ok(x)
    requires CanonicalizeTarball(tarball, limits, gzip, gunzip).Ok?
    ensures var out := CanonicalizeTarball(tarball, limits, gzip, gunzip).value;
            CanonicalizeTarball(out, limits, gzip, gunzip) == Ok(out) <==>
            |out| <= limits.maxCompressedBytes && NoBomNames(ParseTarball(tarball, limits, gunzip).value)
  {
    hide PrintTar, ParseTar, NoBomNames, ValidLimits;
    var tar := gunzip(tarball).value;
    var canonical := Canonicalize(tar, limits).value;
    CanonicalizeIsNormalForm(tar, limits);
    assert gunzip(gzip(canonical)) == Ok(canonical);
    if Canonicalize(canonical, limits).Ok? {
      var again := Canonicalize(canonical, limits).value;
      assert gunzip(gzip(again)) == Ok(again);
    }
  }
}
