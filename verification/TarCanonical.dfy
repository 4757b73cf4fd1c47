/**
 * The two laws of the canonical archive: which member lists a printed archive gives back, and when
 * `canonicalizePackageTarball` is a normal form.
 */
module TarCanonical {
  import opened Common
  import opened TarFields
  import opened TarReader
  import opened TarWriter
  import opened TarRoundTrip
  import Sorting
  import Utf8

  // ---------------------------------------------------------------- the order of paths

  lemma {:induction false} BytesOrder(a: Bytes, b: Bytes, c: Bytes)
    ensures BytesLeq(a, b) || BytesLeq(b, a)
    ensures BytesLeq(a, b) && BytesLeq(b, a) ==> a == b
    ensures BytesLeq(a, b) && BytesLeq(b, c) ==> BytesLeq(a, c)
  {
    if a != [] && b != [] {
      BytesOrder(a[1..], b[1..], if c == [] then [] else c[1..]);
      assert a == [a[0]] + a[1..] && b == [b[0]] + b[1..];
    }
  }

  lemma PathOrder()
    ensures Sorting.TotalPreorder(PathLeq)
  {
    forall x: Entry, y: Entry ensures PathLeq(x, y) || PathLeq(y, x) { BytesOrder(x.path, y.path, []); }
    forall x: Entry, y: Entry, z: Entry | PathLeq(x, y) && PathLeq(y, z) ensures PathLeq(x, z) {
      BytesOrder(x.path, y.path, z.path);
    }
  }

  lemma MembersOf<T>(s: seq<T>, r: seq<T>)
    requires multiset(s) == multiset(r)
    ensures forall i | 0 <= i < |s| :: s[i] in r
    ensures forall i | 0 <= i < |r| :: r[i] in s
  {
    forall i | 0 <= i < |s| ensures s[i] in r { assert s[i] in multiset(r); }
    forall i | 0 <= i < |r| ensures r[i] in s { assert r[i] in multiset(s); }
  }

  /** Sorting changes nothing a limit or a check looks at. */
  lemma SortKeepsSafety(entries: seq<Entry>, limits: Limits)
    ensures SafeArchive(SortByPath(entries), limits) <==> SafeArchive(entries, limits)
    ensures AllPrintable(SortByPath(entries)) <==> AllPrintable(entries)
    ensures NoBomNames(SortByPath(entries)) <==> NoBomNames(entries)
    ensures ArchiveLength(SortByPath(entries)) == ArchiveLength(entries)
  {
    hide Utf8.Valid, SafeMember, Printable, NameOpensWithBom, Sorting.Sort, PathLeq;
    var s := SortByPath(entries);
    MembersOf(entries, s);
    if DistinctPaths(entries) { Sorting.PermutationKeepsDistinct(PathOf, entries, s); }
    if DistinctPaths(s) { Sorting.PermutationKeepsDistinct(PathOf, s, entries); }
    Sorting.TotalOfSort(IsFile, PathLeq, entries);
    Sorting.TotalOfSort(SizeOfFile, PathLeq, entries);
    Sorting.TotalOfSort(MemberLength, PathLeq, entries);
  }

  lemma {:induction false} PrintedLength(entries: seq<Entry>, limits: Limits)
    requires SafeMembers(entries, limits) && PrintEntries(entries).Ok?
    ensures |PrintEntries(entries).value| == ArchiveLength(entries)
  {
    hide PrintEntry, SafePath, Padded;
    if entries != [] {
      assert entries == [entries[0]] + entries[1..];
      assert forall i | 0 <= i < |entries[1..]| :: entries[1..][i] == entries[i + 1];
      PrintedLength(entries[1..], limits);
      Sorting.TotalOfConcat(MemberLength, [entries[0]], entries[1..]);
      assert [entries[0]][..0] == [];
      assert SafeMember(entries[0], limits);
      assert |entries[0].data| == SizeOfFile(entries[0]);
    }
  }

  // ---------------------------------------------------------------- round trip

  /** The member lists the canonical archive can carry. */
  ghost predicate Carries(entries: seq<Entry>, limits: Limits) {
    && ValidLimits(limits)
    && SafeArchive(entries, limits)
    && AllPrintable(entries)
    && NoBomNames(entries)
    && ArchiveLength(entries) + 1024 <= limits.maxUnpackedBytes
  }

  lemma CarriedReadsBack(entries: seq<Entry>, limits: Limits)
    requires Carries(entries, limits) && PrintEntries(entries).Ok?
    ensures ParseTar(PrintEntries(entries).value + Zeros(1024), limits) == Ok(entries)
  {
    hide PrintEntries, ParseFrom, SafeArchive, AllPrintable, NoBomNames, ValidLimits;
    SafeParts(entries, limits);
    PrintedLength(entries, limits);
    assert [] + entries == entries;
    CarriedListReadsBack(entries, [], limits);
  }

  lemma ReadBackIsCarried(entries: seq<Entry>, limits: Limits)
    requires PrintEntries(entries).Ok?
    requires ParseTar(PrintEntries(entries).value + Zeros(1024), limits) == Ok(entries)
    ensures Carries(entries, limits)
  {
    hide PrintEntries, ParseFrom, SafeArchive, NoBomNames, ValidLimits, ArchiveLength, RereadPath, SplitUstar, Zeros;
    ParsedArchiveIsSafe(PrintEntries(entries).value + Zeros(1024), limits);
    SafeParts(entries, limits);
    PrintedLength(entries, limits);
    ReadBackHasNoBom(entries, limits);
  }

  lemma ReadBackHasNoBom(entries: seq<Entry>, limits: Limits)
    requires TextPaths(entries) && SafeMembers(entries, limits) && PrintEntries(entries).Ok?
    requires ParseFrom(PrintEntries(entries).value + Zeros(1024), Cursor(None, []), limits) == Ok(entries)
    ensures AllPrintable(entries) && NoBomNames(entries)
  {
    hide PrintEntries, ParseFrom, NoBomNames, RereadPath, SplitUstar, TextPaths, SafeMembers, Zeros, PrintEntry,
      SafeArchive, RereadOf, AllPrintable;
    PrintedListReadsBack(entries, [], limits);
    assert entries[0..] == entries;
    UnchangedHasNoBom(entries);
  }

  /** Printing and reading back gives exactly the members, in path order, for exactly these lists. */
  lemma RoundTrip(entries: seq<Entry>, limits: Limits)
    ensures (PrintTar(entries).Ok? && ParseTar(PrintTar(entries).value, limits) == Ok(SortByPath(entries)))
            <==> Carries(entries, limits)
  {
    hide PrintEntries, ParseTar, SortByPath, SafeArchive, AllPrintable, NoBomNames, ValidLimits, ArchiveLength;
    var s := SortByPath(entries);
    SortKeepsSafety(entries, limits);
    PrintEntriesOk(s);
    if Carries(entries, limits) { CarriedReadsBack(s, limits); }
    if PrintTar(entries).Ok? && ParseTar(PrintTar(entries).value, limits) == Ok(s) { ReadBackIsCarried(s, limits); }
  }

  lemma SafeParts(entries: seq<Entry>, limits: Limits)
    requires SafeArchive(entries, limits)
    ensures TextPaths(entries) && SafeMembers(entries, limits)
  {
  }

  lemma UnchangedHasNoBom(entries: seq<Entry>)
    requires AllPrintable(entries) && RereadOf(entries, entries)
    ensures NoBomNames(entries)
  {
    hide PrintEntry, RereadPath, SplitUstar, NameOpensWithBom;
    forall i | 0 <= i < |entries| ensures !NameOpensWithBom(entries[i].path) {
      assert Printable(entries[i]);
      RereadLosesBom(entries[i].path);
    }
  }

  /** What comes back is in path order and is the stable sort of what went in. */
  lemma RoundTripIsSorted(entries: seq<Entry>)
    ensures Sorting.StableSortOf(PathLeq, entries, SortByPath(entries))
  {
    PathOrder();
    Sorting.SortIsStable(PathLeq, entries);
  }

  // ---------------------------------------------------------------- printing is injective

  /** Equal headers describe equal members, up to their data. */
  lemma HeaderIsInjective(a: UstarPath, b: UstarPath, m: nat, n: nat, j: nat, k: nat, s: Kind, t: Kind)
    requires |a.name| <= 100 && |a.prefix| <= 155 && 0 !in a.name && 0 !in a.prefix
    requires |b.name| <= 100 && |b.prefix| <= 155 && 0 !in b.name && 0 !in b.prefix
    requires m < 0x200 && n < 0x200 && j < 0x2_0000_0000 && k < 0x2_0000_0000
    requires HeaderBytes(a, m, j, s) == HeaderBytes(b, n, k, t)
    ensures a == b && m == n && j == k && s == t
  {
    hide HeaderBytes, ParseOctal, StringField, Checksum, UntilNul;
    HeaderReadsBack(a, m, j, s);
    HeaderReadsBack(b, n, k, t);
    StringFieldReadsBack(a.name, 100);
    StringFieldReadsBack(b.name, 100);
    StringFieldReadsBack(a.prefix, 155);
    StringFieldReadsBack(b.prefix, 155);
  }

  lemma MemberIsInjective(e: Entry, f: Entry, restE: Bytes, restF: Bytes, limits: Limits)
    requires SafeMember(e, limits) && Utf8.Valid(e.path) && PrintEntry(e).Ok?
    requires SafeMember(f, limits) && Utf8.Valid(f.path) && PrintEntry(f).Ok?
    requires PrintEntry(e).value + restE == PrintEntry(f).value + restF
    ensures e == f && restE == restF
  {
    hide PrintEntry, SafeMember, Utf8.Valid, HeaderBytes, SplitUstar, Padded;
    PrintedShape(e, restE, limits);
    PrintedShape(f, restF, limits);
    SafeModeAndSize(e, limits);
    SafeModeAndSize(f, limits);
    SafeMemberHasSafePath(e, limits);
    SafeMemberHasSafePath(f, limits);
    SplitOfSafePath(e.path);
    SplitOfSafePath(f.path);
    HeaderIsInjective(SplitUstar(e.path).value, SplitUstar(f.path).value, e.mode, f.mode, |e.data|, |f.data|,
                      e.kind, f.kind);
  }

  lemma {:induction false} PrintIsInjective(a: seq<Entry>, b: seq<Entry>, limits: Limits)
    requires TextPaths(a) && SafeMembers(a, limits) && TextPaths(b) && SafeMembers(b, limits)
    requires PrintEntries(a).Ok? && PrintEntries(b).Ok? && PrintEntries(a) == PrintEntries(b)
    ensures a == b
    decreases |a|
  {
    hide PrintEntry, SafeMember, Utf8.Valid, Padded, SplitUstar;
    if a != [] && b != [] {
      MemberIsInjective(a[0], b[0], PrintEntries(a[1..]).value, PrintEntries(b[1..]).value, limits);
      assert forall i | 0 <= i < |a[1..]| :: a[1..][i] == a[i + 1];
      assert forall i | 0 <= i < |b[1..]| :: b[1..][i] == b[i + 1];
      PrintIsInjective(a[1..], b[1..], limits);
      assert a == [a[0]] + a[1..] && b == [b[0]] + b[1..];
    }
  }

  // ---------------------------------------------------------------- normal form

  /** `canonicalizePackageTarball` on uncompressed streams. */
  function Canonicalize(tar: Bytes, limits: Limits): (r: Result<Bytes>) {
    var entries :- ParseTar(tar, limits);
    PrintTar(entries)
  }

  function PathLength(e: Entry): nat { |e.path| }

  lemma RereadingShortens(s: seq<Entry>, r: seq<Entry>)
    requires AllPrintable(s) && RereadOf(r, s)
    ensures Sorting.Total(PathLength, r) <= Sorting.Total(PathLength, s)
    ensures Sorting.Total(PathLength, r) == Sorting.Total(PathLength, s) ==> NoBomNames(s)
  {
    hide PrintEntry, RereadPath, NameOpensWithBom, SplitUstar, Sorting.Total;
    forall i | 0 <= i < |s|
      ensures PathLength(r[i]) == PathLength(s[i]) - if NameOpensWithBom(s[i].path) then 3 else 0
    {
      assert Printable(s[i]);
      RereadLosesBom(s[i].path);
    }
    Sorting.TotalPointwise(PathLength, r, s);
  }

  lemma SortKeepsPathLength(entries: seq<Entry>)
    ensures Sorting.Total(PathLength, SortByPath(entries)) == Sorting.Total(PathLength, entries)
  {
    Sorting.TotalOfSort(PathLength, PathLeq, entries);
  }

  /** If the canonical archive canonicalises to itself, no name field opened with a byte order mark. */
  lemma FixedPointHasNoBom(s: seq<Entry>, r: seq<Entry>, limits: Limits)
    requires SafeArchive(s, limits) && SafeArchive(r, limits) && AllPrintable(s)
    requires RereadOf(r, s)
    requires PrintEntries(s).Ok? && PrintEntries(SortByPath(r)) == PrintEntries(s)
    ensures NoBomNames(s)
  {
    hide PrintEntries, SafeArchive, Sorting.Sort, AllPrintable, RereadOf, NameOpensWithBom, Sorting.Total, SortByPath;
    SortKeepsSafety(r, limits);
    SafeParts(s, limits);
    SafeParts(SortByPath(r), limits);
    PrintIsInjective(SortByPath(r), s, limits);
    SortKeepsPathLength(r);
    RereadingShortens(s, r);
  }

  /**
   * Canonicalising never lengthens an archive, and its result is a fixed point exactly when no member
   * path has a name field opening with a byte order mark.
   */
  lemma CanonicalizeIsNormalForm(tar: Bytes, limits: Limits)
    requires Canonicalize(tar, limits).Ok?
    ensures var out := Canonicalize(tar, limits).value;
            && |out| <= |tar|
            && (Canonicalize(out, limits) == Ok(out) <==> NoBomNames(ParseTar(tar, limits).value))
  {
    hide PrintEntries, ParseFrom, SortByPath, SafeArchive, AllPrintable, NoBomNames, ValidLimits, ArchiveLength;
    var entries := ParseTar(tar, limits).value;
    var s := SortByPath(entries);
    var out := PrintTar(entries).value;
    ParsedArchiveIsSafe(tar, limits);
    SortKeepsSafety(entries, limits);
    PrintEntriesOk(s);
    SafeParts(s, limits);
    PrintedLength(s, limits);
    if NoBomNames(entries) {
      CarriedReadsBack(s, limits);
      SortingTwice(entries);
    }
    if Canonicalize(out, limits) == Ok(out) {
      var r := ParseTar(out, limits).value;
      ParsedArchiveIsSafe(out, limits);
      PrintedListReadsBack(s, [], limits);
      assert r[0..] == r;
      SameBody(PrintEntries(SortByPath(r)).value, PrintEntries(s).value);
      FixedPointHasNoBom(s, r, limits);
    }
  }

  lemma SortingTwice(entries: seq<Entry>)
    ensures SortByPath(SortByPath(entries)) == SortByPath(entries)
  {
    PathOrder();
    Sorting.SortIsStable(PathLeq, entries);
    Sorting.SortOfSorted(PathLeq, SortByPath(entries));
  }

  lemma SameBody(a: Bytes, b: Bytes)
    requires a + Zeros(1024) == b + Zeros(1024)
    ensures a == b
  {
    assert |a| == |b|;
    assert (a + Zeros(1024))[..|a|] == a && (b + Zeros(1024))[..|b|] == b;
  }
}
