/**
 * When a printed archive can be read again. A name field that opens with a byte order mark comes back without it, so
 * the paths that come back may be unsafe or clash; nothing else can go wrong.
 */
module TarReread {
  import opened Common
  import opened TarReader
  import opened TarWriter
  import opened TarRoundTrip
  import opened TarCanonical
  import Sorting
  import Utf8

  /** The path a member comes back under. */
  function PathBack(e: Entry): Bytes {
    if SplitUstar(e.path).Ok? then RereadPath(e.path) else e.path
  }

  /** The members' paths, as they come back, are safe and distinct. */
  ghost predicate ComeBackSafely(entries: seq<Entry>) {
    (forall i | 0 <= i < |entries| :: SafePath(PathBack(entries[i]))) && Sorting.DistinctBy(PathBack, entries)
  }

  function Rereads(s: seq<Entry>): (r: seq<Entry>)
    ensures |r| == |s| && forall i | 0 <= i < |s| :: r[i] == s[i].(path := PathBack(s[i]))
  {
    seq(|s|, i requires 0 <= i < |s| => s[i].(path := PathBack(s[i])))
  }

  lemma RereadsAre(s: seq<Entry>)
    requires AllPrintable(s)
    ensures RereadOf(Rereads(s), s)
  {
    hide SplitUstar, RereadPath, Header;
    assert forall i | 0 <= i < |s| :: Printable(s[i]);
  }

  lemma PathBackIsText(e: Entry)
    requires SafePath(e.path) && Utf8.Valid(e.path)
    ensures Utf8.Valid(PathBack(e))
  {
    hide SafePath, SplitUstar, Join;
    if SplitUstar(e.path).Ok? {
      SplitOfSafePath(e.path);
      var split := SplitUstar(e.path).value;
      hide Utf8.Valid;
      var name := if Utf8.BOM <= split.name then split.name[3..] else split.name;
      assert Utf8.Decode(split.name) == Ok(name);
      JoinIsText(split.prefix, name);
    }
  }

  /** Mode, kind, data and totals do not change, so safety of the reread list is safety of its paths. */
  lemma RereadsAreSafe(s: seq<Entry>, limits: Limits)
    requires SafeArchive(s, limits)
    ensures SafeArchive(Rereads(s), limits) <==> ComeBackSafely(s)
  {
    hide Utf8.Valid, SafePath, PathBack, Sorting.Total;
    var r := Rereads(s);
    forall i | 0 <= i < |s|
      ensures Utf8.Valid(r[i].path) && (SafeMember(r[i], limits) <==> SafePath(r[i].path))
    {
      assert SafeMember(s[i], limits);
      PathBackIsText(s[i]);
    }
    SameTotals(s);
    assert DistinctPaths(r) <==> Sorting.DistinctBy(PathBack, s);
  }

  lemma SameTotals(s: seq<Entry>)
    ensures FileCount(Rereads(s)) == FileCount(s) && FileBytes(Rereads(s)) == FileBytes(s)
  {
    hide PathBack, Sorting.Total;
    var r := Rereads(s);
    Sorting.TotalPointwise(IsFile, r, s);
    Sorting.TotalPointwise(IsFile, s, r);
    Sorting.TotalPointwise(SizeOfFile, r, s);
    Sorting.TotalPointwise(SizeOfFile, s, r);
  }

  /** A printed list whose rereading would be safe is read. */
  lemma {:induction false} SafeRereadsParse(entries: seq<Entry>, r: seq<Entry>, before: seq<Entry>, limits: Limits)
    requires TextPaths(entries) && SafeMembers(entries, limits) && PrintEntries(entries).Ok? && AllPrintable(entries)
    requires RereadOf(r, entries) && SafeArchive(before + r, limits)
    ensures ParseFrom(PrintEntries(entries).value + Zeros(1024), Cursor(None, before), limits).Ok?
    decreases |entries|
  {
    hide PrintEntries, PrintEntry, SplitUstar, ParseFrom, TextPaths, SafeMembers, Admissible, RereadPath, SafeArchive,
      Zeros;
    if entries == [] {
      PrintNothing(entries);
      assert [] + Zeros(1024) == Zeros(1024);
      TerminatorEnds(before, limits);
    } else {
      assert Printable(entries[0]);
      var e := Reread(entries[0]);
      assert before + r == before + [e] + r[1..];
      SafePrefix(before + [e], r[1..], limits);
      SafeMemberIsAdmissible(before, e, limits);
      TailIsSafe(entries, limits);
      PrintedListStep(entries, before, limits);
      forall i | 0 <= i < |entries[1..]| ensures Printable(entries[1..][i]) && r[1..][i] == Reread(entries[1..][i]) {
        assert entries[1..][i] == entries[i + 1] && r[1..][i] == r[i + 1] && Printable(entries[i + 1]);
      }
      SafeRereadsParse(entries[1..], r[1..], before + [e], limits);
    }
  }

  /** Sorting does not matter. */
  lemma SortComesBackAlike(entries: seq<Entry>)
    ensures ComeBackSafely(SortByPath(entries)) <==> ComeBackSafely(entries)
  {
    hide PathBack, SafePath, Sorting.Sort, PathLeq;
    var s := SortByPath(entries);
    MembersOf(entries, s);
    if Sorting.DistinctBy(PathBack, entries) { Sorting.PermutationKeepsDistinct(PathBack, entries, s); }
    if Sorting.DistinctBy(PathBack, s) { Sorting.PermutationKeepsDistinct(PathBack, s, entries); }
  }

  /** A safe list is printed to a body that is read again exactly when its paths come back safely. */
  lemma PrintedParses(s: seq<Entry>, limits: Limits)
    requires SafeArchive(s, limits) && PrintEntries(s).Ok?
    ensures ParseFrom(PrintEntries(s).value + Zeros(1024), Cursor(None, []), limits).Ok? <==> ComeBackSafely(s)
  {
    hide PrintEntries, ParseFrom, SafeArchive, AllPrintable, RereadOf, ComeBackSafely, Rereads, Zeros, TextPaths,
      SafeMembers;
    SafeParts(s, limits);
    PrintEntriesOk(s);
    RereadsAre(s);
    RereadsAreSafe(s, limits);
    assert [] + Rereads(s) == Rereads(s);
    if ComeBackSafely(s) { SafeRereadsParse(s, Rereads(s), [], limits); }
    var parsed := ParseFrom(PrintEntries(s).value + Zeros(1024), Cursor(None, []), limits);
    if parsed.Ok? {
      PrintedListReadsBack(s, [], limits);
      assert parsed.value[0..] == parsed.value;
      SameReread(parsed.value, s);
      assert [] + s == s;
      SafePrefix([], s, limits);
      ReaderGuarantees(PrintEntries(s).value + Zeros(1024), Cursor(None, []), limits);
    }
  }

  lemma SameReread(r: seq<Entry>, s: seq<Entry>)
    requires AllPrintable(s) && RereadOf(r, s)
    ensures r == Rereads(s)
  {
    hide PrintEntry, SplitUstar, RereadPath;
    forall i | 0 <= i < |s| ensures r[i] == Rereads(s)[i] { assert Printable(s[i]); }
  }

  /**
   * The canonical archive can be read again exactly when, once the byte order marks that open name fields are dropped,
   * the members' paths are still safe and distinct.
   */
  lemma CanonicalParses(tar: Bytes, limits: Limits)
    requires Canonicalize(tar, limits).Ok?
    ensures ParseTar(Canonicalize(tar, limits).value, limits).Ok? <==> ComeBackSafely(ParseTar(tar, limits).value)
  {
    hide PrintEntries, ParseFrom, SortByPath, SafeArchive, AllPrintable, ComeBackSafely, ValidLimits, ArchiveLength,
      Zeros;
    var entries := ParseTar(tar, limits).value;
    ParsedArchiveIsSafe(tar, limits);
    SortKeepsSafety(entries, limits);
    SortComesBackAlike(entries);
    PrintedParses(SortByPath(entries), limits);
    CanonicalizeIsNormalForm(tar, limits);
  }

  /** In particular it can when no name field opens with a mark. */
  lemma UnmarkedComesBackSafely(entries: seq<Entry>, limits: Limits)
    requires SafeArchive(entries, limits) && NoBomNames(entries)
    ensures ComeBackSafely(entries)
  {
    hide Utf8.Valid, SafePath, SplitUstar, NameOpensWithBom, RereadPath;
    forall i | 0 <= i < |entries| ensures PathBack(entries[i]) == PathOf(entries[i]) && SafePath(entries[i].path) {
      assert SafeMember(entries[i], limits) && !NameOpensWithBom(entries[i].path);
      if SplitUstar(entries[i].path).Ok? { RereadLosesBom(entries[i].path); }
    }
  }
}
