/** A member that the canonical archive cannot carry: its name field opens with a byte order mark. */
module TarBomExample {
  import opened Common
  import opened TarFields
  import opened TarReader
  import opened TarWriter
  import opened TarRoundTrip
  import opened TarCanonical
  import opened TarReread
  import opened TarInspect
  import opened Splitting
  import Sorting
  import Utf8

  const RELEASE_TARBALL_LIMITS := Limits(64 * 1024 * 1024, 256 * 1024 * 1024, 64 * 1024 * 1024, 10_000)

  /** Ninety times `a`. */
  function Folder(): (r: Bytes)
    ensures |r| == 90 && forall i | 0 <= i < |r| :: r[i] == 0x61
  {
    seq(90, _ => 0x61)
  }

  const NAME: Bytes := Utf8.BOM + [0x78]

  /** `package/aaa...aaa/<name>`. */
  function PathTo(name: Bytes): Bytes { PACKAGE + [SLASH] + Folder() + [SLASH] + name }

  /** `package/aaa...aaa/<BOM>x`, 103 bytes long. */
  const PATH: Bytes := PathTo(NAME)

  const MEMBER := Entry(PATH, 0x1A4, File, [])

  lemma {:induction false} AsciiIsValid(s: Bytes)
    requires forall i | 0 <= i < |s| :: s[i] < 0x80
    ensures Utf8.Valid(s)
  {
    if s != [] {
      assert Utf8.CharLength(s) == 1;
      AsciiIsValid(s[1..]);
    }
  }

  /** A byte order mark and some ASCII. */
  predicate Marked(name: Bytes) {
    && 3 < |name| <= 5 && Utf8.BOM <= name
    && forall i | 3 <= i < |name| :: 0x20 < name[i] < 0x80 && name[i] != SLASH && name[i] != 0x5C
  }

  lemma PathIsText(name: Bytes)
    requires Marked(name)
    ensures Utf8.Valid(name) && Utf8.Valid(PathTo(name))
  {
    var front := PACKAGE + [SLASH] + Folder() + [SLASH];
    AsciiIsValid(front);
    assert Utf8.CharLength(name) == 3;
    AsciiIsValid(name[3..]);
    Utf8.ValidConcat(front, name);
    assert PathTo(name) == front + name;
  }

  predicate PlainSegment(s: Bytes) {
    |s| > 2 && SLASH !in s && 0 !in s && 0x5C !in s
  }

  lemma SafeFromParts(path: Bytes)
    requires PACKAGE + [SLASH] <= path && path[|path| - 1] != SLASH && 0 !in path && 0x5C !in path
    requires forall segment | segment in Split(path, SLASH) :: |segment| > 2
    ensures SafePath(path)
  {
    hide Split;
  }

  lemma PlainPathIsSafe(folder: Bytes, name: Bytes)
    requires PlainSegment(folder) && PlainSegment(name)
    ensures SafePath(PACKAGE + [SLASH] + folder + [SLASH] + name)
  {
    hide Split, SafePath;
    var tail := folder + [SLASH] + name;
    var path := PACKAGE + [SLASH] + tail;
    assert PACKAGE + [SLASH] + folder + [SLASH] + name == path;
    SplitOnce(PACKAGE, tail, SLASH);
    SplitOnce(folder, name, SLASH);
    SplitPlain(name, SLASH);
    Absent(0, folder, name);
    Absent(0, PACKAGE, tail);
    Absent(0x5C, folder, name);
    Absent(0x5C, PACKAGE, tail);
    assert path[|path| - 1] == name[|name| - 1] && name[|name| - 1] in name;
    SafeFromParts(path);
  }

  lemma Absent(x: Byte, a: Bytes, b: Bytes)
    requires x !in a && x != SLASH && x !in b
    ensures x !in a + [SLASH] + b
  {
  }

  lemma PathIsSafe(name: Bytes)
    requires Marked(name)
    ensures SafePath(PathTo(name))
  {
    hide SafePath;
    assert forall i | 0 <= i < 3 :: name[i] == Utf8.BOM[i];
    PlainPathIsSafe(Folder(), name);
  }

  lemma PathSplitsBeforeTheMark(name: Bytes)
    requires Marked(name)
    ensures SplitUstar(PathTo(name)) == Ok(UstarPath(name, PACKAGE + [SLASH] + Folder()))
  {
    var path := PathTo(name);
    assert path[98] == SLASH && path[99..] == name && path[..98] == PACKAGE + [SLASH] + Folder();
    assert SplitsAt(path, 98);
    var i := LastSplit(path, |path| - 1).value;
    assert 98 <= i < |path|;
    assert forall j | 0 <= j < 3 :: name[j] == Utf8.BOM[j];
    assert forall j | 99 <= j < |path| :: path[j] == name[j - 99] != SLASH;
  }

  /** Everything else about the member is in order, yet the archive does not give it back. */
  lemma BomBreaksTheRoundTrip()
    ensures SafeArchive([MEMBER], RELEASE_TARBALL_LIMITS) && AllPrintable([MEMBER])
    ensures ArchiveLength([MEMBER]) + 1024 <= RELEASE_TARBALL_LIMITS.maxUnpackedBytes
    ensures !(PrintTar([MEMBER]).Ok? &&
              ParseTar(PrintTar([MEMBER]).value, RELEASE_TARBALL_LIMITS) == Ok(SortByPath([MEMBER])))
  {
    hide PrintTar, ParseTar, SplitUstar, SafePath, Utf8.Valid, Carries, PrintEntry, SortByPath, SafeArchive,
      ArchiveLength, PathTo;
    PathIsText(NAME);
    PathIsSafe(NAME);
    PathSplitsBeforeTheMark(NAME);
    OneEmptyFile(MEMBER, RELEASE_TARBALL_LIMITS);
    RoundTrip([MEMBER], RELEASE_TARBALL_LIMITS);
    BomIsNotCarried(MEMBER, RELEASE_TARBALL_LIMITS);
  }

  lemma BomIsNotCarried(e: Entry, limits: Limits)
    requires NameOpensWithBom(e.path)
    ensures !Carries([e], limits)
  {
    hide NameOpensWithBom, SafeArchive, AllPrintable, ArchiveLength, ValidLimits;
    assert NameOpensWithBom([e][0].path);
  }

  lemma OneEmptyFile(e: Entry, limits: Limits)
    requires SafeMember(e, limits) && e.kind.File? && e.data == [] && Utf8.Valid(e.path)
    requires ValidLimits(limits)
    ensures SafeArchive([e], limits) && ArchiveLength([e]) == 512
  {
    hide SafeMember, Utf8.Valid, Padded;
    AppendKeepsSafety([], e, limits);
    assert [] + [e] == [e];
    assert Padded(0) == 0;
  }

  // ---------------------------------------------------------------- an archive whose canonical form cannot be read

  const DOTS: Bytes := Utf8.BOM + [0x2E, 0x2E]

  /** `package/aaa...aaa/<BOM>..`, which comes back as a path that ends in `..`. */
  const DOTTED := Entry(PathTo(DOTS), 0x1A4, File, [])

  /** A header may split the path elsewhere: here the name field holds the folder and does not open with the mark. */
  const OTHER_SPLIT := UstarPath(Folder() + [SLASH] + DOTS, PACKAGE)

  function ManifestEntry(data: Bytes): Entry { Entry(MANIFEST, 0x1A4, File, data) }

  function OtherHeader(): (r: Bytes)
    ensures |r| == 512
  {
    HeaderBytes(OTHER_SPLIT, 0x1A4, 0, File)
  }

  lemma ShortPathIsSafe(name: Bytes)
    requires PlainSegment(name)
    ensures SafePath(PACKAGE + [SLASH] + name)
  {
    hide Split, SafePath;
    var path := PACKAGE + [SLASH] + name;
    SplitOnce(PACKAGE, name, SLASH);
    SplitPlain(name, SLASH);
    Absent(0, PACKAGE, name);
    Absent(0x5C, PACKAGE, name);
    assert path[|path| - 1] == name[|name| - 1] && name[|name| - 1] in name;
    SafeFromParts(path);
  }

  /** `package.json`. */
  const PACKAGE_JSON: Bytes := [0x70, 0x61, 0x63, 0x6B, 0x61, 0x67, 0x65, 0x2E, 0x6A, 0x73, 0x6F, 0x6E]

  lemma PackageJsonIsPlain()
    ensures PlainSegment(PACKAGE_JSON)
  {
  }

  lemma ManifestPathIsSafe()
    ensures SafePath(MANIFEST) && Utf8.Valid(MANIFEST)
  {
    hide SafePath, Utf8.Valid, PlainSegment;
    assert MANIFEST == PACKAGE + [SLASH] + PACKAGE_JSON;
    PackageJsonIsPlain();
    ShortPathIsSafe(PACKAGE_JSON);
    AsciiIsValid(MANIFEST);
  }

  lemma ManifestIsSafe(data: Bytes)
    requires |data| <= 0x10_0000
    ensures SafeMember(ManifestEntry(data), RELEASE_TARBALL_LIMITS) && Utf8.Valid(MANIFEST)
    ensures PrintEntry(ManifestEntry(data)).Ok? && Reread(ManifestEntry(data)) == ManifestEntry(data)
  {
    hide SafePath, Utf8.Valid, RereadPath;
    ManifestPathIsSafe();
    assert SplitUstar(MANIFEST) == Ok(UstarPath(MANIFEST, []));
    assert MANIFEST[0] != Utf8.BOM[0];
    RereadLosesBom(MANIFEST);
  }

  lemma OtherSplitIsText()
    ensures Utf8.Valid(OTHER_SPLIT.name) && Utf8.Valid(PACKAGE)
    ensures !(Utf8.BOM <= OTHER_SPLIT.name) && !(Utf8.BOM <= PACKAGE)
    ensures 0 !in OTHER_SPLIT.name && 0 !in PACKAGE && |OTHER_SPLIT.name| <= 100 && |PACKAGE| <= 155
    ensures Join(PACKAGE, OTHER_SPLIT.name) == DOTTED.path
  {
    hide Utf8.Valid;
    PathIsText(DOTS);
    var front := Folder() + [SLASH];
    AsciiIsValid(front);
    AsciiIsValid(PACKAGE);
    Utf8.ValidConcat(front, DOTS);
    assert OTHER_SPLIT.name[0] == 0x61 && Utf8.BOM[0] != 0x61 && PACKAGE[0] != Utf8.BOM[0];
    assert forall i | 0 <= i < 5 :: DOTS[i] != 0;
  }

  /** The block that a header of an empty member frames, when its fields hold plain text. */
  lemma HeaderBlock(split: UstarPath, mode: nat, kind: Kind, rest: Bytes, limits: Limits)
    requires |split.name| <= 100 && |split.prefix| <= 155 && mode < 0x200 && limits.maxEntryBytes >= 0
    requires Utf8.Valid(split.name) && Utf8.Valid(split.prefix) && 0 !in split.name && 0 !in split.prefix
    requires !(Utf8.BOM <= split.name) && !(Utf8.BOM <= split.prefix)
    ensures var header := HeaderBytes(split, mode, 0, kind);
      ReadBlock(header + rest, limits) == Ok(Block(header, split.name, split.prefix, []))
  {
    hide Utf8.Valid, ParseOctal, HeaderBytes, StringField, UntilNul, Checksum, Utf8.Decode, ReadBlock, Padded;
    var header := HeaderBytes(split, mode, 0, kind);
    HeaderReadsBack(split, mode, 0, kind);
    DecodeName(split.name);
    DecodeName(split.prefix);
    var all := header + rest;
    assert all[..512] == header && all[512..512] == [];
    NoPadding();
    ReadBlockFields(all, 0, split.name, split.prefix, limits);
  }

  lemma NoPadding()
    ensures Padded(0) == 0
  {
  }

  /** What the reader does with such a block. */
  lemma MemberStep(block: Block, e: Entry, entries: seq<Entry>, limits: Limits)
    requires |block.header| == 512 && block.header[156] == 0x30 && ParseOctal(block.header[100..108]) == Ok(e.mode)
    requires e.kind.File? && Join(block.prefix, block.path) == e.path && block.data == e.data
    requires Admissible(e, entries, limits)
    ensures Step(block, Cursor(None, entries), limits) == Ok(Cursor(None, entries + [e]))
  {
    hide ParseOctal, Admissible, Join;
  }

  lemma OtherBlock(rest: Bytes)
    ensures ReadBlock(OtherHeader() + rest, RELEASE_TARBALL_LIMITS) ==
            Ok(Block(OtherHeader(), OTHER_SPLIT.name, PACKAGE, []))
  {
    hide Utf8.Valid, ReadBlock, HeaderBytes;
    OtherSplitIsText();
    HeaderBlock(OTHER_SPLIT, 0x1A4, File, rest, RELEASE_TARBALL_LIMITS);
  }

  const OTHER_BLOCK := Block(OtherHeader(), OTHER_SPLIT.name, PACKAGE, [])

  lemma OtherStep(entries: seq<Entry>)
    requires Admissible(DOTTED, entries, RELEASE_TARBALL_LIMITS)
    ensures Step(OTHER_BLOCK, Cursor(None, entries), RELEASE_TARBALL_LIMITS) == Ok(Cursor(None, entries + [DOTTED]))
    ensures OtherHeader()[156] == 0x30
  {
    hide ParseOctal, HeaderBytes, Admissible, Join, PathTo, StringField, Checksum, Step;
    OtherSplitIsText();
    HeaderReadsBack(OTHER_SPLIT, 0x1A4, 0, File);
    MemberStep(OTHER_BLOCK, DOTTED, entries, RELEASE_TARBALL_LIMITS);
  }

  /** The hand-made header followed by anything reads as the dotted member. */
  lemma OtherMember(rest: Bytes, entries: seq<Entry>)
    requires Admissible(DOTTED, entries, RELEASE_TARBALL_LIMITS)
    ensures ParseFrom(OtherHeader() + rest, Cursor(None, entries), RELEASE_TARBALL_LIMITS) ==
            ParseFrom(rest, Cursor(None, entries + [DOTTED]), RELEASE_TARBALL_LIMITS)
  {
    hide OtherHeader, ReadBlock, Admissible, ParseFrom, Step, PathTo;
    var all := OtherHeader() + rest;
    OtherBlock(rest);
    OtherStep(entries);
    assert all[..512] == OtherHeader();
    ParseStep(all, Cursor(None, entries), OTHER_BLOCK, Cursor(None, entries + [DOTTED]), RELEASE_TARBALL_LIMITS);
    assert all[512 + Padded(0)..] == rest;
  }

  /** A safe member whose path, once the mark is dropped, ends in `..`. */
  lemma DottedDoesNotComeBack()
    ensures SafeMember(DOTTED, RELEASE_TARBALL_LIMITS) && Utf8.Valid(DOTTED.path) && Printable(DOTTED)
    ensures !SafePath(PathBack(DOTTED))
  {
    hide Utf8.Valid, SplitUstar, SafePath;
    PathIsText(DOTS);
    PathIsSafe(DOTS);
    PathSplitsBeforeTheMark(DOTS);
    assert DOTS[3..] == [0x2E, 0x2E];
    assert PathBack(DOTTED) == PACKAGE + [SLASH] + Folder() + [SLASH] + [0x2E, 0x2E];
    DotsAreUnsafe(Folder());
  }

  lemma DotsAreUnsafe(folder: Bytes)
    requires SLASH !in folder
    ensures !SafePath(PACKAGE + [SLASH] + folder + [SLASH] + [0x2E, 0x2E])
  {
    var dots: Bytes := [0x2E, 0x2E];
    var tail := folder + [SLASH] + dots;
    var path := PACKAGE + [SLASH] + tail;
    assert PACKAGE + [SLASH] + folder + [SLASH] + dots == path;
    assert path[|path| - 1] == 0x2E;
    SplitOnce(PACKAGE, tail, SLASH);
    SplitOnce(folder, dots, SLASH);
    SplitPlain(dots, SLASH);
    hide Split;
    assert dots in Split(path, SLASH);
  }

  /** A manifest and the dotted member. */
  function Archive(data: Bytes): Bytes
    requires PrintEntry(ManifestEntry(data)).Ok?
  {
    PrintEntry(ManifestEntry(data)).value + (OtherHeader() + Zeros(1024))
  }

  lemma PairIsSafe(data: Bytes)
    requires |data| <= 0x10_0000
    ensures Admissible(ManifestEntry(data), [], RELEASE_TARBALL_LIMITS)
    ensures Admissible(DOTTED, [ManifestEntry(data)], RELEASE_TARBALL_LIMITS)
  {
    hide SafeMember, Utf8.Valid, PrintEntry, RereadPath, PathBack;
    ManifestIsSafe(data);
    DottedDoesNotComeBack();
    assert [ManifestEntry(data)][..0] == [];
    assert |DOTTED.path| == 104 && |MANIFEST| == 20;
  }

  lemma ArchiveParses(data: Bytes)
    requires |data| <= 0x10_0000
    ensures PrintEntry(ManifestEntry(data)).Ok?
    ensures ParseTar(Archive(data), RELEASE_TARBALL_LIMITS) == Ok([ManifestEntry(data), DOTTED])
  {
    hide SafeMember, Utf8.Valid, PrintEntry, RereadPath, ParseFrom, Admissible, HeaderBytes, Zeros, PathTo;
    var m, limits := ManifestEntry(data), RELEASE_TARBALL_LIMITS;
    ManifestIsSafe(data);
    PairIsSafe(data);
    PrintedMember(m, OtherHeader() + Zeros(1024), [], limits);
    OtherMember(Zeros(1024), [m]);
    TerminatorEnds([m, DOTTED], limits);
    assert [] + [m] == [m] && [m] + [DOTTED] == [m, DOTTED];
  }

  lemma PrintableIsCanonicalized(tar: Bytes, entries: seq<Entry>, limits: Limits)
    requires ParseTar(tar, limits) == Ok(entries) && AllPrintable(entries)
    ensures Canonicalize(tar, limits).Ok?
  {
    hide ParseTar, PrintEntries, AllPrintable, SortByPath, SafeArchive, NoBomNames, ArchiveLength;
    SortKeepsSafety(entries, limits);
    PrintEntriesOk(SortByPath(entries));
  }

  lemma ManifestIsFound(m: Entry, other: Entry)
    requires IsManifest(m)
    ensures FindManifest([m, other]) == Some(m.data)
  {
    hide IsManifest;
  }

  /** The archive inspects, and canonicalises, to one that is refused. */
  lemma CanonicalFormIsRefused<M>(data: Bytes, parseManifest: Bytes -> Result<M>)
    requires |data| <= 0x10_0000 && parseManifest(data).Ok?
    ensures PrintEntry(ManifestEntry(data)).Ok? && Canonicalize(Archive(data), RELEASE_TARBALL_LIMITS).Ok?
    ensures Inspect(Archive(data), RELEASE_TARBALL_LIMITS, parseManifest).Ok?
    ensures Inspect(Canonicalize(Archive(data), RELEASE_TARBALL_LIMITS).value, RELEASE_TARBALL_LIMITS,
                    parseManifest).Rejected?
  {
    hide SafePath, Utf8.Valid, PrintEntry, ParseTar, PathBack, SafeMember, Archive, Canonicalize, FindManifest, Reread,
      Sorting.DistinctBy, FileBytes, FileCount;
    var entries := [ManifestEntry(data), DOTTED];
    ArchiveParses(data);
    ManifestIsSafe(data);
    DottedDoesNotComeBack();
    assert Printable(entries[0]) && Printable(entries[1]);
    PrintableIsCanonicalized(Archive(data), entries, RELEASE_TARBALL_LIMITS);
    ManifestIsFound(entries[0], entries[1]);
    assert !ComeBackSafely(entries) by { assert !SafePath(PathBack(entries[1])); }
    CanonicalParses(Archive(data), RELEASE_TARBALL_LIMITS);
  }
}
