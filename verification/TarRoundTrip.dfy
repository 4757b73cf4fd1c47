/**
 * Reading back what the writer prints: exactly which member lists survive, and what every list the
 * reader accepts satisfies.
 */
module TarRoundTrip {
  import opened Common
  import opened TarFields
  import opened TarReader
  import opened TarWriter
  import Pax
  import Sorting
  import Utf8

  // ---------------------------------------------------------------- what the reader guarantees

  function PathOf(e: Entry): Bytes { e.path }

  ghost predicate DistinctPaths(entries: seq<Entry>) { Sorting.DistinctBy(PathOf, entries) }

  ghost predicate TextPaths(entries: seq<Entry>) {
    forall i | 0 <= i < |entries| :: Utf8.Valid(entries[i].path)
  }

  ghost predicate SafeMembers(entries: seq<Entry>, limits: Limits) {
    forall i | 0 <= i < |entries| :: SafeMember(entries[i], limits)
  }

  ghost predicate WithinBudget(entries: seq<Entry>, limits: Limits) {
    FileCount(entries) <= limits.maxFileCount && FileBytes(entries) <= limits.maxUnpackedBytes
  }

  /** Everything the reader checks about its result. */
  ghost predicate SafeArchive(entries: seq<Entry>, limits: Limits) {
    && TextPaths(entries) && SafeMembers(entries, limits)
    && DistinctPaths(entries) && WithinBudget(entries, limits)
  }

  function MemberLength(e: Entry): nat { 512 + Padded(|e.data|) }

  function ArchiveLength(entries: seq<Entry>): nat { Sorting.Total(MemberLength, entries) }

  lemma JoinIsText(prefix: Bytes, name: Bytes)
    requires Utf8.Valid(prefix) && Utf8.Valid(name)
    ensures Utf8.Valid(Join(prefix, name))
  {
    if prefix != [] {
      var tail := [SLASH] + name;
      assert tail[1..] == name && Utf8.CharLength(tail) == 1;
      Utf8.ValidConcat(prefix, tail);
      assert prefix + tail == prefix + [SLASH] + name;
    }
  }

  lemma LongPathIsText(data: Bytes)
    ensures GnuLongPath(data).Ok? ==> Utf8.Valid(GnuLongPath(data).value)
  {
    var decoded := Utf8.Decode(UntilNul(data));
    if decoded.Ok? && decoded.value != [] && decoded.value[|decoded.value| - 1] == 0x0A {
      Utf8.ValidSplit(decoded.value, |decoded.value| - 1);
    }
  }

  lemma {:induction false} PaxPathIsText(data: Bytes, path: Option<Bytes>)
    requires path.Some? ==> Utf8.Valid(path.value)
    ensures var r := Pax.PathAttribute(data, path); r.Ok? && r.value.Some? ==> Utf8.Valid(r.value.value)
    decreases |data|
  {
    if data != [] && Pax.ReadRecord(data).Ok? {
      var record := Pax.ReadRecord(data).value;
      assert Utf8.Valid(record.value);
      Pax.PathAttributeStep(data, record, path);
      PaxPathIsText(data[record.length..], if record.key == Pax.PATH_KEY then Some(record.value) else path);
    }
  }

  ghost predicate TextCursor(c: Cursor) {
    c.pending.Some? ==> Utf8.Valid(c.pending.value)
  }

  lemma AppendKeepsSafety(entries: seq<Entry>, e: Entry, limits: Limits)
    requires SafeArchive(entries, limits) && Admissible(e, entries, limits) && Utf8.Valid(e.path)
    ensures SafeArchive(entries + [e], limits)
    ensures ArchiveLength(entries + [e]) == ArchiveLength(entries) + 512 + Padded(|e.data|)
  {
    hide Utf8.Valid, SafeMember, Padded;
    assert (entries + [e])[..|entries|] == entries;
    assert forall i | 0 <= i < |entries| :: entries[i].path != e.path;
  }

  /** A member block adds one admissible member; an extension block only changes the pending path. */
  lemma StepShape(block: Block, c: Cursor, limits: Limits)
    requires |block.header| == 512 && Utf8.Valid(block.path) && Utf8.Valid(block.prefix) && TextCursor(c)
    requires Step(block, c, limits).Ok?
    ensures var next := Step(block, c, limits).value;
            TextCursor(next) &&
            (next.entries == c.entries ||
             exists e :: next.entries == c.entries + [e] && Admissible(e, c.entries, limits) &&
                         e.data == block.data && Utf8.Valid(e.path))
  {
    hide Utf8.Valid, Admissible, ParseOctal, GnuLongPath, Pax.PathAttribute, Join;
    PaxPathIsText(block.data, None);
    LongPathIsText(block.data);
    JoinIsText(block.prefix, block.path);
  }

  /** One block keeps everything the reader guarantees; only a member of a fitting length is added. */
  lemma StepKeepsSafety(block: Block, c: Cursor, limits: Limits)
    requires |block.header| == 512 && Utf8.Valid(block.path) && Utf8.Valid(block.prefix)
    requires TextCursor(c) && SafeArchive(c.entries, limits) && Step(block, c, limits).Ok?
    ensures var next := Step(block, c, limits).value;
            && TextCursor(next) && SafeArchive(next.entries, limits) && c.entries <= next.entries
            && ArchiveLength(next.entries) <= ArchiveLength(c.entries) + 512 + Padded(|block.data|)
  {
    hide Step, SafeArchive, Admissible, Utf8.Valid;
    StepShape(block, c, limits);
    var next := Step(block, c, limits).value;
    if next.entries != c.entries {
      var e :| next.entries == c.entries + [e] && Admissible(e, c.entries, limits) &&
               e.data == block.data && Utf8.Valid(e.path);
      AppendKeepsSafety(c.entries, e, limits);
    }
  }

  lemma ReadBlockIsText(rest: Bytes, limits: Limits)
    requires |rest| >= 512 && ReadBlock(rest, limits).Ok?
    ensures Utf8.Valid(ReadBlock(rest, limits).value.path) && Utf8.Valid(ReadBlock(rest, limits).value.prefix)
  {
    hide Utf8.Valid, ParseOctal, Checksum, UntilNul;
  }

  /** Whatever archive is accepted, its members are safe, distinct and within budget, and no longer than it. */
  lemma {:induction false} ReaderGuarantees(rest: Bytes, c: Cursor, limits: Limits)
    requires TextCursor(c) && SafeArchive(c.entries, limits)
    requires ParseFrom(rest, c, limits).Ok?
    ensures var entries := ParseFrom(rest, c, limits).value;
            && SafeArchive(entries, limits) && c.entries <= entries
            && ArchiveLength(entries) + 1024 <= ArchiveLength(c.entries) + |rest|
    decreases |rest|
  {
    hide Step, SafeArchive, ReadBlock, TextCursor, Padded, AllZero;
    if !AllZero(rest[..512]) {
      var block := ReadBlock(rest, limits).value;
      var next := Step(block, c, limits).value;
      ReadBlockIsText(rest, limits);
      StepKeepsSafety(block, c, limits);
      ReaderGuarantees(rest[512 + Padded(|block.data|)..], next, limits);
    }
  }

  /** The same for a whole stream. */
  lemma ParsedArchiveIsSafe(tar: Bytes, limits: Limits)
    requires ParseTar(tar, limits).Ok?
    ensures SafeArchive(ParseTar(tar, limits).value, limits)
    ensures ArchiveLength(ParseTar(tar, limits).value) + 1024 <= |tar|
  {
    ReaderGuarantees(tar, Cursor(None, []), limits);
  }

  // ---------------------------------------------------------------- reading one printed member

  lemma FrontFields(name: Bytes, mode: Bytes, zero8: Bytes, size: Bytes, zero12: Bytes)
    requires |name| <= 100 && |mode| == |zero8| == 8 && |size| == |zero12| == 12
    ensures var r := FrontLayout(name, mode, zero8, size, zero12);
            r[..100] == StringField(name, 100) && r[100..108] == mode && r[124..136] == size
  {
  }

  lemma BackFields(kind: Kind, prefix: Bytes)
    requires |prefix| <= 155
    ensures HeaderBack(kind, prefix)[0] == TypeByte(kind)
    ensures HeaderBack(kind, prefix)[189..344] == StringField(prefix, 155)
  {
    assert StringField(prefix, 167)[..155] == StringField(prefix, 155);
  }

  lemma Slices(front: Bytes, middle: Bytes, back: Bytes)
    requires |front| == 148 && |middle| == 8 && |back| == 356
    ensures var h := front + middle + back;
            && h[..148] == front && h[148..156] == middle && h[156..] == back
            && h[..100] == front[..100] && h[100..108] == front[100..108] && h[124..136] == front[124..136]
            && h[156] == back[0] && h[345..500] == back[189..344]
  {
  }

  lemma ChecksumReadsBack(sum: nat)
    requires sum < 0x4_0000
    ensures ParseOctal(ChecksumField(sum)) == Ok(sum)
  {
    Powers();
    OctalLength(sum, 6);
    PaddingKeepsValue(ToOctal(sum), 6);
    var digits := PadStart(ToOctal(sum), 6);
    DigitsThenPadding([], digits, [0, 0x20]);
    assert [] + digits + [0, 0x20] == digits + [0, 0x20];
  }

  lemma FrontReadsBack(name: Bytes, mode: nat, size: nat)
    requires |name| <= 100 && mode < 0x200 && size < 0x2_0000_0000
    ensures var front := HeaderFront(name, mode, size);
            && front[..100] == StringField(name, 100)
            && ParseOctal(front[100..108]) == Ok(mode) && ParseOctal(front[124..136]) == Ok(size)
  {
    Powers();
    OctalFieldReadsBack(mode, 8);
    OctalFieldReadsBack(size, 12);
    hide ParseOctal, OctalField, StringField, FrontLayout;
    FrontFields(name, Octal(mode, 8), Octal(0, 8), Octal(size, 12), Octal(0, 12));
  }

  /** Every field the reader looks at, and a checksum that matches. */
  lemma HeaderReadsBack(split: UstarPath, mode: nat, size: nat, kind: Kind)
    requires |split.name| <= 100 && |split.prefix| <= 155 && mode < 0x200 && size < 0x2_0000_0000
    ensures var h := HeaderBytes(split, mode, size, kind);
            && h[..100] == StringField(split.name, 100) && h[345..500] == StringField(split.prefix, 155)
            && ParseOctal(h[100..108]) == Ok(mode) && ParseOctal(h[124..136]) == Ok(size)
            && ParseOctal(h[148..156]) == Ok(Checksum(h)) && h[156] == TypeByte(kind)
  {
    hide ParseOctal, StringField, HeaderFront, HeaderBack, ChecksumField, Sum;
    var front := HeaderFront(split.name, mode, size);
    var back := HeaderBack(kind, split.prefix);
    var sum := Sum(front) + 8 * 0x20 + Sum(back);
    FrontReadsBack(split.name, mode, size);
    BackFields(kind, split.prefix);
    Slices(front, ChecksumField(sum), back);
    ChecksumReadsBack(sum);
  }

  /** The path a printed member is read back under: a byte order mark opening its name field is lost. */
  function RereadPath(path: Bytes): (r: Bytes)
    requires SplitUstar(path).Ok?
  {
    var split := SplitUstar(path).value;
    Join(split.prefix, if Utf8.BOM <= split.name then split.name[3..] else split.name)
  }

  predicate NameOpensWithBom(path: Bytes) {
    SplitUstar(path).Ok? && Utf8.BOM <= SplitUstar(path).value.name
  }

  function Reread(e: Entry): Entry
    requires SplitUstar(e.path).Ok?
  {
    e.(path := RereadPath(e.path))
  }

  lemma RereadLosesBom(path: Bytes)
    requires SplitUstar(path).Ok?
    ensures |RereadPath(path)| == |path| - if NameOpensWithBom(path) then 3 else 0
    ensures !NameOpensWithBom(path) ==> RereadPath(path) == path
  {
  }

  /** A safe path has no NUL, and its prefix field does not open with a byte order mark. */
  lemma SplitOfSafePath(path: Bytes)
    requires SafePath(path) && Utf8.Valid(path) && SplitUstar(path).Ok?
    ensures var split := SplitUstar(path).value;
            && 0 !in split.name && 0 !in split.prefix
            && Utf8.Valid(split.name) && Utf8.Valid(split.prefix) && !(Utf8.BOM <= split.prefix)
  {
    hide Utf8.Valid, Split;
    assert 0 !in path;
    var split := SplitUstar(path).value;
    assert split.prefix == [] ==> split.name == path;
    assert PACKAGE <= path;
    if split.prefix != [] {
      var i := |split.prefix|;
      assert path[i] == SLASH && path[..i] == split.prefix && path[i + 1..] == split.name;
      Utf8.ValidSplit(path, i);
      assert split.prefix[0] == path[0] == PACKAGE[0];
    } else {
      EmptyIsValid();
    }
  }

  lemma EmptyIsValid()
    ensures Utf8.Valid([])
  {
  }

  lemma DecodeName(name: Bytes)
    requires 0 !in name && Utf8.Valid(name) && |name| <= 155
    ensures |name| <= 100 ==> Utf8.Decode(UntilNul(StringField(name, 100))) ==
                              Ok(if Utf8.BOM <= name then name[3..] else name)
    ensures Utf8.Decode(UntilNul(StringField(name, 155))) == Ok(if Utf8.BOM <= name then name[3..] else name)
  {
    hide Utf8.Valid, StringField, UntilNul;
    StringFieldReadsBack(name, 155);
    if |name| <= 100 { StringFieldReadsBack(name, 100); }
  }

  /** A printed member is its header, its data and padding. */
  lemma PrintedShape(e: Entry, rest: Bytes, limits: Limits)
    requires SafeMember(e, limits) && PrintEntry(e).Ok?
    ensures var split := SplitUstar(e.path).value;
            var all := PrintEntry(e).value + rest;
            && |PrintEntry(e).value| == 512 + Padded(|e.data|)
            && all[..512] == HeaderBytes(split, e.mode, |e.data|, e.kind)
            && all[512..512 + |e.data|] == e.data
            && all[512 + Padded(|e.data|)..] == rest
  {
    hide SafePath, HeaderBytes, SplitUstar, Padded;
    var h := Header(e).value;
    assert e.mode % 0x200 == e.mode;
    assert PrintEntry(e).value == h + Payload(e);
    assert Payload(e)[..|e.data|] == e.data;
    var all := h + Payload(e) + rest;
    assert all[512..512 + |e.data|] == Payload(e)[..|e.data|];
  }

  lemma ReadBlockFields(rest: Bytes, size: nat, path: Bytes, prefix: Bytes, limits: Limits)
    requires |rest| >= 512 + Padded(size) && size <= limits.maxEntryBytes
    requires ParseOctal(rest[..512][148..156]) == Ok(Checksum(rest[..512]))
    requires ParseOctal(rest[..512][124..136]) == Ok(size)
    requires Utf8.Decode(UntilNul(rest[..512][..100])) == Ok(path)
    requires Utf8.Decode(UntilNul(rest[..512][345..500])) == Ok(prefix)
    ensures ReadBlock(rest, limits) == Ok(Block(rest[..512], path, prefix, rest[512..512 + size]))
  {
    hide ParseOctal, Checksum, Utf8.Decode, UntilNul, Padded;
  }

  lemma SafeMemberHasSafePath(e: Entry, limits: Limits)
    requires SafeMember(e, limits)
    ensures SafePath(e.path) && |e.data| <= limits.maxEntryBytes
  {
    hide SafePath;
  }

  /** The block read from a printed member. */
  lemma PrintedBlock(e: Entry, rest: Bytes, limits: Limits)
    requires SafeMember(e, limits) && Utf8.Valid(e.path) && PrintEntry(e).Ok?
    ensures var split := SplitUstar(e.path).value;
            ReadBlock(PrintEntry(e).value + rest, limits) ==
            Ok(Block(HeaderBytes(split, e.mode, |e.data|, e.kind),
                     if Utf8.BOM <= split.name then split.name[3..] else split.name, split.prefix, e.data))
  {
    hide Utf8.Valid, ParseOctal, HeaderBytes, SplitUstar, StringField, UntilNul, Checksum, SafePath, Utf8.Decode,
      PrintEntry, ReadBlock, SafeMember, Padded;
    SafeModeAndSize(e, limits);
    SafeMemberHasSafePath(e, limits);
    PrintedShape(e, rest, limits);
    var split := SplitUstar(e.path).value;
    HeaderReadsBack(split, e.mode, |e.data|, e.kind);
    SplitOfSafePath(e.path);
    DecodeName(split.name);
    DecodeName(split.prefix);
    ReadBlockFields(PrintEntry(e).value + rest, |e.data|,
                    if Utf8.BOM <= split.name then split.name[3..] else split.name, split.prefix, limits);
  }

  /** What the reader does with the block of a printed member. */
  lemma PrintedStep(e: Entry, block: Block, entries: seq<Entry>, limits: Limits)
    requires SplitUstar(e.path).Ok? && |block.header| == 512
    requires block.header[156] == TypeByte(e.kind) && ParseOctal(block.header[100..108]) == Ok(e.mode)
    requires Join(block.prefix, block.path) == RereadPath(e.path) && block.data == e.data
    ensures Step(block, Cursor(None, entries), limits) ==
            if Admissible(Reread(e), entries, limits) then Ok(Cursor(None, entries + [Reread(e)])) else Rejected
  {
    hide ParseOctal, SplitUstar, Join, RereadPath, Admissible, Pax.PathAttribute, GnuLongPath;
  }

  /** A printed member followed by anything: it is read as `Reread(e)` and the rest is parsed after it. */
  lemma PrintedMember(e: Entry, rest: Bytes, entries: seq<Entry>, limits: Limits)
    requires SafeMember(e, limits) && Utf8.Valid(e.path) && PrintEntry(e).Ok?
    ensures ParseFrom(PrintEntry(e).value + rest, Cursor(None, entries), limits) ==
            if Admissible(Reread(e), entries, limits)
            then ParseFrom(rest, Cursor(None, entries + [Reread(e)]), limits) else Rejected
  {
    hide Utf8.Valid, ParseOctal, HeaderBytes, SplitUstar, StringField, Checksum, SafeMember, ReadBlock,
      Admissible, ParseFrom, Padded, Step;
    var split := SplitUstar(e.path).value;
    var all := PrintEntry(e).value + rest;
    PrintedShape(e, rest, limits);
    PrintedBlock(e, rest, limits);
    var block := ReadBlock(all, limits).value;
    SafeModeAndSize(e, limits);
    HeaderReadsBack(split, e.mode, |e.data|, e.kind);
    assert all[..512][156] != 0;
    PrintedStep(e, block, entries, limits);
    if Admissible(Reread(e), entries, limits) {
      ParseStep(all, Cursor(None, entries), block, Cursor(None, entries + [Reread(e)]), limits);
    } else {
      ParseStops(all, Cursor(None, entries), limits);
    }
  }

  lemma SafeModeAndSize(e: Entry, limits: Limits)
    requires SafeMember(e, limits) && PrintEntry(e).Ok?
    ensures e.mode < 0x200 && |e.data| < 0x2_0000_0000
  {
    hide SafePath, HeaderBytes, SplitUstar;
  }

  // ---------------------------------------------------------------- reading a printed archive

  ghost predicate Printable(e: Entry) { PrintEntry(e).Ok? }

  ghost predicate AllPrintable(entries: seq<Entry>) {
    forall i | 0 <= i < |entries| :: Printable(entries[i])
  }

  ghost predicate NoBomNames(entries: seq<Entry>) {
    forall i | 0 <= i < |entries| :: !NameOpensWithBom(entries[i].path)
  }

  /** `r` is `s` as it comes back from a printed archive. */
  ghost predicate RereadOf(r: seq<Entry>, s: seq<Entry>)
    requires AllPrintable(s)
  {
    |r| == |s| && forall i | 0 <= i < |s| :: Printable(s[i]) && r[i] == Reread(s[i])
  }

  lemma {:induction false} PrintEntriesOk(entries: seq<Entry>)
    ensures PrintEntries(entries).Ok? <==> AllPrintable(entries)
  {
    hide PrintEntry;
    if entries != [] {
      PrintEntriesOk(entries[1..]);
      assert entries == [entries[0]] + entries[1..];
      if AllPrintable(entries) {
        assert Printable(entries[0]);
        assert forall i | 0 <= i < |entries[1..]| :: entries[1..][i] == entries[i + 1];
      }
    }
  }

  lemma SafePrefix(entries: seq<Entry>, more: seq<Entry>, limits: Limits)
    requires SafeArchive(entries + more, limits)
    ensures SafeArchive(entries, limits)
  {
    hide Utf8.Valid, SafeMember;
    var all := entries + more;
    assert forall i | 0 <= i < |entries| :: all[i] == entries[i];
    Sorting.TotalOfConcat(IsFile, entries, more);
    Sorting.TotalOfConcat(SizeOfFile, entries, more);
  }

  /** In a safe archive every member is admissible after those before it. */
  lemma SafeMemberIsAdmissible(entries: seq<Entry>, e: Entry, limits: Limits)
    requires SafeArchive(entries + [e], limits)
    ensures SafeMember(e, limits) && Utf8.Valid(e.path) && Admissible(e, entries, limits)
  {
    hide Utf8.Valid, SafeMember;
    var all := entries + [e];
    assert all[|entries|] == e && all[..|entries|] == entries;
    assert forall i | 0 <= i < |entries| :: all[i] == entries[i];
    forall i | 0 <= i < |entries| ensures entries[i].path != e.path {
      assert PathOf(all[i]) != PathOf(all[|entries|]);
    }
  }

  /** The first member of a printed list is read first. */
  lemma PrintedListStep(entries: seq<Entry>, before: seq<Entry>, limits: Limits)
    requires entries != [] && PrintEntries(entries).Ok?
    requires SafeMember(entries[0], limits) && Utf8.Valid(entries[0].path)
    ensures PrintEntry(entries[0]).Ok? && PrintEntries(entries[1..]).Ok?
    ensures ParseFrom(PrintEntries(entries).value + Zeros(1024), Cursor(None, before), limits) ==
            if Admissible(Reread(entries[0]), before, limits)
            then ParseFrom(PrintEntries(entries[1..]).value + Zeros(1024), Cursor(None, before + [Reread(entries[0])]),
                           limits)
            else Rejected
  {
    hide PrintEntry, SplitUstar, ParseFrom, Utf8.Valid, SafeMember, Admissible, RereadPath, Zeros;
    var tail := PrintEntries(entries[1..]).value + Zeros(1024);
    PrintedMember(entries[0], tail, before, limits);
    assert PrintEntries(entries).value + Zeros(1024) == PrintEntry(entries[0]).value + tail;
  }

  lemma TailIsSafe(entries: seq<Entry>, limits: Limits)
    requires entries != [] && TextPaths(entries) && SafeMembers(entries, limits)
    ensures Utf8.Valid(entries[0].path) && SafeMember(entries[0], limits)
    ensures TextPaths(entries[1..]) && SafeMembers(entries[1..], limits)
  {
    hide Utf8.Valid, SafeMember;
    assert forall i | 0 <= i < |entries[1..]| :: entries[1..][i] == entries[i + 1];
  }

  /** Reading a printed list changes nothing but names that open with a byte order mark. */
  lemma {:induction false} PrintedListReadsBack(entries: seq<Entry>, before: seq<Entry>, limits: Limits)
    requires TextPaths(entries) && SafeMembers(entries, limits) && PrintEntries(entries).Ok?
    ensures AllPrintable(entries)
    ensures var r := ParseFrom(PrintEntries(entries).value + Zeros(1024), Cursor(None, before), limits);
            r.Ok? ==> before <= r.value && RereadOf(r.value[|before|..], entries)
    decreases |entries|
  {
    hide PrintEntries, PrintEntry, SplitUstar, ParseFrom, TextPaths, SafeMembers, Admissible, RereadPath, Zeros;
    PrintEntriesOk(entries);
    if entries == [] {
      PrintNothing(entries);
      assert [] + Zeros(1024) == Zeros(1024);
      TerminatorEnds(before, limits);
    } else {
      TailIsSafe(entries, limits);
      PrintedListStep(entries, before, limits);
      PrintedListReadsBack(entries[1..], before + [Reread(entries[0])], limits);
      RereadOfCons(entries, before, ParseFrom(PrintEntries(entries).value + Zeros(1024), Cursor(None, before), limits));
    }
  }

  lemma RereadOfCons(entries: seq<Entry>, before: seq<Entry>, r: Result<seq<Entry>>)
    requires entries != [] && AllPrintable(entries) && AllPrintable(entries[1..]) && Printable(entries[0])
    ensures r.Ok? && before + [Reread(entries[0])] <= r.value && RereadOf(r.value[|before| + 1..], entries[1..]) ==>
            before <= r.value && RereadOf(r.value[|before|..], entries)
  {
    hide PrintEntry, SplitUstar, RereadPath;
    if r.Ok? && before + [Reread(entries[0])] <= r.value && RereadOf(r.value[|before| + 1..], entries[1..]) {
      var s := r.value[|before|..];
      assert before == (before + [Reread(entries[0])])[..|before|];
      assert s[0] == r.value[|before|] == (before + [Reread(entries[0])])[|before|];
      assert s[1..] == r.value[|before| + 1..];
      forall i | 0 <= i < |entries| ensures Printable(entries[i]) && s[i] == Reread(entries[i]) {
        assert i > 0 ==> entries[i] == entries[1..][i - 1] && s[i] == s[1..][i - 1];
      }
    }
  }

  /** A list the archive can carry comes back unchanged. */
  lemma {:induction false} CarriedListReadsBack(entries: seq<Entry>, before: seq<Entry>, limits: Limits)
    requires NoBomNames(entries) && SafeArchive(before + entries, limits) && PrintEntries(entries).Ok?
    ensures ParseFrom(PrintEntries(entries).value + Zeros(1024), Cursor(None, before), limits) == Ok(before + entries)
    decreases |entries|
  {
    hide PrintEntries, PrintEntry, SplitUstar, ParseFrom, SafeMember, Utf8.Valid, Admissible, RereadPath,
      NameOpensWithBom, SafeArchive, Zeros;
    if entries == [] {
      PrintNothing(entries);
      assert [] + Zeros(1024) == Zeros(1024) && before + entries == before;
      TerminatorEnds(before, limits);
    } else {
      var e := entries[0];
      assert before + entries == before + [e] + entries[1..];
      SafePrefix(before + [e], entries[1..], limits);
      SafeMemberIsAdmissible(before, e, limits);
      PrintedListStep(entries, before, limits);
      assert !NameOpensWithBom(e.path);
      RereadLosesBom(e.path);
      assert forall i | 0 <= i < |entries[1..]| :: entries[1..][i] == entries[i + 1];
      CarriedListReadsBack(entries[1..], before + [e], limits);
    }
  }

  lemma TerminatorEnds(before: seq<Entry>, limits: Limits)
    ensures ParseFrom(Zeros(1024), Cursor(None, before), limits) == Ok(before)
  {
    hide ReadBlock, Step;
    assert AllZero(Zeros(1024)[..512]);
  }
}
