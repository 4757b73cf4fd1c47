/** `parseTarEntries`: ustar members, PAX and GNU long paths, under a resource budget. */
module TarReader {
  import opened Common
  import opened TarFields
  import Pax
  import Sorting
  import Utf8

  datatype Kind = File | Directory

  datatype Entry = Entry(path: Bytes, mode: nat, kind: Kind, data: Bytes)

  datatype Limits = Limits(maxCompressedBytes: int, maxUnpackedBytes: int, maxEntryBytes: int, maxFileCount: int)

  predicate ValidLimits(limits: Limits) {
    && 0 < limits.maxCompressedBytes <= MAX_SAFE_INTEGER
    && 0 < limits.maxUnpackedBytes <= MAX_SAFE_INTEGER
    && 0 < limits.maxEntryBytes <= MAX_SAFE_INTEGER
    && 0 < limits.maxFileCount <= MAX_SAFE_INTEGER
    && limits.maxEntryBytes <= limits.maxUnpackedBytes
  }

  const SLASH: Byte := 0x2F
  const PACKAGE: Bytes := [0x70, 0x61, 0x63, 0x6B, 0x61, 0x67, 0x65]

  /** `assertSafeTarPath`. */
  predicate SafePath(path: Bytes) {
    var normalized := if path != [] && path[|path| - 1] == SLASH then path[..|path| - 1] else path;
    && (normalized == PACKAGE || PACKAGE + [SLASH] <= normalized)
    && 0x5C !in normalized
    && 0 !in normalized
    && forall segment | segment in Split(normalized, SLASH) ::
         segment != [] && segment != [0x2E] && segment != [0x2E, 0x2E]
  }

  /** Permission bits only, and not writable by everyone. */
  predicate SafeMode(mode: nat) { mode < 0x200 && mode / 2 % 2 == 0 }

  function Padded(size: nat): (n: nat)
    ensures size <= n < size + 512 && n % 512 == 0
  {
    (size + 511) / 512 * 512
  }

  function IsFile(e: Entry): nat { if e.kind.File? then 1 else 0 }

  function SizeOfFile(e: Entry): nat { if e.kind.File? then |e.data| else 0 }

  function FileCount(entries: seq<Entry>): nat { Sorting.Total(IsFile, entries) }

  function FileBytes(entries: seq<Entry>): nat { Sorting.Total(SizeOfFile, entries) }

  predicate HasPath(entries: seq<Entry>, path: Bytes) {
    exists i | 0 <= i < |entries| :: entries[i].path == path
  }

  /** The conditions one member meets whatever surrounds it. */
  predicate SafeMember(e: Entry, limits: Limits) {
    && SafePath(e.path)
    && SafeMode(e.mode)
    && (e.kind.Directory? ==> e.data == [])
    && |e.data| <= limits.maxEntryBytes
  }

  /** Whether `e` may follow `entries`. */
  predicate Admissible(e: Entry, entries: seq<Entry>, limits: Limits) {
    && SafeMember(e, limits)
    && !HasPath(entries, e.path)
    && (e.kind.File? ==> FileCount(entries) < limits.maxFileCount
                         && FileBytes(entries) + |e.data| <= limits.maxUnpackedBytes)
  }

  /** A header that passed its checksum, with the strings and data it frames. */
  datatype Block = Block(header: Bytes, path: Bytes, prefix: Bytes, data: Bytes)

  function ReadBlock(rest: Bytes, limits: Limits): (r: Result<Block>)
    requires |rest| >= 512
    ensures r.Ok? ==> && |r.value.header| == 512 && |r.value.data| <= limits.maxEntryBytes
                      && 512 + Padded(|r.value.data|) <= |rest|
  {
    var header := rest[..512];
    var stored :- ParseOctal(header[148..156]);
    if stored != Checksum(header) then Rejected
    else
      var path :- Utf8.Decode(UntilNul(header[..100]));
      var prefix :- Utf8.Decode(UntilNul(header[345..500]));
      var size :- ParseOctal(header[124..136]);
      if size > limits.maxEntryBytes || 512 + Padded(size) > |rest| then Rejected
      else Ok(Block(header, path, prefix, rest[512..512 + size]))
  }

  function GnuLongPath(data: Bytes): (r: Result<Bytes>) {
    var path :- Utf8.Decode(UntilNul(data));
    Ok(if path != [] && path[|path| - 1] == 0x0A then path[..|path| - 1] else path)
  }

  function Join(prefix: Bytes, name: Bytes): (path: Bytes) {
    if prefix == [] then name else prefix + [SLASH] + name
  }

  datatype Cursor = Cursor(pending: Option<Bytes>, entries: seq<Entry>)

  function ReadKind(typeByte: Byte): (r: Result<Kind>) {
    if typeByte == 0 || typeByte == 0x30 then Ok(File)
    else if typeByte == 0x35 then Ok(Directory)
    else Rejected
  }

  /** The member a block describes, `pending` overriding the path in its header. */
  function ReadMember(block: Block, pending: Option<Bytes>): (r: Result<Entry>)
    requires |block.header| == 512
  {
    var path := if pending.Some? then pending.value else Join(block.prefix, block.path);
    var mode :- ParseOctal(block.header[100..108]);
    var kind :- ReadKind(block.header[156]);
    Ok(Entry(path, mode, kind, block.data))
  }

  function AddMember(block: Block, cursor: Cursor, limits: Limits): (r: Result<Cursor>)
    requires |block.header| == 512
  {
    var e :- ReadMember(block, cursor.pending);
    if Admissible(e, cursor.entries, limits) then Ok(Cursor(None, cursor.entries + [e])) else Rejected
  }

  /** One header block: an extension sets the path of the next member, anything else is a member. */
  function Step(block: Block, cursor: Cursor, limits: Limits): (r: Result<Cursor>)
    requires |block.header| == 512
  {
    var typeByte := block.header[156];
    if typeByte == 0x78 then
      var path :- Pax.PathAttribute(block.data, None);
      Ok(cursor.(pending := if path.Some? then path else cursor.pending))
    else if typeByte == 0x67 then
      var path :- Pax.PathAttribute(block.data, None);
      if path.Some? then Rejected else Ok(cursor)
    else if typeByte == 0x4C then
      var path :- GnuLongPath(block.data);
      Ok(cursor.(pending := Some(path)))
    else AddMember(block, cursor, limits)
  }

  function ParseFrom(rest: Bytes, cursor: Cursor, limits: Limits): (r: Result<seq<Entry>>)
    decreases |rest|
  {
    if |rest| < 512 then Rejected
    else if AllZero(rest[..512]) then
      if cursor.pending.Some? || |rest| < 1024 || !AllZero(rest) then Rejected else Ok(cursor.entries)
    else
      var block :- ReadBlock(rest, limits);
      var next :- Step(block, cursor, limits);
      ParseFrom(rest[512 + Padded(|block.data|)..], next, limits)
  }

  /** Members of an uncompressed tar stream. */
  function ParseTar(tar: Bytes, limits: Limits): (r: Result<seq<Entry>>) {
    if !ValidLimits(limits) || |tar| > limits.maxUnpackedBytes then Rejected
    else ParseFrom(tar, Cursor(None, []), limits)
  }

  // ---------------------------------------------------------------- the loop

  lemma ParseStep(rest: Bytes, cursor: Cursor, block: Block, next: Cursor, limits: Limits)
    requires |rest| >= 512 && !AllZero(rest[..512])
    requires ReadBlock(rest, limits) == Ok(block) && Step(block, cursor, limits) == Ok(next)
    ensures ParseFrom(rest, cursor, limits) == ParseFrom(rest[512 + Padded(|block.data|)..], next, limits)
  {
    hide ReadBlock, Step, AllZero, Padded;
  }

  lemma ParseStops(rest: Bytes, cursor: Cursor, limits: Limits)
    requires |rest| >= 512 && !AllZero(rest[..512])
    requires ReadBlock(rest, limits).Rejected? || Step(ReadBlock(rest, limits).value, cursor, limits).Rejected?
    ensures ParseFrom(rest, cursor, limits) == Rejected
  {
    hide ReadBlock, Step, AllZero, Padded;
  }

  /** What the loop of `parseTarEntries` carries besides its offset. */
  datatype Progress = Progress(cursor: Cursor, seen: set<Bytes>, totalFileBytes: nat, fileCount: nat)

  ghost predicate Consistent(p: Progress) {
    && (forall path :: path in p.seen <==> HasPath(p.cursor.entries, path))
    && p.totalFileBytes == FileBytes(p.cursor.entries)
    && p.fileCount == FileCount(p.cursor.entries)
  }

  lemma SeenGrows(entries: seq<Entry>, e: Entry)
    ensures forall path :: HasPath(entries + [e], path) <==> HasPath(entries, path) || path == e.path
  {
    forall path ensures HasPath(entries + [e], path) <==> HasPath(entries, path) || path == e.path {
      assert forall i | 0 <= i < |entries| :: (entries + [e])[i] == entries[i];
      assert (entries + [e])[|entries|] == e;
    }
  }

  lemma TotalsGrow(entries: seq<Entry>, e: Entry)
    ensures FileCount(entries + [e]) == FileCount(entries) + IsFile(e)
    ensures FileBytes(entries + [e]) == FileBytes(entries) + SizeOfFile(e)
  {
    assert (entries + [e])[..|entries|] == entries;
  }

  /** One member, checked against the set of seen paths and the running totals. */
  method Admit(e: Entry, p: Progress, limits: Limits) returns (r: Result<Progress>)
    requires Consistent(p)
    ensures r.Ok? <==> Admissible(e, p.cursor.entries, limits)
    ensures r.Ok? ==> Consistent(r.value) && r.value.cursor == Cursor(None, p.cursor.entries + [e])
  {
    hide SafeMember, FileCount, FileBytes, HasPath;
    if !SafeMember(e, limits) || e.path in p.seen { return Rejected; }
    var fileCount, totalFileBytes := p.fileCount, p.totalFileBytes;
    if e.kind.File? {
      fileCount := fileCount + 1;
      if fileCount > limits.maxFileCount { return Rejected; }
      totalFileBytes := totalFileBytes + |e.data|;
      if totalFileBytes > limits.maxUnpackedBytes { return Rejected; }
    }
    SeenGrows(p.cursor.entries, e);
    TotalsGrow(p.cursor.entries, e);
    return Ok(Progress(Cursor(None, p.cursor.entries + [e]), p.seen + {e.path}, totalFileBytes, fileCount));
  }

  /** The body of the loop, after the header has been read. */
  method Advance(block: Block, p: Progress, limits: Limits) returns (r: Result<Progress>)
    requires |block.header| == 512 && Consistent(p)
    ensures r.Ok? <==> Step(block, p.cursor, limits).Ok?
    ensures r.Ok? ==> Consistent(r.value) && Step(block, p.cursor, limits) == Ok(r.value.cursor)
  {
    var typeByte := block.header[156];
    if typeByte == 0x78 || typeByte == 0x67 {
      var path := Pax.ParseAttributes(block.data);
      if path.Rejected? || (typeByte == 0x67 && path.value.Some?) { return Rejected; }
      if typeByte == 0x78 && path.value.Some? { return Ok(p.(cursor := p.cursor.(pending := path.value))); }
      return Ok(p);
    } else if typeByte == 0x4C {
      var path := GnuLongPath(block.data);
      if path.Rejected? { return Rejected; }
      return Ok(p.(cursor := p.cursor.(pending := Some(path.value))));
    }
    var e := ReadMember(block, p.cursor.pending);
    if e.Rejected? { return Rejected; }
    r := Admit(e.value, p, limits);
  }

  lemma StartIsConsistent()
    ensures Consistent(Progress(Cursor(None, []), {}, 0, 0))
  {
  }

  /** The loop of `parseTarEntries`. */
  method ParseEntries(tar: Bytes, limits: Limits) returns (r: Result<seq<Entry>>)
    ensures r == ParseTar(tar, limits)
  {
    hide ReadBlock, Step, ValidLimits, HasPath, FileCount, FileBytes, Padded;
    if !ValidLimits(limits) || |tar| > limits.maxUnpackedBytes { return Rejected; }
    var progress := Progress(Cursor(None, []), {}, 0, 0);
    StartIsConsistent();
    var rest := tar;
    while |rest| >= 512
      invariant ParseFrom(rest, progress.cursor, limits) == ParseFrom(tar, Cursor(None, []), limits)
      invariant Consistent(progress)
      decreases |rest|
    {
      if AllZero(rest[..512]) {
        if progress.cursor.pending.Some? || |rest| < 1024 || !AllZero(rest) { return Rejected; }
        return Ok(progress.cursor.entries);
      }
      var block := ReadBlock(rest, limits);
      if block.Rejected? { ParseStops(rest, progress.cursor, limits); return Rejected; }
      var next := Advance(block.value, progress, limits);
      if next.Rejected? { ParseStops(rest, progress.cursor, limits); return Rejected; }
      ParseStep(rest, progress.cursor, block.value, next.value.cursor, limits);
      progress := next.value;
      rest := rest[512 + Padded(|block.value.data|)..];
    }
    return Rejected;
  }
}
