/** `createCanonicalTarball`: members sorted by path bytes, printed as normalised ustar. */
module TarWriter {
  import opened Common
  import opened TarFields
  import opened TarReader
  import Sorting

  // ---------------------------------------------------------------- splitting a path

  predicate SplitsAt(path: Bytes, i: nat) {
    0 < i < |path| && path[i] == SLASH && i <= 155 && |path| - i - 1 <= 100
  }

  /** The last place at or before `i` where `path` splits. */
  function LastSplit(path: Bytes, i: nat): (r: Option<nat>)
    requires i < |path|
    ensures r.Some? ==> r.value <= i && SplitsAt(path, r.value)
    ensures forall j: nat | (if r.Some? then r.value else 0) < j <= i :: !SplitsAt(path, j)
  {
    if SplitsAt(path, i) then Some(i) else if i == 0 then None else LastSplit(path, i - 1)
  }

  datatype UstarPath = UstarPath(name: Bytes, prefix: Bytes)

  /** The name and prefix fields of a path; joining them gives the path back. */
  function SplitUstar(path: Bytes): (r: Result<UstarPath>)
    ensures r.Ok? ==> |r.value.name| <= 100 && |r.value.prefix| <= 155 && Join(r.value.prefix, r.value.name) == path
    ensures r.Rejected? <==> |path| > 100 && forall i: nat :: !SplitsAt(path, i)
  {
    if |path| <= 100 then Ok(UstarPath(path, []))
    else match LastSplit(path, |path| - 1)
      case None => Rejected
      case Some(i) =>
        Ok(UstarPath(path[i + 1..], path[..i]))
  }

  method SplitUstarPath(path: Bytes) returns (r: Result<UstarPath>)
    ensures r == SplitUstar(path)
  {
    if |path| <= 100 { return Ok(UstarPath(path, [])); }
    var index := |path| - 1;
    while index > 0
      invariant 0 <= index < |path|
      invariant LastSplit(path, |path| - 1) == LastSplit(path, index)
    {
      if path[index] == SLASH && index <= 155 && |path| - index - 1 <= 100 {
        return Ok(UstarPath(path[index + 1..], path[..index]));
      }
      index := index - 1;
    }
    return Rejected;
  }

  // ---------------------------------------------------------------- the header

  const USTAR: Bytes := [0x75, 0x73, 0x74, 0x61, 0x72, 0, 0x30, 0x30]

  function Octal(n: nat, length: nat): (r: Bytes)
    requires length > 1 && n < Pow8(length - 1)
    ensures |r| == length
  {
    OctalField(n, length).value
  }

  lemma Powers()
    ensures Pow8(7) == 0x20_0000 && Pow8(6) == 0x4_0000 && Pow8(11) == 0x2_0000_0000
  {
    assert Pow8(3) == 512;
    assert Pow8(6) == 0x4_0000;
    assert Pow8(9) == 0x800_0000;
  }

  /** Bytes 0 to 147: name, mode, uid, gid, size, mtime. */
  function FrontLayout(name: Bytes, mode: Bytes, zero8: Bytes, size: Bytes, zero12: Bytes): (r: Bytes)
    requires |name| <= 100 && |mode| == |zero8| == 8 && |size| == |zero12| == 12
    ensures |r| == 148
  {
    StringField(name, 100) + mode + zero8 + zero8 + size + zero12
  }

  function HeaderFront(name: Bytes, mode: nat, size: nat): (r: Bytes)
    requires |name| <= 100 && mode < 0x200 && size < 0x2_0000_0000
    ensures |r| == 148
  {
    Powers();
    FrontLayout(name, Octal(mode, 8), Octal(0, 8), Octal(size, 12), Octal(0, 12))
  }

  function TypeByte(kind: Kind): Byte { if kind.File? then 0x30 else 0x35 }

  /**
   * Bytes 156 to 511: type and empty link name, magic and version with empty owner names and devices,
   * prefix and padding.
   */
  function HeaderBack(kind: Kind, prefix: Bytes): (r: Bytes)
    requires |prefix| <= 155
    ensures |r| == 356
  {
    StringField([TypeByte(kind)], 101) + StringField(USTAR, 88) + StringField(prefix, 167)
  }

  /** Six digits, NUL, space. */
  function ChecksumField(sum: nat): (r: Bytes)
    requires sum < 0x4_0000
    ensures |r| == 8
  {
    Powers();
    OctalLength(sum, 6);
    PadStart(ToOctal(sum), 6) + [0, 0x20]
  }

  const SPACES: Bytes := [0x20, 0x20, 0x20, 0x20, 0x20, 0x20, 0x20, 0x20]

  function HeaderBytes(split: UstarPath, mode: nat, size: nat, kind: Kind): (r: Bytes)
    requires |split.name| <= 100 && |split.prefix| <= 155 && mode < 0x200 && size < 0x2_0000_0000
    ensures |r| == 512
  {
    var front := HeaderFront(split.name, mode, size);
    var back := HeaderBack(kind, split.prefix);
    front + ChecksumField(Sum(front) + 8 * 0x20 + Sum(back)) + back
  }

  /** The ustar header of a member. */
  function Header(e: Entry): (r: Result<Bytes>)
    ensures r.Ok? <==> SplitUstar(e.path).Ok? && SizeOfFile(e) < 0x2_0000_0000
    ensures r.Ok? ==> |r.value| == 512
  {
    var split :- SplitUstar(e.path);
    if SizeOfFile(e) >= 0x2_0000_0000 then Rejected
    else Ok(HeaderBytes(split, e.mode % 0x200, SizeOfFile(e), e.kind))
  }

  // ---------------------------------------------------------------- the archive

  function Payload(e: Entry): (r: Bytes)
    ensures |r| == Padded(SizeOfFile(e))
  {
    if e.kind.File? then e.data + Zeros(Padded(|e.data|) - |e.data|) else []
  }

  function PrintEntry(e: Entry): (r: Result<Bytes>)
    ensures r.Ok? <==> SplitUstar(e.path).Ok? && SizeOfFile(e) < 0x2_0000_0000
    ensures r.Ok? ==> |r.value| == 512 + Padded(SizeOfFile(e))
  {
    var header :- Header(e);
    Ok(header + Payload(e))
  }

  function PrintEntries(entries: seq<Entry>): (r: Result<Bytes>) {
    if entries == [] then Ok([])
    else
      var first :- PrintEntry(entries[0]);
      var rest :- PrintEntries(entries[1..]);
      Ok(first + rest)
  }

  /** `Buffer.compare(a, b) <= 0`. */
  predicate BytesLeq(a: Bytes, b: Bytes) {
    a == [] || (b != [] && (a[0] < b[0] || (a[0] == b[0] && BytesLeq(a[1..], b[1..]))))
  }

  predicate PathLeq(x: Entry, y: Entry) { BytesLeq(x.path, y.path) }

  function SortByPath(entries: seq<Entry>): seq<Entry> { Sorting.Sort(PathLeq, entries) }

  /** The uncompressed canonical archive. */
  function PrintTar(entries: seq<Entry>): (r: Result<Bytes>) {
    var body :- PrintEntries(SortByPath(entries));
    Ok(body + Zeros(1024))
  }

  // ---------------------------------------------------------------- writing in place

  /** `writeTarString` and `fill`: a field of `width` bytes, in a header still zero from `offset` on. */
  method WriteField(header: array<Byte>, ghost done: Bytes, offset: nat, width: nat, value: Bytes)
    requires header.Length == 512 && offset == |done| && |value| <= width <= 512 - offset
    requires header[..] == done + Zeros(512 - offset)
    modifies header
    ensures header[..] == done + StringField(value, width) + Zeros(512 - offset - width)
  {
    for i := 0 to |value|
      invariant header[..offset] == done
      invariant header[offset..offset + i] == value[..i]
      invariant AllZero(header[offset + i..])
    {
      header[offset + i] := value[i];
    }
    FieldWritten(header[..], done, offset, width, value);
  }

  lemma FieldWritten(header: Bytes, done: Bytes, offset: nat, width: nat, value: Bytes)
    requires |header| == 512 && offset == |done| && |value| <= width <= 512 - offset
    requires header[..offset] == done && header[offset..offset + |value|] == value
    requires AllZero(header[offset + |value|..])
    ensures header == done + StringField(value, width) + Zeros(512 - offset - width)
  {
    var rest := 512 - offset - width;
    var zeros := header[offset + |value|..];
    assert header == done + value + zeros;
    assert zeros == Zeros(width - |value|) + Zeros(rest);
  }

  lemma FullField(value: Bytes, width: nat)
    requires |value| == width
    ensures StringField(value, width) == value
  {
  }

  /** Consecutive full fields: their bytes follow what is already there. */
  method WriteFields(header: array<Byte>, ghost done: Bytes, offset: nat, first: Bytes, second: Bytes, third: Bytes)
    requires header.Length == 512 && offset == |done| && offset + |first| + |second| + |third| <= 512
    requires header[..] == done + Zeros(512 - offset)
    modifies header
    ensures header[..] == done + first + second + third + Zeros(512 - offset - |first| - |second| - |third|)
  {
    FullField(first, |first|);
    FullField(second, |second|);
    FullField(third, |third|);
    hide StringField, Zeros;
    WriteField(header, done, offset, |first|, first);
    WriteField(header, done + first, offset + |first|, |second|, second);
    WriteField(header, done + first + second, offset + |first| + |second|, |third|, third);
  }

  /** Name to mtime, written field after field. */
  method WriteFront(header: array<Byte>, name: Bytes, mode: Bytes, zero8: Bytes, size: Bytes, zero12: Bytes)
    requires header.Length == 512 && header[..] == Zeros(512)
    requires |name| <= 100 && |mode| == |zero8| == 8 && |size| == |zero12| == 12
    modifies header
    ensures header[..] == FrontLayout(name, mode, zero8, size, zero12) + Zeros(364)
  {
    assert [] + Zeros(512) == Zeros(512);
    hide StringField, Zeros;
    ghost var done := StringField(name, 100);
    assert [] + done == done;
    WriteField(header, [], 0, 100, name);
    WriteFields(header, done, 100, mode, zero8, zero8);
    done := done + mode + zero8 + zero8;
    WriteFields(header, done, 124, size, zero12, []);
    assert done + size + zero12 + [] == done + size + zero12;
  }

  /** The checksum field as spaces, then type, magic, version and prefix. */
  method WriteBack(header: array<Byte>, ghost front: Bytes, kind: Kind, prefix: Bytes)
    requires header.Length == 512 && |front| == 148 && header[..] == front + Zeros(364)
    requires |prefix| <= 155
    modifies header
    ensures header[..] == front + SPACES + HeaderBack(kind, prefix)
  {
    FullField(SPACES, 8);
    hide StringField;
    WriteField(header, front, 148, 8, SPACES);
    ghost var done := front + SPACES;
    ghost var typeField := StringField([TypeByte(kind)], 101);
    WriteField(header, done, 156, 101, [TypeByte(kind)]);
    WriteField(header, done + typeField, 257, 88, USTAR);
    WriteField(header, done + typeField + StringField(USTAR, 88), 345, 167, prefix);
    FieldsMeet(done, typeField, StringField(USTAR, 88), StringField(prefix, 167));
  }

  lemma FieldsMeet(done: Bytes, a: Bytes, b: Bytes, c: Bytes)
    ensures done + a + b + c + Zeros(0) == done + (a + b + c)
  {
  }

  /** The checksum overwrites its eight spaces. */
  method WriteChecksum(header: array<Byte>, ghost front: Bytes, field: Bytes, ghost back: Bytes)
    requires header.Length == 512 && |front| == 148 && |field| == 8 && |back| == 356
    requires header[..] == front + SPACES + back
    modifies header
    ensures header[..] == front + field + back
  {
    for i := 0 to 8
      invariant header[..148] == front
      invariant header[148..148 + i] == field[..i]
      invariant header[156..] == back
    {
      header[148 + i] := field[i];
    }
    assert header[..] == header[..148] + header[148..156] + header[156..];
  }

  /** All fields in place, then the checksum over the whole buffer. */
  method WriteHeader(header: array<Byte>, split: UstarPath, mode: nat, size: nat, kind: Kind)
    requires header.Length == 512 && header[..] == Zeros(512)
    requires |split.name| <= 100 && |split.prefix| <= 155 && mode < 0x200 && size < 0x2_0000_0000
    modifies header
    ensures header[..] == HeaderBytes(split, mode, size, kind)
  {
    Powers();
    WriteFront(header, split.name, Octal(mode, 8), Octal(0, 8), Octal(size, 12), Octal(0, 12));
    ghost var front := HeaderFront(split.name, mode, size);
    ghost var back := HeaderBack(kind, split.prefix);
    hide HeaderFront, HeaderBack, FrontLayout, Octal;
    WriteBack(header, front, kind, split.prefix);
    var checksum := SumBytes(header);
    SumOfParts(front, back);
    WriteChecksum(header, front, ChecksumField(checksum), back);
  }

  /** `canonicalTarHeader`. */
  method CanonicalHeader(e: Entry) returns (r: Result<array<Byte>>)
    ensures r.Ok? <==> Header(e).Ok?
    ensures r.Ok? ==> fresh(r.value) && Header(e) == Ok(r.value[..])
  {
    hide HeaderBytes;
    var split := SplitUstarPath(e.path);
    if split.Rejected? || SizeOfFile(e) >= 0x2_0000_0000 { return Rejected; }
    var header := new Byte[512](_ => 0);
    assert header[..] == Zeros(512);
    WriteHeader(header, split.value, e.mode % 0x200, SizeOfFile(e), e.kind);
    return Ok(header);
  }

  lemma SumOfParts(front: Bytes, back: Bytes)
    ensures Sum(front + SPACES + back) == Sum(front) + 8 * 0x20 + Sum(back)
  {
    SumConcat(front + SPACES, back);
    SumConcat(front, SPACES);
    SumOfSpaces();
  }

  lemma SumOfSpaces()
    ensures Sum(SPACES) == 8 * 0x20
  {
    assert forall i | 0 <= i < 8 :: SPACES[..i + 1][..i] == SPACES[..i];
    assert Sum(SPACES[..0]) == 0;
    assert Sum(SPACES[..1]) == 0x20;
    assert Sum(SPACES[..2]) == 0x40;
    assert Sum(SPACES[..3]) == 0x60;
    assert Sum(SPACES[..4]) == 0x80;
    assert Sum(SPACES[..5]) == 0xA0;
    assert Sum(SPACES[..6]) == 0xC0;
    assert Sum(SPACES[..7]) == 0xE0;
    assert SPACES == SPACES[..8];
  }

  method SumBytes(header: array<Byte>) returns (sum: nat)
    ensures sum == Sum(header[..])
  {
    sum := 0;
    for i := 0 to header.Length
      invariant sum == Sum(header[..i])
    {
      sum := sum + header[i];
      assert header[..i + 1][..i] == header[..i];
    }
    assert header[..header.Length] == header[..];
  }

  /** The loop of `createCanonicalTarball` over the sorted members. */
  method CreateTarball(entries: seq<Entry>) returns (r: Result<Bytes>)
    ensures r == PrintTar(entries)
  {
    hide Header, PrintEntries, SortByPath, PrintEntry, Payload, Prepend, Zeros, Padded;
    var ordered := SortByPath(entries);
    var output: Bytes := [];
    assert ordered[0..] == ordered;
    PrependNothing(PrintEntries(ordered));
    for i := 0 to |ordered|
      invariant PrintEntries(ordered) == Prepend(output, PrintEntries(ordered[i..]))
    {
      var e := ordered[i];
      var header := CanonicalHeader(e);
      PrintStep(output, ordered[i..]);
      assert ordered[i..][1..] == ordered[i + 1..];
      if header.Rejected? { return Rejected; }
      var payload: Bytes := [];
      if e.kind.File? {
        var padding := (512 - |e.data| % 512) % 512;
        payload := e.data + Zeros(padding);
      }
      PayloadIs(e, payload);
      output := output + header.value[..] + payload;
    }
    PrintNothing(ordered[|ordered|..]);
    PrependToNothing(output);
    return Ok(output + Zeros(1024));
  }

  lemma PayloadIs(e: Entry, payload: Bytes)
    requires payload == if e.kind.File? then e.data + Zeros((512 - |e.data| % 512) % 512) else []
    ensures payload == Payload(e)
  {
    hide Zeros, Padded;
    PaddingIs(|e.data|);
  }

  lemma PaddingIs(n: nat)
    ensures (512 - n % 512) % 512 == Padded(n) - n
  {
    var q, r := n / 512, n % 512;
    assert n == 512 * q + r;
    assert (n + 511) / 512 == if r == 0 then q else q + 1;
  }

  lemma PrependToNothing(output: Bytes)
    ensures Prepend(output, Ok([])) == Ok(output)
  {
    assert output + [] == output;
  }

  lemma PrependNothing(rest: Result<Bytes>)
    ensures Prepend([], rest) == rest
  {
    if rest.Ok? { assert [] + rest.value == rest.value; }
  }

  lemma PrintNothing(entries: seq<Entry>)
    requires entries == []
    ensures PrintEntries(entries) == Ok([])
  {
  }

  function Prepend(output: Bytes, rest: Result<Bytes>): Result<Bytes> {
    match rest
    case Ok(bytes) => Ok(output + bytes)
    case Rejected => Rejected
  }

  lemma PrintStep(output: Bytes, entries: seq<Entry>)
    requires entries != []
    ensures Prepend(output, PrintEntries(entries)) ==
            match Header(entries[0])
            case Rejected => Rejected
            case Ok(header) => Prepend(output + header + Payload(entries[0]), PrintEntries(entries[1..]))
  {
    hide Header, Payload, SplitUstar, Padded;
    if Header(entries[0]).Ok? && PrintEntries(entries[1..]).Ok? {
      Associate(output, Header(entries[0]).value, Payload(entries[0]), PrintEntries(entries[1..]).value);
    }
  }

  lemma Associate(a: Bytes, b: Bytes, c: Bytes, d: Bytes)
    ensures a + (b + c + d) == a + b + c + d
  {
  }
}
