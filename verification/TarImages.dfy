/**
 * The archives the reader accepts, said without the reader: pieces that hold a member, a path for the next member or
 * nothing of interest, each in any form that other programs write, and zeros at the end.
 */
module TarImages {
  import opened Common
  import opened TarFields
  import opened TarReader
  import opened PaxFormat
  import opened TarRoundTrip
  import Pax
  import Sorting
  import Utf8

  // ---------------------------------------------------------------- fields

  /** The text up to the first NUL, or the whole field when there is none. */
  predicate HoldsText(field: Bytes, text: Bytes) {
    0 !in text && text <= field && (text == field || field[|text|] == 0)
  }

  lemma TextIsRead(field: Bytes, text: Bytes)
    ensures UntilNul(field) == text <==> HoldsText(field, text)
  {
    var r := UntilNul(field);
    if HoldsText(field, text) {
      assert r == field[..|r|] && text == field[..|text|];
    }
  }

  /** A name of valid UTF-8, without the byte order mark it may open with. */
  ghost predicate HoldsName(field: Bytes, name: Bytes) {
    exists text :: HoldsText(field, text) && Utf8.Valid(text) && name == if Utf8.BOM <= text then text[3..] else text
  }

  lemma NameIsRead(field: Bytes, name: Bytes)
    ensures Utf8.Decode(UntilNul(field)) == Ok(name) <==> HoldsName(field, name)
  {
    hide Utf8.Valid, UntilNul, HoldsText;
    TextIsRead(field, UntilNul(field));
    if HoldsName(field, name) {
      var text :| HoldsText(field, text) && Utf8.Valid(text) &&
                  name == if Utf8.BOM <= text then text[3..] else text;
      TextIsRead(field, text);
    }
  }

  /** A name as above, in data of any length, less one newline at its end. */
  ghost predicate HoldsLongPath(data: Bytes, path: Bytes) {
    exists name :: HoldsName(data, name) &&
                   path == if name != [] && name[|name| - 1] == 0x0A then name[..|name| - 1] else name
  }

  lemma LongPathIsRead(data: Bytes, path: Bytes)
    ensures GnuLongPath(data) == Ok(path) <==> HoldsLongPath(data, path)
  {
    hide Utf8.Decode, UntilNul, HoldsName;
    if Utf8.Decode(UntilNul(data)).Ok? { NameIsRead(data, Utf8.Decode(UntilNul(data)).value); }
    if HoldsLongPath(data, path) {
      var name :| HoldsName(data, name) &&
                  path == if name != [] && name[|name| - 1] == 0x0A then name[..|name| - 1] else name;
      NameIsRead(data, name);
    }
  }

  // ---------------------------------------------------------------- blocks

  /** The fields the reader looks at in every header; all other bytes of the header are free. */
  ghost predicate HoldsFields(header: Bytes, name: Bytes, prefix: Bytes, size: nat)
    requires |header| == 512
  {
    && HoldsName(header[..100], name) && HoldsName(header[345..500], prefix)
    && HoldsNumber(header[124..136], size) && HoldsNumber(header[148..156], Checksum(header))
  }

  /** A header, data, and anything up to the next multiple of 512. */
  ghost predicate Frames(image: Bytes, block: Block)
    ensures Frames(image, block) ==> |block.header| == 512 && |image| == 512 + Padded(|block.data|)
  {
    && |image| == 512 + Padded(|block.data|) && image[..512] == block.header
    && image[512..512 + |block.data|] == block.data
    && HoldsFields(block.header, block.path, block.prefix, |block.data|)
  }

  lemma FieldsAreRead(header: Bytes, name: Bytes, prefix: Bytes, size: nat)
    requires |header| == 512
    ensures HoldsFields(header, name, prefix, size) <==>
            && ParseOctal(header[148..156]) == Ok(Checksum(header)) && ParseOctal(header[124..136]) == Ok(size)
            && Utf8.Decode(UntilNul(header[..100])) == Ok(name)
            && Utf8.Decode(UntilNul(header[345..500])) == Ok(prefix)
  {
    hide ParseOctal, Utf8.Decode, UntilNul, HoldsNumber, HoldsName, Checksum;
    NameIsRead(header[..100], name);
    NameIsRead(header[345..500], prefix);
    ParseOctalIsExact(header[124..136], size);
    ParseOctalIsExact(header[148..156], Checksum(header));
  }

  /** What has been read was framed. */
  lemma ReadIsFramed(rest: Bytes, block: Block, limits: Limits)
    requires |rest| >= 512 && ReadBlock(rest, limits) == Ok(block)
    ensures |block.data| <= limits.maxEntryBytes && 512 + Padded(|block.data|) <= |rest|
    ensures Frames(rest[..512 + Padded(|block.data|)], block)
  {
    hide ParseOctal, Checksum, Utf8.Decode, UntilNul, Padded, HoldsFields;
    FieldsAreRead(rest[..512], block.path, block.prefix, |block.data|);
    var image := rest[..512 + Padded(|block.data|)];
    assert image[..512] == rest[..512];
    assert image[512..512 + |block.data|] == rest[512..512 + |block.data|];
  }

  /** What is framed is read, whatever follows, if it is not too long. */
  lemma FramedIsRead(image: Bytes, block: Block, rest: Bytes, limits: Limits)
    requires Frames(image, block)
    ensures ReadBlock(image + rest, limits) == if |block.data| <= limits.maxEntryBytes then Ok(block) else Rejected
  {
    hide ParseOctal, Checksum, Utf8.Decode, UntilNul, Padded, HoldsFields;
    FieldsAreRead(block.header, block.path, block.prefix, |block.data|);
    var all := image + rest;
    assert all[..512] == block.header;
    assert all[512..512 + |block.data|] == image[512..512 + |block.data|];
  }

  /** A header whose checksum is right is not a zero block. */
  lemma FramedIsNotZero(image: Bytes, block: Block)
    requires Frames(image, block)
    ensures |image| >= 512 && !AllZero(image[..512])
  {
    hide HoldsName, HoldsNumber, Padded, ParseOctal;
    var field := block.header[148..156];
    ParseOctalIsExact(field, Checksum(block.header));
    assert [] + [] + field == field;
    if AllZero(image[..512]) { DigitsThenPadding([], [], field); }
  }

  // ---------------------------------------------------------------- pieces

  /** What a piece of an archive is for. */
  datatype Content = Member(entry: Entry) | PathOfNext(path: Bytes) | Nothing

  datatype Piece = Piece(image: Bytes, content: Content)

  ghost predicate IsKind(typeByte: Byte, kind: Kind) {
    match kind
    case File => typeByte == 0 || typeByte == 0x30
    case Directory => typeByte == 0x35
  }

  ghost predicate Describes(block: Block, content: Content)
    requires |block.header| == 512
  {
    match content
    case Member(e) =>
      && e.path == Join(block.prefix, block.path) && e.data == block.data
      && HoldsNumber(block.header[100..108], e.mode) && IsKind(block.header[156], e.kind)
    case PathOfNext(path) =>
      || (block.header[156] == 0x4C && HoldsLongPath(block.data, path))
      || (block.header[156] == 0x78 && HoldsPath(block.data, Some(path)))
    case Nothing => (block.header[156] == 0x78 || block.header[156] == 0x67) && HoldsPath(block.data, None)
  }

  ghost predicate Held(piece: Piece, limits: Limits) {
    exists block :: Frames(piece.image, block) && |block.data| <= limits.maxEntryBytes &&
                    Describes(block, piece.content)
  }

  ghost predicate AllHeld(pieces: seq<Piece>, limits: Limits) {
    forall i | 0 <= i < |pieces| :: Held(pieces[i], limits)
  }

  function Images(pieces: seq<Piece>): Bytes {
    if pieces == [] then [] else pieces[0].image + Images(pieces[1..])
  }

  /** A member under the path that was pending for it. */
  function Named(e: Entry, pending: Option<Bytes>): Entry {
    if pending.Some? then e.(path := pending.value) else e
  }

  /** The members of an archive: each path names the member after it, a later one overriding an earlier one. */
  function Members(pieces: seq<Piece>, pending: Option<Bytes>): (r: seq<Entry>) {
    if pieces == [] then [] else
    match pieces[0].content
    case Member(e) => [Named(e, pending)] + Members(pieces[1..], None)
    case PathOfNext(path) => Members(pieces[1..], Some(path))
    case Nothing => Members(pieces[1..], pending)
  }

  /** No path is left over at the end. */
  predicate Settled(pieces: seq<Piece>, pending: Option<Bytes>) {
    if pieces == [] then pending.None? else
    match pieces[0].content
    case Member(_) => Settled(pieces[1..], None)
    case PathOfNext(path) => Settled(pieces[1..], Some(path))
    case Nothing => Settled(pieces[1..], pending)
  }

  /** Every new member may follow those before it. */
  ghost predicate Accepts(entries: seq<Entry>, more: seq<Entry>, limits: Limits)
    decreases |more|
  {
    more == [] || (Admissible(more[0], entries, limits) && Accepts(entries + [more[0]], more[1..], limits))
  }

  /** What the reader does with one piece. */
  function After(content: Content, cursor: Cursor, limits: Limits): Result<Cursor> {
    match content
    case Member(e) =>
      var named := Named(e, cursor.pending);
      if Admissible(named, cursor.entries, limits) then Ok(Cursor(None, cursor.entries + [named])) else Rejected
    case PathOfNext(path) => Ok(cursor.(pending := Some(path)))
    case Nothing => Ok(cursor)
  }

  lemma DescribedStep(block: Block, content: Content, cursor: Cursor, limits: Limits)
    requires |block.header| == 512 && Describes(block, content)
    ensures Step(block, cursor, limits) == After(content, cursor, limits)
  {
    hide ParseOctal, HoldsNumber, HoldsPath, HoldsLongPath, Admissible, Join, Pax.PathAttribute, GnuLongPath;
    match content
    case Member(e) => ParseOctalIsExact(block.header[100..108], e.mode);
    case PathOfNext(path) => LongPathIsRead(block.data, path); PathAttributeIsExact(block.data, Some(path));
    case Nothing => PathAttributeIsExact(block.data, None);
  }

  /** A piece in any form is read as what it holds, and exactly its bytes are consumed. */
  lemma PieceIsRead(piece: Piece, rest: Bytes, cursor: Cursor, limits: Limits)
    requires Held(piece, limits)
    ensures ParseFrom(piece.image + rest, cursor, limits) ==
            match After(piece.content, cursor, limits)
            case Ok(next) => ParseFrom(rest, next, limits)
            case Rejected => Rejected
  {
    hide Frames, Describes, ReadBlock, Step, ParseFrom, After, Padded;
    var block :| Frames(piece.image, block) && |block.data| <= limits.maxEntryBytes && Describes(block, piece.content);
    FramedIsRead(piece.image, block, rest, limits);
    FramedIsNotZero(piece.image, block);
    DescribedStep(block, piece.content, cursor, limits);
    var all := piece.image + rest;
    assert all[..512] == piece.image[..512];
    match After(piece.content, cursor, limits)
    case Ok(next) =>
      ParseStep(all, cursor, block, next, limits);
      assert all[|piece.image|..] == rest;
    case Rejected =>
      ParseStops(all, cursor, limits);
  }

  lemma TerminatorIsRead(tail: Bytes, cursor: Cursor, limits: Limits)
    requires |tail| >= 1024 && AllZero(tail)
    ensures ParseFrom(tail, cursor, limits) == if cursor.pending.None? then Ok(cursor.entries) else Rejected
  {
  }

  /** Held pieces and zeros are read as their members, or refused when a member is inadmissible or a path is left. */
  lemma {:induction false} PiecesAreRead(pieces: seq<Piece>, tail: Bytes, cursor: Cursor, limits: Limits)
    requires AllHeld(pieces, limits) && |tail| >= 1024 && AllZero(tail)
    ensures var more := Members(pieces, cursor.pending);
            ParseFrom(Images(pieces) + tail, cursor, limits) ==
            if Settled(pieces, cursor.pending) && Accepts(cursor.entries, more, limits) then Ok(cursor.entries + more)
            else Rejected
  {
    hide Held, ParseFrom, Admissible;
    if pieces == [] {
      assert Images(pieces) + tail == tail && cursor.entries + [] == cursor.entries;
      TerminatorIsRead(tail, cursor, limits);
    } else {
      var rest := Images(pieces[1..]) + tail;
      assert Images(pieces) + tail == pieces[0].image + rest;
      PieceIsRead(pieces[0], rest, cursor, limits);
      var next := After(pieces[0].content, cursor, limits);
      if next.Ok? { PiecesAreRead(pieces[1..], tail, next.value, limits); }
      var more := Members(pieces, cursor.pending);
      if pieces[0].content.Member? {
        var e := Named(pieces[0].content.entry, cursor.pending);
        assert more[0] == e && more[1..] == Members(pieces[1..], None);
        assert cursor.entries + more == cursor.entries + [e] + more[1..];
      }
    }
  }

  // ---------------------------------------------------------------- every accepted archive

  /** What the reader took for one step is a piece. */
  lemma StepIsAPiece(block: Block, cursor: Cursor, limits: Limits) returns (content: Content)
    requires |block.header| == 512 && Step(block, cursor, limits).Ok?
    ensures Describes(block, content)
  {
    hide ParseOctal, HoldsNumber, HoldsPath, HoldsLongPath, Admissible, Join, Pax.PathAttribute, GnuLongPath;
    var typeByte := block.header[156];
    if typeByte == 0x78 || typeByte == 0x67 {
      var path := Pax.PathAttribute(block.data, None).value;
      PathAttributeIsExact(block.data, path);
      content := if path.Some? then PathOfNext(path.value) else Nothing;
    } else if typeByte == 0x4C {
      content := PathOfNext(GnuLongPath(block.data).value);
      LongPathIsRead(block.data, content.path);
    } else {
      var e := ReadMember(block, None).value;
      ParseOctalIsExact(block.header[100..108], e.mode);
      content := Member(e);
    }
  }

  /** An accepted archive is made of held pieces. */
  lemma {:induction false} AcceptedIsPieces(rest: Bytes, cursor: Cursor, limits: Limits)
    returns (pieces: seq<Piece>, tail: Bytes)
    requires ParseFrom(rest, cursor, limits).Ok?
    ensures rest == Images(pieces) + tail && AllHeld(pieces, limits) && |tail| >= 1024 && AllZero(tail)
    decreases |rest|
  {
    hide Frames, Describes, ReadBlock, Step, Padded;
    if AllZero(rest[..512]) {
      pieces, tail := [], rest;
    } else {
      var block := ReadBlock(rest, limits).value;
      var next := Step(block, cursor, limits).value;
      var n := 512 + Padded(|block.data|);
      ReadIsFramed(rest, block, limits);
      var content := StepIsAPiece(block, cursor, limits);
      var piece := Piece(rest[..n], content);
      assert Held(piece, limits);
      pieces, tail := AcceptedIsPieces(rest[n..], next, limits);
      assert rest == piece.image + (Images(pieces) + tail);
      pieces := [piece] + pieces;
    }
  }

  /** Safe, distinct and within budget, as a whole. */
  ghost predicate SafeList(entries: seq<Entry>, limits: Limits) {
    SafeMembers(entries, limits) && DistinctPaths(entries) && WithinBudget(entries, limits)
  }

  lemma {:induction false} SafeListIsAccepted(before: seq<Entry>, more: seq<Entry>, limits: Limits)
    requires SafeList(before + more, limits)
    ensures Accepts(before, more, limits)
    decreases |more|
  {
    hide SafeMember, FileCount, FileBytes;
    if more != [] {
      var all, e, i := before + more, more[0], |before|;
      assert all[i] == e && all[..i + 1] == before + [e] && before + [e] + more[1..] == all;
      TotalsGrow(before, e);
      TotalsOfPrefix(all, i + 1);
      assert forall j | 0 <= j < i :: before[j] == all[j] && PathOf(all[j]) != PathOf(all[i]);
      SafeListIsAccepted(before + [e], more[1..], limits);
    }
  }

  lemma TotalsOfPrefix(entries: seq<Entry>, i: nat)
    requires i <= |entries|
    ensures FileCount(entries[..i]) <= FileCount(entries) && FileBytes(entries[..i]) <= FileBytes(entries)
  {
    assert entries == entries[..i] + entries[i..];
    Sorting.TotalOfConcat(IsFile, entries[..i], entries[i..]);
    Sorting.TotalOfConcat(SizeOfFile, entries[..i], entries[i..]);
  }

  /** The stream is these pieces and at least two zero blocks, or more zeros. */
  ghost predicate MadeOf(tar: Bytes, pieces: seq<Piece>, limits: Limits) {
    AllHeld(pieces, limits) && exists tail :: tar == Images(pieces) + tail && |tail| >= 1024 && AllZero(tail)
  }

  /** A stream made of pieces is accepted exactly when no path is left over and its members are safe; they are read. */
  lemma MadeOfPieces(tar: Bytes, pieces: seq<Piece>, limits: Limits)
    requires ValidLimits(limits) && |tar| <= limits.maxUnpackedBytes && MadeOf(tar, pieces, limits)
    ensures var entries := Members(pieces, None);
            ParseTar(tar, limits) ==
            if Settled(pieces, None) && SafeList(entries, limits) then Ok(entries) else Rejected
  {
    hide ParseFrom, ValidLimits, AllHeld, Settled, Members, Accepts, SafeMembers, DistinctPaths, WithinBudget,
      TextPaths;
    var entries := Members(pieces, None);
    var tail :| tar == Images(pieces) + tail && |tail| >= 1024 && AllZero(tail);
    PiecesAreRead(pieces, tail, Cursor(None, []), limits);
    assert [] + entries == entries;
    if SafeList(entries, limits) { SafeListIsAccepted([], entries, limits); }
    if ParseTar(tar, limits).Ok? { ParsedArchiveIsSafe(tar, limits); }
  }

  /**
   * The accepted streams, exactly: within the size limit, made of held pieces and zeros, no path left over, and the
   * members safe, distinct and within budget. Header bytes outside the fields, and padding, are free.
   */
  lemma ParseTarIsExact(tar: Bytes, entries: seq<Entry>, limits: Limits)
    ensures ParseTar(tar, limits) == Ok(entries) <==>
            && ValidLimits(limits) && |tar| <= limits.maxUnpackedBytes && SafeList(entries, limits)
            && exists pieces ::
                 MadeOf(tar, pieces, limits) && Settled(pieces, None) && Members(pieces, None) == entries
  {
    hide ParseFrom, ValidLimits, AllHeld, Settled, Members, SafeList;
    if ParseTar(tar, limits) == Ok(entries) {
      var pieces, tail := AcceptedIsPieces(tar, Cursor(None, []), limits);
      assert MadeOf(tar, pieces, limits);
      MadeOfPieces(tar, pieces, limits);
    }
    if ValidLimits(limits) && |tar| <= limits.maxUnpackedBytes && SafeList(entries, limits) {
      forall pieces | MadeOf(tar, pieces, limits) && Settled(pieces, None) && Members(pieces, None) == entries
        ensures ParseTar(tar, limits) == Ok(entries)
      {
        MadeOfPieces(tar, pieces, limits);
      }
    }
  }

  // ---------------------------------------------------------------- what changes nothing

  lemma {:induction false} NothingAdds(before: seq<Piece>, piece: Piece, after: seq<Piece>, pending: Option<Bytes>)
    requires piece.content.Nothing?
    ensures Members(before + [piece] + after, pending) == Members(before + after, pending)
    ensures Settled(before + [piece] + after, pending) == Settled(before + after, pending)
  {
    var longer, shorter := before + [piece] + after, before + after;
    if before == [] {
      assert longer[0] == piece && longer[1..] == after && shorter == after;
    } else {
      assert longer[0] == before[0] && longer[1..] == before[1..] + [piece] + after;
      assert shorter[0] == before[0] && shorter[1..] == before[1..] + after;
      var next := match before[0].content case Member(_) => None case PathOfNext(p) => Some(p) case Nothing => pending;
      NothingAdds(before[1..], piece, after, next);
    }
  }

  /**
   * A PAX header without a path, global or not, between any two pieces changes nothing, not even for a path that is
   * pending there; nor do zeros after the terminator.
   */
  lemma SilentPartsChangeNothing(before: seq<Piece>, piece: Piece, after: seq<Piece>, tar: Bytes, longer: Bytes,
                                 limits: Limits)
    requires piece.content.Nothing? && |tar| <= limits.maxUnpackedBytes && |longer| <= limits.maxUnpackedBytes
    requires MadeOf(tar, before + after, limits) && MadeOf(longer, before + [piece] + after, limits)
    ensures ParseTar(longer, limits) == ParseTar(tar, limits)
  {
    hide ParseFrom, MadeOf, Settled, Members, SafeList;
    if ValidLimits(limits) {
      NothingAdds(before, piece, after, None);
      MadeOfPieces(tar, before + after, limits);
      MadeOfPieces(longer, before + [piece] + after, limits);
    }
  }

  lemma MoreZerosChangeNothing(tar: Bytes, n: nat, limits: Limits)
    requires ParseTar(tar, limits).Ok? && |tar| + n <= limits.maxUnpackedBytes
    ensures ParseTar(tar + Zeros(n), limits) == ParseTar(tar, limits)
  {
    hide ParseFrom, AllHeld, Settled, Members, SafeList, ValidLimits;
    var pieces, tail := AcceptedIsPieces(tar, Cursor(None, []), limits);
    var all := tar + Zeros(n);
    assert all == Images(pieces) + (tail + Zeros(n));
    assert MadeOf(tar, pieces, limits) && MadeOf(all, pieces, limits);
    MadeOfPieces(tar, pieces, limits);
    MadeOfPieces(all, pieces, limits);
  }
}
