/** GNU long-path and PAX headers: how they name the member that follows. */
module TarExtensions {
  import opened Common
  import opened TarFields
  import opened TarReader
  import Pax
  import Utf8

  /** A block that sets the path of the next member. */
  predicate Names(extension: Block, path: Bytes)
    requires |extension.header| == 512
  {
    || (extension.header[156] == 0x4C && GnuLongPath(extension.data) == Ok(path))
    || (extension.header[156] == 0x78 && Pax.PathAttribute(extension.data, None) == Ok(Some(path)))
  }

  predicate IsMember(block: Block)
    requires |block.header| == 512
  {
    block.header[156] != 0x4C && block.header[156] != 0x78 && block.header[156] != 0x67
  }

  /**
   * After an extension a member reads exactly as if its header had carried that path, whatever path the header has and
   * whatever an earlier extension said; and the extension names no member after it.
   */
  lemma ExtensionNamesMember(extension: Block, block: Block, cursor: Cursor, path: Bytes, limits: Limits)
    requires |extension.header| == 512 && |block.header| == 512 && Names(extension, path) && IsMember(block)
    ensures Step(extension, cursor, limits).Ok?
    ensures var named := Step(extension, cursor, limits).value;
      && named.entries == cursor.entries
      && Step(block, named, limits) == Step(block.(prefix := [], path := path), Cursor(None, cursor.entries), limits)
      && (Step(block, named, limits).Ok? ==> Step(block, named, limits).value.pending == None)
  {
    hide Admissible, ParseOctal, GnuLongPath, Pax.PathAttribute;
    assert Join([], path) == path;
  }

  /** Text that neither opens with a byte order mark nor ends in a newline, and holds no NUL. */
  predicate PlainText(path: Bytes) {
    Utf8.Valid(path) && !(Utf8.BOM <= path) && 0 !in path && (path != [] ==> path[|path| - 1] != 0x0A)
  }

  lemma {:induction false} UntilNulStops(s: Bytes, rest: Bytes)
    requires 0 !in s
    ensures UntilNul(s + [0] + rest) == s
  {
    if s != [] {
      UntilNulStops(s[1..], rest);
      assert (s + [0] + rest)[1..] == s[1..] + [0] + rest;
    }
  }

  /** A GNU long-path header holds its path, with or without a newline before the NUL, whatever follows. */
  lemma GnuLongPathReadsBack(path: Bytes, rest: Bytes)
    requires PlainText(path)
    ensures GnuLongPath(path + [0] + rest) == Ok(path) && GnuLongPath(path + [0x0A, 0] + rest) == Ok(path)
  {
    UntilNulStops(path, rest);
    var ended := path + [0x0A];
    assert path + [0x0A, 0] + rest == ended + [0] + rest;
    UntilNulStops(ended, rest);
    Utf8.ValidConcat(path, [0x0A]);
    assert Utf8.Valid([0x0A]) by { assert Utf8.CharLength([0x0A]) == 1; assert [0x0A][1..] == []; }
    assert Utf8.Valid(ended);
    NewlineIsNoMark(path);
    assert ended[..|ended| - 1] == path;
  }

  lemma NewlineIsNoMark(path: Bytes)
    requires !(Utf8.BOM <= path)
    ensures !(Utf8.BOM <= path + [0x0A])
  {
    var ended := path + [0x0A];
    assert Utf8.BOM[2] != 0x0A;
    if |path| >= 3 {
      assert ended[..3] == path[..3];
    } else if |path| == 2 {
      assert ended[2] == 0x0A;
    }
  }

  /** A PAX header that ends with a `path` record holds that path, whatever well-formed records come before it. */
  lemma PaxPathReadsBack(before: Bytes, record: Bytes, path: Bytes, earlier: Option<Bytes>)
    requires Pax.IsRecord(record, Pax.PATH_KEY, path) && |record| <= MAX_SAFE_INTEGER && PlainText(path)
    requires Pax.PathAttribute(before, earlier).Ok?
    ensures Pax.PathAttribute(before + record, earlier) == Ok(Some(path))
  {
    hide Utf8.Valid, Utf8.Decode, Pax.IsRecord, Pax.PathAttribute, Ascii;
    Pax.PathAttributeConcat(before, record, earlier);
    assert record + [] == record;
    PathKeyIsAscii();
    Pax.PathRecordWins(record, Pax.PATH_KEY, path, [], Pax.PathAttribute(before, earlier).value);
    NothingLeft(Some(path));
  }

  lemma NothingLeft(path: Option<Bytes>)
    ensures Pax.PathAttribute([], path) == Ok(path)
  {
  }

  lemma PathKeyIsAscii()
    ensures Ascii(Pax.PATH_KEY) == Pax.PATH_KEY && 0x3D !in Pax.PATH_KEY
  {
  }
}
