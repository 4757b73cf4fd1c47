/** `decodeBunShimMetadata` and `isCompletePortableExecutable`: length-framed binary records. */
module BinaryFraming {
  import opened Common

  type Unit = u: int | 0 <= u < 0x1_0000

  function UInt16LE(s: Bytes, i: nat): (r: nat)
    requires i + 2 <= |s|
  {
    var low: int, high: int := s[i], s[i + 1];
    low + 0x100 * high
  }

  function UInt32LE(s: Bytes, i: nat): (r: nat)
    requires i + 4 <= |s|
  {
    UInt16LE(s, i) + 0x1_0000 * UInt16LE(s, i + 2)
  }

  function Put16(n: nat): (r: Bytes)
    requires n < 0x1_0000
    ensures |r| == 2 && UInt16LE(r, 0) == n
  {
    [n % 0x100, n / 0x100]
  }

  function Put32(n: nat): (r: Bytes)
    requires n < 0x1_0000_0000
    ensures |r| == 4
  {
    Put16(n % 0x1_0000) + Put16(n / 0x1_0000)
  }

  // ---------------------------------------------------------------- UTF-16

  function EncodeUtf16(s: seq<Unit>): (r: Bytes)
    ensures |r| == 2 * |s|
  {
    if s == [] then [] else Put16(s[0]) + EncodeUtf16(s[1..])
  }

  /** `buffer.toString("utf16le")`, as code units. */
  function DecodeUtf16(s: Bytes): (r: seq<Unit>)
    requires |s| % 2 == 0
    ensures |r| == |s| / 2
  {
    if s == [] then [] else [UInt16LE(s, 0)] + DecodeUtf16(s[2..])
  }

  lemma {:induction false} DecodeEncode(s: seq<Unit>)
    ensures DecodeUtf16(EncodeUtf16(s)) == s
  {
    if s != [] {
      var r := EncodeUtf16(s);
      assert r[..2] == Put16(s[0]) && r[2..] == EncodeUtf16(s[1..]);
      assert r[0] == Put16(s[0])[0] && r[1] == Put16(s[0])[1];
      DecodeEncode(s[1..]);
    }
  }

  lemma {:induction false} EncodeDecode(s: Bytes)
    requires |s| % 2 == 0
    ensures EncodeUtf16(DecodeUtf16(s)) == s
    decreases |s|
  {
    if s != [] {
      EncodeDecode(s[2..]);
      var r := DecodeUtf16(s);
      assert r[1..] == DecodeUtf16(s[2..]);
      assert Put16(UInt16LE(s, 0)) == [s[0], s[1]];
      assert s == [s[0], s[1]] + s[2..];
    }
  }

  // ---------------------------------------------------------------- shim metadata

  const BUN_SHIM_VERSION: nat := 5478
  const MAX_BUN_SHIM_METADATA_BYTES: nat := 64 * 1024
  const BUN: seq<Unit> := [0x62, 0x75, 0x6E, 0x20]

  /** The target of a shim's metadata record, in the order in which the reader checks it. */
  function DecodeShim(m: Bytes): (r: Option<seq<Unit>>) {
    if |m| < 14 || |m| > MAX_BUN_SHIM_METADATA_BYTES || |m| % 2 != 0 then None
    else
      var flags := UInt16LE(m, |m| - 2);
      if flags / 8 != BUN_SHIM_VERSION || flags % 8 != 5 then None
      else
        var lengthsStart := |m| - 10;
        var binPathBytes, argBytes := UInt32LE(m, lengthsStart), UInt32LE(m, lengthsStart + 4);
        if binPathBytes % 2 != 0 || argBytes == 0 || argBytes % 2 != 0 || binPathBytes + argBytes + 14 != |m| then None
        else if UInt16LE(m, binPathBytes) != 0x22 || UInt16LE(m, binPathBytes + 2) != 0 then None
        else if DecodeUtf16(m[binPathBytes + 4..lengthsStart]) == BUN then Some(DecodeUtf16(m[..binPathBytes]))
        else None
  }

  /** The record of a target: path, quote and NUL, `bun `, the two lengths, version and flags. */
  function EncodeShim(target: seq<Unit>): (r: Bytes)
    requires |target| < 0x4000_0000
    ensures |r| == 2 * |target| + 22
  {
    EncodeUtf16(target) + [0x22, 0, 0, 0] + EncodeUtf16(BUN) + Put32(2 * |target|) + Put32(8) +
      Put16(BUN_SHIM_VERSION * 8 + 5)
  }

  lemma Put32Reads(s: Bytes, i: nat, n: nat)
    requires i + 4 <= |s| && n < 0x1_0000_0000
    ensures UInt32LE(s, i) == n <==> s[i..i + 4] == Put32(n)
  {
    var low, high := UInt16LE(s, i), UInt16LE(s, i + 2);
    assert s[i..i + 4] == [s[i], s[i + 1], s[i + 2], s[i + 3]];
    assert Put32(n) == [n % 0x1_0000 % 0x100, n % 0x1_0000 / 0x100, n / 0x1_0000 % 0x100, n / 0x1_0000 / 0x100];
    Put16Reads(s, i, n % 0x1_0000);
    Put16Reads(s, i + 2, n / 0x1_0000);
    if low == n % 0x1_0000 && high == n / 0x1_0000 { assert low + 0x1_0000 * high == n; }
  }

  lemma Put16Reads(s: Bytes, i: nat, n: nat)
    requires i + 2 <= |s| && n < 0x1_0000
    ensures UInt16LE(s, i) == n <==> s[i] == n % 0x100 && s[i + 1] == n / 0x100
  {
  }

  /** The pieces of a record whose lengths add up. */
  lemma Pieces(m: Bytes, b: nat)
    requires |m| == b + 22
    ensures m == m[..b] + m[b..b + 4] + m[b + 4..b + 12] + m[b + 12..b + 16] + m[b + 16..b + 20] + m[b + 20..]
  {
  }

  /**
   * Accepted metadata is byte for byte the record of the target it decodes to, and every record that fits is accepted.
   */
  lemma ShimFramingIsExact(m: Bytes, target: seq<Unit>)
    ensures DecodeShim(m) == Some(target) <==>
            2 * |target| + 22 <= MAX_BUN_SHIM_METADATA_BYTES && m == EncodeShim(target)
  {
    if DecodeShim(m) == Some(target) { AcceptedIsEncoding(m, target); }
    if 2 * |target| + 22 <= MAX_BUN_SHIM_METADATA_BYTES && m == EncodeShim(target) { EncodingIsAccepted(target); }
  }

  lemma BunIsEightBytes(s: Bytes)
    requires |s| % 2 == 0 && DecodeUtf16(s) == BUN
    ensures |s| == 8 && s == EncodeUtf16(BUN)
  {
    EncodeDecode(s);
  }

  lemma QuoteIsRead(m: Bytes, b: nat)
    requires b + 4 <= |m| && UInt16LE(m, b) == 0x22 && UInt16LE(m, b + 2) == 0
    ensures m[b..b + 4] == [0x22, 0, 0, 0]
  {
  }

  lemma FlagsAreRead(m: Bytes, i: nat)
    requires i + 2 == |m| && UInt16LE(m, i) == BUN_SHIM_VERSION * 8 + 5
    ensures m[i..] == Put16(BUN_SHIM_VERSION * 8 + 5)
  {
    Put16Reads(m, i, BUN_SHIM_VERSION * 8 + 5);
  }

  lemma AcceptedIsEncoding(m: Bytes, target: seq<Unit>)
    requires DecodeShim(m) == Some(target)
    ensures 2 * |target| + 22 <= MAX_BUN_SHIM_METADATA_BYTES && m == EncodeShim(target)
  {
    hide DecodeUtf16, EncodeUtf16, Put32, Put16, UInt16LE, UInt32LE;
    var b := UInt32LE(m, |m| - 10);
    BunIsEightBytes(m[b + 4..|m| - 10]);
    assert |m| == b + 22;
    EncodeDecode(m[..b]);
    Put32Reads(m, b + 12, b);
    Put32Reads(m, b + 16, 8);
    QuoteIsRead(m, b);
    FlagsAreRead(m, b + 20);
    Pieces(m, b);
  }

  lemma EncodedPieces(target: seq<Unit>)
    requires |target| < 0x4000_0000
    ensures var m, b := EncodeShim(target), 2 * |target|;
            && m[..b] == EncodeUtf16(target) && m[b..b + 4] == [0x22, 0, 0, 0] && m[b + 4..b + 12] == EncodeUtf16(BUN)
            && m[b + 12..b + 16] == Put32(b) && m[b + 16..b + 20] == Put32(8)
            && m[b + 20..] == Put16(BUN_SHIM_VERSION * 8 + 5)
  {
    hide EncodeUtf16, Put32, Put16;
    var t, q, c, l, e, f := EncodeUtf16(target), [0x22, 0, 0, 0], EncodeUtf16(BUN), Put32(2 * |target|), Put32(8),
                            Put16(BUN_SHIM_VERSION * 8 + 5);
    SixPieces(t, q, c, l, e, f);
  }

  /** What a prefix of a concatenation holds, the whole holds in the same place. */
  lemma InPrefix(front: Bytes, back: Bytes, i: nat, j: nat)
    requires i <= j <= |front|
    ensures (front + back)[i..j] == front[i..j]
  {
  }

  lemma SixPieces(t: Bytes, q: Bytes, c: Bytes, l: Bytes, e: Bytes, f: Bytes)
    ensures var m := t + q + c + l + e + f;
            && m[..|t|] == t && m[|t|..|t| + |q|] == q && m[|t| + |q|..|t| + |q| + |c|] == c
            && m[|t| + |q| + |c|..|t| + |q| + |c| + |l|] == l
            && m[|t| + |q| + |c| + |l|..|t| + |q| + |c| + |l| + |e|] == e
            && m[|t| + |q| + |c| + |l| + |e|..] == f
  {
    FivePieces(t, q, c, l, e);
    var front := t + q + c + l + e;
    InPrefix(front, f, 0, |t|);
    InPrefix(front, f, |t|, |t| + |q|);
    InPrefix(front, f, |t| + |q|, |t| + |q| + |c|);
    InPrefix(front, f, |t| + |q| + |c|, |t| + |q| + |c| + |l|);
    InPrefix(front, f, |t| + |q| + |c| + |l|, |front|);
    assert (front + f)[|front|..] == f;
  }

  lemma FivePieces(t: Bytes, q: Bytes, c: Bytes, l: Bytes, e: Bytes)
    ensures var m := t + q + c + l + e;
            && m[..|t|] == t && m[|t|..|t| + |q|] == q && m[|t| + |q|..|t| + |q| + |c|] == c
            && m[|t| + |q| + |c|..|t| + |q| + |c| + |l|] == l
            && m[|t| + |q| + |c| + |l|..] == e
  {
    var three := t + q + c;
    assert three[..|t|] == t && three[|t|..|t| + |q|] == q && three[|t| + |q|..] == c;
    var four := three + l;
    InPrefix(three, l, 0, |t|);
    InPrefix(three, l, |t|, |t| + |q|);
    InPrefix(three, l, |t| + |q|, |three|);
    assert four[|three|..] == l;
    InPrefix(four, e, 0, |t|);
    InPrefix(four, e, |t|, |t| + |q|);
    InPrefix(four, e, |t| + |q|, |three|);
    InPrefix(four, e, |three|, |four|);
    assert (four + e)[|four|..] == e;
  }

  lemma FlagsRead(m: Bytes, i: nat)
    requires i + 2 == |m| && m[i..] == Put16(BUN_SHIM_VERSION * 8 + 5)
    ensures UInt16LE(m, i) == BUN_SHIM_VERSION * 8 + 5
  {
    hide UInt16LE;
    assert m[i..][0] == m[i] && m[i..][1] == m[i + 1];
    Put16Reads(m, i, BUN_SHIM_VERSION * 8 + 5);
  }

  lemma QuoteReads(m: Bytes, b: nat)
    requires b + 4 <= |m| && m[b..b + 4] == [0x22, 0, 0, 0]
    ensures UInt16LE(m, b) == 0x22 && UInt16LE(m, b + 2) == 0
  {
    var q := m[b..b + 4];
    assert q[0] == m[b] && q[1] == m[b + 1] && q[2] == m[b + 2] && q[3] == m[b + 3];
  }

  lemma EncodingIsAccepted(target: seq<Unit>)
    requires 2 * |target| + 22 <= MAX_BUN_SHIM_METADATA_BYTES
    ensures DecodeShim(EncodeShim(target)) == Some(target)
  {
    hide DecodeUtf16, EncodeUtf16, Put32, EncodeShim, UInt16LE, UInt32LE, Put16;
    var m, b := EncodeShim(target), 2 * |target|;
    EncodedPieces(target);
    QuoteReads(m, b);
    FlagsRead(m, b + 20);
    Put32Reads(m, b + 12, b);
    Put32Reads(m, b + 16, 8);
    DecodeEncode(target);
    DecodeEncode(BUN);
  }

  // ---------------------------------------------------------------- portable executables

  /** Where the header ends and how many sections it lists, if the header is all there. */
  datatype Layout = Layout(sectionTable: nat, sectionCount: nat)

  function ReadLayout(file: Bytes): (r: Option<Layout>)
    ensures r.Some? ==> 0 < r.value.sectionCount && r.value.sectionTable + 40 * r.value.sectionCount <= |file|
  {
    if |file| < 0x40 || file[0] != 0x4D || file[1] != 0x5A then None
    else
      var peOffset := UInt32LE(file, 0x3C);
      if peOffset + 24 > |file| || Ascii(file[peOffset..peOffset + 4]) != [0x50, 0x45, 0, 0] then None
      else
        var sectionCount, optionalHeaderBytes := UInt16LE(file, peOffset + 6), UInt16LE(file, peOffset + 20);
        var sectionTable := peOffset + 24 + optionalHeaderBytes;
        if sectionCount == 0 || sectionCount > 96 || sectionTable + sectionCount * 40 > |file| then None
        else Some(Layout(sectionTable, sectionCount))
  }

  /** The end of the raw data of section `i`. */
  function SectionEnd(file: Bytes, layout: Layout, i: nat): (r: nat)
    requires i < layout.sectionCount && layout.sectionTable + 40 * layout.sectionCount <= |file|
  {
    var section := layout.sectionTable + i * 40;
    UInt32LE(file, section + 20) + UInt32LE(file, section + 16)
  }

  function Largest(a: nat, b: nat): nat { if a >= b then a else b }

  /** The end of the header and of the first `n` sections. */
  function ImageEnd(file: Bytes, layout: Layout, n: nat): (r: nat)
    requires n <= layout.sectionCount && layout.sectionTable + 40 * layout.sectionCount <= |file|
    ensures r >= layout.sectionTable + 40 * layout.sectionCount
    ensures forall i | 0 <= i < n :: SectionEnd(file, layout, i) <= r
    ensures || r == layout.sectionTable + 40 * layout.sectionCount
            || exists i | 0 <= i < n :: SectionEnd(file, layout, i) == r
  {
    if n == 0 then layout.sectionTable + layout.sectionCount * 40
    else Largest(ImageEnd(file, layout, n - 1), SectionEnd(file, layout, n - 1))
  }

  /** The file ends exactly where its header says the image ends. */
  predicate IsComplete(file: Bytes) {
    var layout := ReadLayout(file);
    layout.Some? && ImageEnd(file, layout.value, layout.value.sectionCount) == |file|
  }

  /** No section ends behind the file, and the header or some section ends with it. */
  lemma CompleteIsExact(file: Bytes)
    ensures IsComplete(file) <==>
            && ReadLayout(file).Some?
            && var layout := ReadLayout(file).value;
            && (forall i | 0 <= i < layout.sectionCount :: SectionEnd(file, layout, i) <= |file|)
            && (|| layout.sectionTable + 40 * layout.sectionCount == |file|
                || exists i | 0 <= i < layout.sectionCount :: SectionEnd(file, layout, i) == |file|)
  {
    hide ReadLayout, SectionEnd, ImageEnd;
    if ReadLayout(file).Some? {
      var layout := ReadLayout(file).value;
      var end := ImageEnd(file, layout, layout.sectionCount);
      assert forall i | 0 <= i < layout.sectionCount :: SectionEnd(file, layout, i) <= end;
    }
  }

  /** A section that ends behind the file shows that the image is not complete. */
  lemma LateSection(file: Bytes, layout: Layout, i: nat)
    requires layout.sectionTable + 40 * layout.sectionCount <= |file| && i < layout.sectionCount
    requires SectionEnd(file, layout, i) > |file|
    ensures ImageEnd(file, layout, layout.sectionCount) != |file|
  {
    hide SectionEnd, ImageEnd;
  }

  method IsCompletePortableExecutable(file: Bytes) returns (complete: bool)
    ensures complete <==> IsComplete(file)
  {
    hide ReadLayout, UInt32LE;
    var layout := ReadLayout(file);
    if layout.None? { return false; }
    var Layout(sectionTable, sectionCount) := layout.value;
    var imageEnd := sectionTable + sectionCount * 40;
    for index := 0 to sectionCount
      invariant imageEnd == ImageEnd(file, layout.value, index)
    {
      var section := sectionTable + index * 40;
      var rawBytes, rawOffset := UInt32LE(file, section + 16), UInt32LE(file, section + 20);
      if rawOffset > |file| || rawBytes > |file| - rawOffset {
        LateSection(file, layout.value, index);
        return false;
      }
      imageEnd := Largest(imageEnd, rawOffset + rawBytes);
    }
    return imageEnd == |file|;
  }

  lemma SectionEndOfExtension(file: Bytes, longer: Bytes, layout: Layout, i: nat)
    requires file <= longer && i < layout.sectionCount && layout.sectionTable + 40 * layout.sectionCount <= |file|
    ensures SectionEnd(longer, layout, i) == SectionEnd(file, layout, i)
  {
  }

  /** The header of a longer file that starts with `file` says the same. */
  lemma {:induction false} ImageEndOfExtension(file: Bytes, longer: Bytes, layout: Layout, n: nat)
    requires file <= longer && n <= layout.sectionCount && layout.sectionTable + 40 * layout.sectionCount <= |file|
    ensures ImageEnd(longer, layout, n) == ImageEnd(file, layout, n)
  {
    hide SectionEnd, UInt32LE;
    if n > 0 {
      ImageEndOfExtension(file, longer, layout, n - 1);
      SectionEndOfExtension(file, longer, layout, n - 1);
    }
  }

  lemma LayoutOfExtension(file: Bytes, longer: Bytes)
    requires file <= longer && ReadLayout(file).Some?
    ensures ReadLayout(longer) == ReadLayout(file)
  {
    var peOffset := UInt32LE(file, 0x3C);
    assert longer[peOffset..peOffset + 4] == file[peOffset..peOffset + 4];
  }

  /** Complete images are prefix-free: none is a proper prefix, or a proper extension, of another. */
  lemma CompleteImagesArePrefixFree(file: Bytes, longer: Bytes)
    requires IsComplete(file) && file <= longer
    ensures IsComplete(longer) <==> longer == file
  {
    LayoutOfExtension(file, longer);
    var layout := ReadLayout(file).value;
    ImageEndOfExtension(file, longer, layout, layout.sectionCount);
    hide ReadLayout, ImageEnd;
    if |longer| == |file| { assert longer == file; }
  }
}
