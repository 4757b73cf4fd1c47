/** The extended headers the reader accepts, said without the reader: every form of a record, and what a list means. */
module PaxFormat {
  import opened Common
  import opened Splitting
  import opened Pax
  import Decimals
  import Utf8

  /** A record as it stands in the header: its length in decimal, a key without `=` and text, each in raw bytes. */
  datatype RawRecord = RawRecord(number: Bytes, key: Bytes, value: Bytes)

  function Raw(r: RawRecord): Bytes { r.number + [0x20] + r.key + [0x3D] + r.value + [0x0A] }

  /** The number, read as 7-bit characters, is the length of the whole record, without a leading zero. */
  predicate WellFormed(r: RawRecord) {
    && 0x20 !in r.number && r.key != [] && 0x3D !in r.key && Utf8.Valid(r.value)
    && var text := AsciiString(r.number);
    && Decimals.Canonical(text) && Decimals.Value(text) == |Raw(r)| <= MAX_SAFE_INTEGER
  }

  function Text(value: Bytes): Bytes { if Utf8.BOM <= value then value[3..] else value }

  function Meaning(r: RawRecord): Record { Record(|Raw(r)|, Ascii(r.key), Text(r.value)) }

  lemma PositiveNumeral(text: string)
    requires Decimals.Canonical(text)
    ensures text[0] == '0' <==> Decimals.Value(text) == 0
  {
    if text[0] == '0' {
      assert text == ['0'] && text[..0] == [];
    } else {
      LeadingDigit(text);
    }
  }

  lemma {:induction false} LeadingDigit(text: string)
    requires text != [] && Decimals.Digits(text) && text[0] != '0'
    ensures Decimals.Value(text) > 0
  {
    if |text| > 1 { LeadingDigit(text[..|text| - 1]); }
  }

  lemma LengthIsRead(r: RawRecord, rest: Bytes)
    requires WellFormed(r)
    ensures ReadLength(Raw(r) + rest) == Ok((|r.number|, |Raw(r)|))
  {
    hide Utf8.Valid, AsciiString, Decimals.Value, Decimals.Canonical;
    var data, n := Raw(r) + rest, |r.number|;
    assert data[..n] == r.number && data[n] == 0x20;
    IndexOfFirst(data, 0x20, n);
    PositiveNumeral(AsciiString(r.number));
  }

  lemma BodyIs(r: RawRecord, rest: Bytes)
    ensures (Raw(r) + rest)[|r.number| + 1..|Raw(r)|] == r.key + [0x3D] + r.value + [0x0A]
  {
  }

  /** A well-formed record is read as what it means, whatever follows. */
  lemma WellFormedIsRead(r: RawRecord, rest: Bytes)
    requires WellFormed(r)
    ensures ReadRecord(Raw(r) + rest) == Ok(Meaning(r))
  {
    LengthIsRead(r, rest);
    BodyIs(r, rest);
    hide Utf8.Valid, AsciiString, Decimals.Value, Decimals.Canonical, ReadLength, ReadKeyValue, Raw;
    KeyValueReadsBack(r.key, r.value);
  }

  lemma BodyIsWellFormed(body: Bytes) returns (key: Bytes, value: Bytes)
    requires body != [] && ReadKeyValue(body).Ok?
    ensures body == key + [0x3D] + value + [0x0A] && key != [] && 0x3D !in key && Utf8.Valid(value)
    ensures ReadKeyValue(body).value == (Ascii(key), Text(value))
  {
    hide Utf8.Valid, Utf8.Decode, Ascii;
    var equals := IndexOf(body, 0x3D).value;
    key, value := body[..equals], body[equals + 1..|body| - 1];
    assert body == body[..equals] + [body[equals]] + body[equals + 1..|body| - 1] + [body[|body| - 1]];
  }

  lemma LengthIsWellFormed(data: Bytes)
    requires ReadLength(data).Ok?
    ensures var (space, length) := ReadLength(data).value;
            && data[space] == 0x20 && 0x20 !in data[..space] && length <= MAX_SAFE_INTEGER
            && Decimals.Canonical(AsciiString(data[..space])) && Decimals.Value(AsciiString(data[..space])) == length
  {
    hide AsciiString, Decimals.Value, Decimals.Canonical;
  }

  /** What is read stands there as a well-formed record. */
  lemma ReadIsWellFormed(data: Bytes) returns (r: RawRecord)
    requires ReadRecord(data).Ok?
    ensures WellFormed(r) && Raw(r) <= data && Meaning(r) == ReadRecord(data).value
  {
    hide Utf8.Valid, AsciiString, Decimals.Value, Decimals.Canonical, ReadLength, ReadKeyValue, Ascii, Text;
    LengthIsWellFormed(data);
    var (space, length) := ReadLength(data).value;
    var body := data[space + 1..length];
    var key, value := BodyIsWellFormed(body);
    r := RawRecord(data[..space], key, value);
    assert Raw(r) == data[..space] + [data[space]] + body == data[..length];
  }

  // ---------------------------------------------------------------- the whole header

  function Raws(rs: seq<RawRecord>): Bytes { if rs == [] then [] else Raw(rs[0]) + Raws(rs[1..]) }

  ghost predicate AllWellFormed(rs: seq<RawRecord>) { forall i | 0 <= i < |rs| :: WellFormed(rs[i]) }

  /** The value of the last record with this key, or what was there before. */
  function LastPath(rs: seq<RawRecord>, path: Option<Bytes>): Option<Bytes> {
    if rs == [] then path
    else
      var last := rs[|rs| - 1];
      if Ascii(last.key) == PATH_KEY then Some(Text(last.value)) else LastPath(rs[..|rs| - 1], path)
  }

  lemma {:induction false} LastPathFirst(rs: seq<RawRecord>, path: Option<Bytes>)
    requires rs != []
    ensures LastPath(rs, path) ==
            LastPath(rs[1..], if Ascii(rs[0].key) == PATH_KEY then Some(Text(rs[0].value)) else path)
  {
    if |rs| > 1 {
      var front := rs[..|rs| - 1];
      LastPathFirst(front, path);
      assert front[1..] == rs[1..][..|rs| - 2];
    } else {
      assert rs[..0] == [];
    }
  }

  lemma {:induction false} RecordsAreRead(rs: seq<RawRecord>, path: Option<Bytes>)
    requires AllWellFormed(rs)
    ensures PathAttribute(Raws(rs), path) == Ok(LastPath(rs, path))
  {
    hide ReadRecord, WellFormed, Raw;
    if rs != [] {
      var r, rest := rs[0], Raws(rs[1..]);
      RawIsNotEmpty(r);
      WellFormedIsRead(r, rest);
      PathAttributeStep(Raws(rs), Meaning(r), path);
      assert (Raw(r) + rest)[|Raw(r)|..] == rest;
      RecordsAreRead(rs[1..], if Ascii(r.key) == PATH_KEY then Some(Text(r.value)) else path);
      LastPathFirst(rs, path);
    }
  }

  lemma RawIsNotEmpty(r: RawRecord)
    ensures |Raw(r)| > 0
  {
  }

  lemma {:induction false} ReadIsRecords(data: Bytes, path: Option<Bytes>) returns (rs: seq<RawRecord>)
    requires PathAttribute(data, path).Ok?
    ensures AllWellFormed(rs) && Raws(rs) == data
    decreases |data|
  {
    hide ReadRecord, WellFormed, Raw;
    rs := [];
    if data != [] {
      var record := ReadRecord(data).value;
      var r := ReadIsWellFormed(data);
      rs := ReadIsRecords(data[record.length..], if record.key == PATH_KEY then Some(record.value) else path);
      assert data == Raw(r) + data[record.length..];
      rs := [r] + rs;
    }
  }

  /** A header is a list of well-formed records, and its path is that of the last `path` record. */
  ghost predicate HoldsPath(data: Bytes, path: Option<Bytes>) {
    exists rs :: AllWellFormed(rs) && Raws(rs) == data && LastPath(rs, None) == path
  }

  lemma PathAttributeIsExact(data: Bytes, path: Option<Bytes>)
    ensures PathAttribute(data, None) == Ok(path) <==> HoldsPath(data, path)
  {
    hide PathAttribute, AllWellFormed, Raws, LastPath;
    if PathAttribute(data, None).Ok? {
      var rs := ReadIsRecords(data, None);
      RecordsAreRead(rs, None);
    }
    forall rs | AllWellFormed(rs) && Raws(rs) == data ensures PathAttribute(data, None) == Ok(LastPath(rs, None)) {
      RecordsAreRead(rs, None);
    }
  }
}
