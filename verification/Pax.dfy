/** `parsePaxAttributes`: the records of the pax Extended Header, of which only `path` matters. */
module Pax {
  import opened Common
  import Decimals
  import opened Splitting
  import Utf8

  const PATH_KEY: Bytes := [0x70, 0x61, 0x74, 0x68]

  function AsciiString(s: Bytes): (r: string)
    ensures |r| == |s|
  {
    seq(|s|, i requires 0 <= i < |s| => (s[i] % 0x80) as char)
  }

  datatype Record = Record(length: nat, key: Bytes, value: Bytes)

  /** The decimal length before the first space, and where that space is. */
  function ReadLength(data: Bytes): (r: Result<(nat, nat)>)
    ensures r.Ok? ==> r.value.0 + 1 < r.value.1 <= |data|
  {
    match IndexOf(data, 0x20)
    case None => Rejected
    case Some(space) =>
      var text := AsciiString(data[..space]);
      if !Decimals.Canonical(text) || text[0] == '0' then Rejected
      else
        var length := Decimals.Value(text);
        if length > MAX_SAFE_INTEGER || length > |data| || length <= space + 1 then Rejected
        else Ok((space, length))
  }

  /** `key=value` and a newline. */
  function ReadKeyValue(body: Bytes): (r: Result<(Bytes, Bytes)>)
    requires body != []
  {
    if body[|body| - 1] != 0x0A then Rejected
    else match IndexOf(body, 0x3D)
      case None => Rejected
      case Some(equals) =>
        if equals == 0 then Rejected
        else
          var value :- Utf8.Decode(body[equals + 1..|body| - 1]);
          Ok((Ascii(body[..equals]), value))
  }

  /** The record at the front of `data`. */
  function ReadRecord(data: Bytes): (r: Result<Record>)
    ensures r.Ok? ==> 0 < r.value.length <= |data|
  {
    var (space, length) :- ReadLength(data);
    var (key, value) :- ReadKeyValue(data[space + 1..length]);
    Ok(Record(length, key, value))
  }

  /** The last `path` attribute of `data`, `path` when it has none. */
  function PathAttribute(data: Bytes, path: Option<Bytes>): (r: Result<Option<Bytes>>)
    decreases |data|
  {
    if data == [] then Ok(path)
    else
      var record :- ReadRecord(data);
      PathAttribute(data[record.length..], if record.key == PATH_KEY then Some(record.value) else path)
  }

  lemma PathAttributeStep(data: Bytes, record: Record, path: Option<Bytes>)
    requires data != [] && ReadRecord(data) == Ok(record)
    ensures PathAttribute(data, path) ==
            PathAttribute(data[record.length..], if record.key == PATH_KEY then Some(record.value) else path)
  {
  }

  /** A length that is complete does not depend on what follows. */
  lemma ReadLengthExtends(data: Bytes, rest: Bytes)
    requires ReadLength(data).Ok?
    ensures ReadLength(data + rest) == ReadLength(data)
  {
    IndexOfExtends(data, rest, 0x20);
    var space := IndexOf(data, 0x20).value;
    assert (data + rest)[..space] == data[..space];
  }

  /** Neither does a record. */
  lemma ReadRecordExtends(data: Bytes, rest: Bytes)
    requires ReadRecord(data).Ok?
    ensures ReadRecord(data + rest) == ReadRecord(data)
  {
    hide ReadLength, ReadKeyValue;
    ReadLengthExtends(data, rest);
    var (space, length) := ReadLength(data).value;
    assert (data + rest)[space + 1..length] == data[space + 1..length];
  }

  /** Records that read well are read first, and what follows goes on from there. */
  lemma {:induction false} PathAttributeConcat(data: Bytes, rest: Bytes, path: Option<Bytes>)
    requires PathAttribute(data, path).Ok?
    ensures PathAttribute(data + rest, path) == PathAttribute(rest, PathAttribute(data, path).value)
    decreases |data|
  {
    hide ReadRecord;
    if data == [] {
      assert data + rest == rest;
    } else {
      var record := ReadRecord(data).value;
      ReadRecordExtends(data, rest);
      assert (data + rest)[record.length..] == data[record.length..] + rest;
      PathAttributeConcat(data[record.length..], rest, if record.key == PATH_KEY then Some(record.value) else path);
    }
  }

  method ParseAttributes(data: Bytes) returns (r: Result<Option<Bytes>>)
    ensures r == PathAttribute(data, None)
  {
    var path: Option<Bytes> := None;
    var rest := data;
    while rest != []
      invariant PathAttribute(rest, path) == PathAttribute(data, None)
      decreases |rest|
    {
      var record := ReadRecord(rest);
      if record.Rejected? { return Rejected; }
      PathAttributeStep(rest, record.value, path);
      if record.value.key == PATH_KEY { path := Some(record.value.value); }
      rest := rest[record.value.length..];
    }
    return Ok(path);
  }

  // ---------------------------------------------------------------- the format

  /** The bytes of an ASCII string of digits. */
  function DigitBytes(s: string): (r: Bytes)
    requires Decimals.Digits(s)
    ensures |r| == |s| && AsciiString(r) == s && 0x20 !in r
  {
    if s == [] then []
    else
      var rest := s[1..];
      assert forall i | 0 <= i < |rest| :: rest[i] == s[i + 1];
      assert Decimals.Digit(s[0]);
      [s[0] as int] + DigitBytes(rest)
  }

  function NumeralBytes(n: nat): Bytes { DigitBytes(Decimals.Numeral(n)) }

  /** `"%d %s=%s\n"`, the number being the length of the whole record. */
  ghost predicate IsRecord(record: Bytes, key: Bytes, value: Bytes) {
    record == NumeralBytes(|record|) + [0x20] + key + [0x3D] + value + [0x0A]
  }

  lemma LengthReadsBack(number: Bytes, length: nat, rest: Bytes)
    requires number == NumeralBytes(length) && length <= MAX_SAFE_INTEGER
    requires |number| + 1 < length <= |number| + 1 + |rest|
    ensures ReadLength(number + [0x20] + rest) == Ok((|number|, length))
  {
    var data := number + [0x20] + rest;
    assert data[..|number|] == number;
    IndexOfFirst(data, 0x20, |number|);
    assert AsciiString(number) == Decimals.Numeral(length);
  }

  lemma KeyValueReadsBack(key: Bytes, value: Bytes)
    requires key != [] && 0x3D !in key
    ensures ReadKeyValue(key + [0x3D] + value + [0x0A]) ==
            match Utf8.Decode(value)
            case Ok(text) => Ok((Ascii(key), text))
            case Rejected => Rejected
  {
    var body := key + [0x3D] + value + [0x0A];
    assert body[..|key|] == key && body[|key|] == 0x3D;
    IndexOfFirst(body, 0x3D, |key|);
    assert body[|key| + 1..|body| - 1] == value;
  }

  /** A record of the standard's form is read as its own key and value, whatever follows it. */
  lemma RecordReadsBack(record: Bytes, key: Bytes, value: Bytes, rest: Bytes)
    requires IsRecord(record, key, value) && |record| <= MAX_SAFE_INTEGER
    requires key != [] && 0x3D !in key
    ensures ReadRecord(record + rest) ==
            match Utf8.Decode(value)
            case Ok(text) => Ok(Record(|record|, Ascii(key), text))
            case Rejected => Rejected
  {
    hide ReadLength, ReadKeyValue, Utf8.Decode, NumeralBytes;
    var number := NumeralBytes(|record|);
    var body := key + [0x3D] + value + [0x0A];
    assert record == number + [0x20] + body;
    assert record + rest == number + [0x20] + (body + rest);
    LengthReadsBack(number, |record|, body + rest);
    assert (record + rest)[|number| + 1..|record|] == body;
    KeyValueReadsBack(key, value);
  }

  /** A later `path` record overrides an earlier one; every other key is skipped. */
  lemma PathRecordWins(record: Bytes, key: Bytes, value: Bytes, rest: Bytes, path: Option<Bytes>)
    requires IsRecord(record, key, value) && |record| <= MAX_SAFE_INTEGER
    requires key != [] && 0x3D !in key && Utf8.Valid(value)
    ensures PathAttribute(record + rest, path) ==
            PathAttribute(rest, if Ascii(key) == PATH_KEY then Some(Utf8.Decode(value).value) else path)
  {
    hide ReadRecord, Utf8.Valid, Utf8.Decode;
    RecordReadsBack(record, key, value, rest);
    PathAttributeStep(record + rest, ReadRecord(record + rest).value, path);
    assert (record + rest)[|record|..] == rest;
  }
}
