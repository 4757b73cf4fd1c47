/**
 * UTF-8 as `new TextDecoder("utf-8", { fatal: true })` reads it: well-formedness after table 3-7
 * of the Unicode Standard, and a byte order mark at the very start dropped from the result.
 * A decoded string is represented by its UTF-8 bytes.
 */
module Utf8 {
  import opened Common

  const BOM: Bytes := [0xEF, 0xBB, 0xBF]

  predicate Tail(b: Byte) { 0x80 <= b < 0xC0 }

  /** Length of the well-formed character at the front of `s`; 0 when there is none. */
  function CharLength(s: Bytes): (n: nat)
    ensures n <= |s|
    ensures forall i | 1 <= i < n :: Tail(s[i])
    ensures s != [] && s[0] < 0x80 ==> n == 1
  {
    if s == [] then 0
    else if s[0] < 0x80 then 1
    else if 0xC2 <= s[0] <= 0xDF && |s| >= 2 && Tail(s[1]) then 2
    else if 0xE0 <= s[0] <= 0xEF && |s| >= 3 && Tail(s[1]) && Tail(s[2])
            && (s[0] == 0xE0 ==> 0xA0 <= s[1]) && (s[0] == 0xED ==> s[1] < 0xA0) then 3
    else if 0xF0 <= s[0] <= 0xF4 && |s| >= 4 && Tail(s[1]) && Tail(s[2]) && Tail(s[3])
            && (s[0] == 0xF0 ==> 0x90 <= s[1]) && (s[0] == 0xF4 ==> s[1] < 0x90) then 4
    else 0
  }

  predicate Valid(s: Bytes) {
    s == [] || (CharLength(s) > 0 && Valid(s[CharLength(s)..]))
  }

  lemma {:induction false} ValidConcat(a: Bytes, b: Bytes)
    requires Valid(a)
    ensures Valid(a + b) <==> Valid(b)
  {
    if a == [] {
      assert a + b == b;
    } else {
      var n := CharLength(a);
      assert CharLength(a + b) == n;
      assert (a + b)[n..] == a[n..] + b;
      ValidConcat(a[n..], b);
    }
  }

  lemma PrefixCharLength(s: Bytes, i: nat)
    requires CharLength(s) <= i <= |s|
    ensures CharLength(s[..i]) == CharLength(s)
  {
  }

  lemma AsciiIsOneByte(s: Bytes)
    requires s != [] && s[0] < 0x80
    ensures CharLength(s) == 1
  {
  }

  /** An ASCII byte is no part of the character before it. */
  lemma AsciiStartsCharacter(s: Bytes, i: nat)
    requires 0 < i < |s| && s[i] < 0x80
    ensures CharLength(s) <= i
  {
  }

  lemma ValidTail(s: Bytes)
    requires Valid(s) && s != []
    ensures 0 < CharLength(s) <= |s| && Valid(s[CharLength(s)..])
  {
    hide CharLength;
  }

  lemma ValidCons(s: Bytes, n: nat)
    requires n == CharLength(s) && 0 < n <= |s| && Valid(s[n..])
    ensures Valid(s)
  {
    hide CharLength;
  }

  lemma ValidAtStart(s: Bytes)
    requires Valid(s) && s != [] && s[0] < 0x80
    ensures Valid(s[..0]) && Valid(s[0..]) && Valid(s[1..])
  {
    ValidTail(s);
    AsciiIsOneByte(s);
    hide CharLength;
    assert s[0..] == s && s[..0] == [];
  }

  /** An ASCII byte separates characters, so both sides of it are well formed. */
  lemma {:induction false} ValidSplit(s: Bytes, i: nat)
    requires Valid(s) && i < |s| && s[i] < 0x80
    ensures Valid(s[..i]) && Valid(s[i..]) && Valid(s[i + 1..])
    decreases |s|
  {
    hide CharLength, Valid;
    if i == 0 {
      ValidAtStart(s);
    } else {
      ValidTail(s);
      AsciiStartsCharacter(s, i);
      PrefixCharLength(s, i);
      var n := CharLength(s);
      var rest := s[n..];
      assert rest[i - n] == s[i];
      ValidSplit(rest, i - n);
      assert rest[i - n..] == s[i..] && rest[i - n + 1..] == s[i + 1..];
      assert s[..i][n..] == rest[..i - n];
      ValidCons(s[..i], n);
    }
  }

  /** The string a byte field holds. */
  function Decode(s: Bytes): (r: Result<Bytes>)
    ensures r.Ok? <==> Valid(s)
    ensures r.Ok? ==> Valid(r.value) && r.value == if BOM <= s then s[3..] else s
  {
    if !Valid(s) then Rejected
    else if BOM <= s then
      assert CharLength(s) == 3;
      Ok(s[3..])
    else Ok(s)
  }

  // ---------------------------------------------------------------- the encoding form

  /** A Unicode scalar value: any code point but a surrogate. */
  type Scalar = c: int | 0 <= c < 0xD800 || 0xE000 <= c < 0x11_0000

  /** UTF-8 after definition D92 of the Unicode Standard: the bits of the code point, six to a trailing byte. */
  function Encode(c: Scalar): (r: Bytes)
    ensures 1 <= |r| <= 4
  {
    if c < 0x80 then [c]
    else if c < 0x800 then [0xC0 + c / 0x40, 0x80 + c % 0x40]
    else if c < 0x1_0000 then [0xE0 + c / 0x1000, 0x80 + c / 0x40 % 0x40, 0x80 + c % 0x40]
    else [0xF0 + c / 0x4_0000, 0x80 + c / 0x1000 % 0x40, 0x80 + c / 0x40 % 0x40, 0x80 + c % 0x40]
  }

  function EncodeAll(text: seq<Scalar>): (r: Bytes) {
    if text == [] then [] else Encode(text[0]) + EncodeAll(text[1..])
  }

  lemma EncodedIsRead(c: Scalar, rest: Bytes)
    ensures CharLength(Encode(c) + rest) == |Encode(c)|
  {
    var s := Encode(c) + rest;
    assert forall i | 0 <= i < |Encode(c)| :: s[i] == Encode(c)[i];
  }

  /** The bits of a character, put together again. */
  lemma ReadIsEncoded(s: Bytes) returns (c: Scalar)
    requires CharLength(s) > 0
    ensures s[..CharLength(s)] == Encode(c)
  {
    var n := CharLength(s);
    var a: int := s[0];
    if n == 1 {
      c := a;
    } else if n == 2 {
      c := TwoBytes(a - 0xC0, s[1] - 0x80);
    } else if n == 3 {
      c := ThreeBytes(a - 0xE0, s[1] - 0x80, s[2] - 0x80);
    } else {
      c := FourBytes(a - 0xF0, s[1] - 0x80, s[2] - 0x80, s[3] - 0x80);
    }
  }

  lemma TwoBytes(a: int, b: int) returns (c: Scalar)
    requires 2 <= a < 0x20 && 0 <= b < 0x40
    ensures Encode(c) == [0xC0 + a, 0x80 + b]
  {
    c := a * 0x40 + b;
  }

  lemma ThreeBytes(a: int, b: int, d: int) returns (c: Scalar)
    requires 0 <= a < 0x10 && 0 <= b < 0x40 && 0 <= d < 0x40 && (a == 0 ==> 0x20 <= b) && (a == 0xD ==> b < 0x20)
    ensures Encode(c) == [0xE0 + a, 0x80 + b, 0x80 + d]
  {
    var all := a * 0x1000 + b * 0x40 + d;
    assert all / 0x40 == a * 0x40 + b && all / 0x1000 == a;
    hide Encode;
    c := all;
    ThreeBytesAre(c);
  }

  lemma ThreeBytesAre(c: Scalar)
    requires 0x800 <= c < 0x1_0000
    ensures Encode(c) == [0xE0 + c / 0x1000, 0x80 + c / 0x40 % 0x40, 0x80 + c % 0x40]
  {
  }

  lemma FourBytes(a: int, b: int, d: int, e: int) returns (c: Scalar)
    requires 0 <= a < 5 && 0 <= b < 0x40 && 0 <= d < 0x40 && 0 <= e < 0x40
    requires (a == 0 ==> 0x10 <= b) && (a == 4 ==> b < 0x10)
    ensures Encode(c) == [0xF0 + a, 0x80 + b, 0x80 + d, 0x80 + e]
  {
    var low := d * 0x40 + e;
    var all := a * 0x4_0000 + b * 0x1000 + low;
    assert all / 0x1000 == a * 0x40 + b && all / 0x4_0000 == a;
    assert all / 0x40 == (a * 0x40 + b) * 0x40 + d;
    hide Encode;
    c := all;
    FourBytesAre(c);
  }

  lemma FourBytesAre(c: Scalar)
    requires c >= 0x1_0000
    ensures Encode(c) == [0xF0 + c / 0x4_0000, 0x80 + c / 0x1000 % 0x40, 0x80 + c / 0x40 % 0x40, 0x80 + c % 0x40]
  {
  }

  lemma {:induction false} EncodedIsValid(text: seq<Scalar>)
    ensures Valid(EncodeAll(text))
  {
    hide CharLength, Encode;
    if text != [] {
      var rest := EncodeAll(text[1..]);
      EncodedIsRead(text[0], rest);
      EncodedIsValid(text[1..]);
      assert (Encode(text[0]) + rest)[|Encode(text[0])|..] == rest;
    }
  }

  lemma {:induction false} ValidIsEncoded(s: Bytes) returns (text: seq<Scalar>)
    requires Valid(s)
    ensures s == EncodeAll(text)
    decreases |s|
  {
    hide CharLength, Encode;
    text := [];
    if s != [] {
      var n := CharLength(s);
      var c := ReadIsEncoded(s);
      var rest := ValidIsEncoded(s[n..]);
      text := [c] + rest;
      assert text[1..] == rest && s == s[..n] + s[n..];
    }
  }

  /** The bytes that decode without error are exactly the encoded texts. */
  lemma ValidIsExact(s: Bytes)
    ensures Valid(s) <==> exists text :: s == EncodeAll(text)
  {
    hide Valid, EncodeAll;
    if Valid(s) { var text := ValidIsEncoded(s); }
    forall text | s == EncodeAll(text) ensures Valid(s) { EncodedIsValid(text); }
  }
}
