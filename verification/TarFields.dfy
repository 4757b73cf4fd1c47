/** The fields of a 512-byte tar header: octal numbers, NUL-terminated strings and the checksum. */
module TarFields {
  import opened Common

  // ---------------------------------------------------------------- octal numbers

  predicate OctalDigit(b: Byte) { 0x30 <= b <= 0x37 }

  predicate OctalDigits(s: Bytes) { forall i | 0 <= i < |s| :: OctalDigit(s[i]) }

  /** `Number.parseInt(s, 8)`. */
  function OctalValue(s: Bytes): (n: nat)
    requires OctalDigits(s)
  {
    if s == [] then 0 else 8 * OctalValue(s[..|s| - 1]) + (s[|s| - 1] - 0x30)
  }

  /** `n.toString(8)`. */
  function ToOctal(n: nat): (s: Bytes)
    ensures s != [] && OctalDigits(s)
    ensures OctalValue(s) == n
  {
    if n < 8 then
      var s := [0x30 + n];
      assert s[..0] == [];
      s
    else
      var high := ToOctal(n / 8);
      var s := high + [0x30 + n % 8];
      assert s[..|s| - 1] == high;
      s
  }

  /** `s.padStart(width, "0")`. */
  function PadStart(s: Bytes, width: nat): (r: Bytes)
    ensures |r| == if |s| < width then width else |s|
  {
    if |s| < width then seq(width - |s|, _ => 0x30) + s else s
  }

  function Pow8(k: nat): nat { if k == 0 then 1 else 8 * Pow8(k - 1) }

  lemma {:induction false} OctalLength(n: nat, width: nat)
    requires width > 0
    ensures |ToOctal(n)| <= width <==> n < Pow8(width)
  {
    if n >= 8 && width > 1 {
      OctalLength(n / 8, width - 1);
    } else if n >= 8 {
      assert Pow8(1) == 8 by { assert Pow8(0) == 1; }
    } else {
      Pow8AtLeast(width);
    }
  }

  lemma Pow8AtLeast(k: nat)
    requires k > 0
    ensures Pow8(k) >= 8
  {
  }

  lemma {:induction false} OctalValueBound(s: Bytes)
    requires OctalDigits(s)
    ensures OctalValue(s) < Pow8(|s|)
  {
    if s != [] { OctalValueBound(s[..|s| - 1]); }
  }

  lemma {:induction false} PaddingKeepsValue(s: Bytes, width: nat)
    requires OctalDigits(s)
    ensures OctalDigits(PadStart(s, width))
    ensures OctalValue(PadStart(s, width)) == OctalValue(s)
    decreases |s|, width
  {
    if |s| < width {
      var zeros: Bytes := seq(width - |s|, _ => 0x30);
      if s == [] {
        ZerosHaveNoValue(width);
        assert PadStart(s, width) == zeros;
      } else {
        var front := s[..|s| - 1];
        PaddingKeepsValue(front, width - 1);
        var padded := PadStart(s, width);
        assert |front| < width - 1;
        assert padded[..|padded| - 1] == PadStart(front, width - 1);
      }
    }
  }

  lemma {:induction false} ZerosHaveNoValue(n: nat)
    ensures OctalValue(seq(n, _ => 0x30)) == 0
  {
    var s: Bytes := seq(n, _ => 0x30);
    if n > 0 {
      ZerosHaveNoValue(n - 1);
      assert s[..n - 1] == seq(n - 1, _ => 0x30);
    }
  }

  /** `.replace(/[\0 ]+$/u, "")`. */
  function StripPadding(s: Bytes): (r: Bytes) {
    if s != [] && (s[|s| - 1] == 0 || s[|s| - 1] == 0x20) then StripPadding(s[..|s| - 1]) else s
  }

  /** White space that `trim()` removes, among 7-bit characters. */
  predicate Space(b: Byte) { 9 <= b <= 13 || b == 0x20 }

  function Trim(s: Bytes): (r: Bytes) {
    if s == [] then s
    else if Space(s[0]) then Trim(s[1..])
    else if Space(s[|s| - 1]) then Trim(s[..|s| - 1])
    else s
  }

  function ParseOctal(field: Bytes): (r: Result<nat>) {
    var raw := Trim(StripPadding(Ascii(field)));
    if raw == [] then Ok(0)
    else if OctalDigits(raw) then Ok(OctalValue(raw))
    else Rejected
  }

  lemma {:induction false} TrimmedIsShorter(s: Bytes)
    ensures |Trim(s)| <= |s| && |StripPadding(s)| <= |s|
    decreases |s|
  {
    if s != [] {
      TrimmedIsShorter(s[1..]);
      TrimmedIsShorter(s[..|s| - 1]);
    }
  }

  /** A field holds at most twelve digits, so what `parseInt` makes of them is always a safe integer. */
  lemma FieldIsSafeInteger(field: Bytes)
    requires |field| <= 12 && ParseOctal(field).Ok?
    ensures ParseOctal(field).value < 0x10_0000_0000 < MAX_SAFE_INTEGER
  {
    var raw := Trim(StripPadding(Ascii(field)));
    TrimmedIsShorter(Ascii(field));
    TrimmedIsShorter(StripPadding(Ascii(field)));
    if raw != [] {
      OctalValueBound(raw);
      Pow8Grows(|raw|, 12);
      assert Pow8(3) == 512 && Pow8(6) == 8 * 8 * 8 * 512;
      assert Pow8(9) == 8 * 8 * 8 * Pow8(6) && Pow8(12) == 8 * 8 * 8 * Pow8(9);
    }
  }

  lemma {:induction false} Pow8Grows(j: nat, k: nat)
    requires j <= k
    ensures Pow8(j) <= Pow8(k)
  {
    if j < k { Pow8Grows(j, k - 1); }
  }

  /** `writeTarOctal`: zero-padded digits and one NUL, or a rejection when the digits do not fit. */
  function OctalField(n: nat, length: nat): (r: Result<Bytes>)
    requires length > 1
    ensures r.Ok? <==> n < Pow8(length - 1)
    ensures r.Ok? ==> |r.value| == length
  {
    OctalLength(n, length - 1);
    if |ToOctal(n)| > length - 1 then Rejected else Ok(PadStart(ToOctal(n), length - 1) + [0])
  }

  // ---------------------------------------------------------------- every way to write a number

  predicate Spaces(s: Bytes) { forall i | 0 <= i < |s| :: Space(s[i]) }

  predicate Padding(s: Bytes) { forall i | 0 <= i < |s| :: s[i] == 0 || s[i] == 0x20 }

  /** White space, octal digits, white space again, and NULs and spaces up to the end. */
  predicate OctalText(text: Bytes, blanks: Bytes, digits: Bytes, more: Bytes, tail: Bytes) {
    text == blanks + digits + more + tail && Spaces(blanks) && OctalDigits(digits) && Spaces(more) && Padding(tail)
  }

  /** The field is text with these digits in it, or a blank one when there are none. */
  ghost predicate HoldsDigits(field: Bytes, digits: Bytes) {
    exists blanks, more, tail :: OctalText(Ascii(field), blanks, digits, more, tail)
  }

  /** The field holds this number, in whatever form. */
  ghost predicate HoldsNumber(field: Bytes, n: nat) {
    exists digits :: OctalDigits(digits) && HoldsDigits(field, digits) && OctalValue(digits) == n
  }

  lemma {:induction false} StripDropsPadding(s: Bytes, tail: Bytes)
    requires Padding(tail)
    ensures StripPadding(s + tail) == StripPadding(s)
    decreases |tail|
  {
    if tail == [] {
      assert s + tail == s;
    } else {
      var all := s + tail;
      assert all[|all| - 1] == tail[|tail| - 1];
      assert all[..|all| - 1] == s + tail[..|tail| - 1];
      StripDropsPadding(s, tail[..|tail| - 1]);
    }
  }

  /** Behind text that does not end in padding, stripping takes white space only. */
  lemma {:induction false} StripKeepsText(s: Bytes, more: Bytes) returns (k: nat)
    requires s == [] || (s[|s| - 1] != 0 && s[|s| - 1] != 0x20)
    ensures k <= |more| && StripPadding(s + more) == s + more[..k]
  {
    var all := s + more;
    k := |more|;
    if more == [] {
      assert all == s;
    } else {
      var last := more[|more| - 1];
      assert all[|all| - 1] == last && all[..|all| - 1] == s + more[..|more| - 1];
      assert more[..|more|] == more;
      if last == 0 || last == 0x20 {
        k := StripKeepsText(s, more[..|more| - 1]);
        assert more[..|more| - 1][..k] == more[..k];
      }
    }
  }

  lemma {:induction false} TrimKeepsMiddle(blanks: Bytes, middle: Bytes, more: Bytes)
    requires Spaces(blanks) && Spaces(more)
    requires middle == [] || (!Space(middle[0]) && !Space(middle[|middle| - 1]))
    ensures Trim(blanks + middle + more) == middle
    decreases |blanks| + |more|
  {
    var s := blanks + middle + more;
    if blanks != [] {
      assert s[0] == blanks[0] && s[1..] == blanks[1..] + middle + more;
      TrimKeepsMiddle(blanks[1..], middle, more);
    } else if more != [] {
      assert s[|s| - 1] == more[|more| - 1] && s[..|s| - 1] == blanks + middle + more[..|more| - 1];
      if middle == [] {
        assert s[1..] == blanks + middle + more[1..];
        TrimKeepsMiddle(blanks, middle, more[1..]);
      } else {
        assert s[0] == middle[0];
        TrimKeepsMiddle(blanks, middle, more[..|more| - 1]);
      }
    } else {
      assert s == middle;
    }
  }

  lemma {:induction false} StripSplits(s: Bytes) returns (tail: Bytes)
    ensures s == StripPadding(s) + tail && Padding(tail)
  {
    tail := [];
    if s != [] && (s[|s| - 1] == 0 || s[|s| - 1] == 0x20) {
      var t := StripSplits(s[..|s| - 1]);
      tail := t + [s[|s| - 1]];
      assert s == s[..|s| - 1] + [s[|s| - 1]];
    }
  }

  /** What is left lies between two runs of white space. */
  lemma {:induction false} TrimSplits(s: Bytes) returns (a: nat, b: nat)
    ensures a <= b <= |s| && Trim(s) == s[a..b]
    ensures forall i | 0 <= i < a || b <= i < |s| :: Space(s[i])
    decreases |s|
  {
    hide Space;
    a, b := 0, |s|;
    if s != [] && Space(s[0]) {
      a, b := TrimSplits(s[1..]);
      assert forall i | 0 < i < |s| :: s[1..][i - 1] == s[i];
      assert s[1..][a..b] == s[a + 1..b + 1];
      a, b := a + 1, b + 1;
    } else if s != [] && Space(s[|s| - 1]) {
      a, b := TrimSplits(s[..|s| - 1]);
      assert s[..|s| - 1][a..b] == s[a..b];
    }
  }

  /** The digits of a field, if it holds any. */
  lemma OctalTextIsTrimmed(text: Bytes, blanks: Bytes, digits: Bytes, more: Bytes, tail: Bytes)
    requires OctalText(text, blanks, digits, more, tail)
    ensures Trim(StripPadding(text)) == digits
  {
    hide Trim, StripPadding, Padding;
    assert digits != [] ==> OctalDigit(digits[0]) && OctalDigit(digits[|digits| - 1]);
    StripDropsPadding(blanks + digits + more, tail);
    if digits != [] {
      var k := StripKeepsText(blanks + digits, more);
      TrimKeepsMiddle(blanks, digits, more[..k]);
    } else {
      var k := StripKeepsText([], blanks + more);
      assert blanks + digits + more == [] + (blanks + more);
      assert Spaces((blanks + more)[..k]);
      TrimKeepsMiddle([], digits, (blanks + more)[..k]);
      assert [] + digits + (blanks + more)[..k] == [] + (blanks + more)[..k];
    }
  }

  /** A field is read as the value of its digits, a blank one as zero, and rejected when it is of no such form. */
  lemma ParseOctalIsExact(field: Bytes, n: nat)
    ensures ParseOctal(field) == Ok(n) <==> HoldsNumber(field, n)
  {
    hide Trim, StripPadding;
    var text := Ascii(field);
    var raw := Trim(StripPadding(text));
    if ParseOctal(field) == Ok(n) {
      var tail := StripSplits(text);
      var stripped := StripPadding(text);
      var a, b := TrimSplits(stripped);
      assert stripped == stripped[..a] + stripped[a..b] + stripped[b..];
      assert text == stripped[..a] + raw + stripped[b..] + tail;
      forall i | 0 <= i < |stripped| - b ensures Space(stripped[b..][i]) {
        assert stripped[b..][i] == stripped[b + i];
      }
      assert OctalText(text, stripped[..a], raw, stripped[b..], tail);
      assert HoldsDigits(field, raw);
    }
    if HoldsNumber(field, n) {
      var digits :| OctalDigits(digits) && HoldsDigits(field, digits) && OctalValue(digits) == n;
      var blanks, more, tail :| OctalText(text, blanks, digits, more, tail);
      OctalTextIsTrimmed(text, blanks, digits, more, tail);
    }
  }

  /** In particular digits among white space, ended by any mixture of NULs and spaces. */
  lemma DigitsThenPadding(blanks: Bytes, digits: Bytes, tail: Bytes)
    requires Spaces(blanks) && OctalDigits(digits) && Padding(tail)
    ensures ParseOctal(blanks + digits + tail) == Ok(OctalValue(digits))
  {
    var text := blanks + digits + tail;
    assert Ascii(text) == text;
    assert OctalText(text, blanks, digits, [], tail);
    OctalTextIsTrimmed(text, blanks, digits, [], tail);
  }

  /** What `writeTarOctal` writes, `parseOctal` reads back. */
  lemma OctalFieldReadsBack(n: nat, length: nat)
    requires length > 1 && n < Pow8(length - 1)
    ensures OctalField(n, length).Ok? && ParseOctal(OctalField(n, length).value) == Ok(n)
  {
    var digits := PadStart(ToOctal(n), length - 1);
    PaddingKeepsValue(ToOctal(n), length - 1);
    OctalLength(n, length - 1);
    hide PadStart, ToOctal, OctalValue, ParseOctal, Pow8;
    DigitsThenPadding([], digits, [0]);
    assert [] + digits + [0] == digits + [0];
  }

  // ---------------------------------------------------------------- strings

  /** The field up to its first NUL. */
  function UntilNul(s: Bytes): (r: Bytes)
    ensures 0 !in r && r <= s
    ensures r == s || s[|r|] == 0
  {
    if s == [] || s[0] == 0 then [] else [s[0]] + UntilNul(s[1..])
  }

  /** `writeTarString` into a field of the zero-filled header. */
  function StringField(s: Bytes, length: nat): (r: Bytes)
    requires |s| <= length
    ensures |r| == length
  {
    s + Zeros(length - |s|)
  }

  lemma {:induction false} StringFieldReadsBack(s: Bytes, length: nat)
    requires |s| <= length && 0 !in s
    ensures UntilNul(StringField(s, length)) == s
  {
    var field := StringField(s, length);
    if s != [] {
      StringFieldReadsBack(s[1..], length - 1);
      assert field[0] == s[0] && field[1..] == StringField(s[1..], length - 1);
    }
  }

  // ---------------------------------------------------------------- checksum

  function Sum(s: Bytes): (n: nat)
    ensures n <= 0xFF * |s|
  {
    if s == [] then 0 else Sum(s[..|s| - 1]) + s[|s| - 1]
  }

  lemma {:induction false} SumConcat(a: Bytes, b: Bytes)
    ensures Sum(a + b) == Sum(a) + Sum(b)
  {
    if b == [] {
      assert a + b == a;
    } else {
      assert (a + b)[..|a + b| - 1] == a + b[..|b| - 1];
      SumConcat(a, b[..|b| - 1]);
    }
  }

  /** Sum of a header's bytes, the checksum field counted as eight spaces. */
  function Checksum(header: Bytes): (n: nat)
    requires |header| == 512
  {
    Sum(header[..148]) + 8 * 0x20 + Sum(header[156..])
  }

  /** The loop of `assertTarChecksum`. */
  method CalculateChecksum(header: Bytes) returns (calculated: nat)
    requires |header| == 512
    ensures calculated == Checksum(header)
  {
    calculated := 0;
    for index := 0 to 512
      invariant index <= 148 ==> calculated == Sum(header[..index])
      invariant 148 <= index <= 156 ==> calculated == Sum(header[..148]) + 0x20 * (index - 148)
      invariant 156 <= index ==> calculated == Sum(header[..148]) + 8 * 0x20 + Sum(header[156..index])
    {
      calculated := calculated + if 148 <= index < 156 then 0x20 else header[index];
      assert index < 148 ==> header[..index + 1][..index] == header[..index];
      assert 156 <= index ==> header[156..index + 1][..index - 156] == header[156..index];
    }
    assert header[156..512] == header[156..];
  }
}
