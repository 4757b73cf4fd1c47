/** Trimming, and white space as JavaScript sees it for `String.prototype.trim` and `\s`. */
module Whitespace {

  predicate Space(c: char) {
    var n := c as int;
    || 0x09 <= n <= 0x0D || n == 0x20 || n == 0xA0 || n == 0x1680 || 0x2000 <= n <= 0x200A
    || n == 0x2028 || n == 0x2029 || n == 0x202F || n == 0x205F || n == 0x3000 || n == 0xFEFF
  }

  /** Without the leading and trailing characters that count as space. */
  function TrimBy(space: char -> bool, s: string): (r: string)
    ensures r == [] || (!space(r[0]) && !space(r[|r| - 1]))
    decreases |s|
  {
    if s == [] then s
    else if space(s[0]) then TrimBy(space, s[1..])
    else if space(s[|s| - 1]) then TrimBy(space, s[..|s| - 1])
    else s
  }

  lemma {:induction false} TrimsToNothing(space: char -> bool, s: string)
    ensures TrimBy(space, s) == [] <==> forall i | 0 <= i < |s| :: space(s[i])
    decreases |s|
  {
    if s != [] && space(s[0]) {
      TrimsToNothing(space, s[1..]);
      assert s == [s[0]] + s[1..];
    } else if s != [] && space(s[|s| - 1]) {
      TrimsToNothing(space, s[..|s| - 1]);
    }
  }

  function Trim(s: string): string { TrimBy(Space, s) }

  /** How many white-space characters come first. */
  function SpaceRun(s: string): (n: nat)
    ensures n <= |s| && (forall i | 0 <= i < n :: Space(s[i])) && (n < |s| ==> !Space(s[n]))
  {
    if s == [] || !Space(s[0]) then 0 else 1 + SpaceRun(s[1..])
  }
}
