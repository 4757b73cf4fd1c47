/** Types shared by the models: bytes, optional values and rejections. */
module Common {

  /** One octet. */
  type Byte = b: int | 0 <= b < 0x100

  type Bytes = seq<Byte>

  /** `Number.MAX_SAFE_INTEGER`. */
  const MAX_SAFE_INTEGER: nat := 0x1F_FFFF_FFFF_FFFF

  datatype Option<+T> = None | Some(value: T)

  /** A value, or a thrown error. Callers of the modelled code cannot tell errors apart except by message. */
  datatype Result<+T> = Ok(value: T) | Rejected {
    predicate IsFailure() { Rejected? }
    function PropagateFailure<U>(): Result<U> requires Rejected? { Rejected }
    function Extract(): T requires Ok? { value }
  }

  predicate AllZero(s: Bytes) {
    forall i | 0 <= i < |s| :: s[i] == 0
  }

  function Zeros(n: nat): (r: Bytes)
    ensures |r| == n && AllZero(r)
  {
    seq(n, _ => 0)
  }

  /** `buffer.toString("ascii")`, as bytes: the high bit of every byte is dropped. */
  function Ascii(s: Bytes): (r: Bytes)
    ensures |r| == |s|
  {
    seq(|s|, i requires 0 <= i < |s| => s[i] % 0x80)
  }

  /** `s.indexOf(x)`. */
  function IndexOf<T(==)>(s: seq<T>, x: T): (r: Option<nat>)
    ensures r.None? <==> x !in s
    ensures r.Some? ==> r.value < |s| && s[r.value] == x && x !in s[..r.value]
  {
    if s == [] then None
    else if s[0] == x then Some(0)
    else match IndexOf(s[1..], x)
      case None => None
      case Some(i) =>
        assert s[..i + 1] == [s[0]] + s[1..][..i];
        Some(i + 1)
  }

  /** `s.split(separator)`. */
  function Split<T(==)>(s: seq<T>, separator: T): (r: seq<seq<T>>)
    ensures r != []
    ensures forall piece | piece in r :: separator !in piece
    decreases |s|
  {
    match IndexOf(s, separator)
    case None => [s]
    case Some(i) => [s[..i]] + Split(s[i + 1..], separator)
  }

  predicate OccursAt<T(==)>(s: seq<T>, a: seq<T>, i: nat) {
    i + |a| <= |s| && s[i..i + |a|] == a
  }

  /** `a` is a contiguous piece of `s`. */
  ghost predicate Contains<T>(s: seq<T>, a: seq<T>) {
    exists i: nat :: OccursAt(s, a, i)
  }

  ghost predicate Distinct<T>(s: seq<T>) {
    forall i, j | 0 <= i < j < |s| :: s[i] != s[j]
  }

  lemma {:induction false} SubsetSize<T>(a: set<T>, b: set<T>)
    requires a <= b
    ensures |a| <= |b|
  {
    if a != {} {
      var x :| x in a;
      SubsetSize(a - {x}, b - {x});
    }
  }

  lemma SubsetOfSameSize<T>(a: set<T>, b: set<T>)
    requires a <= b && |a| == |b|
    ensures a == b
  {
    assert b == a + (b - a);
    assert |b - a| == |b| - |a|;
  }

  /** So many lower-case hexadecimal digits. */
  predicate LowerHex(s: string, length: nat) {
    |s| == length && forall i | 0 <= i < |s| :: '0' <= s[i] <= '9' || 'a' <= s[i] <= 'f'
  }
}
