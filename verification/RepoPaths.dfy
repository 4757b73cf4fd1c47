/**
 * Paths as `node:path` treats them on POSIX: an absolute path is its list of segments, and joining, resolving and
 * relativising walk along segments.
 */
module RepoPaths {
  import opened Common
  import opened Splitting

  /** A segment that is an ordinary name. */
  predicate Ordinary(segment: string) { segment != "" && segment != "." && segment != ".." && '/' !in segment }

  /** A normalised absolute path. */
  type Path = p: seq<string> | forall i | 0 <= i < |p| :: Ordinary(p[i]) witness []

  /** Going from a place along segments; above the root there is only the root. */
  function Walk(base: Path, segments: seq<string>): Path
    requires forall i | 0 <= i < |segments| :: '/' !in segments[i]
    decreases |segments|
  {
    if segments == [] then base
    else
      var next := if segments[0] == "" || segments[0] == "." then base
                  else if segments[0] == ".." then Up(base)
                  else base + [segments[0]];
      Walk(next, segments[1..])
  }

  function Up(base: Path): Path { if base == [] then [] else base[..|base| - 1] }

  lemma PiecesHoldNoSlash(location: string)
    ensures forall i | 0 <= i < |Split(location, '/')| :: '/' !in Split(location, '/')[i]
  {
  }

  /** `path.join(root, location)`. */
  function Join(root: Path, location: string): Path {
    PiecesHoldNoSlash(location);
    Walk(root, Split(location, '/'))
  }

  /** `path.resolve(root, location)`. */
  function Resolve(root: Path, location: string): Path {
    if "/" <= location then Join([], location) else Join(root, location)
  }

  /** How many segments two paths share at the start. */
  function Shared(a: Path, b: Path): (k: nat)
    ensures k <= |a| && k <= |b| && a[..k] == b[..k]
  {
    if a == [] || b == [] || a[0] != b[0] then 0
    else
      var k := Shared(a[1..], b[1..]);
      assert a[..k + 1] == [a[0]] + a[1..][..k] && b[..k + 1] == [b[0]] + b[1..][..k];
      k + 1
  }

  /** A path below another shares all of it. */
  lemma {:induction false} SharedBelow(a: Path, b: Path)
    ensures Shared(a, a + b) == |a| && Shared(a + b, a) == |a|
  {
    if a != [] {
      SharedBelow(a[1..], b);
      assert (a + b)[1..] == a[1..] + b;
    }
  }

  function Ups(n: nat): (r: seq<string>)
    ensures |r| == n && forall i | 0 <= i < n :: r[i] == ".."
  {
    seq(n, _ => "..")
  }

  /** The segments of `path.relative(root, path)`. */
  function Relative(root: Path, path: Path): seq<string> {
    Ups(|root| - Shared(root, path)) + path[Shared(root, path)..]
  }

  /** `path.relative(root, path)`: empty for the root itself. */
  function RelativeText(root: Path, path: Path): string {
    if Relative(root, path) == [] then "" else Joined(Relative(root, path), '/')
  }

  // ---------------------------------------------------------------- walking

  lemma {:induction false} WalkConcat(base: Path, a: seq<string>, b: seq<string>)
    requires forall i | 0 <= i < |a| :: '/' !in a[i]
    requires forall i | 0 <= i < |b| :: '/' !in b[i]
    ensures Walk(base, a + b) == Walk(Walk(base, a), b)
    decreases |a|
  {
    if a == [] {
      assert a + b == b;
    } else {
      assert (a + b)[1..] == a[1..] + b;
      var next := if a[0] == "" || a[0] == "." then base else if a[0] == ".." then Up(base) else base + [a[0]];
      WalkConcat(next, a[1..], b);
    }
  }

  /** Ordinary names lead down. */
  lemma {:induction false} WalkDown(base: Path, segments: Path)
    ensures Walk(base, segments) == base + segments
    decreases |segments|
  {
    if segments != [] {
      WalkDown(base + [segments[0]], segments[1..]);
      assert base + segments == base + [segments[0]] + segments[1..];
    }
  }

  lemma {:induction false} WalkUp(base: Path, n: nat)
    requires n <= |base|
    ensures Walk(base, Ups(n)) == base[..|base| - n]
    decreases n
  {
    if n > 0 {
      assert Ups(n)[1..] == Ups(n - 1);
      WalkUp(Up(base), n - 1);
    }
  }

  /** Following a relative path from the root leads to where it was taken. */
  lemma WalkRelative(root: Path, path: Path)
    ensures forall i | 0 <= i < |Relative(root, path)| :: '/' !in Relative(root, path)[i]
    ensures Walk(root, Relative(root, path)) == path
  {
    hide Walk, Shared;
    var k := Shared(root, path);
    WalkUp(root, |root| - k);
    WalkConcat(root, Ups(|root| - k), path[k..]);
    WalkDown(root[..k], path[k..]);
    assert path == path[..k] + path[k..];
  }

  lemma NoLeadingSlash(segments: seq<string>)
    requires segments != [] && segments[0] != "" && '/' !in segments[0]
    ensures !("/" <= Joined(segments, '/'))
  {
    assert Joined(segments, '/')[0] == segments[0][0];
    assert segments[0][0] in segments[0];
  }

  /** Resolving a relative path undoes taking it. */
  lemma ResolveRelative(root: Path, path: Path)
    ensures RelativeText(root, path) == "" ==> path == root
    ensures RelativeText(root, path) != "" ==> Resolve(root, RelativeText(root, path)) == path
    ensures RelativeText(root, path) != "."
  {
    var segments := Relative(root, path);
    WalkRelative(root, path);
    if segments != [] {
      hide Walk, Shared;
      assert segments[0] != "" && '/' !in segments[0];
      NoLeadingSlash(segments);
      SplitJoin(segments, '/');
      if |segments| == 1 { assert segments[0] != "."; } else { assert |Joined(segments, '/')| > 1; }
    }
  }

  lemma ResolveHere(root: Path)
    ensures Resolve(root, ".") == root && RelativeText(root, root) == ""
  {
    SplitPlain(".", '/');
    assert Walk(root, ["."]) == Walk(root, []);
    SharedBelow(root, []);
    assert root + [] == root;
  }
}
