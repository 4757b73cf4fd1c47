/** `normalizeInventoryPath`, and where the paths that it accepts lead. */
module InventoryPaths {
  import opened Common
  import opened Splitting
  import opened RepoPaths

  function Slashed(s: string): (r: string)
    ensures |r| == |s| && forall i | 0 <= i < |s| :: r[i] == if s[i] == '\\' then '/' else s[i]
  {
    seq(|s|, i requires 0 <= i < |s| => if s[i] == '\\' then '/' else s[i])
  }

  predicate HasParent(s: string) { exists i: nat | i < |s| :: OccursAt(s, "../", i) }

  predicate SafeInventoryPath(s: string) {
    s != "" && s[0] != '/' && !HasParent(s) && forall part | part in Split(s, '/') :: part != "" && part != "."
  }

  function NormalizeInventoryPath(value: string): Result<string> {
    var slashed := Slashed(value);
    var normalized := if "./" <= slashed then slashed[2..] else slashed;
    if SafeInventoryPath(normalized) then Ok(normalized) else Rejected
  }

  lemma LeadingDot(s: string)
    requires "./" <= s
    ensures "." in Split(s, '/')
  {
    assert s == "." + ['/'] + s[2..];
    SplitOnce(".", s[2..], '/');
  }

  /** Without a backslash, normalising a safe path changes nothing. */
  lemma SafeIsNormal(s: string)
    requires SafeInventoryPath(s) && '\\' !in s
    ensures NormalizeInventoryPath(s) == Ok(s)
  {
    assert Slashed(s) == s;
    if "./" <= s { LeadingDot(s); }
  }

  /** Normalising twice changes nothing: inventory paths are accepted again. */
  lemma NormalizedIsNormal(value: string)
    requires NormalizeInventoryPath(value).Ok?
    ensures NormalizeInventoryPath(NormalizeInventoryPath(value).value) == NormalizeInventoryPath(value)
  {
    hide SafeInventoryPath;
    var n := NormalizeInventoryPath(value).value;
    assert '\\' !in n;
    SafeIsNormal(n);
  }

  // ---------------------------------------------------------------- where accepted paths lead

  lemma ParentStays(a: string, s: string)
    requires HasParent(s)
    ensures HasParent(a + s)
  {
    var i: nat :| i < |s| && OccursAt(s, "../", i);
    assert (a + s)[|a| + i..|a| + i + 3] == s[i..i + 3];
    assert OccursAt(a + s, "../", |a| + i);
  }

  lemma ParentStaysBefore(s: string, b: string)
    requires HasParent(s)
    ensures HasParent(s + b)
  {
    var i: nat :| i < |s| && OccursAt(s, "../", i);
    assert (s + b)[i..i + 3] == s[i..i + 3];
    assert OccursAt(s + b, "../", i);
  }

  lemma LeadingParent(first: string, rest: string)
    ensures first == ".." ==> HasParent(first + ['/'] + rest)
  {
    if first == ".." { assert OccursAt(first + ['/'] + rest, "../", 0); }
  }

  /** Only the last segment can be `..`. */
  lemma {:induction false} ParentOnlyAtTheEnd(parts: seq<string>)
    requires parts != [] && !HasParent(Joined(parts, '/'))
    ensures forall i | 0 <= i < |parts| - 1 :: parts[i] != ".."
  {
    if |parts| > 1 {
      var rest := Joined(parts[1..], '/');
      var s := parts[0] + ['/'] + rest;
      assert s == Joined(parts, '/');
      if HasParent(rest) { ParentStays(parts[0] + ['/'], rest); }
      LeadingParent(parts[0], rest);
      hide Joined, HasParent;
      ParentOnlyAtTheEnd(parts[1..]);
      assert forall i | 1 <= i < |parts| - 1 :: parts[i] == parts[1..][i - 1];
    }
  }

  /** The segments of an accepted path: ordinary names, and perhaps a last `..`. */
  lemma AcceptedSegments(s: string)
    requires SafeInventoryPath(s)
    ensures Joined(Split(s, '/'), '/') == s && Accepted(Split(s, '/'))
  {
    var parts := Split(s, '/');
    JoinSplit(s, '/');
    hide Split, Joined, HasParent;
    ParentOnlyAtTheEnd(parts);
    assert forall i | 0 <= i < |parts| :: parts[i] in parts;
  }

  /** The place an accepted path leads to, seen from the repository. */
  function Place(s: string): seq<string> {
    var parts := Split(s, '/');
    var n := |parts| - 1;
    if parts[n] != ".." then parts else if n == 0 then [".."] else parts[..n - 1]
  }

  lemma RelativeBelow(root: Path, below: Path)
    ensures Relative(root, root + below) == below
  {
    SharedBelow(root, below);
    assert (root + below)[|root|..] == below;
  }

  lemma RelativeAbove(root: Path)
    requires root != []
    ensures Relative(root, Up(root)) == [".."] && Relative([], []) == []
  {
    SharedBelow(Up(root), [root[|root| - 1]]);
    assert root == Up(root) + [root[|root| - 1]];
  }

  /** A last `..` takes one name back. */
  lemma LastParentTakesBack(root: Path, parts: Path)
    ensures Walk(root, parts + [".."]) == if parts != [] then root + parts[..|parts| - 1] else Up(root)
  {
    WalkConcat(root, parts, [".."]);
    assert Walk(root + parts, [".."]) == Walk(Up(root + parts), []);
    hide Walk;
    WalkDown(root, parts);
    if parts != [] { assert Up(root + parts) == root + parts[..|parts| - 1]; } else { assert root + parts == root; }
  }

  /** Ordinary names, and perhaps a last `..`. */
  predicate Accepted(parts: seq<string>) {
    && parts != []
    && (forall i | 0 <= i < |parts| - 1 :: Ordinary(parts[i]))
    && (Ordinary(parts[|parts| - 1]) || parts[|parts| - 1] == "..")
  }

  lemma WalkAccepted(root: Path, parts: seq<string>)
    requires Accepted(parts)
    ensures forall i | 0 <= i < |parts| :: '/' !in parts[i]
    ensures var n := |parts| - 1;
      Walk(root, parts) == if parts[n] != ".." then root + parts else if n > 0 then root + parts[..n - 1] else Up(root)
  {
    hide Walk, Up;
    var n := |parts| - 1;
    if parts[n] != ".." {
      WalkDown(root, parts);
    } else {
      assert parts == parts[..n] + [".."];
      LastParentTakesBack(root, parts[..n]);
      if n > 0 { assert parts[..n][..n - 1] == parts[..n - 1]; }
    }
  }

  /** Where an accepted path leads. */
  lemma AcceptedPathLeads(root: Path, s: string)
    requires SafeInventoryPath(s)
    ensures var parts := Split(s, '/');
      var n := |parts| - 1;
      && Accepted(parts)
      && Join(root, s) == if parts[n] != ".." then root + parts else if n > 0 then root + parts[..n - 1] else Up(root)
  {
    hide SafeInventoryPath, Walk, Up, Split;
    AcceptedSegments(s);
    WalkAccepted(root, Split(s, '/'));
  }

  lemma ParentAlone()
    ensures Split("..", '/') == [".."] && Joined([".."], '/') == ".."
  {
    SplitPlain("..", '/');
  }

  /** How it reads from the repository. */
  lemma AcceptedPathReads(root: Path, s: string)
    requires SafeInventoryPath(s)
    ensures Relative(root, Join(root, s)) == if s == ".." && root == [] then [] else Place(s)
  {
    hide SafeInventoryPath, Join, Relative, Split, Joined;
    var parts := Split(s, '/');
    var n := |parts| - 1;
    AcceptedPathLeads(root, s);
    AcceptedSegments(s);
    ParentAlone();
    if parts[n] != ".." {
      RelativeBelow(root, parts);
    } else if n > 0 {
      RelativeBelow(root, parts[..n - 1]);
    } else {
      RelativeOfNothing();
      assert parts == [".."];
      if root != [] { RelativeAbove(root); }
    }
  }

  lemma RelativeOfNothing()
    ensures Relative([], []) == []
  {
  }

  /**
   * An accepted path stays in the repository exactly unless it is `..`, and is written back as it stands exactly unless
   * it takes a name back.
   */
  lemma AcceptedPathStaysInside(root: Path, s: string)
    requires SafeInventoryPath(s)
    ensures root <= Join(root, s) <==> s != ".." || root == []
    ensures RelativeText(root, Join(root, s)) == s <==>
      Split(s, '/')[|Split(s, '/')| - 1] != ".." || (s == ".." && root != [])
  {
    hide SafeInventoryPath, Join, Relative;
    var parts := Split(s, '/');
    var n := |parts| - 1;
    AcceptedPathLeads(root, s);
    AcceptedPathReads(root, s);
    AcceptedSegments(s);
    assert s == ".." ==> parts == [".."] by { SplitPlain("..", '/'); }
    hide Split;
    if parts[n] == ".." && n > 1 {
      assert forall part | part in parts[..n - 1] :: '/' !in part;
      SplitJoin(parts[..n - 1], '/');
    }
  }

  /** Whatever an accepted path leads to is read as an accepted path, or as the repository itself. */
  lemma PlaceIsAccepted(root: Path, s: string)
    requires SafeInventoryPath(s) && '\\' !in s
    ensures var text := RelativeText(root, Join(root, s));
      text == "" || NormalizeInventoryPath(text).Ok?
  {
    hide SafeInventoryPath, NormalizeInventoryPath, Join, Relative;
    var parts := Split(s, '/');
    var n := |parts| - 1;
    AcceptedPathReads(root, s);
    AcceptedSegments(s);
    SafeIsNormal(s);
    if parts[n] == ".." && n > 1 {
      FrontIsSafe(s, n - 1);
      SafeIsNormal(Joined(parts[..n - 1], '/'));
    } else if parts[n] == ".." && n == 0 {
      assert s == "..";
    }
  }

  lemma {:induction false} JoinedFront(parts: seq<string>, k: nat)
    requires 0 < k <= |parts|
    ensures Joined(parts[..k], '/') <= Joined(parts, '/')
  {
    if k > 1 {
      JoinedFront(parts[1..], k - 1);
      assert parts[..k][1..] == parts[1..][..k - 1];
    } else {
      assert parts[..k] == [parts[0]];
    }
  }

  lemma FrontIsSafe(s: string, k: nat)
    requires SafeInventoryPath(s) && 0 < k <= |Split(s, '/')|
    ensures var front := Joined(Split(s, '/')[..k], '/');
      SafeInventoryPath(front) && ('\\' !in s ==> '\\' !in front)
  {
    hide Split, HasParent, Joined;
    var parts := Split(s, '/');
    var front := Joined(parts[..k], '/');
    JoinSplit(s, '/');
    JoinedFront(parts, k);
    assert forall part | part in parts[..k] :: part in parts;
    SplitJoin(parts[..k], '/');
    EmptyHasOnePiece();
    assert parts[0] in parts && parts[..k][0] == parts[0];
    assert front != "" && front[0] == s[0];
    assert s == front + s[|front|..];
    if HasParent(front) { ParentStaysBefore(front, s[|front|..]); }
  }

  lemma EmptyHasOnePiece()
    ensures Split("", '/') == [""]
  {
  }

  /** Two plain names make an accepted path. */
  lemma TwoNamesAreAccepted(a: string, b: string)
    requires a != "" && b != "" && '/' !in a && '/' !in b && '.' !in a && '.' !in b && '\\' !in a && '\\' !in b
    ensures NormalizeInventoryPath(a + ['/'] + b) == Ok(a + ['/'] + b)
  {
    hide Split;
    var s := a + ['/'] + b;
    SplitOnce(a, b, '/');
    SplitPlain(b, '/');
    assert '.' !in s;
    forall i: nat | i < |s| ensures !OccursAt(s, "../", i) {
      if i + 3 <= |s| { assert s[i..i + 3][0] == s[i] && s[i] in s; }
    }
    SafeIsNormal(s);
  }
}
