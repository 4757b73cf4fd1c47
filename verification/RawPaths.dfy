/**
 * The reader of a plan validates a directory in its normal form and then resolves it as it was written. This is where
 * such a raw value leads.
 */
module RawPaths {
  import opened Common
  import opened Splitting
  import opened RepoPaths
  import opened InventoryPaths

  lemma SplitAround(a: string, rest: string)
    ensures Split(a + ['/'] + rest, '/') == Split(a, '/') + Split(rest, '/')
  {
    hide Split;
    assert a + ['/'] + rest == a + ([] + ['/'] + rest);
    SplitConcat(a, [] + ['/'] + rest, '/');
    SplitOnce([], rest, '/');
    var x, y := Split(a, '/'), Split(rest, '/');
    assert x[|x| - 1] + [] == x[|x| - 1];
    assert Glue(x, [[]] + y) == x + y;
  }

  lemma SlashedConcat(a: string, rest: string)
    ensures Slashed(a + ['/'] + rest) == Slashed(a) + ['/'] + Slashed(rest)
  {
  }

  lemma SlashedPlain(s: string)
    requires '\\' !in s
    ensures Slashed(s) == s
  {
  }

  lemma SlashedStart(s: string)
    ensures "./" <= s ==> "./" <= Slashed(s)
  {
    if "./" <= s { assert Slashed(s)[..2] == "./"; }
  }

  lemma ShortSegment(segment: string)
    requires segment == "" || segment == "."
    ensures segment in Split(Slashed(segment), '/')
  {
    SlashedPlain(segment);
    SplitPlain(segment, '/');
  }

  /** A segment between slashes that is neither empty nor `.`, judged by the slashed text. */
  lemma SegmentIsNamed(segment: string)
    requires forall part | part in Split(Slashed(segment), '/') :: part != "" && part != "."
    ensures segment != "" && segment != "."
  {
    if segment == "" || segment == "." { ShortSegment(segment); }
  }

  /** What the check of the normal form says about the segments as they were written. */
  lemma {:induction false} RawSegments(segments: seq<string>)
    requires segments != [] && forall i | 0 <= i < |segments| :: '/' !in segments[i]
    requires !HasParent(Slashed(Joined(segments, '/')))
    requires forall part | part in Split(Slashed(Joined(segments, '/')), '/') :: part != "" && part != "."
    ensures Accepted(segments)
  {
    hide Split, HasParent;
    if |segments| == 1 {
      SegmentIsNamed(segments[0]);
    } else {
      var first, rest := Slashed(segments[0]), Slashed(Joined(segments[1..], '/'));
      SlashedConcat(segments[0], Joined(segments[1..], '/'));
      SplitAround(first, rest);
      hide Joined;
      assert forall part | part in Split(first, '/') :: part in Split(first + ['/'] + rest, '/');
      assert forall part | part in Split(rest, '/') :: part in Split(first + ['/'] + rest, '/');
      if HasParent(rest) { ParentStays(first + ['/'], rest); }
      SegmentIsNamed(segments[0]);
      SlashedPlain("..");
      LeadingParent(first, rest);
      RawSegments(segments[1..]);
      AcceptedMore(segments);
    }
  }

  lemma AcceptedMore(segments: seq<string>)
    requires |segments| > 1 && Ordinary(segments[0]) && Accepted(segments[1..])
    ensures Accepted(segments)
  {
    assert forall i | 1 <= i < |segments| :: segments[i] == segments[1..][i - 1];
  }

  lemma AcceptedRest(segments: seq<string>)
    requires |segments| > 1 && Accepted(segments)
    ensures Accepted(segments[1..])
  {
    assert forall i | 1 <= i < |segments| :: segments[i] == segments[1..][i - 1];
  }

  /** A text whose slashed form is safe. */
  lemma RawText(text: string)
    requires SafeInventoryPath(Slashed(text))
    ensures Accepted(Split(text, '/')) && !("/" <= text)
  {
    JoinSplit(text, '/');
    assert Slashed(text)[0] != '/';
    hide Split, HasParent, Joined;
    RawSegments(Split(text, '/'));
  }

  /** The segments of a raw value that was accepted: perhaps a first `.`, ordinary names, perhaps a last `..`. */
  lemma RawValue(value: string)
    requires NormalizeInventoryPath(value).Ok?
    ensures !("/" <= value)
    ensures if "./" <= value
            then Split(value, '/') == ["."] + Split(value[2..], '/') && Accepted(Split(value[2..], '/'))
            else Accepted(Split(value, '/'))
  {
    hide SafeInventoryPath, Accepted;
    var slashed := Slashed(value);
    if "./" <= slashed {
      assert slashed[2..] == Slashed(value[2..]);
      RawText(value[2..]);
      assert value[0] == '.';
      if "./" <= value {
        assert value == "." + ['/'] + value[2..];
        SplitOnce(".", value[2..], '/');
      } else {
        assert value == ".\\" + value[2..];
        DottedSegment(value[2..]);
      }
    } else {
      RawText(value);
      SlashedStart(value);
    }
  }

  /** A dot and a backslash in front of accepted segments make an ordinary name of the first one. */
  lemma DottedSegment(text: string)
    requires Accepted(Split(text, '/'))
    ensures Accepted(Split(".\\" + text, '/'))
  {
    var segments := Split(text, '/');
    SplitConcat(".\\", text, '/');
    SplitPlain(".\\", '/');
    hide Split;
    var dotted := Split(".\\" + text, '/');
    assert dotted == [".\\" + segments[0]] + segments[1..];
    assert |".\\" + segments[0]| >= 2 && (".\\" + segments[0])[1] == '\\' && '/' !in segments[0];
    assert Ordinary(dotted[0]);
    if |segments| > 1 {
      AcceptedRest(segments);
      assert dotted[1..] == segments[1..];
      AcceptedMore(dotted);
    }
  }

  lemma WalkHere(root: Path, segments: seq<string>)
    requires forall i | 0 <= i < |segments| :: '/' !in segments[i]
    ensures Walk(root, ["."] + segments) == Walk(root, segments)
  {
    assert (["."] + segments)[1..] == segments;
  }

  /** The segments of an accepted raw value that matter. */
  function Names(value: string): seq<string> {
    if "./" <= value then Split(value[2..], '/') else Split(value, '/')
  }

  lemma ResolveWalks(root: Path, value: string)
    requires NormalizeInventoryPath(value).Ok?
    ensures Accepted(Names(value)) && forall i | 0 <= i < |Names(value)| :: '/' !in Names(value)[i]
    ensures Resolve(root, value) == Walk(root, Names(value))
  {
    hide NormalizeInventoryPath, Walk, Split, Accepted;
    RawValue(value);
    WalkAccepted(root, Names(value));
    if "./" <= value { WalkHere(root, Names(value)); }
  }

  lemma OnlyParent(value: string)
    requires NormalizeInventoryPath(value).Ok?
    ensures Names(value) == [".."] <==> value == ".." || value == "./.."
  {
    var rest := if "./" <= value then value[2..] else value;
    JoinSplit(rest, '/');
    SplitPlain("..", '/');
    hide Split;
    assert "./" <= value ==> value == "./" + rest;
    assert Names(value) == [".."] ==> rest == "..";
  }

  /** Whatever the reader accepts leads into the repository, except exactly `..` and `./..`. */
  lemma AcceptedValueStaysInside(root: Path, value: string)
    requires NormalizeInventoryPath(value).Ok?
    ensures root <= Resolve(root, value) <==> root == [] || (value != ".." && value != "./..")
  {
    hide NormalizeInventoryPath, Walk, Names;
    ResolveWalks(root, value);
    OnlyParent(value);
    var names := Names(value);
    WalkAccepted(root, names);
    if names[|names| - 1] == ".." && |names| == 1 { assert names == [".."]; }
  }

  // ---------------------------------------------------------------- such values

  lemma ParentHasNoParent()
    ensures SafeInventoryPath("..")
  {
    SplitPlain("..", '/');
    assert forall i: nat | i < 2 :: !OccursAt("..", "../", i);
  }

  /** `..` is accepted and leads above the repository. */
  lemma ParentLeavesTheRepository(root: Path)
    ensures NormalizeInventoryPath("..") == Ok("..") && Resolve(root, "..") == Up(root)
    ensures root != [] ==> !(root <= Resolve(root, ".."))
  {
    hide SafeInventoryPath, NormalizeInventoryPath;
    ParentHasNoParent();
    SafeIsNormal("..");
    SplitPlain("..", '/');
    assert Walk(root, [".."]) == Walk(Up(root), []);
  }

  /** So does `./..`, which is accepted as `..`. */
  lemma HiddenParentLeavesTheRepository(root: Path)
    ensures NormalizeInventoryPath("./..") == Ok("..") && Resolve(root, "./..") == Up(root)
    ensures root != [] ==> !(root <= Resolve(root, "./.."))
  {
    ParentHasNoParent();
    var value := "./..";
    assert Slashed(value) == value && value[2..] == "..";
    hide SafeInventoryPath;
    assert value == "." + ['/'] + "..";
    SplitOnce(".", "..", '/');
    SplitPlain("..", '/');
    hide Split;
    assert Walk(root, [".."]) == Walk(Up(root), []);
    WalkHere(root, [".."]);
  }

  lemma TakenBackNameIsAccepted()
    ensures NormalizeInventoryPath("x/..") == Ok("x/..") && Split("x/..", '/') == ["x", ".."]
  {
    var value := "x/..";
    assert value == "x" + ['/'] + "..";
    SplitOnce("x", "..", '/');
    SplitPlain("..", '/');
    hide Split, HasParent;
    NoParentAtTheEnd();
    SafeIsNormal(value);
  }

  lemma NoParentAtTheEnd()
    ensures !HasParent("x/..")
  {
    var value := "x/..";
    assert value[0] == 'x' && value[1] == '/';
    forall i: nat | i < 4 ensures !OccursAt(value, "../", i) {
      if i + 3 <= 4 { assert value[i..i + 3][0] == value[i]; }
    }
  }

  /** `x/..` is accepted, leads to the repository itself, and is not written back as it stands. */
  lemma TakenBackNameLeadsHere(root: Path)
    ensures NormalizeInventoryPath("x/..") == Ok("x/..")
    ensures Resolve(root, "x/..") == root && RelativeText(root, Resolve(root, "x/..")) == ""
  {
    hide SafeInventoryPath, NormalizeInventoryPath, Split, Walk, RelativeText;
    TakenBackNameIsAccepted();
    assert "x/.."[0] != '/';
    LastParentTakesBack(root, ["x"]);
    assert ["x"] + [".."] == ["x", ".."] && root + ["x"][..0] == root;
    ResolveHere(root);
  }
}
