/**
 * Releasing a changelog, and the guard that no change may remove a released heading from one. The rewriting works on
 * characters; the guard reads lines.
 */
module Changelog {
  import opened Common
  import opened Splitting
  import opened Whitespace
  import Versions

  // ---------------------------------------------------------------- the guard

  /** Where the name starts in a line that begins `##`, white space, `[`. */
  function Opening(line: string): (r: Option<nat>)
    ensures r.Some? ==> r.value <= |line|
  {
    if !("##" <= line) then None
    else
      var n := 2 + SpaceRun(line[2..]);
      if n > 2 && n < |line| && line[n] == '[' then Some(n + 1) else None
  }

  function Lower(c: char): char { if 'A' <= c <= 'Z' then c - 'A' + 'a' else c }

  function Lowered(s: string): (r: string)
    ensures |r| == |s|
  {
    seq(|s|, i requires 0 <= i < |s| => Lower(s[i]))
  }

  /** What a bracketed name counts as: nothing if it says unreleased. */
  function Named(name: string): seq<string> {
    if Lowered(Trim(name)) == "unreleased" then [] else [Trim(name)]
  }

  /** The released version a line announces, if any. */
  function Heading(line: string): seq<string> {
    var start := Opening(line);
    if start.None? then []
    else
      var end := IndexOf(line[start.value..], ']');
      if end.None? || end.value == 0 then [] else Named(line[start.value..][..end.value])
  }

  function HeadingsOf(lines: seq<string>): seq<string> {
    if lines == [] then [] else HeadingsOf(lines[..|lines| - 1]) + Heading(lines[|lines| - 1])
  }

  function Headings(text: string): seq<string> { HeadingsOf(Split(text, '\n')) }

  /** `releaseHeadings`. */
  method ReleaseHeadings(text: string) returns (headings: seq<string>)
    ensures headings == Headings(text)
  {
    hide Split;
    headings := [];
    var lines := Split(text, '\n');
    for i := 0 to |lines|
      invariant headings == HeadingsOf(lines[..i])
    {
      assert lines[..i + 1][..i] == lines[..i];
      var start := Opening(lines[i]);
      if start.None? { continue; }
      var end := IndexOf(lines[i][start.value..], ']');
      if end.None? || end.value == 0 { continue; }
      var version := lines[i][start.value..][..end.value];
      if Lowered(Trim(version)) == "unreleased" { continue; }
      headings := headings + [Trim(version)];
    }
    assert lines[..|lines|] == lines;
  }

  datatype Violation = Violation(removed: seq<string>, baseHeadings: nat, headHeadings: nat)

  function Missing(before: seq<string>, after: set<string>): (r: seq<string>)
    ensures forall x :: x in r <==> x in before && x !in after
  {
    if before == [] then []
    else Missing(before[..|before| - 1], after) + (if before[|before| - 1] in after then [] else [before[|before| - 1]])
  }

  /** `compareHistory`. */
  function CompareHistory(base: Option<string>, head: Option<string>): (r: Option<Violation>)
    ensures r.None? <==> base.Some? ==> forall x | x in Headings(base.value) :: head.Some? && x in Headings(head.value)
    ensures r.Some? ==> forall x ::
      x in r.value.removed <==> x in Headings(base.value) && (head.Some? ==> x !in Headings(head.value))
  {
    if base.None? then None
    else
      var before := Headings(base.value);
      if head.None? then
        assert before != [] ==> before[0] in before;
        if before == [] then None else Some(Violation(before, |before|, 0))
      else
        var after := set x | x in Headings(head.value);
        var removed := Missing(before, after);
        assert removed != [] ==> removed[0] in removed;
        if removed == [] then None else Some(Violation(removed, |before|, |after|))
  }

  // ---------------------------------------------------------------- the rewriting

  const UNRELEASED := "## [Unreleased]"
  const HEADER := "# Changelog"

  function FindFrom(s: string, a: string, k: nat): (r: Option<nat>)
    ensures r.Some? ==> k <= r.value && OccursAt(s, a, r.value)
    ensures forall j: nat | k <= j && OccursAt(s, a, j) :: r.Some? && r.value <= j
    decreases |s| - k
  {
    if OccursAt(s, a, k) then Some(k) else if k >= |s| then None else FindFrom(s, a, k + 1)
  }

  function Replaced(s: string, a: string, b: string): string {
    match FindFrom(s, a, 0)
    case None => s
    case Some(i) => s[..i] + b + s[i + |a|..]
  }

  function DropLineEnds(s: string): string {
    if s != [] && s[0] == '\n' then DropLineEnds(s[1..]) else s
  }

  /** The empty heading goes back below the title, which must be the first line. */
  function Reinstated(text: string): string {
    if HEADER + "\n" <= text then HEADER + "\n\n" + UNRELEASED + "\n\n" + DropLineEnds(text[|HEADER|..]) else text
  }

  predicate VersionFollows(s: string, i: nat) {
    OccursAt(s, "## [", i) && i + 4 < |s| && '0' <= s[i + 4] <= '9'
  }

  /** The text before the next heading with a version. */
  function Section(s: string, k: nat): string
    requires k <= |s|
    decreases |s| - k
  {
    if k == |s| || VersionFollows(s, k) then s[..k] else Section(s, k + 1)
  }

  /** The last line end among the white space that comes first. */
  function LastLineEnd(s: string, n: nat): (r: Option<nat>)
    requires n <= |s|
    ensures r.Some? ==> r.value < n
  {
    if n == 0 then None else if s[n - 1] == '\n' then Some(n - 1) else LastLineEnd(s, n - 1)
  }

  /** `hasUnreleasedContent`: the first such heading that ends its line is followed by notes. */
  predicate HasUnreleasedContent(content: string, from: nat)
    decreases |content| - from
  {
    match FindFrom(content, UNRELEASED, from)
    case None => false
    case Some(i) =>
      var after := content[i + |UNRELEASED|..];
      match LastLineEnd(after, SpaceRun(after))
      case Some(end) => Trim(Section(after[end + 1..], 0)) != []
      case None => HasUnreleasedContent(content, i + 1)
  }

  function NewHeading(version: string, date: string): string { "## [" + version + "] - " + date }

  /** `releasedChangelogContent`. */
  function Released(content: string, version: string, date: string): Result<string> {
    if HasUnreleasedContent(content, 0) then
      var next := Reinstated(Replaced(content, UNRELEASED, NewHeading(version, date)));
      if FindFrom(next, UNRELEASED, 0).None? then Rejected else Ok(next)
    else
      Ok(Replaced(content, UNRELEASED, UNRELEASED + "\n\n" + NewHeading(version, date)))
  }

  // ---------------------------------------------------------------- headings of one line

  lemma OpeningExtends(a: string, x: string)
    requires Opening(a).Some?
    ensures Opening(a + x) == Opening(a)
  {
    var n := 2 + SpaceRun(a[2..]);
    assert (a + x)[..2] == a[..2] == "##";
    assert (a + x)[2..] == a[2..] + x;
    SpaceRunExtends(a[2..], x);
  }

  lemma {:induction false} SpaceRunExtends(a: string, x: string)
    requires SpaceRun(a) < |a|
    ensures SpaceRun(a + x) == SpaceRun(a)
  {
    if Space(a[0]) {
      SpaceRunExtends(a[1..], x);
      assert (a + x)[1..] == a[1..] + x;
    }
  }

  /** Behind a start that opens no name, a second `#` cannot open one. */
  lemma OpeningBlocked(a: string, x: string)
    requires a != [] && Opening(a).None? && "##" <= x
    ensures Opening(a + x).None?
  {
    var line := a + x;
    if "##" <= line && |a| > 1 {
      assert a[..2] == line[..2] == "##";
      assert line[2..] == a[2..] + x;
      if SpaceRun(a[2..]) < |a[2..]| {
        SpaceRunExtends(a[2..], x);
      } else {
        SpaceRunThrough(a[2..], x);
      }
    } else if "##" <= line {
      assert line[2] == x[1] == '#';
    }
  }

  lemma {:induction false} SpaceRunThrough(a: string, x: string)
    requires SpaceRun(a) == |a| && x != [] && !Space(x[0])
    ensures SpaceRun(a + x) == |a|
  {
    if a != [] {
      SpaceRunThrough(a[1..], x);
      assert (a + x)[1..] == a[1..] + x;
    } else {
      assert a + x == x;
    }
  }

  /** A line that has opened a name and not closed it. */
  predicate OpensName(a: string) { Opening(a).Some? && ']' !in a[Opening(a).value..] }

  /** A heading depends only on the line up to the bracket that closes the name. */
  lemma HeadingSettled(a: string, x: string)
    requires Opening(a).Some? && ']' in a[Opening(a).value..]
    ensures Heading(a + x) == Heading(a)
  {
    hide Opening;
    OpeningExtends(a, x);
    var start := Opening(a).value;
    assert (a + x)[start..] == a[start..] + x;
    IndexOfExtends(a[start..], x, ']');
    var end := IndexOf(a[start..], ']').value;
    assert (a[start..] + x)[..end] == a[start..][..end];
  }

  lemma HeadingOfBlocked(a: string, x: string)
    requires a != [] && Opening(a).None? && "##" <= x
    ensures Heading(a + x) == []
  {
    OpeningBlocked(a, x);
  }

  /** When a name is open, the next bracket closes it. */
  lemma HeadingOfOpen(a: string, w: string, x: string)
    requires OpensName(a) && w != [] && ']' !in w
    ensures Heading(a + w + "]" + x) == Named(a[Opening(a).value..] + w)
  {
    hide Opening;
    var line := a + w + "]" + x;
    assert line == a + (w + "]" + x);
    OpeningExtends(a, w + "]" + x);
    var start := Opening(a).value;
    var rest := line[start..];
    var name := a[start..] + w;
    assert rest == name + "]" + x;
    assert rest[..|name|] == name && rest[|name|] == ']';
    IndexOfFirst(rest, ']', |name|);
  }

  lemma BracketOpens()
    ensures OpensName("## [") && Opening("## [") == Some(4)
  {
    assert "## ["[2..] == " [" && " ["[1..] == "[";
    assert !Space('[') && SpaceRun("[") == 0 && SpaceRun(" [") == 1;
  }

  lemma {:induction false} TrimOfVisible(s: string)
    requires s == [] || (!Space(s[0]) && !Space(s[|s| - 1]))
    ensures Trim(s) == s
  {
  }

  lemma UnreleasedIsNoHeading(x: string)
    ensures Heading(UNRELEASED + x) == []
  {
    hide Opening, Heading, Named, OpensName;
    BracketOpens();
    var w := "Unreleased";
    assert UNRELEASED == "## [" + w + "]";
    assert ']' !in w;
    HeadingOfOpen("## [", w, x);
    assert "## ["[4..] + w == w;
    UnreleasedName();
  }

  lemma UnreleasedName()
    ensures Named("Unreleased") == []
  {
    var w, l := "Unreleased", "unreleased";
    TrimOfVisible(w);
    assert |Lowered(w)| == |l| && forall i | 0 <= i < |l| :: Lowered(w)[i] == Lower(w[i]) == l[i];
  }

  /** The inserted line is a heading of the version, whatever follows it. */
  lemma NewHeadingIsHeading(version: string, date: string, x: string)
    requires Versions.IsStable(version)
    ensures Heading(NewHeading(version, date) + x) == [version]
  {
    hide Opening, Versions.IsStable, Trim;
    BracketOpens();
    Versions.StableCharacters(version);
    assert NewHeading(version, date) + x == "## [" + version + "]" + (" - " + date + x);
    HeadingOfOpen("## [", version, " - " + date + x);
    assert "## ["[4..] + version == version;
    TrimOfVisible(version);
    assert Lowered(version)[0] == version[0];
  }

  // ---------------------------------------------------------------- the rewritten lines

  lemma {:induction false} HeadingsConcat(a: seq<string>, b: seq<string>)
    ensures HeadingsOf(a + b) == HeadingsOf(a) + HeadingsOf(b)
  {
    hide Heading;
    if b == [] {
      assert a + b == a;
    } else {
      assert (a + b)[..|a + b| - 1] == a + b[..|b| - 1];
      HeadingsConcat(a, b[..|b| - 1]);
    }
  }

  lemma HeadingsOfOne(line: string)
    ensures HeadingsOf([line]) == Heading(line)
  {
    assert [line][..0] == [];
  }

  /** The first unreleased heading: the lines before and after its line, and what surrounds it in its line. */
  datatype Place = Place(before: seq<string>, prefix: string, suffix: string, after: seq<string>)

  function PlaceAt(content: string, i: nat): Place
    requires i + |UNRELEASED| <= |content|
  {
    var x, y := Split(content[..i], '\n'), Split(content[i + |UNRELEASED|..], '\n');
    Place(x[..|x| - 1], x[|x| - 1], y[0], y[1..])
  }

  function FirstPlace(content: string): Option<Place> {
    match FindFrom(content, UNRELEASED, 0)
    case None => None
    case Some(i) => Some(PlaceAt(content, i))
  }

  /** Headings of a text whose middle line is given. */
  function Around(p: Place, line: string): seq<string> {
    HeadingsOf(p.before) + Heading(line) + HeadingsOf(p.after)
  }

  lemma AroundIs(p: Place, line: string)
    ensures HeadingsOf(p.before + [line] + p.after) == Around(p, line)
  {
    hide Heading, HeadingsOf;
    HeadingsConcat(p.before + [line], p.after);
    HeadingsConcat(p.before, [line]);
    HeadingsOfOne(line);
  }

  /** Putting text without line ends in the place of the heading. */
  lemma PlainReplacement(content: string, i: nat, m: string)
    requires i + |UNRELEASED| <= |content| && '\n' !in m
    ensures var p := PlaceAt(content, i);
      Headings(content[..i] + m + content[i + |UNRELEASED|..]) == Around(p, p.prefix + m + p.suffix)
  {
    hide Split, Heading, HeadingsOf, Around;
    var p := PlaceAt(content, i);
    var x, y := Split(content[..i], '\n'), Split(content[i + |UNRELEASED|..], '\n');
    SplitPlain(m, '\n');
    SplitConcat(content[..i], m, '\n');
    SplitConcat(content[..i] + m, content[i + |UNRELEASED|..], '\n');
    assert Glue(x, [m]) == p.before + [p.prefix + m];
    assert Glue(p.before + [p.prefix + m], y) == p.before + [p.prefix + m + p.suffix] + p.after;
    AroundIs(p, p.prefix + m + p.suffix);
  }

  /** Putting two lines, with an empty one between, in its place. */
  lemma BrokenReplacement(content: string, i: nat, m: string, n: string)
    requires i + |UNRELEASED| <= |content| && '\n' !in m && '\n' !in n
    ensures var p := PlaceAt(content, i);
      Headings(content[..i] + (m + "\n\n" + n) + content[i + |UNRELEASED|..]) ==
        HeadingsOf(p.before) + Heading(p.prefix + m) + Heading(n + p.suffix) + HeadingsOf(p.after)
  {
    hide Split, Heading, HeadingsOf, Around;
    var p := PlaceAt(content, i);
    var x, y := Split(content[..i], '\n'), Split(content[i + |UNRELEASED|..], '\n');
    var broken := m + "\n\n" + n;
    BrokenLines(m, n);
    SplitConcat(content[..i], broken, '\n');
    SplitConcat(content[..i] + broken, content[i + |UNRELEASED|..], '\n');
    var first := p.before + [p.prefix + m, ""];
    assert Glue(x, [m, "", n]) == first + [n];
    assert Glue(first + [n], y) == first + [n + p.suffix] + p.after;
    AroundIs(p.(before := first), n + p.suffix);
    HeadingsConcat(p.before, [p.prefix + m, ""]);
    FirstOfTwo(p.prefix + m);
    AroundMeans(p.(before := first), n + p.suffix);
  }

  lemma AroundMeans(p: Place, line: string)
    ensures Around(p, line) == HeadingsOf(p.before) + Heading(line) + HeadingsOf(p.after)
  {
  }

  lemma FirstOfTwo(line: string)
    ensures HeadingsOf([line, ""]) == Heading(line)
  {
    assert [line, ""][..1] == [line];
    HeadingsOfOne(line);
  }

  lemma BrokenLines(m: string, n: string)
    requires '\n' !in m && '\n' !in n
    ensures Split(m + "\n\n" + n, '\n') == [m, "", n]
  {
    var rest := [] + ['\n'] + n;
    assert m + "\n\n" + n == m + ['\n'] + rest;
    SplitOnce(m, rest, '\n');
    SplitOnce([], n, '\n');
    SplitPlain(n, '\n');
  }

  // ---------------------------------------------------------------- the reinstated heading

  lemma HeadingsAfterLine(line: string, rest: string)
    requires '\n' !in line
    ensures Headings(line + ['\n'] + rest) == Heading(line) + Headings(rest)
  {
    SplitOnce(line, rest, '\n');
    hide Split, Heading;
    HeadingsConcat([line], Split(rest, '\n'));
    HeadingsOfOne(line);
  }

  lemma {:induction false} LineEndsHoldNoHeading(s: string)
    ensures Headings(DropLineEnds(s)) == Headings(s)
  {
    hide Headings;
    if s != [] && s[0] == '\n' {
      LineEndsHoldNoHeading(s[1..]);
      assert s == [] + ['\n'] + s[1..];
      HeadingsAfterLine([], s[1..]);
    }
  }

  lemma ReinstatingKeepsHeadings(text: string)
    ensures Headings(Reinstated(text)) == Headings(text)
  {
    hide Headings, DropLineEnds;
    if HEADER + "\n" <= text {
      TitledHeadings(text);
      ReinstatedText(DropLineEnds(text[|HEADER|..]));
      LineEndsHoldNoHeading(text[|HEADER|..]);
    }
  }

  /** Below the title, the headings are those of the rest. */
  lemma TitledHeadings(text: string)
    requires HEADER + "\n" <= text
    ensures Headings(text) == Headings(text[|HEADER|..])
  {
    hide Headings, Heading;
    var rest := text[|HEADER| + 1..];
    assert text == HEADER + ['\n'] + rest;
    assert text[|HEADER|..] == [] + ['\n'] + rest;
    HeadingsAfterLine(HEADER, rest);
    HeadingsAfterLine([], rest);
    TitleIsNoHeading();
  }

  /** Title, empty line, empty heading, empty line. */
  lemma ReinstatedText(dropped: string)
    ensures Headings(HEADER + "\n\n" + UNRELEASED + "\n\n" + dropped) == Headings(dropped)
  {
    hide Headings, Heading;
    var third := [] + ['\n'] + dropped;
    var second := UNRELEASED + ['\n'] + third;
    var first := [] + ['\n'] + second;
    FourLines(HEADER, UNRELEASED, dropped);
    HeadingsAfterLine(HEADER, first);
    HeadingsAfterLine([], second);
    HeadingsAfterLine(UNRELEASED, third);
    HeadingsAfterLine([], dropped);
    TitleIsNoHeading();
    UnreleasedIsNoHeading([]);
    assert UNRELEASED + [] == UNRELEASED;
  }

  lemma FourLines(a: string, b: string, c: string)
    ensures a + "\n\n" + b + "\n\n" + c == a + ['\n'] + ([] + ['\n'] + (b + ['\n'] + ([] + ['\n'] + c)))
  {
  }

  lemma TitleIsNoHeading()
    ensures Heading(HEADER) == [] && Heading([]) == []
  {
    hide IndexOf, Named, SpaceRun;
    assert HEADER[1] == ' ';
  }

  // ---------------------------------------------------------------- the released text

  /** A date as `toISOString` writes it. */
  predicate Date(d: string) { forall i | 0 <= i < |d| :: '0' <= d[i] <= '9' || d[i] == '-' || d[i] == '+' }

  lemma ReplacementsArePlain(version: string, date: string)
    requires Versions.IsStable(version) && Date(date)
    ensures '\n' !in UNRELEASED && '\n' !in NewHeading(version, date)
  {
    hide Versions.IsStable;
    Versions.StableCharacters(version);
    assert '\n' !in date && '\n' !in version;
  }

  /** What the headings are before and after. */
  lemma ReleasedHeadings(content: string, version: string, date: string, next: string)
    requires Versions.IsStable(version) && Date(date) && Released(content, version, date) == Ok(next) &&
      FirstPlace(content).Some?
    ensures var p := FirstPlace(content).value;
      && Headings(content) == Around(p, p.prefix + UNRELEASED + p.suffix)
      && Headings(next) == if HasUnreleasedContent(content, 0)
                           then Around(p, p.prefix + NewHeading(version, date) + p.suffix)
                           else HeadingsOf(p.before) + Heading(p.prefix + UNRELEASED) + [version] + HeadingsOf(p.after)
  {
    hide Headings, HeadingsOf, Heading, Around, Versions.IsStable, Reinstated, HasUnreleasedContent, NewHeading,
      PlaceAt;
    var i := FindFrom(content, UNRELEASED, 0).value;
    var p := PlaceAt(content, i);
    var latest := NewHeading(version, date);
    ReplacementsArePlain(version, date);
    assert content == content[..i] + UNRELEASED + content[i + |UNRELEASED|..];
    PlainReplacement(content, i, UNRELEASED);
    if HasUnreleasedContent(content, 0) {
      PlainReplacement(content, i, latest);
      ReinstatingKeepsHeadings(Replaced(content, UNRELEASED, latest));
    } else {
      BrokenReplacement(content, i, UNRELEASED, latest);
      NewHeadingIsHeading(version, date, p.suffix);
    }
  }

  /** Cutting a line behind the unreleased heading does not change what it announces. */
  lemma LineBeforeBreak(prefix: string, suffix: string)
    ensures Heading(prefix + UNRELEASED) == Heading(prefix + UNRELEASED + suffix)
    ensures prefix == [] ==> Heading(prefix + UNRELEASED) == []
  {
    hide Opening, Heading, OpensName;
    if prefix == [] {
      UnreleasedIsNoHeading([]);
      UnreleasedIsNoHeading(suffix);
      assert prefix + UNRELEASED + suffix == UNRELEASED + suffix && prefix + UNRELEASED == UNRELEASED + [];
    } else if Opening(prefix).None? {
      HeadingOfBlocked(prefix, UNRELEASED);
      HeadingOfBlocked(prefix, UNRELEASED + suffix);
      assert prefix + (UNRELEASED + suffix) == prefix + UNRELEASED + suffix;
    } else {
      OpeningExtends(prefix, UNRELEASED);
      assert (prefix + UNRELEASED)[|prefix + UNRELEASED| - 1] == ']';
      HeadingSettled(prefix + UNRELEASED, suffix);
    }
  }

  /** In front of an unreleased heading that is not at its line's start, nothing changes unless a name is open. */
  lemma LineKept(prefix: string, suffix: string, latest: string)
    requires prefix != [] && !OpensName(prefix) && "##" <= latest
    ensures Heading(prefix + UNRELEASED + suffix) == Heading(prefix + latest + suffix)
  {
    hide Opening, Heading;
    assert prefix + (UNRELEASED + suffix) == prefix + UNRELEASED + suffix;
    assert prefix + (latest + suffix) == prefix + latest + suffix;
    if Opening(prefix).None? {
      HeadingOfBlocked(prefix, UNRELEASED + suffix);
      HeadingOfBlocked(prefix, latest + suffix);
    } else {
      HeadingSettled(prefix, UNRELEASED + suffix);
      HeadingSettled(prefix, latest + suffix);
    }
  }

  /**
   * The released headings are the old ones, in order, with the new version inserted where the first unreleased
   * heading stood. This takes a heading at the start of its line, or a cycle without notes.
   */
  lemma ReleaseInsertsHeading(content: string, version: string, date: string, next: string)
    requires Versions.IsStable(version) && Date(date) && Released(content, version, date) == Ok(next)
    requires FirstPlace(content).Some? && (FirstPlace(content).value.prefix == [] || !HasUnreleasedContent(content, 0))
    ensures var p := FirstPlace(content).value;
      var k := |HeadingsOf(p.before) + Heading(p.prefix + UNRELEASED)|;
      && k <= |Headings(content)|
      && Headings(next) == Headings(content)[..k] + [version] + Headings(content)[k..]
  {
    hide Headings, HeadingsOf, Heading, Versions.IsStable, Released, HasUnreleasedContent, NewHeading, FirstPlace;
    var p := FirstPlace(content).value;
    ReleasedHeadings(content, version, date, next);
    LineBeforeBreak(p.prefix, p.suffix);
    NewHeadingIsHeading(version, date, p.suffix);
    assert p.prefix == [] ==> p.prefix + NewHeading(version, date) + p.suffix == NewHeading(version, date) + p.suffix;
  }

  // ---------------------------------------------------------------- released changelogs and the guard

  /** The first unreleased heading stands inside a bracketed name that an earlier `[` of its line opened. */
  predicate InsideName(content: string) {
    FirstPlace(content).Some? && OpensName(FirstPlace(content).value.prefix)
  }

  /** That name. */
  function ConsumedName(content: string): string
    requires InsideName(content)
  {
    var prefix := FirstPlace(content).value.prefix;
    Trim(prefix[Opening(prefix).value..] + "## [Unreleased")
  }

  function OtherHeadings(content: string): seq<string>
    requires FirstPlace(content).Some?
  {
    HeadingsOf(FirstPlace(content).value.before) + HeadingsOf(FirstPlace(content).value.after)
  }

  /** Trimming keeps a visible end. */
  lemma {:induction false} TrimKeepsEnd(r: string, t: string)
    requires t != [] && !Space(t[0]) && !Space(t[|t| - 1])
    ensures var s := Trim(r + t);
      |s| >= |t| && s[|s| - |t|..] == t
  {
    if r != [] && Space(r[0]) {
      assert (r + t)[1..] == r[1..] + t;
      TrimKeepsEnd(r[1..], t);
    } else {
      assert (r + t)[|r + t| - 1] == t[|t| - 1];
      assert r == [] ==> (r + t)[0] == t[0];
      TrimOfVisible(r + t);
    }
  }

  lemma OpenNames(prefix: string, suffix: string, version: string, date: string)
    requires OpensName(prefix) && Versions.IsStable(version)
    ensures var rest := prefix[Opening(prefix).value..];
      && Heading(prefix + UNRELEASED + suffix) == [Trim(rest + "## [Unreleased")]
      && Heading(prefix + NewHeading(version, date) + suffix) == Named(rest + ("## [" + version))
      && Trim(rest + "## [Unreleased") !in Named(rest + ("## [" + version))
  {
    hide Opening, Heading, Versions.IsStable, Trim;
    Versions.StableCharacters(version);
    var rest := prefix[Opening(prefix).value..];
    var former, latest := "## [Unreleased", "## [" + version;
    assert ']' !in former && ']' !in latest;
    HeadingOfOpen(prefix, former, suffix);
    assert UNRELEASED == former + "]";
    assert prefix + former + "]" + suffix == prefix + UNRELEASED + suffix;
    HeadingOfOpen(prefix, latest, " - " + date + suffix);
    assert prefix + latest + "]" + (" - " + date + suffix) == prefix + NewHeading(version, date) + suffix;
    TrimKeepsEnd(rest, former);
    TrimKeepsEnd(rest, latest);
    assert |Lowered(Trim(rest + former))| >= 14;
    var o, n := Trim(rest + former), Trim(rest + latest);
    assert o[|o| - 1] == o[|o| - |former|..][|former| - 1] == 'd';
    assert n[|n| - 1] == n[|n| - |latest|..][|latest| - 1] == version[|version| - 1];
  }

  /**
   * A released changelog passes the history guard, except exactly when notes are released by a heading inside another
   * heading's name and no other heading has that name.
   */
  lemma ReleasedPassesGuard(content: string, version: string, date: string, next: string)
    requires Versions.IsStable(version) && Date(date) && Released(content, version, date) == Ok(next)
    ensures CompareHistory(Some(content), Some(next)).None? <==>
      (HasUnreleasedContent(content, 0) && InsideName(content) ==> ConsumedName(content) in OtherHeadings(content))
  {
    hide Headings, HeadingsOf, Heading, Versions.IsStable, HasUnreleasedContent, NewHeading, FirstPlace, OpensName,
      Trim, Named;
    if FirstPlace(content).None? {
      NothingToRelease(content, version, date);
    } else {
      var p := FirstPlace(content).value;
      var latest := NewHeading(version, date);
      ReleasedHeadings(content, version, date, next);
      hide Released;
      if !HasUnreleasedContent(content, 0) {
        LineBeforeBreak(p.prefix, p.suffix);
      } else if OpensName(p.prefix) {
        OpenNames(p.prefix, p.suffix, version, date);
        GuardOnOneLine(content, next, p, ConsumedName(content), p.prefix + UNRELEASED + p.suffix,
                       p.prefix + latest + p.suffix);
      } else if p.prefix == [] {
        LineBeforeBreak(p.prefix, p.suffix);
      } else {
        NewHeadingStarts(version, date);
        LineKept(p.prefix, p.suffix, latest);
      }
    }
  }

  /**
   * The heading of the new version is added exactly when there is an unreleased heading and it is at its line's start
   * or the cycle has no notes; otherwise the text announces no more versions than before.
   */
  lemma NewHeadingIsAdded(content: string, version: string, date: string, next: string)
    requires Versions.IsStable(version) && Date(date) && Released(content, version, date) == Ok(next)
    ensures |Headings(next)| == |Headings(content)| + 1 <==>
      FirstPlace(content).Some? && (FirstPlace(content).value.prefix == [] || !HasUnreleasedContent(content, 0))
  {
    hide Headings, HeadingsOf, Heading, Versions.IsStable, HasUnreleasedContent, NewHeading, FirstPlace, OpensName,
      Trim;
    if FirstPlace(content).None? {
      NothingToRelease(content, version, date);
    } else {
      var p := FirstPlace(content).value;
      hide Released;
      if p.prefix == [] || !HasUnreleasedContent(content, 0) {
        ReleaseInsertsHeading(content, version, date, next);
      } else {
        ReleasedHeadings(content, version, date, next);
        if OpensName(p.prefix) {
          OpenNames(p.prefix, p.suffix, version, date);
        } else {
          NewHeadingStarts(version, date);
          LineKept(p.prefix, p.suffix, NewHeading(version, date));
        }
      }
    }
  }

  lemma NewHeadingStarts(version: string, date: string)
    ensures "##" <= NewHeading(version, date)
  {
  }

  lemma NothingToRelease(content: string, version: string, date: string)
    requires FirstPlace(content).None?
    ensures Released(content, version, date) == Ok(content) && !HasUnreleasedContent(content, 0)
  {
  }

  lemma GuardOnOneLine(content: string, next: string, p: Place, name: string, former: string, latest: string)
    requires Headings(content) == Around(p, former) && Headings(next) == Around(p, latest)
    requires Heading(former) == [name] && name !in Heading(latest)
    ensures CompareHistory(Some(content), Some(next)).None? <==> name in HeadingsOf(p.before) + HeadingsOf(p.after)
  {
    hide Headings, HeadingsOf, Heading;
    assert name in Headings(content);
    assert name in Around(p, latest) <==> name in HeadingsOf(p.before) + HeadingsOf(p.after);
    assert forall x | x in Around(p, former) && x != name :: x in HeadingsOf(p.before) || x in HeadingsOf(p.after);
  }

  // ---------------------------------------------------------------- when the heading is lost

  lemma TitleStaysFirst(content: string, i: nat, m: string)
    requires OccursAt(content, UNRELEASED, i) && "##" <= m
    ensures HEADER + "\n" <= content[..i] + m + content[i + |UNRELEASED|..] <==> HEADER + "\n" <= content
  {
    var title := HEADER + "\n";
    var changed := content[..i] + m + content[i + |UNRELEASED|..];
    assert |title| == 12 && title[0] == '#' && forall k | 0 < k < 12 :: title[k] != '#';
    assert content[i] == UNRELEASED[0] == '#' && content[i + 1] == UNRELEASED[1] == '#';
    assert changed[i] == m[0] == '#' && changed[i + 1] == m[1] == '#';
    if i >= 12 {
      assert changed[..12] == content[..12];
    }
  }

  /** Where the first heading was replaced, the text holds exactly the later ones. */
  lemma LaterHeadingsRemain(content: string, i: nat, version: string, date: string)
    requires Versions.IsStable(version) && Date(date)
    requires OccursAt(content, UNRELEASED, i) && forall j: nat | j < i :: !OccursAt(content, UNRELEASED, j)
    ensures var changed := content[..i] + NewHeading(version, date) + content[i + |UNRELEASED|..];
      Contains(changed, UNRELEASED) <==> Contains(content[i + |UNRELEASED|..], UNRELEASED)
  {
    hide Versions.IsStable;
    Versions.StableCharacters(version);
    var m, tail := NewHeading(version, date), content[i + |UNRELEASED|..];
    var changed := content[..i] + m + tail;
    assert changed[i + |m|..] == tail;
    forall j: nat | OccursAt(tail, UNRELEASED, j) ensures OccursAt(changed, UNRELEASED, i + |m| + j) {
      assert changed[i + |m| + j..i + |m| + j + |UNRELEASED|] == tail[j..j + |UNRELEASED|];
    }
    forall j: nat | OccursAt(changed, UNRELEASED, j) ensures j >= i + |m| && OccursAt(tail, UNRELEASED, j - i - |m|) {
      OnlyBehind(content, i, m, tail, j);
      assert changed[j..j + |UNRELEASED|] == tail[j - i - |m|..j - i - |m| + |UNRELEASED|];
    }
  }

  /** An occurrence has its characters in place. */
  lemma OccursMeans(s: string, j: nat, k: nat)
    requires OccursAt(s, UNRELEASED, j) && k < |UNRELEASED|
    ensures s[j + k] == UNRELEASED[k]
  {
    assert s[j..j + |UNRELEASED|][k] == UNRELEASED[k];
  }

  lemma UnreleasedCharacters()
    ensures UNRELEASED[0] == '#' && UNRELEASED[1] == '#' && UNRELEASED[4] == 'U'
    ensures forall k | 2 <= k < |UNRELEASED| :: UNRELEASED[k] != '#'
  {
  }

  lemma FrontSlice(content: string, i: nat, m: string, tail: string, j: nat, n: nat)
    requires j + n <= i <= |content|
    ensures (content[..i] + m + tail)[j..j + n] == content[j..j + n]
  {
    var a, b := (content[..i] + m + tail)[j..j + n], content[j..j + n];
    assert |a| == |b| && forall k | 0 <= k < n :: a[k] == content[j + k] == b[k];
  }

  lemma OnlyBehind(content: string, i: nat, m: string, tail: string, j: nat)
    requires i <= |content| && forall k: nat | k < i :: !OccursAt(content, UNRELEASED, k)
    requires |m| > 4 && m[0] == '#' && m[1] == '#' && m[4] != 'U' && forall k | 2 <= k < |m| :: m[k] != '#'
    requires OccursAt(content[..i] + m + tail, UNRELEASED, j)
    ensures j >= i + |m|
  {
    var changed := content[..i] + m + tail;
    var n := |UNRELEASED|;
    assert forall k | 0 <= k < |m| :: changed[i + k] == m[k];
    if j + n <= i { FrontSlice(content, i, m, tail, j, n); }
    assert j + n <= i ==> OccursAt(content, UNRELEASED, j);
    hide OccursAt;
    if j < i < j + n {
      NotAcross(changed, i, j);
    } else if i <= j {
      NotInside(changed, i, m, j);
    }
  }

  /** Where two hashes follow each other, no occurrence has begun before. */
  lemma NotAcross(s: string, i: nat, j: nat)
    requires j < i < j + |UNRELEASED| && i + 1 < |s| && s[i] == '#' && s[i + 1] == '#'
    ensures !OccursAt(s, UNRELEASED, j)
  {
    hide OccursAt;
    UnreleasedCharacters();
    if OccursAt(s, UNRELEASED, j) {
      OccursMeans(s, j, i - j);
      if i - j + 1 < |UNRELEASED| { OccursMeans(s, j, i - j + 1); }
    }
  }

  /** Nor does one begin inside the new heading. */
  lemma NotInside(s: string, i: nat, m: string, j: nat)
    requires i <= j && i + |m| <= |s| && forall k | 0 <= k < |m| :: s[i + k] == m[k]
    requires |m| > 4 && m[4] != 'U' && forall k | 2 <= k < |m| :: m[k] != '#'
    ensures OccursAt(s, UNRELEASED, j) ==> j >= i + |m|
  {
    hide OccursAt;
    UnreleasedCharacters();
    if j < i + |m| { assert s[i + (j - i)] == m[j - i]; }
    assert s[i + 2] == m[2] && s[i + 4] == m[4];
    if OccursAt(s, UNRELEASED, j) {
      OccursMeans(s, j, 0);
      OccursMeans(s, j, 1);
      OccursMeans(s, j, 4);
    }
  }

  lemma FoundOrNot(s: string, a: string)
    ensures FindFrom(s, a, 0).Some? <==> Contains(s, a)
  {
  }

  lemma ReinstatedHolds(text: string)
    requires HEADER + "\n" <= text
    ensures Contains(Reinstated(text), UNRELEASED)
  {
    assert OccursAt(Reinstated(text), UNRELEASED, |HEADER| + 2);
  }

  /** Releasing notes fails exactly when the title is not the first line and no second unreleased heading follows. */
  lemma LostHeading(content: string, version: string, date: string)
    requires Versions.IsStable(version) && Date(date)
    ensures Released(content, version, date).Rejected? <==>
      && HasUnreleasedContent(content, 0) && !(HEADER + "\n" <= content)
      && !Contains(content[FindFrom(content, UNRELEASED, 0).value + |UNRELEASED|..], UNRELEASED)
  {
    hide Versions.IsStable, NewHeading, DropLineEnds, OccursAt, Contains;
    if HasUnreleasedContent(content, 0) {
      var i := FindFrom(content, UNRELEASED, 0).value;
      hide HasUnreleasedContent;
      var changed := Replaced(content, UNRELEASED, NewHeading(version, date));
      hide FindFrom;
      NewHeadingStarts(version, date);
      TitleStaysFirst(content, i, NewHeading(version, date));
      LaterHeadingsRemain(content, i, version, date);
      FoundOrNot(Reinstated(changed), UNRELEASED);
      if HEADER + "\n" <= changed { ReinstatedHolds(changed); }
    }
  }

  // ---------------------------------------------------------------- two changelogs

  /** A start of line that opens a name, and one that does not. */
  const NESTED := "## [1 "
  const LISTED := "- "

  /** A changelog with notes whose unreleased heading follows this start of line. */
  function Example(prefix: string): string { HEADER + ['\n'] + prefix + UNRELEASED + "\nx" }

  predicate Used(prefix: string) { prefix == NESTED || prefix == LISTED }

  lemma ExampleCharacters(prefix: string, j: nat)
    requires Used(prefix) && j < 12 + |prefix|
    ensures !(Example(prefix)[j] == '#' && Example(prefix)[j + 1] == '#' && Example(prefix)[j + 4] == 'U')
  {
    assert |HEADER| == 11 && |UNRELEASED| == 15;
  }

  lemma ExampleFound(prefix: string)
    requires Used(prefix)
    ensures FindFrom(Example(prefix), UNRELEASED, 0) == Some(12 + |prefix|)
  {
    var c, i := Example(prefix), 12 + |prefix|;
    assert |HEADER| == 11 && |UNRELEASED| == 15;
    assert c[i..i + 15] == UNRELEASED;
    assert OccursAt(c, UNRELEASED, i);
    var found := FindFrom(c, UNRELEASED, 0);
    hide FindFrom, Example;
    OccursMeans(c, found.value, 0);
    OccursMeans(c, found.value, 1);
    OccursMeans(c, found.value, 4);
    UnreleasedCharacters();
    if found.value < i { ExampleCharacters(prefix, found.value); }
  }

  lemma ExamplePlace(prefix: string)
    requires Used(prefix)
    ensures FirstPlace(Example(prefix)) == Some(Place([HEADER], prefix, [], ["x"]))
  {
    hide FindFrom, Split;
    var c, i := Example(prefix), 12 + |prefix|;
    assert |HEADER| == 11 && |UNRELEASED| == 15;
    ExampleFound(prefix);
    assert c[..i] == HEADER + ['\n'] + prefix && c[i + 15..] == [] + ['\n'] + "x";
    SplitOnce(HEADER, prefix, '\n');
    SplitPlain(prefix, '\n');
    SplitOnce([], "x", '\n');
    SplitPlain("x", '\n');
  }

  lemma ExampleHasContent(prefix: string)
    requires Used(prefix)
    ensures HasUnreleasedContent(Example(prefix), 0)
  {
    hide FindFrom;
    ExampleFound(prefix);
    var after := Example(prefix)[12 + |prefix| + |UNRELEASED|..];
    assert after == "\nx" && after[1..] == "x";
    assert SpaceRun("x") == 0 && SpaceRun(after) == 1;
    assert LastLineEnd(after, 1) == Some(0);
    assert Section("x", 1) == "x" && Section("x", 0) == "x";
    TrimOfVisible("x");
  }

  lemma NestedOpensName()
    ensures OpensName(NESTED)
  {
    BracketOpens();
    assert NESTED == "## [" + "1 ";
    OpeningExtends("## [", "1 ");
  }

  lemma PlainLinesHoldNoHeading()
    ensures HeadingsOf([HEADER]) == [] && HeadingsOf(["x"]) == []
  {
    TitleIsNoHeading();
    HeadingsOfOne(HEADER);
    HeadingsOfOne("x");
  }

  lemma ExampleIsReleased(prefix: string, version: string, date: string)
    requires Used(prefix) && Versions.IsStable(version) && Date(date)
    ensures Released(Example(prefix), version, date).Ok?
  {
    hide Versions.IsStable, Released, HasUnreleasedContent;
    LostHeading(Example(prefix), version, date);
    assert HEADER + "\n" <= Example(prefix);
  }

  /** Releasing the notes of the one removes a heading, and the guard says so. */
  lemma ReleaseCanRemoveHistory(version: string, date: string)
    requires Versions.IsStable(version) && Date(date)
    ensures Released(Example(NESTED), version, date).Ok?
    ensures CompareHistory(Some(Example(NESTED)), Some(Released(Example(NESTED), version, date).value)).Some?
  {
    hide Versions.IsStable, Released, FirstPlace, HasUnreleasedContent, HeadingsOf, OpensName, Trim, CompareHistory,
      Example;
    ExamplePlace(NESTED);
    ExampleHasContent(NESTED);
    NestedOpensName();
    PlainLinesHoldNoHeading();
    ExampleIsReleased(NESTED, version, date);
    ReleasedPassesGuard(Example(NESTED), version, date, Released(Example(NESTED), version, date).value);
  }

  lemma ListedIsNoHeading()
    ensures Heading(LISTED + UNRELEASED + []) == []
  {
    hide Heading;
    assert Opening(LISTED).None?;
    HeadingOfBlocked(LISTED, UNRELEASED);
    assert LISTED + UNRELEASED + [] == LISTED + UNRELEASED;
  }

  /** Releasing the notes of the other adds no heading: the version released is nowhere announced. */
  lemma ReleaseCanAddNothing(version: string, date: string)
    requires Versions.IsStable(version) && Date(date)
    ensures Released(Example(LISTED), version, date).Ok?
    ensures Headings(Released(Example(LISTED), version, date).value) == []
  {
    hide Versions.IsStable, Released, FirstPlace, HasUnreleasedContent, HeadingsOf, Headings, Heading, Example,
      NewHeading;
    ExamplePlace(LISTED);
    ExampleHasContent(LISTED);
    ExampleIsReleased(LISTED, version, date);
    ReleasedHeadings(Example(LISTED), version, date, Released(Example(LISTED), version, date).value);
    PlainLinesHoldNoHeading();
    ListedIsNoHeading();
    NewHeadingStarts(version, date);
    LineKept(LISTED, [], NewHeading(version, date));
  }
}
