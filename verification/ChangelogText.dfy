/** What a release does to the text of a changelog: only line ends below the title and the two headings change. */
module ChangelogText {
  import opened Common
  import opened Changelog
  import opened Whitespace

  /** The text without its line ends. */
  function Unbroken(s: string): (r: string) {
    if s == [] then [] else Unbroken(s[..|s| - 1]) + (if s[|s| - 1] == '\n' then [] else [s[|s| - 1]])
  }

  lemma {:induction false} UnbrokenConcat(a: string, b: string)
    ensures Unbroken(a + b) == Unbroken(a) + Unbroken(b)
  {
    if b == [] {
      assert a + b == a;
    } else {
      var s := a + b;
      assert s[..|s| - 1] == a + b[..|b| - 1] && s[|s| - 1] == b[|b| - 1];
      UnbrokenConcat(a, b[..|b| - 1]);
    }
  }

  lemma {:induction false} DroppedIsUnbroken(s: string)
    ensures Unbroken(DropLineEnds(s)) == Unbroken(s)
  {
    if s != [] && s[0] == '\n' {
      DroppedIsUnbroken(s[1..]);
      assert s == s[..1] + s[1..];
      UnbrokenConcat(s[..1], s[1..]);
    }
  }

  /** Line ends are dropped only up to the first other character. */
  lemma {:induction false} DropStops(a: string, b: string)
    requires b != [] && b[0] != '\n'
    ensures DropLineEnds(a + b) == DropLineEnds(a) + b
  {
    if a == [] {
      assert a + b == b;
    } else if a[0] == '\n' {
      assert (a + b)[1..] == a[1..] + b;
      DropStops(a[1..], b);
    }
  }

  /** The same text up to line ends, with or without an empty heading put in at some place. */
  ghost predicate SameBut(before: string, front: string) {
    || front == before
    || exists k | 0 <= k <= |before| :: Unbroken(front) == Unbroken(before[..k]) + UNRELEASED + Unbroken(before[k..])
  }

  lemma UnchangedIsSame(before: string)
    ensures SameBut(before, before)
  {
  }

  lemma HeadingIsUnbroken()
    ensures Unbroken(UNRELEASED) == UNRELEASED && Unbroken("\n\n") == []
  {
    WithoutLineEnds(UNRELEASED);
    assert "\n\n"[..1] == "\n" && "\n"[..0] == "";
  }

  lemma {:induction false} WithoutLineEnds(s: string)
    requires '\n' !in s
    ensures Unbroken(s) == s
  {
    if s != [] { WithoutLineEnds(s[..|s| - 1]); }
  }

  lemma InsertedHeading(before: string)
    ensures SameBut(before, before + UNRELEASED + "\n\n")
  {
    HeadingIsUnbroken();
    UnbrokenConcat(before + UNRELEASED, "\n\n");
    UnbrokenConcat(before, UNRELEASED);
    assert before[..|before|] == before && before[|before|..] == [];
    assert Unbroken(before[|before|..]) == [];
  }

  lemma ReinstatedHeading(before: string)
    requires HEADER <= before
    ensures SameBut(before, HEADER + "\n\n" + UNRELEASED + "\n\n" + DropLineEnds(before[|HEADER|..]))
  {
    hide DropLineEnds, Unbroken;
    var dropped := DropLineEnds(before[|HEADER|..]);
    HeadingIsUnbroken();
    DroppedIsUnbroken(before[|HEADER|..]);
    UnbrokenConcat(HEADER + "\n\n" + UNRELEASED + "\n\n", dropped);
    UnbrokenConcat(HEADER + "\n\n" + UNRELEASED, "\n\n");
    UnbrokenConcat(HEADER + "\n\n", UNRELEASED);
    UnbrokenConcat(HEADER, "\n\n");
    assert before[..|HEADER|] == HEADER;
  }

  /**
   * From the released heading on every character is kept, the notes among them; before it only line ends change and the
   * empty heading is put in. Without an unreleased heading nothing changes.
   */
  lemma ReleaseKeepsText(content: string, version: string, date: string, next: string)
    requires Released(content, version, date) == Ok(next)
    ensures match FindFrom(content, UNRELEASED, 0)
      case None => next == content
      case Some(i) =>
        exists front :: && next == front + NewHeading(version, date) + content[i + |UNRELEASED|..]
                        && SameBut(content[..i], front)
  {
    hide FindFrom, SameBut, NewHeading, HasUnreleasedContent, Reinstated, Released;
    var found := FindFrom(content, UNRELEASED, 0);
    if found.Some? {
      var i := found.value;
      var before, after, heading := content[..i], content[i + |UNRELEASED|..], NewHeading(version, date);
      NewHeadingStarts(version, date);
      ReleasedIs(content, version, date, i);
      if HasUnreleasedContent(content, 0) {
        TitleStaysFirst(content, i, heading);
        TitleIsBefore(content, i);
        var front := ReinstatedKeepsText(before, heading, after);
      } else {
        InsertedHeading(before);
        InsertedKeepsText(before, heading, after);
      }
    } else {
      NothingFound(content, version, date);
    }
  }

  lemma InsertedKeepsText(before: string, heading: string, after: string)
    ensures before + (UNRELEASED + "\n\n" + heading) + after == before + UNRELEASED + "\n\n" + heading + after
  {
  }

  lemma ReleasedIs(content: string, version: string, date: string, i: nat)
    requires FindFrom(content, UNRELEASED, 0) == Some(i) && Released(content, version, date).Ok?
    ensures var before, after, heading := content[..i], content[i + |UNRELEASED|..], NewHeading(version, date);
      Released(content, version, date).value ==
      if HasUnreleasedContent(content, 0) then Reinstated(before + heading + after)
      else before + (UNRELEASED + "\n\n" + heading) + after
  {
    hide FindFrom, NewHeading, HasUnreleasedContent, Reinstated;
  }

  lemma NothingFound(content: string, version: string, date: string)
    requires FindFrom(content, UNRELEASED, 0).None?
    ensures Released(content, version, date) == Ok(content)
  {
  }

  /** Putting the empty heading back below the title changes nothing but line ends. */
  lemma ReinstatedKeepsText(before: string, heading: string, after: string) returns (front: string)
    requires "##" <= heading && (HEADER + "\n" <= before + heading + after ==> HEADER <= before)
    ensures Reinstated(before + heading + after) == front + heading + after && SameBut(before, front)
  {
    hide DropLineEnds, SameBut;
    var text := before + heading + after;
    if HEADER + "\n" <= text {
      ReinstatedHeading(before);
      assert text[|HEADER|..] == before[|HEADER|..] + (heading + after);
      assert (heading + after)[0] == heading[0] == '#';
      DropStops(before[|HEADER|..], heading + after);
      front := HEADER + "\n\n" + UNRELEASED + "\n\n" + DropLineEnds(before[|HEADER|..]);
      assert Reinstated(text) == front + heading + after;
    } else {
      UnchangedIsSame(before);
      front := before;
    }
  }

  lemma TitleIsBefore(content: string, i: nat)
    requires OccursAt(content, UNRELEASED, i)
    ensures HEADER + "\n" <= content ==> HEADER <= content[..i]
  {
    assert content[i] == UNRELEASED[0] == '#' && content[i + 1] == UNRELEASED[1] == '#';
    assert HEADER[1] == ' ' && forall k | 0 < k < |HEADER| :: HEADER[k] != '#';
  }

  // ---------------------------------------------------------------- what counts as notes

  /** An unreleased heading with nothing but white space behind it on its line. */
  ghost predicate EndsItsLine(content: string, i: nat) {
    && OccursAt(content, UNRELEASED, i)
    && exists e | i + |UNRELEASED| <= e < |content| ::
         content[e] == '\n' && forall j | i + |UNRELEASED| <= j < e :: Space(content[j])
  }

  /** The first of them, from some place on. */
  ghost predicate FirstHeading(content: string, from: nat, i: nat) {
    from <= i && EndsItsLine(content, i) && forall j | from <= j < i :: !EndsItsLine(content, j)
  }

  /** Something stands behind the place before any heading with a version. */
  ghost predicate NotesFrom(content: string, place: nat) {
    exists k | place <= k < |content| :: !Space(content[k]) && forall j | place <= j <= k :: !VersionFollows(content, j)
  }

  lemma {:induction false} LastLineEndMeans(s: string, n: nat)
    requires n <= |s|
    ensures LastLineEnd(s, n).Some? <==> exists e | 0 <= e < n :: s[e] == '\n'
    ensures LastLineEnd(s, n).Some? ==> s[LastLineEnd(s, n).value] == '\n'
  {
    if n > 0 && s[n - 1] != '\n' { LastLineEndMeans(s, n - 1); }
  }

  lemma LineEndMeans(content: string, i: nat)
    requires OccursAt(content, UNRELEASED, i)
    ensures var after := content[i + |UNRELEASED|..];
      LastLineEnd(after, SpaceRun(after)).Some? <==> EndsItsLine(content, i)
  {
    hide LastLineEnd, SpaceRun, Space;
    var start := i + |UNRELEASED|;
    var after := content[start..];
    var n := SpaceRun(after);
    LastLineEndMeans(after, n);
    if LastLineEnd(after, n).Some? {
      var e := LastLineEnd(after, n).value;
      assert content[start + e] == '\n' && forall j | start <= j < start + e :: content[j] == after[j - start];
    }
    if EndsItsLine(content, i) {
      var e :| start <= e < |content| && content[e] == '\n' && forall j | start <= j < e :: Space(content[j]);
      assert after[e - start] == '\n';
      LineEndIsSpace();
      assert forall j | 0 <= j < e - start :: after[j] == content[start + j];
      assert e - start < n;
    }
  }

  lemma LineEndIsSpace()
    ensures Space('\n') && !Space('#')
  {
  }

  lemma {:induction false} SectionIs(s: string, k: nat) returns (end: nat)
    requires k <= |s|
    ensures k <= end <= |s| && Section(s, k) == s[..end] && (end == |s| || VersionFollows(s, end))
    ensures forall j | k <= j < end :: !VersionFollows(s, j)
    decreases |s| - k
  {
    end := k;
    if k < |s| && !VersionFollows(s, k) { end := SectionIs(s, k + 1); }
  }

  lemma SectionMeans(s: string)
    ensures Trim(Section(s, 0)) != [] <==> NotesFrom(s, 0)
  {
    hide VersionFollows, Space, Section;
    var end := SectionIs(s, 0);
    TrimsToNothing(Space, s[..end]);
    if k :| 0 <= k < |s| && !Space(s[k]) && forall j | 0 <= j <= k :: !VersionFollows(s, j) {
      assert k < end;
      assert s[..end][k] == s[k];
    }
    if Trim(Section(s, 0)) != [] {
      var k :| 0 <= k < end && !Space(s[..end][k]);
      assert !Space(s[k]);
    }
  }

  lemma VersionInSuffix(content: string, place: nat, j: nat)
    requires place <= |content|
    ensures VersionFollows(content[place..], j) <==> VersionFollows(content, place + j)
  {
    var rest := content[place..];
    if j + 4 <= |rest| { assert rest[j..j + 4] == content[place + j..place + j + 4]; }
  }

  lemma VersionStarts(content: string, j: nat)
    ensures VersionFollows(content, j) ==> content[j] == '#'
  {
    if VersionFollows(content, j) { assert content[j..j + 4][0] == content[j]; }
  }

  /** White space before the place makes no difference. */
  lemma NotesShift(content: string, start: nat, place: nat)
    requires start <= place <= |content| && forall j | start <= j < place :: Space(content[j])
    ensures NotesFrom(content, start) <==> NotesFrom(content[place..], 0)
  {
    hide Space;
    var rest := content[place..];
    forall j: nat ensures VersionFollows(rest, j) <==> VersionFollows(content, place + j) {
      VersionInSuffix(content, place, j);
    }
    LineEndIsSpace();
    forall j | start <= j < place ensures !VersionFollows(content, j) { VersionStarts(content, j); }
    hide VersionFollows;
    if k :| start <= k < |content| && !Space(content[k]) && forall j | start <= j <= k :: !VersionFollows(content, j) {
      assert rest[k - place] == content[k];
      assert forall j | 0 <= j <= k - place :: !VersionFollows(rest, j);
    }
    if k :| 0 <= k < |rest| && !Space(rest[k]) && forall j | 0 <= j <= k :: !VersionFollows(rest, j) {
      assert content[place + k] == rest[k];
      forall j | start <= j <= place + k ensures !VersionFollows(content, j) {
        if j >= place { assert !VersionFollows(rest, j - place); }
      }
    }
  }

  /** What the search makes of the first occurrence it finds. */
  lemma NotesStep(content: string, from: nat, i: nat)
    requires FindFrom(content, UNRELEASED, from) == Some(i)
    ensures HasUnreleasedContent(content, from) <==>
      if EndsItsLine(content, i) then NotesFrom(content, i + |UNRELEASED|) else HasUnreleasedContent(content, i + 1)
  {
    hide EndsItsLine, NotesFrom, LastLineEnd, SpaceRun, Section, Trim, FindFrom;
    LineEndMeans(content, i);
    if EndsItsLine(content, i) { NotesBehind(content, i); }
  }

  lemma FirstHeadingStep(content: string, from: nat, i: nat)
    requires FindFrom(content, UNRELEASED, from) == Some(i)
    ensures EndsItsLine(content, i) ==> forall j: nat :: FirstHeading(content, from, j) <==> j == i
    ensures !EndsItsLine(content, i) ==>
      forall j: nat :: FirstHeading(content, from, j) <==> FirstHeading(content, i + 1, j)
  {
    hide EndsItsLine, FindFrom;
    HeadingOccurs(content);
    assert forall j: nat | from <= j < i :: !EndsItsLine(content, j);
  }

  /** There are notes exactly when something visible stands between the first heading line and the next version. */
  lemma {:induction false} NotesAreExact(content: string, from: nat)
    ensures HasUnreleasedContent(content, from) <==>
      exists i: nat :: FirstHeading(content, from, i) && NotesFrom(content, i + |UNRELEASED|)
    decreases |content| - from
  {
    hide HasUnreleasedContent, NotesFrom, FindFrom, FirstHeading, EndsItsLine;
    var found := FindFrom(content, UNRELEASED, from);
    if found.Some? {
      var i := found.value;
      NotesStep(content, from, i);
      FirstHeadingStep(content, from, i);
      if EndsItsLine(content, i) {
        assert FirstHeading(content, from, i);
      } else {
        var later := i + 1;
        NotesAreExact(content, later);
        if j: nat :| FirstHeading(content, from, j) && NotesFrom(content, j + |UNRELEASED|) {
          assert FirstHeading(content, later, j);
        }
        if j: nat :| FirstHeading(content, later, j) && NotesFrom(content, j + |UNRELEASED|) {
          assert FirstHeading(content, from, j);
        }
      }
    } else {
      NoHeading(content, from);
    }
  }

  lemma NoHeading(content: string, from: nat)
    requires FindFrom(content, UNRELEASED, from).None?
    ensures !HasUnreleasedContent(content, from) && forall i: nat :: !FirstHeading(content, from, i)
  {
    hide EndsItsLine, FindFrom;
    HeadingOccurs(content);
  }

  lemma HeadingOccurs(content: string)
    ensures forall j: nat | EndsItsLine(content, j) :: OccursAt(content, UNRELEASED, j)
  {
  }

  lemma NotesBehind(content: string, i: nat)
    requires EndsItsLine(content, i)
    ensures OccursAt(content, UNRELEASED, i)
    ensures var after := content[i + |UNRELEASED|..];
      var end := LastLineEnd(after, SpaceRun(after));
      end.Some? && (Trim(Section(after[end.value + 1..], 0)) != [] <==> NotesFrom(content, i + |UNRELEASED|))
  {
    hide LastLineEnd, Section, Trim, NotesFrom, Space;
    LineEndMeans(content, i);
    var start := i + |UNRELEASED|;
    var after := content[start..];
    var end := LastLineEnd(after, SpaceRun(after)).value;
    SectionMeans(after[end + 1..]);
    assert after[end + 1..] == content[start + end + 1..];
    assert forall j | start <= j < start + end + 1 :: content[j] == after[j - start];
    NotesShift(content, start, start + end + 1);
  }
}
