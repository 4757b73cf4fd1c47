/**
 * Pushing the release branch and its tag in one atomic transaction, when the client may see failure although the
 * remote committed. Two readers of `git ls-remote` output meet here: a strict one that refuses anything unexpected,
 * and a tolerant one that skips it.
 */
module AtomicPush {
  import opened Common
  import opened Splitting
  import opened Whitespace
  import Versions

  // ---------------------------------------------------------------- text

  /** An object name: `/^[0-9a-f]{40}$/`. */
  predicate IsSha(s: string) { LowerHex(s, 40) }

  // ---------------------------------------------------------------- refs

  type Refs = map<string, string>

  const MAIN := "refs/heads/main"

  function TagRef(tag: string): string { "refs/tags/" + tag }

  function PeeledRef(tag: string): string { TagRef(tag) + "^{}" }

  predicate Expected(tag: string, ref: string) { ref == MAIN || ref == TagRef(tag) || ref == PeeledRef(tag) }

  /** A line of the form name, tab, ref. */
  predicate Shaped(line: string) {
    var fields := Split(line, '\t');
    |fields| == 2 && IsSha(fields[0])
  }

  function ShaOf(line: string): string requires Shaped(line) { Split(line, '\t')[0] }

  function RefOf(line: string): string requires Shaped(line) { Split(line, '\t')[1] }

  function LinesOf(output: string): seq<string> { Split(Trim(output), '\n') }

  /** The last well-shaped line that names a ref decides it. */
  function Listed(lines: seq<string>): (refs: Refs)
    ensures forall ref | ref in refs :: IsSha(refs[ref])
    ensures forall ref :: ref in refs <==> exists line :: line in lines && Shaped(line) && RefOf(line) == ref
  {
    if lines == [] then map[]
    else
      var last := lines[|lines| - 1];
      var before := Listed(lines[..|lines| - 1]);
      assert lines == lines[..|lines| - 1] + [last];
      if Shaped(last) then before[RefOf(last) := ShaOf(last)] else before
  }

  /** Only expected refs, each at most once, and nothing else. */
  ghost predicate Tidy(lines: seq<string>, tag: string) {
    && (forall i | 0 <= i < |lines| && lines[i] != [] :: Shaped(lines[i]) && Expected(tag, RefOf(lines[i])))
    && (forall i, j | 0 <= i < j < |lines| && Shaped(lines[i]) && Shaped(lines[j]) ::
        RefOf(lines[i]) != RefOf(lines[j]))
  }

  function Get(refs: Refs, ref: string): Option<string> { if ref in refs then Some(refs[ref]) else None }

  /** What the tag leads to: the peeled object of an annotated tag, else what it names. */
  function Peeled(refs: Refs, tag: string): Option<string> {
    if PeeledRef(tag) in refs then Some(refs[PeeledRef(tag)]) else Get(refs, TagRef(tag))
  }

  /** Both refs lead to the release commit. */
  predicate Carries(refs: Refs, commit: string, tag: string) {
    Get(refs, MAIN) == Some(commit) && Peeled(refs, tag) == Some(commit)
  }

  /** The strict check passes: tidy output in which the tag is listed and both refs are at the commit. */
  ghost predicate Verified(output: string, commit: string, tag: string) {
    Tidy(LinesOf(output), tag) && TagRef(tag) in Listed(LinesOf(output)) &&
      Carries(Listed(LinesOf(output)), commit, tag)
  }

  /** `parseLsRemoteRefs`. */
  method ParseLsRemoteRefs(output: string) returns (refs: Refs)
    ensures refs == Listed(LinesOf(output))
  {
    hide IsSha, Split, Trim;
    refs := map[];
    var lines := Split(Trim(output), '\n');
    for i := 0 to |lines|
      invariant refs == Listed(lines[..i])
    {
      assert lines[..i + 1][..i] == lines[..i];
      if lines[i] == "" { EmptyLine(); continue; }
      var fields := Split(lines[i], '\t');
      if |fields| != 2 || !IsSha(fields[0]) { continue; }
      refs := refs[fields[1] := fields[0]];
    }
    assert lines[..|lines|] == lines;
  }

  lemma EmptyLine()
    ensures !Shaped([])
  {
  }

  /**
   * `assertAtomicPushRemoteState`. It accepts exactly tidy output in which the tag is listed and both refs are at the
   * commit.
   */
  method AssertAtomicPushRemoteState(output: string, commit: string, tag: string) returns (r: Result<()>)
    ensures r.Ok? <==> Verified(output, commit, tag)
  {
    hide IsSha, Split, Trim, LinesOf, Listed, Tidy, Expected, Get, Peeled;
    var observed: Refs := map[];
    var lines := LinesOf(output);
    NoLines(tag);
    for i := 0 to |lines|
      invariant Tidy(lines[..i], tag) && observed == Listed(lines[..i])
    {
      var line := lines[i];
      if line == "" {
        SkipEmpty(lines, tag, i);
        continue;
      }
      var fields := Split(line, '\t');
      if |fields| != 2 || !IsSha(fields[0]) || !Expected(tag, fields[1]) {
        Untidy(lines, tag, i);
        return Rejected;
      }
      if fields[1] in observed {
        Repeated(lines, tag, i);
        return Rejected;
      }
      OneMore(lines, tag, i);
      ListedMore(lines, i);
      observed := observed[fields[1] := fields[0]];
    }
    assert lines[..|lines|] == lines;
    if Get(observed, MAIN) != Some(commit) { return Rejected; }
    if TagRef(tag) !in observed { return Rejected; }
    if Peeled(observed, tag) != Some(commit) { return Rejected; }
    return Ok(());
  }

  lemma NoLines(tag: string)
    ensures Tidy([], tag) && Listed([]) == map[]
  {
  }

  lemma ListedMore(lines: seq<string>, i: nat)
    requires i < |lines| && Shaped(lines[i])
    ensures Listed(lines[..i + 1]) == Listed(lines[..i])[RefOf(lines[i]) := ShaOf(lines[i])]
  {
    hide Shaped;
    assert lines[..i + 1][..i] == lines[..i];
  }

  /** An empty line changes nothing. */
  lemma SkipEmpty(lines: seq<string>, tag: string, i: nat)
    requires i < |lines| && lines[i] == [] && Tidy(lines[..i], tag)
    ensures Tidy(lines[..i + 1], tag) && Listed(lines[..i + 1]) == Listed(lines[..i])
  {
    EmptyLine();
    hide Shaped, Expected;
    var now := lines[..i + 1];
    assert now[..i] == lines[..i];
    assert forall j | 0 <= j < i :: now[j] == lines[..i][j];
  }

  /** A line of any other shape, or of another ref, spoils the whole. */
  lemma Untidy(lines: seq<string>, tag: string, i: nat)
    requires i < |lines| && lines[i] != [] && !(Shaped(lines[i]) && Expected(tag, RefOf(lines[i])))
    ensures !Tidy(lines, tag)
  {
    hide Shaped, Expected;
  }

  lemma Repeated(lines: seq<string>, tag: string, i: nat)
    requires i < |lines| && Shaped(lines[i]) && RefOf(lines[i]) in Listed(lines[..i])
    ensures !Tidy(lines, tag)
  {
    hide Shaped, Expected;
    var line :| line in lines[..i] && Shaped(line) && RefOf(line) == RefOf(lines[i]);
    var j :| 0 <= j < i && lines[j] == line;
    assert RefOf(lines[j]) == RefOf(lines[i]);
  }

  lemma OneMore(lines: seq<string>, tag: string, i: nat)
    requires i < |lines| && Tidy(lines[..i], tag) && Shaped(lines[i])
    requires Expected(tag, RefOf(lines[i])) && RefOf(lines[i]) !in Listed(lines[..i])
    ensures Tidy(lines[..i + 1], tag)
  {
    hide Shaped, Expected;
    forall j | 0 <= j < i && Shaped(lines[j]) ensures RefOf(lines[j]) != RefOf(lines[i]) {
      assert lines[..i][j] in lines[..i];
    }
    forall j | 0 <= j < i + 1 && lines[j] != [] ensures Shaped(lines[j]) && Expected(tag, RefOf(lines[j])) {
      if j < i { assert lines[..i][j] == lines[j]; }
    }
    forall j, k | 0 <= j < k < i + 1 && Shaped(lines[j]) && Shaped(lines[k])
      ensures RefOf(lines[j]) != RefOf(lines[k])
    {
      if k < i { assert lines[..i][j] == lines[j] && lines[..i][k] == lines[k]; }
    }
  }

  // ---------------------------------------------------------------- an ambiguous failure

  datatype Disposition = Committed | Preserve

  function OrEmpty(s: Option<string>): string { if s.Some? then s.value else "" }

  /** `reconcileAtomicPushFailure`; the two kinds of refusal differ only in what they tell the operator. */
  function Reconcile(commit: string, prePushMain: string, prePushTag: string, reachable: bool, postPushMain: string,
                     postPushTag: string)
    : Disposition
  {
    if !reachable then Preserve
    else if postPushMain == commit && postPushTag == commit then Committed
    else if postPushMain == prePushMain && postPushTag == prePushTag then Preserve
    else Preserve
  }

  /** What the tolerant reading of some output makes of a failed push. */
  function ReconcileOutput(commit: string, tag: string, prePushMain: string, prePushTag: string, output: string)
    : Disposition
  {
    var refs := Listed(LinesOf(output));
    Reconcile(commit, prePushMain, prePushTag, true, OrEmpty(Get(refs, MAIN)), OrEmpty(Peeled(refs, tag)))
  }

  /** The strict reading is the tolerant one on tidy output that lists the tag itself: neither contradicts the other. */
  lemma StrictIsTolerant(output: string, commit: string, tag: string, prePushMain: string, prePushTag: string)
    requires commit != ""
    ensures Verified(output, commit, tag) <==>
      && ReconcileOutput(commit, tag, prePushMain, prePushTag, output) == Committed
      && Tidy(LinesOf(output), tag) && TagRef(tag) in Listed(LinesOf(output))
  {
  }

  // ---------------------------------------------------------------- what a remote prints

  type Sha = s: string | IsSha(s) witness seq(40, _ => '0')

  /** The three refs the procedure asks for; `peeled` is present for an annotated tag. */
  datatype RemoteState = RemoteState(main: Option<Sha>, tag: Option<Sha>, peeled: Option<Sha>)

  /** Both refs are at the commit. */
  predicate At(state: RemoteState, commit: string) {
    && state.main == Some(commit) && state.tag.Some?
    && (if state.peeled.Some? then state.peeled.value else state.tag.value) == commit
  }

  function Line(sha: Option<Sha>, ref: string): seq<string> {
    if sha.Some? then [sha.value + ['\t'] + ref] else []
  }

  function PrintedLines(state: RemoteState, tag: string): seq<string> {
    Line(state.main, MAIN) + Line(state.tag, TagRef(tag)) + Line(state.peeled, PeeledRef(tag))
  }

  function Printed(state: RemoteState, tag: string): string {
    var lines := PrintedLines(state, tag);
    if lines == [] then "" else Joined(lines, '\n') + "\n"
  }

  /** A tag name whose characters are all visible. */
  predicate Plain(tag: string) { forall i | 0 <= i < |tag| :: !Space(tag[i]) }

  lemma PlainRefs(tag: string)
    requires Plain(tag)
    ensures forall ref | Expected(tag, ref) :: ref != [] && Plain(ref)
    ensures TagRef(tag) != PeeledRef(tag) && TagRef(tag) != MAIN && PeeledRef(tag) != MAIN
  {
    assert |PeeledRef(tag)| == |TagRef(tag)| + 3;
    assert TagRef(tag)[5] == 't' && PeeledRef(tag)[5] == 't' && MAIN[5] == 'h';
    forall i | 0 <= i < |PeeledRef(tag)| ensures !Space(PeeledRef(tag)[i]) {
      if 10 <= i < |tag| + 10 { assert PeeledRef(tag)[i] == tag[i - 10]; }
      else if i >= |tag| + 10 { assert PeeledRef(tag)[i] == "^{}"[i - 10 - |tag|]; }
    }
    assert forall i | 0 <= i < |TagRef(tag)| :: TagRef(tag)[i] == PeeledRef(tag)[i];
  }

  lemma PlainLine(sha: Sha, ref: string)
    requires Plain(ref) && ref != []
    ensures var line := sha + ['\t'] + ref;
      && Shaped(line) && ShaOf(line) == sha && RefOf(line) == ref
      && '\n' !in line && !Space(line[0]) && !Space(line[|line| - 1])
  {
    assert '\t' !in sha && '\t' !in ref && '\n' !in sha && '\n' !in ref;
    SplitOnce(sha, ref, '\t');
    SplitPlain(ref, '\t');
    hide Split;
  }

  lemma TrimsOneLineEnd(s: string)
    requires s != [] && !Space(s[0]) && !Space(s[|s| - 1])
    ensures Trim(s + "\n") == s
  {
    var t := s + "\n";
    assert t[0] == s[0] && t[|t| - 1] == '\n' && t[..|t| - 1] == s;
    assert Trim(s) == s;
  }

  /** Printed output reads as the lines it was printed from. */
  lemma PrintedLinesReadBack(state: RemoteState, tag: string)
    requires Plain(tag)
    ensures var lines := PrintedLines(state, tag);
      LinesOf(Printed(state, tag)) == if lines == [] then [[]] else lines
  {
    hide Shaped, Space, Split, Trim, IsSha;
    var lines := PrintedLines(state, tag);
    PlainRefs(tag);
    if state.main.Some? { PlainLine(state.main.value, MAIN); }
    if state.tag.Some? { PlainLine(state.tag.value, TagRef(tag)); }
    if state.peeled.Some? { PlainLine(state.peeled.value, PeeledRef(tag)); }
    hide LinesOf;
    assert forall i | 0 <= i < |lines| :: Clean(lines[i]);
    if lines != [] { CleanLinesReadBack(lines); } else { NothingPrinted(); }
  }

  /** A line that neither breaks nor loses anything when the text is trimmed. */
  predicate Clean(line: string) { line != [] && '\n' !in line && !Space(line[0]) && !Space(line[|line| - 1]) }

  lemma CleanLinesReadBack(lines: seq<string>)
    requires lines != [] && forall i | 0 <= i < |lines| :: Clean(lines[i])
    ensures LinesOf(Joined(lines, '\n') + "\n") == lines
  {
    hide Space, Split, Trim;
    JoinedEnds(lines, '\n');
    hide Joined;
    TrimsOneLineEnd(Joined(lines, '\n'));
    SplitJoin(lines, '\n');
  }

  lemma NothingPrinted()
    ensures LinesOf("") == [[]]
  {
  }

  lemma AddingLine(lines: seq<string>, tag: string, line: string)
    requires Tidy(lines, tag) && Shaped(line) && Expected(tag, RefOf(line)) && RefOf(line) !in Listed(lines)
    ensures Listed(lines + [line]) == Listed(lines)[RefOf(line) := ShaOf(line)] && Tidy(lines + [line], tag)
  {
    hide Shaped, Expected, Tidy, Listed;
    var more := lines + [line];
    assert more[..|lines|] == lines && more[..|more|] == more && more[|lines|] == line;
    OneMore(more, tag, |lines|);
    ListedMore(more, |lines|);
  }

  /** One more printed ref is one more listed ref. */
  lemma PrintingOneMore(lines: seq<string>, tag: string, sha: Option<Sha>, ref: string)
    requires Plain(tag) && Expected(tag, ref) && Tidy(lines, tag) && ref !in Listed(lines)
    ensures Listed(lines + Line(sha, ref)) == if sha.Some? then Listed(lines)[ref := sha.value] else Listed(lines)
    ensures Tidy(lines + Line(sha, ref), tag)
  {
    assert Plain(ref) && ref != [] by { PlainRefs(tag); }
    hide Shaped, Expected, IsSha, Tidy, Listed, Plain;
    if sha.Some? {
      PlainLine(sha.value, ref);
      AddingLine(lines, tag, sha.value + ['\t'] + ref);
    } else {
      assert lines + [] == lines;
    }
  }

  function Present(refs: Refs, sha: Option<Sha>, ref: string): Refs {
    if sha.Some? then refs[ref := sha.value] else refs
  }

  lemma PrintedIsListed(state: RemoteState, tag: string)
    requires Plain(tag)
    ensures Tidy(PrintedLines(state, tag), tag)
    ensures Listed(PrintedLines(state, tag)) ==
      Present(Present(Present(map[], state.main, MAIN), state.tag, TagRef(tag)), state.peeled, PeeledRef(tag))
  {
    hide Shaped, IsSha, Tidy, Listed, Line;
    PlainRefs(tag);
    NothingListed(tag);
    PrintingOneMore([], tag, state.main, MAIN);
    assert [] + Line(state.main, MAIN) == Line(state.main, MAIN);
    PrintingOneMore(Line(state.main, MAIN), tag, state.tag, TagRef(tag));
    PrintingOneMore(Line(state.main, MAIN) + Line(state.tag, TagRef(tag)), tag, state.peeled, PeeledRef(tag));
  }

  lemma NothingListed(tag: string)
    ensures Listed([]) == map[] && Tidy([], tag) && Listed([[]]) == map[] && Tidy([[]], tag)
  {
    var line: string := [];
    assert [line][..0] == [];
    EmptyLine();
  }

  /** The strict check of what a remote prints says whether the remote has both refs at the commit. */
  lemma PrintedVerifies(state: RemoteState, commit: string, tag: string)
    requires Plain(tag)
    ensures Verified(Printed(state, tag), commit, tag) <==> At(state, commit)
  {
    hide Tidy, Listed, Printed, LinesOf, IsSha;
    PlainRefs(tag);
    PrintedLinesReadBack(state, tag);
    PrintedIsListed(state, tag);
    NothingListed(tag);
  }

  lemma VersionTagIsPlain(version: string)
    requires Versions.IsStable(version)
    ensures Plain("v" + version)
  {
    hide Versions.IsStable;
    Versions.StableCharacters(version);
  }

  // ---------------------------------------------------------------- the push

  /**
   * What the world does at one command: others may move the refs first, a push takes effect as a whole or not at all,
   * and the exit code says what it likes.
   */
  datatype Turn = Turn(others: Option<RemoteState>, applied: bool, succeeds: bool)

  datatype LocalTag = Lightweight | Annotated(tagObject: Sha)

  function Released(commit: Sha, local: LocalTag): RemoteState {
    match local
    case Lightweight => RemoteState(Some(commit), Some(commit), None)
    case Annotated(tagObject) => RemoteState(Some(commit), Some(tagObject), Some(commit))
  }

  class Remote {
    const turns: nat -> Turn
    var clock: nat
    var state: RemoteState
    var seen: seq<Option<RemoteState>>
    var pushes: nat

    constructor (turns: nat -> Turn, state: RemoteState)
      ensures this.turns == turns && this.state == state && clock == 0 && seen == [] && pushes == 0
    {
      this.turns, this.state, clock, seen, pushes := turns, state, 0, [], 0;
    }

    function Moved(): RemoteState
      reads this
    {
      if turns(clock).others.Some? then turns(clock).others.value else state
    }

    /** `git ls-remote`: its output, unless the command fails. */
    method Query(tag: string) returns (output: Option<string>)
      modifies this
      ensures state == old(Moved()) && clock == old(clock) + 1 && pushes == old(pushes)
      ensures seen == old(seen) + [if turns(old(clock)).succeeds then Some(state) else None]
      ensures output == if turns(old(clock)).succeeds then Some(Printed(state, tag)) else None
    {
      state := Moved();
      var succeeds := turns(clock).succeeds;
      clock := clock + 1;
      seen := seen + [if succeeds then Some(state) else None];
      output := if succeeds then Some(Printed(state, tag)) else None;
    }

    /** `git push --atomic`: both refs or neither. */
    method Push(commit: Sha, local: LocalTag) returns (succeeds: bool)
      modifies this
      ensures state == if turns(old(clock)).applied then Released(commit, local) else old(Moved())
      ensures clock == old(clock) + 1 && pushes == old(pushes) + 1 && seen == old(seen) &&
        succeeds == turns(old(clock)).succeeds
    {
      state := if turns(clock).applied then Released(commit, local) else Moved();
      succeeds := turns(clock).succeeds;
      clock, pushes := clock + 1, pushes + 1;
    }
  }

  /** Nobody else moves the refs, and every query gets through. The push itself may report anything. */
  ghost predicate Undisturbed(turns: nat -> Turn, clock: nat) {
    && (forall k: nat | clock <= k < clock + 4 :: turns(k).others.None?)
    && turns(clock).succeeds && turns(clock + 2).succeeds && turns(clock + 3).succeeds
  }

  lemma ReleasedIsAt(local: LocalTag)
    ensures forall commit: Sha :: At(Released(commit, local), commit)
  {
  }

  lemma AtLeads(state: RemoteState, commit: string)
    requires At(state, commit)
    ensures Leads(state, commit)
  {
  }

  /** Main is at the commit and the tag leads to it, whether or not the tag itself is listed. */
  predicate Leads(state: RemoteState, commit: string) {
    state.main == Some(commit) && (if state.peeled.Some? then state.peeled else state.tag) == Some(commit)
  }

  /** After a push that reported failure: look again, and go on exactly if the remote leads to the commit. */
  method ReconcileFailedPush(commit: Sha, tag: string, prePushMain: string, prePushTag: string, remote: Remote)
    returns (disposition: Disposition)
    requires Plain(tag)
    modifies remote
    ensures remote.state == old(remote.Moved()) && remote.clock == old(remote.clock) + 1
    ensures remote.pushes == old(remote.pushes)
    ensures disposition == Committed <==> remote.turns(old(remote.clock)).succeeds && Leads(remote.state, commit)
  {
    hide IsSha, Printed, Listed, LinesOf, Plain, Leads;
    var after := remote.Query(tag);
    PrintedCarries(remote.state, commit, tag);
    var afterRefs: Refs := map[];
    if after.Some? { afterRefs := ParseLsRemoteRefs(after.value); }
    disposition := Reconcile(commit, prePushMain, prePushTag, after.Some?,
                             OrEmpty(Get(afterRefs, MAIN)), OrEmpty(Peeled(afterRefs, tag)));
    ShaIsNotEmpty(commit);
  }

  lemma ShaIsNotEmpty(sha: Sha)
    ensures sha != []
  {
  }

  /** The tolerant reading of what a remote prints says where the remote leads. */
  lemma PrintedCarries(state: RemoteState, commit: string, tag: string)
    requires Plain(tag)
    ensures Carries(Listed(LinesOf(Printed(state, tag))), commit, tag) <==> Leads(state, commit)
  {
    hide Tidy, Listed, Printed, LinesOf, IsSha, PrintedLines, Plain;
    PlainRefs(tag);
    PrintedLinesReadBack(state, tag);
    PrintedIsListed(state, tag);
    NothingListed(tag);
  }

  /** The last query, and the strict check of what it printed. */
  method VerifyRemote(commit: Sha, tag: string, remote: Remote) returns (r: Result<()>)
    requires Plain(tag)
    modifies remote
    ensures remote.state == old(remote.Moved()) && remote.clock == old(remote.clock) + 1
    ensures remote.pushes == old(remote.pushes)
    ensures r.Ok? <==> remote.turns(old(remote.clock)).succeeds && At(remote.state, commit)
    ensures r.Ok? ==> remote.seen == old(remote.seen) + [Some(remote.state)]
  {
    hide IsSha, Printed, Verified, Plain, At;
    var output := remote.Query(tag);
    if output.None? { return Rejected; }
    PrintedVerifies(remote.state, commit, tag);
    r := AssertAtomicPushRemoteState(output.value, commit, tag);
  }

  /**
   * `pushReleaseRefsAtomically`. Whatever happens, a normal return means that the last query found both refs at the
   * release commit; undisturbed, it returns normally exactly when the remote has them there, whatever the push said.
   */
  method PushReleaseRefsAtomically(head: string, parent: string, version: string, local: LocalTag, remote: Remote)
    returns (r: Result<()>)
    modifies remote
    ensures r.Ok? ==> && IsSha(head) && IsSha(parent) && Versions.IsStable(version)
                      && remote.seen != [] && remote.seen[|remote.seen| - 1] == Some(remote.state)
                      && At(remote.state, head)
    ensures remote.pushes <= old(remote.pushes) + 1
    ensures !remote.turns(old(remote.clock)).succeeds ==> remote.pushes == old(remote.pushes) && r.Rejected?
    ensures IsSha(head) && IsSha(parent) && Versions.IsStable(version) ==>
      Undisturbed(remote.turns, old(remote.clock)) ==>
      (r.Ok? <==> remote.turns(old(remote.clock) + 1).applied || At(old(remote.state), head))
  {
    hide IsSha, Versions.IsStable, Verified, Printed, Listed, LinesOf, At, Carries, Peeled, Get, Plain, Released, Leads;
    ReleasedIsAt(local);
    if !IsSha(head) || !Versions.IsStable(version) || !IsSha(parent) { return Rejected; }
    var tag := "v" + version;
    VersionTagIsPlain(version);
    var baseline := remote.Query(tag);
    if baseline.None? { return Rejected; }
    var baselineRefs := ParseLsRemoteRefs(baseline.value);
    var prePushMain, prePushTag := OrEmpty(Get(baselineRefs, MAIN)), OrEmpty(Peeled(baselineRefs, tag));
    var pushed := remote.Push(head, local);
    if !pushed {
      var disposition := ReconcileFailedPush(head, tag, prePushMain, prePushTag, remote);
      if At(remote.state, head) { AtLeads(remote.state, head); }
      if disposition.Preserve? { return Rejected; }
    }
    r := VerifyRemote(head, tag, remote);
  }
}
