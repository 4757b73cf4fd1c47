/**
 * What `writeImmutableBytes` reports when nothing goes wrong: no failing file system call, no crash, and temporary
 * names that nobody else uses.
 */
module ImmutableOutcome {
  import opened Common
  import opened ImmutableWrite

  /** The file system does what it is asked. */
  predicate Smooth(action: Action) {
    !action.WriteFails? && !action.LinkFails? && !action.ReadFails? && !action.RemoveFails? && !action.Crash?
  }

  ghost predicate SmoothNext(s: State, t: State) {
    exists w: nat, action :: Smooth(action) && Step(s, w, action) == Some(t)
  }

  /** Random temporary names: distinct, and none taken. */
  ghost predicate OwnNames(s: State) {
    && (forall v, w | 0 <= v < w < |s.writers| :: s.writers[v].temp != s.writers[w].temp)
    && (forall w | 0 <= w < |s.writers| && s.writers[w].phase.Start? :: s.writers[w].temp !in s.names)
  }

  ghost predicate SmoothRun(run: seq<State>) {
    && run != [] && Initial(run[0]) && OwnNames(run[0])
    && forall i | 0 < i < |run| :: SmoothNext(run[i - 1], run[i])
  }

  predicate Failed(phase: Phase) { (phase.Cleanup? && !phase.ok) || (phase.Done? && !phase.ok) }

  /** A writer fails only before a destination that holds something else. */
  ghost predicate Justified(s: State, w: nat)
    requires w < |s.writers|
  {
    var me := s.writers[w];
    !me.phase.Crashed? && (Failed(me.phase) ==> DESTINATION in s.names && !Holds(s, me.bytes))
  }

  ghost predicate Fair(s: State) {
    OwnNames(s) && forall w | 0 <= w < |s.writers| :: Justified(s, w)
  }

  lemma SmoothIsNext(s: State, t: State)
    requires SmoothNext(s, t)
    ensures Next(s, t)
  {
    hide Step;
    var w: nat, action :| Smooth(action) && Step(s, w, action) == Some(t);
    assert Step(s, w, action) == Some(t);
  }

  lemma {:induction false} SmoothRunIsRun(run: seq<State>)
    requires SmoothRun(run)
    ensures Run(run)
  {
    hide SmoothNext, Next, Initial, OwnNames;
    forall i | 0 < i < |run| ensures Next(run[i - 1], run[i]) { SmoothIsNext(run[i - 1], run[i]); }
  }

  /** The writer that takes the step. */
  lemma StepJustifiesSelf(s: State, w: nat, action: Action)
    requires Inv(s) && Fair(s) && Smooth(action) && Step(s, w, action).Some?
    ensures Justified(Step(s, w, action).value, w) && !Step(s, w, action).value.writers[w].phase.Start?
  {
    hide Disjoint;
    assert WriterInv(s, w) && Justified(s, w);
  }

  /** Every other writer. */
  lemma StepJustifiesOthers(s: State, t: State, w: nat, v: nat)
    requires Inv(s) && Fair(s) && Framed(s, t, w) && v < |s.writers| && v != w
    ensures Justified(t, v)
  {
    hide WriterInv, Disjoint, OwnNames;
    assert Justified(s, v);
    if DESTINATION in s.names { StepKeepsDestination(s, t, w); }
  }

  lemma StepKeepsNames(s: State, t: State, w: nat)
    requires Inv(s) && Fair(s) && Framed(s, t, w) && !t.writers[w].phase.Start?
    ensures OwnNames(t)
  {
    hide Justified, Disjoint, NamesAreBacked;
    forall v | 0 <= v < |t.writers| && t.writers[v].phase.Start? ensures t.writers[v].temp !in t.names {
      assert WriterInv(s, v) && t.writers[v] == s.writers[v];
      assert s.writers[v].temp != s.writers[w].temp;
    }
    forall u, v | 0 <= u < v < |t.writers| ensures t.writers[u].temp != t.writers[v].temp {
      assert s.writers[u].temp != s.writers[v].temp;
    }
  }

  lemma SmoothStepIsFair(s: State, t: State)
    requires Inv(s) && Fair(s) && SmoothNext(s, t)
    ensures Fair(t)
  {
    hide Step, Inv, Justified, OwnNames, Framed;
    var w: nat, action :| Smooth(action) && Step(s, w, action) == Some(t);
    StepIsFramed(s, w, action);
    StepJustifiesSelf(s, w, action);
    StepKeepsNames(s, t, w);
    FramedSize(s, t, w);
    forall v | 0 <= v < |t.writers| ensures Justified(t, v) {
      if v != w { StepJustifiesOthers(s, t, w, v); }
    }
  }

  lemma FramedSize(s: State, t: State, w: nat)
    requires Framed(s, t, w)
    ensures |t.writers| == |s.writers|
  {
  }

  lemma InitialIsFair(s: State)
    requires Initial(s) && OwnNames(s)
    ensures Fair(s)
  {
  }

  lemma {:induction false} SmoothRunIsFair(run: seq<State>, i: nat)
    requires SmoothRun(run) && i < |run|
    ensures Fair(run[i]) && Inv(run[i])
  {
    hide SmoothNext, Fair, Inv, OwnNames, Initial;
    SmoothRunIsRun(run);
    RunKeepsInv(run, i);
    if i == 0 {
      InitialIsFair(run[0]);
    } else {
      SmoothRunIsFair(run, i - 1);
      SmoothStepIsFair(run[i - 1], run[i]);
    }
  }

  /** A finished writer reports success exactly when the destination holds its bytes. */
  lemma OutcomeIsExact(run: seq<State>, i: nat, w: nat)
    requires SmoothRun(run) && i < |run| && w < |run[i].writers| && run[i].writers[w].phase.Done?
    ensures run[i].writers[w].phase.ok <==> Holds(run[i], run[i].writers[w].bytes)
  {
    hide Inv, SmoothRun;
    SmoothRunIsFair(run, i);
    assert Justified(run[i], w);
    if run[i].writers[w].phase.ok { SuccessIsShown(run[i], w); }
  }

  /** When all are finished and the destination is new, some writer succeeded. */
  lemma SomeoneSucceeds(run: seq<State>, i: nat)
    requires SmoothRun(run) && i < |run| && DESTINATION !in run[0].names
    requires run[i].writers != [] && forall w | 0 <= w < |run[i].writers| :: run[i].writers[w].phase.Done?
    ensures exists w | 0 <= w < |run[i].writers| :: run[i].writers[w].phase.ok
  {
    hide Inv, SmoothRun, Run;
    SmoothRunIsRun(run);
    SmoothRunIsFair(run, i);
    RunKeepsInv(run, i);
    assert Justified(run[i], 0);
    if !run[i].writers[0].phase.ok {
      DestinationIsNeverPartial(run, i);
      var v :| 0 <= v < |run[0].writers| && Holds(run[i], run[0].writers[v].bytes);
      OutcomeIsExact(run, i, v);
    }
  }

  // ---------------------------------------------------------------- what is left behind

  /** Besides what was there: the destination, and temporary names of writers that are at work. */
  ghost predicate Swept(first: State, s: State) {
    && |s.writers| == |first.writers|
    && (forall w | 0 <= w < |s.writers| :: s.writers[w].temp == first.writers[w].temp)
    && (forall n | n in first.names :: n in s.names)
    && (forall n | n in s.names && n !in first.names && n != DESTINATION ::
          exists w | 0 <= w < |s.writers| :: s.writers[w].temp == n)
    && (forall w | 0 <= w < |s.writers| && (s.writers[w].phase.Start? || s.writers[w].phase.Done?) ::
          s.writers[w].temp !in s.names)
  }

  lemma FirstIsSwept(s: State)
    requires Initial(s) && OwnNames(s)
    ensures Swept(s, s)
  {
  }

  /** A writer that finishes has removed its temporary file. */
  lemma FinishedHasRemoved(s: State, w: nat, action: Action)
    requires w < |s.writers| && Smooth(action) && Step(s, w, action).Some?
    requires s.writers[w].phase.Start? ==> s.writers[w].temp !in s.names
    ensures Step(s, w, action).value.writers[w].phase.Done? ==>
      s.writers[w].temp !in Step(s, w, action).value.names
  {
  }

  lemma StepSweeps(first: State, s: State, t: State, w: nat)
    requires Inv(s) && Fair(s) && Swept(first, s) && Framed(s, t, w) && !t.writers[w].phase.Start?
    requires t.writers[w].phase.Done? ==> t.writers[w].temp !in t.names
    requires s.writers[w].temp !in first.names
    ensures Swept(first, t)
  {
    hide Justified, Disjoint, NamesAreBacked;
    forall v | 0 <= v < |t.writers| && (t.writers[v].phase.Start? || t.writers[v].phase.Done?)
      ensures t.writers[v].temp !in t.names
    {
      assert WriterInv(s, v);
      if v != w {
        assert t.writers[v] == s.writers[v];
        assert s.writers[v].temp != s.writers[w].temp;
      }
    }
    forall n | n in t.names && n !in first.names && n != DESTINATION
      ensures exists v | 0 <= v < |t.writers| :: t.writers[v].temp == n
    {
      if n != s.writers[w].temp {
        var v :| 0 <= v < |s.writers| && s.writers[v].temp == n;
        assert t.writers[v].temp == n;
      }
    }
  }

  lemma {:induction false} SmoothRunIsSwept(run: seq<State>, i: nat)
    requires SmoothRun(run) && i < |run|
    ensures Swept(run[0], run[i])
  {
    hide SmoothNext, Fair, Inv, Framed, Step, Swept;
    if i == 0 {
      FirstIsSwept(run[0]);
    } else {
      SmoothRunIsSwept(run, i - 1);
      SmoothRunIsFair(run, i - 1);
      SmoothStepSweeps(run[0], run[i - 1], run[i]);
    }
  }

  lemma SmoothStepSweeps(first: State, s: State, t: State)
    requires OwnNames(first) && Inv(s) && Fair(s) && Swept(first, s) && SmoothNext(s, t)
    requires forall w | 0 <= w < |first.writers| :: first.writers[w].phase.Start?
    ensures Swept(first, t)
  {
    hide Step, Inv, Justified;
    var w: nat, action :| Smooth(action) && Step(s, w, action) == Some(t);
    StepIsFramed(s, w, action);
    StepJustifiesSelf(s, w, action);
    FinishedHasRemoved(s, w, action);
    assert first.writers[w].temp == s.writers[w].temp == t.writers[w].temp;
    StepSweeps(first, s, t, w);
  }

  /** Without writers nothing happens. */
  lemma {:induction false} WithoutWriters(run: seq<State>, i: nat)
    requires Run(run) && i < |run| && run[0].writers == []
    ensures run[i] == run[0]
  {
    if i > 0 {
      WithoutWriters(run, i - 1);
    }
  }

  /** When all are finished the directory holds what it held before, and the destination; no temporary file is left. */
  lemma NothingIsLeftBehind(run: seq<State>, i: nat)
    requires SmoothRun(run) && i < |run| && forall w | 0 <= w < |run[i].writers| :: run[i].writers[w].phase.Done?
    ensures run[i].names.Keys ==
      run[0].names.Keys + if run[0].writers == [] then {} else {DESTINATION}
  {
    hide Inv, SmoothRun;
    SmoothRunIsFair(run, i);
    SmoothRunIsSwept(run, i);
    if run[0].writers != [] {
      assert Justified(run[i], 0);
      OutcomeIsExact(run, i, 0);
      assert DESTINATION in run[i].names;
    } else {
      SmoothRunIsRun(run);
      WithoutWriters(run, i);
    }
  }

  // ---------------------------------------------------------------- nobody gets stuck

  lemma {:induction false} Bounded(used: set<nat>) returns (b: nat)
    ensures forall i | i in used :: i < b
  {
    if used == {} { return 0; }
    var x :| x in used;
    b := Bounded(used - {x});
    if b <= x { b := x + 1; }
    assert forall i | i in used :: i == x || i in used - {x};
  }

  /** A writer that is not finished can always go on without a fault, whatever the others have done. */
  lemma NobodyIsStuck(s: State, w: nat) returns (action: Action)
    requires Inv(s) && Fair(s) && w < |s.writers| && !s.writers[w].phase.Done?
    ensures Smooth(action) && Step(s, w, action).Some? && Step(s, w, action) != Some(s)
  {
    hide Disjoint, Holds;
    assert WriterInv(s, w) && Justified(s, w);
    var me := s.writers[w];
    match me.phase
    case Start =>
      var unused := Bounded(s.contents.Keys);
      action := Open(unused);
    case Writing(_, written) => action := if written < |me.bytes| then Write(1) else Close;
    case Closed(_) => action := Link;
    case Refused(_) => action := OpenExisting;
    case Reading(_, source, got) =>
      action := if |got| < |s.contents[source]| then ReadChunk(1) else Compare;
    case Cleanup(_, _) => action := Remove;
  }
}
