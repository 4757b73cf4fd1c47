/**
 * `writeImmutableBytes` run by any number of processes at once, each of which may stop at any point.
 * A file system step is atomic; steps of different processes interleave freely.
 */
module ImmutableWrite {
  import opened Common

  /** Names of directory entries; the destination is one of them. */
  type Name = nat

  const DESTINATION: Name := 0

  type Inode = nat

  datatype Phase =
    | Start
    | Writing(inode: Inode, written: nat)
    | Closed(inode: Inode)
    | Refused(inode: Inode)                                 // link failed with EEXIST
    | Reading(inode: Inode, source: Inode, got: Bytes)      // reading the file that was there first
    | Cleanup(inode: Inode, ok: bool)
    | Done(ok: bool)
    | Crashed

  datatype Writer = Writer(bytes: Bytes, temp: Name, phase: Phase)

  datatype State = State(names: map<Name, Inode>, contents: map<Inode, Bytes>, writers: seq<Writer>)

  /** What a writer does next, and how the file system answers. */
  datatype Action =
    | Open(inode: Inode)      // open(temp, "wx"), which allocates a fresh inode
    | Write(count: nat)       // some more of the bytes reach the file
    | WriteFails              // writing or closing the temporary file fails
    | Close
    | Link
    | LinkFails               // for a reason other than EEXIST
    | OpenExisting
    | ReadChunk(count: nat)
    | ReadFails
    | Compare
    | Remove
    | RemoveFails
    | Crash

  function Owned(phase: Phase): (r: Option<Inode>) {
    match phase
    case Writing(i, _) => Some(i)
    case Closed(i) => Some(i)
    case Refused(i) => Some(i)
    case Reading(i, _, _) => Some(i)
    case Cleanup(i, _) => Some(i)
    case _ => None
  }

  predicate Succeeded(phase: Phase) { (phase.Cleanup? && phase.ok) || (phase.Done? && phase.ok) }

  function SetPhase(s: State, w: nat, phase: Phase): State
    requires w < |s.writers|
  {
    s.(writers := s.writers[w := s.writers[w].(phase := phase)])
  }

  /** The state after writer `w` takes `action`, if it can. */
  function Step(s: State, w: nat, action: Action): (r: Option<State>) {
    if w >= |s.writers| then None
    else
      var me := s.writers[w];
      match (me.phase, action)
      case (Start, Open(inode)) =>
        if me.temp in s.names then Some(SetPhase(s, w, Done(false)))
        else if inode in s.contents then None
        else Some(SetPhase(s, w, Writing(inode, 0))
                  .(names := s.names[me.temp := inode], contents := s.contents[inode := []]))
      case (Writing(inode, written), Write(count)) =>
        if written + count > |me.bytes| then None
        else Some(SetPhase(s, w, Writing(inode, written + count))
                  .(contents := s.contents[inode := me.bytes[..written + count]]))
      case (Writing(inode, _), WriteFails) => Some(SetPhase(s, w, Cleanup(inode, false)))
      case (Writing(inode, written), Close) =>
        if written < |me.bytes| then None else Some(SetPhase(s, w, Closed(inode)))
      case (Closed(inode), Link) =>
        if DESTINATION in s.names then Some(SetPhase(s, w, Refused(inode)))
        else if me.temp !in s.names then Some(SetPhase(s, w, Cleanup(inode, false)))
        else Some(SetPhase(s, w, Cleanup(inode, true)).(names := s.names[DESTINATION := s.names[me.temp]]))
      case (Closed(inode), LinkFails) => Some(SetPhase(s, w, Cleanup(inode, false)))
      case (Refused(inode), OpenExisting) =>
        if DESTINATION !in s.names then Some(SetPhase(s, w, Cleanup(inode, false)))
        else Some(SetPhase(s, w, Reading(inode, s.names[DESTINATION], [])))
      case (Reading(inode, source, got), ReadChunk(count)) =>
        if source !in s.contents || |got| + count > |s.contents[source]| then None
        else Some(SetPhase(s, w, Reading(inode, source, got + s.contents[source][|got|..|got| + count])))
      case (Reading(inode, _, _), ReadFails) => Some(SetPhase(s, w, Cleanup(inode, false)))
      case (Refused(inode), ReadFails) => Some(SetPhase(s, w, Cleanup(inode, false)))
      case (Reading(inode, source, got), Compare) =>
        if source !in s.contents || |got| != |s.contents[source]| then None
        else Some(SetPhase(s, w, Cleanup(inode, got == me.bytes)))
      case (Cleanup(_, ok), Remove) => Some(SetPhase(s, w, Done(ok)).(names := s.names - {me.temp}))
      case (Cleanup(_, _), RemoveFails) => Some(SetPhase(s, w, Done(false)))
      case (_, Crash) => Some(SetPhase(s, w, Crashed))
      case _ => None
  }

  ghost predicate Next(s: State, t: State) {
    exists w: nat, action :: Step(s, w, action) == Some(t)
  }

  /** Nobody has started; the directory may hold anything, the destination included. */
  ghost predicate Initial(s: State) {
    && (forall n | n in s.names :: s.names[n] in s.contents)
    && forall w | 0 <= w < |s.writers| :: s.writers[w].phase.Start? && s.writers[w].temp != DESTINATION
  }

  ghost predicate Run(run: seq<State>) {
    && run != []
    && Initial(run[0])
    && forall i | 0 < i < |run| :: Next(run[i - 1], run[i])
  }

  // ---------------------------------------------------------------- the invariant

  ghost predicate NamesAreBacked(s: State) {
    forall n | n in s.names :: s.names[n] in s.contents
  }

  /** A writer holds its temporary name and, once closed, its file holds all of its bytes. */
  ghost predicate WriterInv(s: State, w: nat)
    requires w < |s.writers|
  {
    var me := s.writers[w];
    && me.temp != DESTINATION
    && (Owned(me.phase).Some? ==>
          var inode := Owned(me.phase).value;
          && me.temp in s.names && s.names[me.temp] == inode && inode in s.contents
          && (me.phase.Writing? ==> me.phase.written <= |me.bytes| && s.contents[inode] == me.bytes[..me.phase.written]
                                    && (DESTINATION in s.names ==> s.names[DESTINATION] != inode))
          && (me.phase.Closed? ==> s.contents[inode] == me.bytes))
    && (me.phase.Refused? ==> DESTINATION in s.names)
    && (me.phase.Reading? ==> DestinationIs(s, me.phase.source) && me.phase.got <= s.contents[me.phase.source])
    && (Succeeded(me.phase) ==> Holds(s, me.bytes))
  }

  ghost predicate DestinationIs(s: State, inode: Inode) {
    DESTINATION in s.names && s.names[DESTINATION] == inode && inode in s.contents
  }

  /** The destination is there, with exactly these bytes. */
  ghost predicate Holds(s: State, bytes: Bytes) {
    DESTINATION in s.names && s.names[DESTINATION] in s.contents && s.contents[s.names[DESTINATION]] == bytes
  }

  /** No two writers hold the same temporary name or file. */
  ghost predicate Disjoint(s: State) {
    forall v, w | 0 <= v < w < |s.writers| && Owned(s.writers[v].phase).Some? && Owned(s.writers[w].phase).Some? ::
      s.writers[v].temp != s.writers[w].temp && Owned(s.writers[v].phase) != Owned(s.writers[w].phase)
  }

  ghost predicate Inv(s: State) {
    NamesAreBacked(s) && Disjoint(s) && forall w | 0 <= w < |s.writers| :: WriterInv(s, w)
  }

  lemma InitialInv(s: State)
    requires Initial(s)
    ensures Inv(s)
  {
  }

  /** All that a step of writer `w` can touch. */
  ghost predicate Framed(s: State, t: State, w: nat) {
    && w < |s.writers| == |t.writers|
    && var me, now := s.writers[w], t.writers[w];
    && now.bytes == me.bytes && now.temp == me.temp
    && (forall v | 0 <= v < |s.writers| && v != w :: t.writers[v] == s.writers[v])
    && (forall n | n != DESTINATION && n != me.temp :: n in t.names <==> n in s.names)
    && (forall n | n in s.names && n in t.names :: t.names[n] == s.names[n])
    && (forall i | i in s.contents :: i in t.contents)
    && (forall i | i in s.contents && !(me.phase.Writing? && me.phase.inode == i) :: t.contents[i] == s.contents[i])
    && (Owned(me.phase).None? && me.temp in s.names ==> t.names == s.names)
    && (Owned(now.phase).Some? && Owned(now.phase) != Owned(me.phase) ==>
          me.phase.Start? && Owned(now.phase).value !in s.contents && me.temp !in s.names)
    && (DESTINATION in s.names ==> DESTINATION in t.names)
    && (DESTINATION !in s.names && DESTINATION in t.names ==>
        me.phase.Closed? && t.names[DESTINATION] == me.phase.inode)
    && NamesAreBacked(t)
  }

  lemma OpenIsFramed(s: State, w: nat, action: Action)
    requires Inv(s) && action.Open? && Step(s, w, action).Some?
    ensures Framed(s, Step(s, w, action).value, w)
  {
    assert WriterInv(s, w);
  }

  lemma WriteIsFramed(s: State, w: nat, action: Action)
    requires Inv(s) && action.Write? && Step(s, w, action).Some?
    ensures Framed(s, Step(s, w, action).value, w)
  {
    assert WriterInv(s, w);
  }

  lemma LinkIsFramed(s: State, w: nat, action: Action)
    requires Inv(s) && action.Link? && Step(s, w, action).Some?
    ensures Framed(s, Step(s, w, action).value, w)
  {
    assert WriterInv(s, w);
  }

  lemma RemoveIsFramed(s: State, w: nat, action: Action)
    requires Inv(s) && action.Remove? && Step(s, w, action).Some?
    ensures Framed(s, Step(s, w, action).value, w)
  {
    assert WriterInv(s, w);
  }

  /** Every other action changes only what the writer itself remembers. */
  lemma QuietStep(s: State, w: nat, action: Action)
    requires !action.Open? && !action.Write? && !action.Link? && !action.Remove? && Step(s, w, action).Some?
    ensures w < |s.writers|
    ensures exists phase :: && Step(s, w, action).value == SetPhase(s, w, phase)
                            && (Owned(phase).Some? ==> Owned(phase) == Owned(s.writers[w].phase))
  {
    var t := Step(s, w, action).value;
    assert t == SetPhase(s, w, t.writers[w].phase);
  }

  lemma StepIsFramed(s: State, w: nat, action: Action)
    requires Inv(s) && Step(s, w, action).Some?
    ensures Framed(s, Step(s, w, action).value, w)
  {
    hide Step, Inv, Framed;
    match action
    case Open(_) => OpenIsFramed(s, w, action);
    case Write(_) => WriteIsFramed(s, w, action);
    case Link => LinkIsFramed(s, w, action);
    case Remove => RemoveIsFramed(s, w, action);
    case _ => QuietIsFramed(s, w, action);
  }

  lemma QuietIsFramed(s: State, w: nat, action: Action)
    requires Inv(s) && Step(s, w, action).Some?
    requires !action.Open? && !action.Write? && !action.Link? && !action.Remove?
    ensures Framed(s, Step(s, w, action).value, w)
  {
    hide Step, WriterInv, Disjoint;
    QuietStep(s, w, action);
  }

  /** Whatever step is taken, a destination that is there stays, with the same bytes. */
  lemma StepKeepsDestination(s: State, t: State, w: nat)
    requires Inv(s) && Framed(s, t, w) && DESTINATION in s.names
    ensures DestinationIs(t, s.names[DESTINATION]) && Holds(t, s.contents[s.names[DESTINATION]])
  {
    assert WriterInv(s, w);
  }

  lemma StepKeepsOthers(s: State, t: State, w: nat, v: nat)
    requires Inv(s) && Framed(s, t, w) && v < |s.writers| && v != w
    ensures WriterInv(t, v)
  {
    assert WriterInv(s, w) && WriterInv(s, v);
    if DESTINATION in s.names { StepKeepsDestination(s, t, w); }
    var me, other := s.writers[w], s.writers[v];
    assert Owned(other.phase).Some? && Owned(me.phase).Some? ==>
           other.temp != me.temp && Owned(other.phase) != Owned(me.phase);
  }

  /** Creating and filling the temporary file. */
  lemma WritingKeepsSelf(s: State, w: nat, action: Action)
    requires Inv(s) && Step(s, w, action).Some?
    requires action.Open? || action.Write? || action.WriteFails? || action.Close?
    ensures WriterInv(Step(s, w, action).value, w)
  {
    hide Disjoint;
    assert WriterInv(s, w);
  }

  /** Claiming the destination. */
  lemma LinkingKeepsSelf(s: State, w: nat, action: Action)
    requires Inv(s) && Step(s, w, action).Some? && (action.Link? || action.LinkFails?)
    ensures WriterInv(Step(s, w, action).value, w)
  {
    hide Disjoint;
    assert WriterInv(s, w);
  }

  /** Reading what was there first. */
  lemma ReadingKeepsSelf(s: State, w: nat, action: Action)
    requires Inv(s) && Step(s, w, action).Some?
    requires action.OpenExisting? || action.ReadChunk? || action.ReadFails? || action.Compare?
    ensures WriterInv(Step(s, w, action).value, w)
  {
    hide Disjoint;
    assert WriterInv(s, w);
  }

  /** Cleaning up, or stopping. */
  lemma EndingKeepsSelf(s: State, w: nat, action: Action)
    requires Inv(s) && Step(s, w, action).Some? && (action.Remove? || action.RemoveFails? || action.Crash?)
    ensures WriterInv(Step(s, w, action).value, w)
  {
    hide Disjoint;
    assert WriterInv(s, w);
  }

  lemma StepKeepsSelf(s: State, w: nat, action: Action)
    requires Inv(s) && Step(s, w, action).Some?
    ensures WriterInv(Step(s, w, action).value, w)
  {
    hide Step, Inv;
    if action.Open? || action.Write? || action.WriteFails? || action.Close? {
      WritingKeepsSelf(s, w, action);
    } else if action.Link? || action.LinkFails? {
      LinkingKeepsSelf(s, w, action);
    } else if action.OpenExisting? || action.ReadChunk? || action.ReadFails? || action.Compare? {
      ReadingKeepsSelf(s, w, action);
    } else {
      EndingKeepsSelf(s, w, action);
    }
  }

  lemma StepKeepsDisjoint(s: State, t: State, w: nat)
    requires Inv(s) && Framed(s, t, w)
    ensures NamesAreBacked(t) && Disjoint(t)
  {
    assert WriterInv(s, w);
    forall u, v | 0 <= u < v < |t.writers| && Owned(t.writers[u].phase).Some? && Owned(t.writers[v].phase).Some?
      ensures t.writers[u].temp != t.writers[v].temp && Owned(t.writers[u].phase) != Owned(t.writers[v].phase)
    {
      assert WriterInv(s, u) && WriterInv(s, v);
    }
  }

  lemma StepKeepsInv(s: State, w: nat, action: Action)
    requires Inv(s) && Step(s, w, action).Some?
    ensures Inv(Step(s, w, action).value)
  {
    hide Step;
    var t := Step(s, w, action).value;
    StepIsFramed(s, w, action);
    hide WriterInv;
    StepKeepsDisjoint(s, t, w);
    forall v | 0 <= v < |t.writers| ensures WriterInv(t, v) {
      if v == w { StepKeepsSelf(s, w, action); } else { StepKeepsOthers(s, t, w, v); }
    }
  }

  // ---------------------------------------------------------------- whole runs

  lemma NextKeepsInv(s: State, t: State)
    requires Inv(s) && Next(s, t)
    ensures Inv(t) && |t.writers| == |s.writers|
    ensures forall v | 0 <= v < |s.writers| :: t.writers[v].bytes == s.writers[v].bytes
    ensures DESTINATION in s.names ==> Holds(t, s.contents[s.names[DESTINATION]])
  {
    hide Step, Inv;
    var w: nat, action :| Step(s, w, action) == Some(t);
    StepKeepsInv(s, w, action);
    StepIsFramed(s, w, action);
    if DESTINATION in s.names { StepKeepsDestination(s, t, w); }
  }

  lemma {:induction false} RunKeepsInv(run: seq<State>, i: nat)
    requires Run(run) && i < |run|
    ensures Inv(run[i]) && |run[i].writers| == |run[0].writers|
    ensures forall v | 0 <= v < |run[0].writers| :: run[i].writers[v].bytes == run[0].writers[v].bytes
  {
    hide Next, Inv;
    if i == 0 {
      InitialInv(run[0]);
    } else {
      RunKeepsInv(run, i - 1);
      NextKeepsInv(run[i - 1], run[i]);
    }
  }

  /** Once the destination is there, it never changes again. */
  lemma {:induction false} DestinationNeverChanges(run: seq<State>, i: nat, j: nat, bytes: Bytes)
    requires Run(run) && i <= j < |run| && Holds(run[i], bytes)
    ensures Holds(run[j], bytes)
    decreases j - i
  {
    hide Next, Inv;
    if i < j {
      DestinationNeverChanges(run, i, j - 1, bytes);
      RunKeepsInv(run, j - 1);
      NextKeepsInv(run[j - 1], run[j]);
    }
  }

  /** The step that makes the destination appear shows all the bytes of the writer that took it. */
  lemma DestinationAppearsWhole(s: State, t: State)
    requires Inv(s) && Next(s, t) && DESTINATION !in s.names && DESTINATION in t.names
    ensures exists v | 0 <= v < |s.writers| :: Holds(t, s.writers[v].bytes)
  {
    hide Step;
    var w: nat, action :| Step(s, w, action) == Some(t);
    StepIsFramed(s, w, action);
    assert WriterInv(s, w);
    assert Holds(t, s.writers[w].bytes);
  }

  /** A destination that was not there at the start only ever shows the complete bytes of some writer. */
  lemma {:induction false} DestinationIsNeverPartial(run: seq<State>, i: nat)
    requires Run(run) && i < |run| && DESTINATION !in run[0].names && DESTINATION in run[i].names
    ensures exists v | 0 <= v < |run[0].writers| :: Holds(run[i], run[0].writers[v].bytes)
  {
    hide Next, Inv;
    RunKeepsInv(run, i - 1);
    RunKeepsInv(run, i);
    if DESTINATION in run[i - 1].names {
      DestinationIsNeverPartial(run, i - 1);
      var v :| 0 <= v < |run[0].writers| && Holds(run[i - 1], run[0].writers[v].bytes);
      DestinationNeverChanges(run, i - 1, i, run[0].writers[v].bytes);
    } else {
      DestinationAppearsWhole(run[i - 1], run[i]);
    }
  }

  lemma SuccessIsShown(s: State, w: nat)
    requires Inv(s) && w < |s.writers| && Succeeded(s.writers[w].phase)
    ensures Holds(s, s.writers[w].bytes)
  {
    assert WriterInv(s, w);
  }

  /** Two writers that both report success, at whatever times, were given the same bytes. */
  lemma SuccessfulWritersAgree(run: seq<State>, i: nat, j: nat, v: nat, w: nat)
    requires Run(run) && i <= j < |run| && v < |run[0].writers| && w < |run[0].writers|
    requires v < |run[i].writers| && Succeeded(run[i].writers[v].phase)
    requires w < |run[j].writers| && Succeeded(run[j].writers[w].phase)
    ensures run[0].writers[v].bytes == run[0].writers[w].bytes
    ensures Holds(run[j], run[0].writers[w].bytes)
  {
    hide Next, Inv;
    RunKeepsInv(run, i);
    RunKeepsInv(run, j);
    SuccessIsShown(run[i], v);
    SuccessIsShown(run[j], w);
    DestinationNeverChanges(run, i, j, run[0].writers[v].bytes);
  }
}
