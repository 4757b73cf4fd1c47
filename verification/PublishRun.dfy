/**
 * Publishing the planned packages against a registry that may answer anything: `publishRetainedPackage`,
 * `publishExpectedEvidencePackages` and `reobserveExpectedEvidencePackages`. Every call to the outside is
 * logged; when the prepared answers run out the process has been killed.
 */
module PublishRun {
  import opened Common
  import opened Evidence
  import opened PublishPlan
  import Sorting
  import Versions

  datatype Channel = Stable | Nightly

  /** One look at the registry: nothing there, a package, or an exception that may be a visibility lag. */
  datatype Sighting = Absent | Present(o: Observation) | Failure(transient: bool)

  datatype Event =
    | ReadTarball(name: string, ok: bool)
    | Saw(name: string, what: Sighting)
    | Published(name: string, ok: bool)

  /** `assertExactRegistryObservation` passes. */
  predicate Exact(record: Record, o: Observation, channel: Channel) {
    && o.latestVersion.Some?
    && (channel.Stable? ==> Versions.NotBelow(record.version, o.latestVersion.value))
    && o.latestVersion.value == record.version
    && Classify(record, Some(o)) == Skip
  }

  /** What the registry shows of a package once it is released: the retained bytes, under the tag. */
  function AsReleased(record: Record): Observation {
    Observation(record.expectedSri, record.tarballSha512, record.manifestSha256, record.dependencies,
                Some(record.version))
  }

  /** A version the channel can release: only the stable channel compares it with the tag's. */
  predicate Releasable(record: Record, channel: Channel) { channel.Nightly? || Versions.IsStable(record.version) }

  /** Only that passes, and it always does for a version that the channel can release. */
  lemma ExactIsAsReleased(record: Record, o: Observation, channel: Channel)
    ensures Exact(record, o, channel) <==> o == AsReleased(record) && Releasable(record, channel)
  {
    hide Versions.IsStable, Versions.CompareStable;
    if Versions.IsStable(record.version) { Versions.CompareStableIsTripleOrder(record.version, record.version); }
    UnstableIsRefused(record.version);
  }

  lemma UnstableIsRefused(version: string)
    ensures Versions.NotBelow(version, version) ==> Versions.IsStable(version)
  {
    hide Versions.IsStable, Versions.CompareNumeric, Split;
  }

  function Most(retries: int): nat { if retries < 0 then 1 else retries + 1 }

  // ---------------------------------------------------------------- the outside world

  /** The retained files and the npm registry, with arbitrary answers prepared in advance. */
  class World {
    var tarballs: seq<bool>
    var sightings: seq<Sighting>
    var exits: seq<bool>
    var log: seq<Event>
    var killed: bool

    constructor (tarballs: seq<bool>, sightings: seq<Sighting>, exits: seq<bool>)
      ensures this.tarballs == tarballs && this.sightings == sightings && this.exits == exits
      ensures log == [] && !killed
    {
      this.tarballs, this.sightings, this.exits, this.log, this.killed := tarballs, sightings, exits, [], false;
    }

    /** Reading and validating the retained tarball. */
    method Read(name: string) returns (ok: Option<bool>)
      modifies this`tarballs, this`log, this`killed
      ensures ok.None? ==> old(tarballs) == [] && tarballs == [] && log == old(log) && killed
      ensures ok.Some? ==> old(tarballs) == [ok.value] + tarballs && log == old(log) + [ReadTarball(name, ok.value)]
      ensures ok.Some? ==> killed == old(killed)
    {
      if tarballs == [] {
        killed := true;
        return None;
      }
      ok := Some(tarballs[0]);
      tarballs := tarballs[1..];
      log := log + [ReadTarball(name, ok.value)];
    }

    method Observe(name: string) returns (what: Option<Sighting>)
      modifies this`sightings, this`log, this`killed
      ensures what.None? ==> old(sightings) == [] && sightings == [] && log == old(log) && killed
      ensures what.Some? ==> old(sightings) == [what.value] + sightings && log == old(log) + [Saw(name, what.value)]
      ensures what.Some? ==> killed == old(killed)
    {
      if sightings == [] {
        killed := true;
        return None;
      }
      what := Some(sightings[0]);
      sightings := sightings[1..];
      log := log + [Saw(name, what.value)];
    }

    method Publish(name: string) returns (ok: Option<bool>)
      modifies this`exits, this`log, this`killed
      ensures ok.None? ==> old(exits) == [] && exits == [] && log == old(log) && killed
      ensures ok.Some? ==> old(exits) == [ok.value] + exits && log == old(log) + [Published(name, ok.value)]
      ensures ok.Some? ==> killed == old(killed)
    {
      if exits == [] {
        killed := true;
        return None;
      }
      ok := Some(exits[0]);
      exits := exits[1..];
      log := log + [Published(name, ok.value)];
    }
  }

  // ---------------------------------------------------------------- one package

  /** Read the tarball, look, publish only if absent, then look again a bounded number of times. */
  ghost predicate PackageShape(events: seq<Event>, retries: int) {
    && (|events| > 0 ==> events[0].ReadTarball?)
    && (|events| > 1 ==> events[1].Saw?)
    && (|events| > 2 ==> events[1].what.Absent? && events[2].Published?)
    && (forall i | 3 <= i < |events| :: events[i].Saw?)
    && |events| <= 3 + Most(retries)
  }

  /** The last look showed exactly the expected package under its tag. */
  ghost predicate EndsExact(record: Record, channel: Channel, events: seq<Event>) {
    && events != []
    && var last := events[|events| - 1];
    last.Saw? && last.what.Present? && Exact(record, last.what.o, channel)
  }

  /** What one package adds to the log, and what its result rests on. */
  ghost predicate PackageLog(record: Record, channel: Channel, retries: int, events: seq<Event>, r: Result<Observation>)
  {
    && (forall i | 0 <= i < |events| :: events[i].name == record.name)
    && PackageShape(events, retries)
    && (r.Ok? <==> EndsExact(record, channel, events))
    && (r.Ok? ==> events[|events| - 1] == Saw(record.name, Present(r.value)))
  }

  /** A look after which the wait ends: the package, a lasting error, or no attempt left. */
  predicate Settles(what: Sighting, attempt: int, retries: int) {
    what.Present? || attempt >= retries || (what.Failure? && !what.transient)
  }

  /** The log itself shows why nothing more was done. */
  ghost predicate Finished(events: seq<Event>, retries: int) {
    || (|events| == 1 && events[0].ReadTarball? && !events[0].ok)
    || (|events| == 2 && events[1].Saw? && !events[1].what.Absent?)
    || (|events| == 4 && events[2].Published? && !events[2].ok)
    || (|events| >= 4 && events[2].Published? && events[2].ok && events[|events| - 1].Saw?
        && Settles(events[|events| - 1].what, |events| - 4, retries))
  }

  /** The bounded wait for the registry to show what was just published. */
  method AwaitVisible(world: World, record: Record, retries: int, ghost start: seq<Event>)
    returns (what: Option<Sighting>)
    requires start <= world.log && |world.log| == |start| + 3
    modifies world
    ensures start <= world.log && old(world.log) <= world.log
    ensures |world.log| <= |start| + 3 + Most(retries)
    ensures forall i | |start| + 3 <= i < |world.log| :: world.log[i].Saw? && world.log[i].name == record.name
    ensures forall i | |start| + 3 <= i < |world.log| - 1 :: !world.log[i].what.Present?
    ensures what.Some? ==> && |world.log| > |start| + 3 && world.log[|world.log| - 1] == Saw(record.name, what.value)
                           && Settles(what.value, |world.log| - |start| - 4, retries)
    ensures what.None? ==> world.killed && (|world.log| > |start| + 3 ==> !world.log[|world.log| - 1].what.Present?)
    ensures what.Some? ==> world.killed == old(world.killed)
  {
    var attempt := 0;
    while true
      invariant 0 <= attempt < Most(retries)
      invariant start <= world.log && old(world.log) <= world.log && |world.log| == |start| + 3 + attempt
      invariant forall i | |start| + 3 <= i < |world.log| :: world.log[i].Saw? && world.log[i].name == record.name
      invariant forall i | |start| + 3 <= i < |world.log| :: !world.log[i].what.Present?
      invariant world.killed == old(world.killed)
      decreases Most(retries) - attempt
    {
      what := world.Observe(record.name);
      if what.None? { return; }
      if what.value.Failure? {
        if !(attempt < retries && what.value.transient) { return; }
      } else if !what.value.Absent? || attempt >= retries {
        return;
      }
      attempt := attempt + 1;
    }
  }

  function Judge(record: Record, channel: Channel, o: Observation): Result<Observation> {
    if Exact(record, o, channel) then Ok(o) else Rejected
  }

  /** The part of `publishRetainedPackage` after the registry was found without the package. */
  method PublishAbsent(world: World, record: Record, channel: Channel, retries: int, ghost start: seq<Event>)
    returns (r: Result<Observation>)
    requires start <= world.log && |world.log| == |start| + 2
    requires world.log[|start|] == ReadTarball(record.name, true) && world.log[|start| + 1] == Saw(record.name, Absent)
    modifies world
    ensures start <= world.log
    ensures PackageLog(record, channel, retries, world.log[|start|..], r)
    ensures Finished(world.log[|start|..], retries) || world.killed
    ensures r.Ok? ==> world.killed == old(world.killed)
  {
    hide Exact, PackageLog, Finished;
    var exit := world.Publish(record.name);
    if exit.None? {
      StoppedBeforePublishing(record, channel, retries, start, world.log);
      return Rejected;
    }
    if !exit.value {
      ghost var published := world.log;
      var raced := world.Observe(record.name);
      assert published <= world.log && published[|start| + 2] == Published(record.name, false);
      RacedLog(record, channel, retries, start, world.log, raced);
      r := if raced.None? || !raced.value.Present? then Rejected else Judge(record, channel, raced.value.o);
      return;
    }
    ghost var before := world.log;
    assert before[|start| + 2] == Published(record.name, true);
    var observed := AwaitVisible(world, record, retries, start);
    assert before <= world.log;
    r := if observed.None? || !observed.value.Present? then Rejected else Judge(record, channel, observed.value.o);
    AwaitedLog(record, channel, retries, start, world.log, observed);
  }

  lemma StoppedBeforePublishing(record: Record, channel: Channel, retries: int, start: seq<Event>, log: seq<Event>)
    requires start <= log && |log| == |start| + 2
    requires log[|start|] == ReadTarball(record.name, true) && log[|start| + 1] == Saw(record.name, Absent)
    ensures PackageLog(record, channel, retries, log[|start|..], Rejected)
  {
    assert log[|start|..] == [log[|start|], log[|start| + 1]];
  }

  /** After a publication that failed: one more look, in case another publisher was faster. */
  lemma RacedLog(record: Record, channel: Channel, retries: int, start: seq<Event>, log: seq<Event>,
                 what: Option<Sighting>)
    requires start <= log && |log| == |start| + 3 + (if what.Some? then 1 else 0)
    requires log[|start|] == ReadTarball(record.name, true) && log[|start| + 1] == Saw(record.name, Absent)
    requires log[|start| + 2] == Published(record.name, false)
    requires what.Some? ==> log[|start| + 3] == Saw(record.name, what.value)
    ensures what.Some? ==> Finished(log[|start|..], retries)
    ensures PackageLog(record, channel, retries, log[|start|..],
              if what.None? || !what.value.Present? then Rejected else Judge(record, channel, what.value.o))
  {
    hide Exact, Settles;
    var events := log[|start|..];
    assert forall i | 0 <= i < |events| :: events[i] == log[|start| + i];
  }

  lemma AwaitedLog(record: Record, channel: Channel, retries: int, start: seq<Event>, log: seq<Event>,
                   what: Option<Sighting>)
    requires start <= log && |start| + 3 <= |log| <= |start| + 3 + Most(retries)
    requires log[|start|] == ReadTarball(record.name, true) && log[|start| + 1] == Saw(record.name, Absent)
    requires log[|start| + 2] == Published(record.name, true)
    requires forall i | |start| + 3 <= i < |log| :: log[i].Saw? && log[i].name == record.name
    requires what.Some? ==> && |log| > |start| + 3 && log[|log| - 1] == Saw(record.name, what.value)
                            && Settles(what.value, |log| - |start| - 4, retries)
    requires what.None? ==> |log| > |start| + 3 ==> !log[|log| - 1].what.Present?
    ensures what.Some? ==> Finished(log[|start|..], retries)
    ensures PackageLog(record, channel, retries, log[|start|..],
              if what.None? || !what.value.Present? then Rejected else Judge(record, channel, what.value.o))
  {
    hide Exact, Settles;
    var events := log[|start|..];
    assert forall i | 0 <= i < |events| :: events[i] == log[|start| + i];
  }

  lemma ReturnedAsReleased(record: Record, channel: Channel, retries: int, start: seq<Event>, log: seq<Event>,
                           r: Result<Observation>)
    requires start <= log && PackageLog(record, channel, retries, log[|start|..], r)
    ensures r.Ok? ==> r.value == AsReleased(record)
    ensures r.Ok? <==> && |log| > |start| && Releasable(record, channel)
                       && log[|log| - 1] == Saw(record.name, Present(AsReleased(record)))
  {
    hide Exact, AsReleased, Releasable, PackageShape;
    if r.Ok? { ExactIsAsReleased(record, r.value, channel); }
    ExactIsAsReleased(record, AsReleased(record), channel);
  }

  /**
   * `publishRetainedPackage`: it returns what the last look showed, exactly when that was the released package under
   * its tag, and stops only for cause.
   */
  method PublishRetained(world: World, record: Record, channel: Channel, retries: int) returns (r: Result<Observation>)
    modifies world
    ensures old(world.log) <= world.log
    ensures PackageLog(record, channel, retries, world.log[|old(world.log)|..], r)
    ensures Finished(world.log[|old(world.log)|..], retries) || world.killed
    ensures r.Ok? ==> world.killed == old(world.killed)
    ensures r.Ok? ==> r.value == AsReleased(record)
    ensures r.Ok? <==> && |world.log| > |old(world.log)| && Releasable(record, channel)
                       && world.log[|world.log| - 1] == Saw(record.name, Present(AsReleased(record)))
  {
    hide Exact;
    ghost var start := world.log;
    r := Rejected;
    var read := world.Read(record.name);
    if read == Some(true) {
      var existing := world.Observe(record.name);
      if existing.Some? && existing.value.Present? {
        r := Judge(record, channel, existing.value.o);
      } else if existing == Some(Absent) {
        r := PublishAbsent(world, record, channel, retries, start);
      }
    }
    ReturnedAsReleased(record, channel, retries, start, world.log, r);
  }

  // ---------------------------------------------------------------- the whole run

  /** No package is published twice. */
  ghost predicate PublishedOnce(log: seq<Event>) {
    forall i, j | 0 <= i < j < |log| && log[i].Published? && log[j].Published? :: log[i].name != log[j].name
  }

  /** Each publication directly follows a look that found the package absent. */
  ghost predicate OnlyWhenAbsent(log: seq<Event>) {
    forall i | 0 <= i < |log| && log[i].Published? :: i > 0 && log[i - 1] == Saw(log[i].name, Absent)
  }

  /** After its publication a package is looked at a bounded number of times. */
  ghost predicate LooksAreBounded(log: seq<Event>, retries: int) {
    forall i, j | 0 <= i < j < |log| && log[i].Published? && log[j].name == log[i].name :: j - i <= Most(retries)
  }

  /** Somewhere in the log the registry showed exactly this package. */
  ghost predicate SeenExact(record: Record, channel: Channel, log: seq<Event>) {
    exists j | 0 <= j < |log| ::
      log[j].name == record.name && log[j].Saw? && log[j].what.Present? && Exact(record, log[j].what.o, channel)
  }

  /** A package is published only after everything it depends on was seen exact. */
  ghost predicate DependenciesFirst(plan: seq<Record>, channel: Channel, log: seq<Event>) {
    forall i, r: Record, d: Record | 0 <= i < |log| && log[i].Published? && log[i].name == r.name
                     && r in plan && d in plan && DependsOn(r, d) ::
      SeenExact(d, channel, log[..i])
  }

  ghost predicate SafeLog(plan: seq<Record>, channel: Channel, retries: int, log: seq<Event>) {
    && PublishedOnce(log) && OnlyWhenAbsent(log) && LooksAreBounded(log, retries)
    && DependenciesFirst(plan, channel, log)
  }

  ghost predicate NamedBefore(plan: seq<Record>, k: nat, name: string)
    requires k <= |plan|
  {
    exists p | 0 <= p < k :: plan[p].name == name
  }

  /** The log so far speaks only of the first `k` packages, and those are all seen exact. */
  ghost predicate LogUpTo(plan: seq<Record>, k: nat, channel: Channel, log: seq<Event>)
    requires k <= |plan|
  {
    && (forall i | 0 <= i < |log| :: NamedBefore(plan, k, log[i].name))
    && (forall p | 0 <= p < k :: SeenExact(plan[p], channel, log))
  }

  lemma NewName(plan: seq<Record>, k: nat, channel: Channel, log: seq<Event>)
    requires k < |plan| && Sorting.DistinctBy(NameOf, plan) && LogUpTo(plan, k, channel, log)
    ensures forall i | 0 <= i < |log| :: log[i].name != plan[k].name
  {
    forall i | 0 <= i < |log| ensures log[i].name != plan[k].name {
      assert NamedBefore(plan, k, log[i].name);
      var p :| 0 <= p < k && plan[p].name == log[i].name;
      assert NameOf(plan[p]) != NameOf(plan[k]);
    }
  }

  lemma AppendKeepsLooks(plan: seq<Record>, k: nat, channel: Channel, retries: int, log: seq<Event>, events: seq<Event>)
    requires k < |plan| && PublishedOnce(log) && OnlyWhenAbsent(log) && LooksAreBounded(log, retries)
    requires forall i | 0 <= i < |log| :: log[i].name != plan[k].name
    requires forall i | 0 <= i < |events| :: events[i].name == plan[k].name
    requires PackageShape(events, retries)
    ensures PublishedOnce(log + events) && OnlyWhenAbsent(log + events) && LooksAreBounded(log + events, retries)
  {
    var all, n := log + events, |log|;
    assert forall i | 0 <= i < n :: all[i] == log[i];
    assert forall i | n <= i < |all| :: all[i] == events[i - n];
    forall i | 0 <= i < |all| && all[i].Published? ensures i < n || i == n + 2 {
      assert i >= n ==> events[i - n].Published?;
    }
  }

  /** By the time the next package of the plan is reached, everything it depends on has been seen exact. */
  lemma DependencyWasSeen(plan: seq<Record>, k: nat, channel: Channel, log: seq<Event>, longer: seq<Event>, d: Record)
    requires Respects(plan, plan) && k < |plan| && LogUpTo(plan, k, channel, log) && log <= longer
    requires d in plan && DependsOn(plan[k], d)
    ensures SeenExact(d, channel, longer)
  {
    hide DependsOn, SeenExact;
    assert d in plan[..k];
    var p :| 0 <= p < k && plan[..k][p] == d;
    SeenStays(d, channel, log, longer);
  }

  lemma AppendKeepsDependencies(plan: seq<Record>, k: nat, channel: Channel, log: seq<Event>, events: seq<Event>)
    requires Respects(plan, plan) && Sorting.DistinctBy(NameOf, plan) && k < |plan|
    requires LogUpTo(plan, k, channel, log) && DependenciesFirst(plan, channel, log)
    requires forall i | 0 <= i < |events| :: events[i].name == plan[k].name
    ensures DependenciesFirst(plan, channel, log + events)
  {
    hide SeenExact, DependsOn, Respects, LogUpTo, Sorting.DistinctBy;
    var all := log + events;
    forall i, r: Record, d: Record | 0 <= i < |all| && all[i].Published? && all[i].name == r.name
                     && r in plan && d in plan && DependsOn(r, d)
      ensures SeenExact(d, channel, all[..i])
    {
      if i < |log| {
        assert all[i] == log[i] && all[..i] == log[..i];
      } else {
        assert all[i] == events[i - |log|];
        SameRecord(plan, r, plan[k]);
        assert log <= all[..i];
        DependencyWasSeen(plan, k, channel, log, all[..i], d);
      }
    }
  }

  lemma SeenStays(record: Record, channel: Channel, log: seq<Event>, longer: seq<Event>)
    requires SeenExact(record, channel, log) && log <= longer
    ensures SeenExact(record, channel, longer)
  {
    hide Exact;
    var j :| 0 <= j < |log| && log[j].name == record.name && log[j].Saw? && log[j].what.Present? &&
             Exact(record, log[j].what.o, channel);
    assert longer[j] == log[j];
  }

  lemma LastIsSeen(record: Record, channel: Channel, log: seq<Event>, events: seq<Event>)
    requires EndsExact(record, channel, events) && events[|events| - 1].name == record.name
    ensures SeenExact(record, channel, log + events)
  {
    hide Exact;
    var all := log + events;
    assert all[|all| - 1] == events[|events| - 1];
  }

  lemma CompletedGrows(plan: seq<Record>, k: nat, channel: Channel, log: seq<Event>, events: seq<Event>)
    requires k < |plan| && LogUpTo(plan, k, channel, log) && EndsExact(plan[k], channel, events)
    requires forall i | 0 <= i < |events| :: events[i].name == plan[k].name
    ensures LogUpTo(plan, k + 1, channel, log + events)
  {
    hide Exact, SeenExact;
    var all := log + events;
    forall i | 0 <= i < |all| ensures NamedBefore(plan, k + 1, all[i].name) {
      if i < |log| { assert NamedBefore(plan, k, log[i].name); } else { assert all[i].name == plan[k].name; }
    }
    forall p | 0 <= p < k + 1 ensures SeenExact(plan[p], channel, all) {
      if p < k { SeenStays(plan[p], channel, log, all); } else { LastIsSeen(plan[k], channel, log, events); }
    }
  }

  /** The packages finished when the run stops, with what the registry showed of each. */
  ghost predicate Completed(plan: seq<Record>, k: nat, channel: Channel, observations: map<string, Observation>)
    requires k <= |plan|
  {
    && observations.Keys == (set p | 0 <= p < k :: plan[p].name)
    && forall p | 0 <= p < k :: plan[p].name in observations && Exact(plan[p], observations[plan[p].name], channel)
  }

  /** One more package keeps the log safe, whatever came of it. */
  lemma RunStep(plan: seq<Record>, k: nat, channel: Channel, retries: int, log: seq<Event>, events: seq<Event>,
                r: Result<Observation>)
    requires Respects(plan, plan) && Sorting.DistinctBy(NameOf, plan) && k < |plan|
    requires SafeLog(plan, channel, retries, log) && LogUpTo(plan, k, channel, log)
    requires PackageLog(plan[k], channel, retries, events, r)
    ensures SafeLog(plan, channel, retries, log + events)
    ensures r.Ok? ==> LogUpTo(plan, k + 1, channel, log + events) && Exact(plan[k], r.value, channel)
  {
    hide Respects, LogUpTo, PackageShape, Exact, DependenciesFirst, LooksAreBounded, PublishedOnce, OnlyWhenAbsent,
      Sorting.DistinctBy;
    NewName(plan, k, channel, log);
    AppendKeepsLooks(plan, k, channel, retries, log, events);
    AppendKeepsDependencies(plan, k, channel, log, events);
    if r.Ok? { CompletedGrows(plan, k, channel, log, events); }
  }

  lemma CompletedStep(plan: seq<Record>, k: nat, channel: Channel, observations: map<string, Observation>,
                      o: Observation)
    requires k < |plan| && Completed(plan, k, channel, observations) && Exact(plan[k], o, channel)
    requires forall p | 0 <= p < k :: plan[p].name != plan[k].name
    ensures Completed(plan, k + 1, channel, observations[plan[k].name := o])
  {
    hide Exact;
  }

  lemma NothingYet(plan: seq<Record>, channel: Channel, retries: int)
    ensures SafeLog(plan, channel, retries, []) && LogUpTo(plan, 0, channel, []) && Completed(plan, 0, channel, map[])
  {
  }

  lemma NamesDiffer(plan: seq<Record>, k: nat)
    requires Sorting.DistinctBy(NameOf, plan) && k < |plan|
    ensures forall p | 0 <= p < k :: plan[p].name != plan[k].name
  {
    assert forall p | 0 <= p < k :: NameOf(plan[p]) != NameOf(plan[k]);
  }

  /** The end of the log is a package that was given up, with the reason. */
  ghost predicate Halted(record: Record, channel: Channel, retries: int, log: seq<Event>) {
    exists n: nat | n <= |log| ::
      PackageLog(record, channel, retries, log[n..], Rejected) && Finished(log[n..], retries)
  }

  /**
   * `publishExpectedEvidencePackages` over a plan, stopping at the first failure or when killed. Whatever the
   * registry does, the log is safe, and the finished packages are a prefix of the plan.
   */
  method PublishAll(world: World, plan: seq<Record>, channel: Channel, retries: int)
    returns (k: nat, observations: map<string, Observation>)
    requires Respects(plan, plan) && Sorting.DistinctBy(NameOf, plan) && world.log == []
    modifies world
    ensures k <= |plan| && Completed(plan, k, channel, observations)
    ensures SafeLog(plan, channel, retries, world.log)
    ensures k < |plan| ==> world.killed || Halted(plan[k], channel, retries, world.log)
    ensures k == |plan| ==> world.killed == old(world.killed)
    ensures forall p | 0 <= p < k :: plan[p].name in observations
                                     && observations[plan[p].name] == AsReleased(plan[p])
  {
    hide Respects, Sorting.DistinctBy, Completed, SafeLog, LogUpTo, PackageLog, Finished, Exact;
    NothingYet(plan, channel, retries);
    k, observations := 0, map[];
    while k < |plan|
      invariant k <= |plan| && Completed(plan, k, channel, observations)
      invariant SafeLog(plan, channel, retries, world.log) && LogUpTo(plan, k, channel, world.log)
      invariant world.killed == old(world.killed)
      invariant forall p | 0 <= p < k :: plan[p].name in observations
                                         && observations[plan[p].name] == AsReleased(plan[p])
    {
      ghost var log := world.log;
      var r := PublishRetained(world, plan[k], channel, retries);
      ghost var events := world.log[|log|..];
      assert world.log == log + events;
      RunStep(plan, k, channel, retries, log, events, r);
      if r.Rejected? { return; }
      NamesDiffer(plan, k);
      CompletedStep(plan, k, channel, observations, r.value);
      observations := observations[plan[k].name := r.value];
      k := k + 1;
    }
  }

  /** At whatever point the run stops, what is finished needs nothing that is not. */
  lemma CompletedIsClosed(plan: seq<Record>, k: nat, r: Record, d: Record)
    requires Respects(plan, plan) && k <= |plan| && r in plan[..k] && d in plan && DependsOn(r, d)
    ensures d in plan[..k]
  {
    var i :| 0 <= i < k && plan[..k][i] == r;
    assert plan[i] == r;
    assert d in plan[..i];
    var j :| 0 <= j < i && plan[..i][j] == d;
    assert plan[..k][j] == d;
  }

  // ---------------------------------------------------------------- the final sweep

  /** The sweep that began at this place of the log ends with a look that was not exact. */
  ghost predicate SweepFailed(plan: seq<Record>, channel: Channel, start: nat, log: seq<Event>) {
    && start < |log| <= start + |plan|
    && log[|log| - 1].name == plan[|log| - start - 1].name
    && !EndsExact(plan[|log| - start - 1], channel, log)
  }

  /** From this place on, the log shows every package of the plan released under its tag, and nothing else. */
  ghost predicate ShownAsReleased(plan: seq<Record>, channel: Channel, start: nat, log: seq<Event>) {
    && |log| == start + |plan|
    && forall p | 0 <= p < |plan| ::
         Releasable(plan[p], channel) && log[start + p] == Saw(plan[p].name, Present(AsReleased(plan[p])))
  }

  /** `reobserveExpectedEvidencePackages`: one more look at every package, all of which must be exact. */
  method Reobserve(world: World, plan: seq<Record>, channel: Channel) returns (r: Result<map<string, Observation>>)
    requires Sorting.DistinctBy(NameOf, plan)
    modifies world
    ensures r.Ok? ==> Completed(plan, |plan|, channel, r.value)
    ensures r.Ok? ==> forall p | 0 <= p < |plan| ::
      plan[p].name in r.value && r.value[plan[p].name] == AsReleased(plan[p])
    ensures !world.killed ==> (r.Ok? <==> ShownAsReleased(plan, channel, |old(world.log)|, world.log))
    ensures old(world.log) <= world.log && |world.log| <= |old(world.log)| + |plan|
    ensures forall i | |old(world.log)| <= i < |world.log| :: world.log[i].Saw?
    ensures r.Rejected? ==> world.killed || SweepFailed(plan, channel, |old(world.log)|, world.log)
    ensures r.Ok? ==> world.killed == old(world.killed)
  {
    hide Completed, Exact, Sorting.DistinctBy, AsReleased, Releasable;
    NothingYet(plan, channel, 0);
    var observations: map<string, Observation> := map[];
    for k := 0 to |plan|
      invariant Completed(plan, k, channel, observations)
      invariant old(world.log) <= world.log && |world.log| == |old(world.log)| + k
      invariant forall i | |old(world.log)| <= i < |world.log| :: world.log[i].Saw?
      invariant world.killed == old(world.killed)
      invariant forall p | 0 <= p < k :: plan[p].name in observations
                                         && observations[plan[p].name] == AsReleased(plan[p])
      invariant forall p | 0 <= p < k :: && Releasable(plan[p], channel) && world.log[|old(world.log)| + p] ==
                                            Saw(plan[p].name, Present(AsReleased(plan[p])))
    {
      var what := world.Observe(plan[k].name);
      if what.Some? && what.value.Present? { ExactIsAsReleased(plan[k], what.value.o, channel); }
      if what.None? || !what.value.Present? || !Exact(plan[k], what.value.o, channel) { return Rejected; }
      NamesDiffer(plan, k);
      CompletedStep(plan, k, channel, observations, what.value.o);
      observations := observations[plan[k].name := what.value.o];
    }
    return Ok(observations);
  }

  /** A plan respects its own dependencies, so it can be run. */
  lemma PlanCanBeRun(records: seq<Record>, plan: seq<Record>)
    requires Respects(records, plan) && Sorting.DistinctBy(NameOf, records)
    ensures Respects(plan, plan) && Sorting.DistinctBy(NameOf, plan)
  {
    hide DependsOn;
    Sorting.PermutationKeepsDistinct(NameOf, records, plan);
    forall s | s in plan ensures s in records { assert s in multiset(plan); }
  }

  /** A completed sweep is all that final evidence needs, and the evidence then verifies. */
  lemma SweepFinalizes(release: Release, e: Expected, sha: string, plan: seq<Record>, channel: Channel,
                       observations: map<string, Observation>)
    requires ValidExpected(release, e) && LowerHex(sha, 64) && multiset(plan) == multiset(e.packages)
    requires Completed(plan, |plan|, channel, observations)
    ensures CreateFinal(release, e, sha, observations) == Ok(TheFinal(e, sha))
    ensures VerifyFinal(release, e, TheFinal(e, sha), sha)
  {
    hide ValidExpected, CreateFinal, VerifyFinal, LowerHex, Completed, Agrees, KnownName;
    forall i | 0 <= i < |e.packages| ensures Agrees(e.packages[i], observations) {
      assert e.packages[i] in multiset(plan);
      var p :| 0 <= p < |plan| && plan[p] == e.packages[i];
      ExactAgrees(plan, p, channel, observations);
    }
    forall name | name in observations ensures KnownName(release, name) {
      SweptIsKnown(release, e, plan, channel, observations, name);
    }
    CreatedEvidenceVerifies(release, e, sha, observations);
  }

  lemma SweptIsKnown(release: Release, e: Expected, plan: seq<Record>, channel: Channel,
                     observations: map<string, Observation>, name: string)
    requires ValidExpected(release, e) && multiset(plan) == multiset(e.packages)
    requires Completed(plan, |plan|, channel, observations) && name in observations
    ensures KnownName(release, name)
  {
    hide ValidExpected, Exact;
    var p :| 0 <= p < |plan| && plan[p].name == name;
    assert plan[p] in multiset(e.packages);
    var i :| 0 <= i < |e.packages| && e.packages[i] == plan[p];
    ExpectedIsKnown(release, e, i);
  }

  lemma ExactAgrees(plan: seq<Record>, p: nat, channel: Channel, observations: map<string, Observation>)
    requires p < |plan| && Completed(plan, |plan|, channel, observations)
    ensures Agrees(plan[p], observations)
  {
    assert plan[p].name in observations;
  }

  lemma ExpectedIsKnown(release: Release, e: Expected, i: nat)
    requires ValidExpected(release, e) && i < |e.packages|
    ensures KnownName(release, e.packages[i].name)
  {
    assert e.packages[i].name == release.definitions[i].name;
  }

  /** Why no document comes out: unfit evidence, no plan, a publication given up, or a sweep that did not match. */
  ghost predicate Refused(packages: seq<string>, release: Release, e: Expected, sha: string, channel: Channel,
                          retries: int, plan: seq<Record>, published: seq<Event>, log: seq<Event>)
  {
    || !ValidExpected(release, e) || !LowerHex(sha, 64)
    || !Matches(packages, release, e.packages) || !OneVersion(release, e.packages)
    || (exists c :: RecordCycle(e.packages, c))
    || (published == log && exists record :: record in plan && Halted(record, channel, retries, published))
    || SweepFailed(plan, channel, |published|, log)
  }

  /**
   * `publishFromExpectedEvidence` from evidence to evidence: plan, publish, sweep, finalise. Unless it is killed, it
   * returns the one document that verifies or is refused for cause; whether or not it returns, the publication log is
   * safe.
   */
  method PublishRelease(world: World, packages: seq<string>, release: Release, e: Expected, sha: string,
                        channel: Channel, retries: int)
    returns (r: Result<Final>, plan: seq<Record>, ghost published: seq<Event>)
    requires TableIsSound(release) && KeysAreDistinct(e.packages) && world.log == [] && !world.killed
    modifies world
    ensures r.Ok? ==> r.value == TheFinal(e, sha) && VerifyFinal(release, e, r.value, sha) && Respects(e.packages, plan)
    ensures r.Rejected? ==>
      world.killed || Refused(packages, release, e, sha, channel, retries, plan, published, world.log)
    ensures r.Ok? ==> ShownAsReleased(plan, channel, |published|, world.log)
    ensures published <= world.log && SafeLog(plan, channel, retries, published)
    ensures forall i | |published| <= i < |world.log| :: world.log[i].Saw?
  {
    hide Respects, SafeLog, Completed, ValidExpected, KeysAreDistinct, TableIsSound, Sorting.DistinctBy, VerifyFinal,
      CreateFinal, Halted, SweepFailed, Matches, OneVersion, RecordCycle;
    plan, published := [], [];
    NothingYet(plan, channel, retries);
    if !ValidExpected(release, e) || !LowerHex(sha, 64) { return Rejected, plan, published; }
    var planned := PlanPublication(packages, release, e.packages);
    if planned.Rejected? { return Rejected, plan, published; }
    plan := planned.value;
    MatchedNames(packages, release, e.packages);
    PlanCanBeRun(e.packages, plan);
    var k, _ := PublishAll(world, plan, channel, retries);
    published := world.log;
    if k < |plan| { return Rejected, plan, published; }
    var swept := Reobserve(world, plan, channel);
    if swept.Rejected? { return Rejected, plan, published; }
    PlanIsPermutation(e.packages, plan);
    SweepFinalizes(release, e, sha, plan, channel, swept.value);
    return CreateFinal(release, e, sha, swept.value), plan, published;
  }

  lemma MatchedNames(packages: seq<string>, release: Release, records: seq<Record>)
    requires Matches(packages, release, records)
    ensures Sorting.DistinctBy(NameOf, records)
  {
  }

  lemma PlanIsPermutation(records: seq<Record>, plan: seq<Record>)
    requires Respects(records, plan)
    ensures multiset(plan) == multiset(records)
  {
  }
}
