/**
 * The affected-path plan: one job builds it, serialises it and emits flags; other jobs load it again, refuse what does
 * not fit, and recompute the flags.
 */
module AffectedPlan {
  import opened Common
  import opened Splitting
  import opened Sorting
  import opened RepoPaths
  import opened InventoryPaths
  import opened RawPaths

  // ---------------------------------------------------------------- tasks

  datatype Phase = Legacy | NativeProducer | TsBuild | CargoBuild | Python

  datatype Capabilities = Capabilities(rust: bool, nextest: bool, nativeConsumer: bool, nativeProducer: bool)

  /** A task as planned. */
  datatype Task = Task(key: string, identity: Option<string>, description: string, command: seq<string>,
                       cwd: Option<Path>, capabilities: Option<Capabilities>, phase: Option<Phase>)

  /** A task as the plan file has it. */
  datatype PlannedTask = PlannedTask(key: string, identity: string, description: string, command: seq<string>,
                                     cwd: string, capabilities: Capabilities, phase: Phase)

  predicate NativeBuildKey(key: string) { key == "native-build" || key == "native-linux-x64" }

  predicate NeedsNative(key: string) {
    || key == "python-test" || key == "root-test" || key == "root-test:release" || key == "release-publish-contract"
    || key == "root-check" || key == "check:@gajae-code/coding-agent" || key == "cli-smoke" || key == "runtime-check"
    || key == "wrapper-version" || key == "deep-interview-definitions" || key == "deep-interview-runtime"
    || key == "sdk-package-smoke" || "test:" <= key
  }

  predicate RustTestKey(key: string) { key == "rust-test" || "rust-test:partition-" <= key }

  predicate NeedsRust(key: string) {
    || key == "rust-check" || RustTestKey(key) || key == "ci-selftest" || key == "ci-dry-run"
    || key == "affected-selftest" || key == "affected-dry-run"
  }

  function CapabilitiesOf(t: Task): Capabilities {
    match t.capabilities
    case Some(c) => c
    case None => Capabilities(NeedsRust(t.key), RustTestKey(t.key), NeedsNative(t.key), NativeBuildKey(t.key))
  }

  /** The working directory, as the plan file has it. */
  function CwdOf(site: Site, t: Task): string {
    var relative := if t.cwd.Some? then RelativeText(site.root, t.cwd.value) else "";
    if relative == "" then "." else relative
  }

  /** `toBase64Url`: different texts have different codes, and no code holds a colon. */
  ghost predicate Encoding(code: string -> string) {
    (forall x, y :: code(x) == code(y) ==> x == y) && forall x :: ':' !in code(x)
  }

  /** Where the repository is, and how identities are encoded. */
  datatype Site = Site(root: Path, code: string -> string)

  function Identity(site: Site, domain: string, id: string, location: string): string {
    domain + ([':'] + (site.code(id) + [':'] + site.code(location)))
  }

  function CanonicalIdentity(site: Site, t: Task): string {
    if t.identity.Some? then t.identity.value else Identity(site, "legacy", t.key, CwdOf(site, t))
  }

  function SerializeTask(site: Site, t: Task): PlannedTask {
    PlannedTask(t.key, CanonicalIdentity(site, t), t.description, t.command, CwdOf(site, t), CapabilitiesOf(t),
                if t.phase.Some? then t.phase.value else Legacy)
  }

  function Serialize(site: Site, tasks: seq<Task>): (r: seq<PlannedTask>)
    ensures |r| == |tasks| && forall i | 0 <= i < |r| :: r[i] == SerializeTask(site, tasks[i])
  {
    seq(|tasks|, i requires 0 <= i < |tasks| => SerializeTask(site, tasks[i]))
  }

  // ---------------------------------------------------------------- reading tasks back

  function DeserializeTask(site: Site, p: PlannedTask): Result<Task> {
    if p.identity == "" then Rejected
    else if p.cwd != "." && NormalizeInventoryPath(p.cwd).Rejected? then Rejected
    else Ok(Task(p.key, Some(p.identity), p.description, p.command, Some(Resolve(site.root, p.cwd)),
                 Some(p.capabilities), Some(p.phase)))
  }

  function Deserialize(site: Site, ps: seq<PlannedTask>): (r: Result<seq<Task>>)
    ensures r.Ok? ==> |r.value| == |ps| && forall i | 0 <= i < |ps| :: DeserializeTask(site, ps[i]) == Ok(r.value[i])
  {
    if exists i | 0 <= i < |ps| :: DeserializeTask(site, ps[i]).Rejected? then Rejected
    else Ok(seq(|ps|, i requires 0 <= i < |ps| => DeserializeTask(site, ps[i]).value))
  }

  /** The task's directory is the repository or one that the reader accepts. */
  predicate ReadableCwd(site: Site, t: Task) { CwdOf(site, t) == "." || NormalizeInventoryPath(CwdOf(site, t)).Ok? }

  lemma IdentityIsNotEmpty(site: Site, t: Task)
    requires t.identity != Some("")
    ensures CanonicalIdentity(site, t) != ""
  {
  }

  /** The directory that was read is written as it was. */
  lemma CwdSurvives(site: Site, t: Task)
    ensures CwdOf(site, t.(cwd := Some(Resolve(site.root, CwdOf(site, t))))) == CwdOf(site, t)
  {
    hide Resolve, RelativeText;
    ResolveHere(site.root);
    if t.cwd.Some? { ResolveRelative(site.root, t.cwd.value); }
  }

  /** A loaded task is the planned one, with the defaults of what was not set written out. */
  ghost predicate SameTask(site: Site, planned: Task, loaded: Task) {
    && loaded.key == planned.key && loaded.description == planned.description && loaded.command == planned.command
    && loaded.cwd == Some(if planned.cwd.Some? then planned.cwd.value else site.root)
    && loaded.capabilities == Some(CapabilitiesOf(planned))
    && loaded.phase == Some(if planned.phase.Some? then planned.phase.value else Legacy)
    && loaded.identity == Some(CanonicalIdentity(site, planned))
  }

  /** As many tasks, in the same order. */
  ghost predicate SameTasks(site: Site, planned: seq<Task>, loaded: seq<Task>) {
    |loaded| == |planned| && forall i | 0 <= i < |planned| :: SameTask(site, planned[i], loaded[i])
  }

  lemma ReadTask(site: Site, t: Task)
    requires DeserializeTask(site, SerializeTask(site, t)).Ok?
    ensures SameTask(site, t, DeserializeTask(site, SerializeTask(site, t)).value)
  {
    hide NormalizeInventoryPath, Resolve, RelativeText, CapabilitiesOf;
    ResolveHere(site.root);
    if t.cwd.Some? { ResolveRelative(site.root, t.cwd.value); }
  }

  lemma ReadTasks(site: Site, tasks: seq<Task>)
    requires Deserialize(site, Serialize(site, tasks)).Ok?
    ensures SameTasks(site, tasks, Deserialize(site, Serialize(site, tasks)).value)
  {
    hide DeserializeTask, SerializeTask, SameTask;
    forall i | 0 <= i < |tasks|
      ensures SameTask(site, tasks[i], Deserialize(site, Serialize(site, tasks)).value[i])
    {
      ReadTask(site, tasks[i]);
    }
  }

  lemma ReadTaskIsWrittenAlike(site: Site, t: Task)
    requires t.identity != Some("")
    ensures DeserializeTask(site, SerializeTask(site, t)).Ok? <==> ReadableCwd(site, t)
    ensures ReadableCwd(site, t) ==>
      SerializeTask(site, DeserializeTask(site, SerializeTask(site, t)).value) == SerializeTask(site, t)
  {
    hide NormalizeInventoryPath, Resolve, RelativeText;
    IdentityIsNotEmpty(site, t);
    CwdSurvives(site, t);
  }

  /** What is written can be read exactly when the directories are readable, and writing it again changes nothing. */
  lemma SerializeIsFixedPoint(site: Site, tasks: seq<Task>)
    requires forall t | t in tasks :: t.identity != Some("")
    ensures var read := Deserialize(site, Serialize(site, tasks));
      && (read.Ok? <==> forall t | t in tasks :: ReadableCwd(site, t))
      && (read.Ok? ==> SameTasks(site, tasks, read.value) && Serialize(site, read.value) == Serialize(site, tasks))
  {
    hide ReadableCwd, DeserializeTask, SerializeTask, SameTasks;
    var ps := Serialize(site, tasks);
    var read := Deserialize(site, ps);
    if read.Ok? { ReadTasks(site, tasks); }
    forall i | 0 <= i < |tasks|
      ensures DeserializeTask(site, ps[i]).Ok? <==> ReadableCwd(site, tasks[i])
      ensures ReadableCwd(site, tasks[i]) ==> SerializeTask(site, DeserializeTask(site, ps[i]).value) == ps[i]
    {
      assert tasks[i] in tasks;
      ReadTaskIsWrittenAlike(site, tasks[i]);
    }
    if forall t | t in tasks :: ReadableCwd(site, t) {
      assert forall i | 0 <= i < |tasks| :: tasks[i] in tasks;
      assert forall i | 0 <= i < |tasks| :: SerializeTask(site, read.value[i]) == ps[i];
    }
  }

  // ---------------------------------------------------------------- building the plan

  datatype TsUnit = TsUnit(id: string, name: string, dir: string, nativeConsumer: bool, nativeProducer: bool)

  datatype CargoUnit = CargoUnit(id: string, name: string, manifestPath: string, nativeAddonSource: bool)

  /** Crates one by one, or the whole workspace when their names do not tell them apart. */
  datatype CargoSelection = Crates(units: seq<CargoUnit>) | WholeWorkspace

  const WORKSPACE_KEY := "cargo-build:emergency:workspace"

  function NativeTask(site: Site): Task {
    Task("native-linux-x64", Some("native:linux-x64:baseline-modern"), "Build linux x64 native addons",
         ["bash", "-lc", "TARGET_VARIANTS=\"baseline modern\" bun scripts/ci-build-native.ts"], Some(site.root),
         Some(Capabilities(true, false, false, true)), Some(NativeProducer))
  }

  function WorkspaceTask(site: Site): Task {
    Task(WORKSPACE_KEY, Some("emergency:cargo-workspace:root"), "Build Cargo workspace",
         ["cargo", "build", "--workspace"], Some(site.root),
         Some(Capabilities(true, false, false, false)), Some(CargoBuild))
  }

  function TsTask(site: Site, u: TsUnit): Task {
    Task("ts-build:" + Identity(site, "ts", u.id, u.dir), Some(Identity(site, "ts", u.id, u.dir)), "Build " + u.name,
         ["bun", "run", "build"], Some(Join(site.root, u.dir)),
         Some(Capabilities(false, false, u.nativeConsumer, u.nativeProducer)), Some(TsBuild))
  }

  function CrateIdentity(site: Site, u: CargoUnit): string { Identity(site, "cargo", u.id, u.manifestPath) }

  function CargoTask(site: Site, u: CargoUnit): Task {
    Task("cargo-build:" + CrateIdentity(site, u), Some(CrateIdentity(site, u)),
         "Build Cargo crate " + u.name, ["cargo", "build", "--package", u.name], Some(site.root),
         Some(Capabilities(true, false, false, false)), Some(CargoBuild))
  }

  function TsTasks(site: Site, units: seq<TsUnit>): (r: seq<Task>)
    ensures |r| == |units| && forall i | 0 <= i < |r| :: r[i] == TsTask(site, units[i])
  {
    seq(|units|, i requires 0 <= i < |units| => TsTask(site, units[i]))
  }

  function CargoTasks(site: Site, selection: CargoSelection): (r: seq<Task>)
    ensures selection.Crates? ==>
      |r| == |selection.units| && forall i | 0 <= i < |r| :: r[i] == CargoTask(site, selection.units[i])
  {
    match selection
    case Crates(units) => seq(|units|, i requires 0 <= i < |units| => CargoTask(site, units[i]))
    case WholeWorkspace => [WorkspaceTask(site)]
  }

  /** The planned tasks that do not build the addons. */
  function WithoutNative(legacy: seq<Task>): (r: seq<Task>)
    ensures forall t :: t in r <==> t in legacy && !NativeBuildKey(t.key)
  {
    if legacy == [] then []
    else
      var last := legacy[|legacy| - 1];
      WithoutNative(legacy[..|legacy| - 1]) + (if NativeBuildKey(last.key) then [] else [last])
  }

  predicate CargoNeedsProducer(site: Site, cargo: seq<CargoUnit>, selection: CargoSelection) {
    exists u | u in cargo :: u.nativeAddonSource
      && exists t | t in CargoTasks(site, selection) ::
           t.key == WORKSPACE_KEY || t.identity == Some(CrateIdentity(site, u))
  }

  predicate NeedsProducer(site: Site, legacy: seq<Task>, ts: seq<TsUnit>, cargo: seq<CargoUnit>,
                          selection: CargoSelection)
  {
    || (exists t | t in legacy :: NativeBuildKey(t.key)) || (exists t | t in legacy :: NeedsNative(t.key))
    || (exists u | u in ts :: u.nativeConsumer || u.nativeProducer)
    || CargoNeedsProducer(site, cargo, selection)
  }

  /** `appendBuildTasks`, from the units selected for the change. */
  function AppendBuildTasks(site: Site, legacy: seq<Task>, ts: seq<TsUnit>, cargo: seq<CargoUnit>,
                            selection: CargoSelection)
    : seq<Task>
  {
    WithoutNative(legacy) + (if NeedsProducer(site, legacy, ts, cargo, selection) then [NativeTask(site)] else [])
    + TsTasks(site, ts) + CargoTasks(site, selection)
  }

  // ---------------------------------------------------------------- distinct keys and identities

  function KeyOf(): PlannedTask -> string { (p: PlannedTask) => p.key }

  function IdentityOf(): PlannedTask -> string { (p: PlannedTask) => p.identity }

  /** No key of the first list is one of the second. */
  ghost predicate Apart(key: PlannedTask -> string, a: seq<PlannedTask>, b: seq<PlannedTask>) {
    forall i, j | 0 <= i < |a| && 0 <= j < |b| :: key(a[i]) != key(b[j])
  }

  lemma DistinctConcat(key: PlannedTask -> string, a: seq<PlannedTask>, b: seq<PlannedTask>)
    ensures DistinctBy(key, a + b) <==> DistinctBy(key, a) && DistinctBy(key, b) && Apart(key, a, b)
  {
    var s := a + b;
    if DistinctBy(key, s) {
      assert forall i | 0 <= i < |a| :: s[i] == a[i];
      assert forall j | 0 <= j < |b| :: s[|a| + j] == b[j];
    }
  }

  lemma SameCode(a: string, b: string, c: string, d: string)
    requires ':' !in a && ':' !in c && a + [':'] + b == c + [':'] + d
    ensures a == c && b == d
  {
    SplitOnce(a, b, ':');
    SplitOnce(c, d, ':');
    JoinSplit(b, ':');
    JoinSplit(d, ':');
    var x, y := [a] + Split(b, ':'), [c] + Split(d, ':');
    assert x[0] == a && y[0] == c && x[1..] == Split(b, ':') && y[1..] == Split(d, ':');
  }

  /** Within a domain, identities are as different as what they encode. */
  lemma IdentityIsInjective(site: Site, domain: string, id1: string, location1: string, id2: string, location2: string)
    requires Encoding(site.code) && Identity(site, domain, id1, location1) == Identity(site, domain, id2, location2)
    ensures id1 == id2 && location1 == location2
  {
    var x, y := site.code(id1) + [':'] + site.code(location1), site.code(id2) + [':'] + site.code(location2);
    assert (domain + ([':'] + x))[|domain|..] == [':'] + x && (domain + ([':'] + y))[|domain|..] == [':'] + y;
    assert ([':'] + x)[1..] == x && ([':'] + y)[1..] == y;
    SameCode(site.code(id1), site.code(location1), site.code(id2), site.code(location2));
  }

  /** Every key of the list starts with this character. */
  ghost predicate StartsWith(key: PlannedTask -> string, s: seq<PlannedTask>, c: char) {
    forall i | 0 <= i < |s| :: key(s[i]) != "" && key(s[i])[0] == c
  }

  lemma ApartByFirst(key: PlannedTask -> string, a: seq<PlannedTask>, b: seq<PlannedTask>, x: char, y: char)
    requires StartsWith(key, a, x) && StartsWith(key, b, y) && x != y
    ensures Apart(key, a, b)
  {
    forall i, j | 0 <= i < |a| && 0 <= j < |b| ensures key(a[i]) != key(b[j]) {
      assert key(a[i])[0] == x && key(b[j])[0] == y;
    }
  }

  ghost predicate DistinctKeys(tasks: seq<Task>) { DistinctBy((t: Task) => t.key, tasks) }

  lemma {:induction false} WithoutNativeIsDistinct(legacy: seq<Task>)
    requires DistinctKeys(legacy)
    ensures DistinctKeys(WithoutNative(legacy))
  {
    if legacy != [] {
      var front, last := legacy[..|legacy| - 1], legacy[|legacy| - 1];
      WithoutNativeIsDistinct(front);
      var r := WithoutNative(front);
      forall i | 0 <= i < |r| ensures r[i].key != last.key {
        assert r[i] in front;
        var j :| 0 <= j < |front| && front[j] == r[i];
        assert legacy[j].key == r[i].key;
      }
    }
  }

  /** Tasks without an identity of their own are told apart by their keys. */
  lemma LegacyIdentities(site: Site, tasks: seq<Task>)
    requires Encoding(site.code) && DistinctKeys(tasks) && forall t | t in tasks :: t.identity.None?
    ensures DistinctBy(IdentityOf(), Serialize(site, tasks)) && StartsWith(IdentityOf(), Serialize(site, tasks), 'l')
    ensures DistinctBy(KeyOf(), Serialize(site, tasks))
  {
    var ps := Serialize(site, tasks);
    assert forall i | 0 <= i < |tasks| :: tasks[i] in tasks;
    forall i, j | 0 <= i < j < |ps| ensures ps[i].identity != ps[j].identity {
      if ps[i].identity == ps[j].identity {
        IdentityIsInjective(site, "legacy", tasks[i].key, CwdOf(site, tasks[i]), tasks[j].key, CwdOf(site, tasks[j]));
      }
    }
  }

  lemma TsIdentities(site: Site, units: seq<TsUnit>)
    requires Encoding(site.code) && DistinctBy((u: TsUnit) => u.id, units)
    ensures var ps := Serialize(site, TsTasks(site, units));
      && DistinctBy(IdentityOf(), ps) && StartsWith(IdentityOf(), ps, 't')
      && DistinctBy(KeyOf(), ps) && StartsWith(KeyOf(), ps, 't')
  {
    hide Encoding;
    var ps := Serialize(site, TsTasks(site, units));
    forall i, j | 0 <= i < j < |ps| ensures ps[i].identity != ps[j].identity && ps[i].key != ps[j].key {
      if ps[i].identity == ps[j].identity {
        IdentityIsInjective(site, "ts", units[i].id, units[i].dir, units[j].id, units[j].dir);
      }
      assert ps[i].key[|"ts-build:"|..] == ps[i].identity && ps[j].key[|"ts-build:"|..] == ps[j].identity;
    }
  }

  function FirstOfIdentity(selection: CargoSelection): char { if selection.Crates? then 'c' else 'e' }

  lemma CargoIdentities(site: Site, selection: CargoSelection)
    requires Encoding(site.code) && (selection.Crates? ==> DistinctBy((u: CargoUnit) => u.id, selection.units))
    ensures var ps := Serialize(site, CargoTasks(site, selection));
      && DistinctBy(IdentityOf(), ps) && StartsWith(IdentityOf(), ps, FirstOfIdentity(selection))
      && DistinctBy(KeyOf(), ps) && StartsWith(KeyOf(), ps, 'c')
  {
    hide Encoding;
    if selection.Crates? { CrateIdentities(site, selection.units); } else { WorkspaceIdentity(site); }
  }

  lemma WorkspaceIdentity(site: Site)
    ensures var ps := Serialize(site, [WorkspaceTask(site)]);
      && DistinctBy(IdentityOf(), ps) && StartsWith(IdentityOf(), ps, 'e')
      && DistinctBy(KeyOf(), ps) && StartsWith(KeyOf(), ps, 'c')
  {
  }

  lemma CrateIdentities(site: Site, units: seq<CargoUnit>)
    requires Encoding(site.code) && DistinctBy((u: CargoUnit) => u.id, units)
    ensures var ps := Serialize(site, CargoTasks(site, Crates(units)));
      && DistinctBy(IdentityOf(), ps) && StartsWith(IdentityOf(), ps, 'c')
      && DistinctBy(KeyOf(), ps) && StartsWith(KeyOf(), ps, 'c')
  {
    hide Encoding;
    var ps := Serialize(site, CargoTasks(site, Crates(units)));
    forall i, j | 0 <= i < j < |ps| ensures ps[i].identity != ps[j].identity && ps[i].key != ps[j].key {
      if ps[i].identity == ps[j].identity {
        IdentityIsInjective(site, "cargo", units[i].id, units[i].manifestPath, units[j].id, units[j].manifestPath);
      }
      assert ps[i].key[|"cargo-build:"|..] == ps[i].identity && ps[j].key[|"cargo-build:"|..] == ps[j].identity;
    }
  }

  lemma SerializeConcat(site: Site, a: seq<Task>, b: seq<Task>)
    ensures Serialize(site, a + b) == Serialize(site, a) + Serialize(site, b)
  {
  }

  /** The build tasks, serialised. */
  function Built(site: Site, producer: bool, ts: seq<TsUnit>, selection: CargoSelection): seq<PlannedTask> {
    Serialize(site, if producer then [NativeTask(site)] else []) + Serialize(site, TsTasks(site, ts)) +
      Serialize(site, CargoTasks(site, selection))
  }

  lemma NativeIdentity(site: Site, producer: bool)
    ensures var ps := Serialize(site, if producer then [NativeTask(site)] else []);
      && DistinctBy(IdentityOf(), ps) && StartsWith(IdentityOf(), ps, 'n')
      && DistinctBy(KeyOf(), ps) && StartsWith(KeyOf(), ps, 'n')
  {
  }

  lemma StartsConcat(key: PlannedTask -> string, a: seq<PlannedTask>, b: seq<PlannedTask>, c: seq<PlannedTask>,
                     l: seq<PlannedTask>, x: char, y: char, z: char, w: char)
    requires StartsWith(key, a, x) && StartsWith(key, b, y) && StartsWith(key, c, z) && StartsWith(key, l, w)
    requires w != x && w != y && w != z
    ensures Apart(key, l, a + b + c)
  {
    ApartByFirst(key, l, a, w, x);
    ApartByFirst(key, l, b, w, y);
    ApartByFirst(key, l, c, w, z);
    var all := a + b + c;
    forall i, j | 0 <= i < |l| && 0 <= j < |all| ensures key(l[i]) != key(all[j]) {
      assert all[j] == if j < |a| then a[j] else if j < |a| + |b| then b[j - |a|] else c[j - |a| - |b|];
    }
  }

  lemma ThreeDistinct(key: PlannedTask -> string, a: seq<PlannedTask>, b: seq<PlannedTask>, c: seq<PlannedTask>,
                      x: char, y: char, z: char)
    requires DistinctBy(key, a) && DistinctBy(key, b) && DistinctBy(key, c)
    requires StartsWith(key, a, x) && StartsWith(key, b, y) && StartsWith(key, c, z) && x != y && x != z && y != z
    ensures DistinctBy(key, a + b + c)
  {
    hide StartsWith, DistinctBy, Apart;
    ApartByFirst(key, a, b, x, y);
    DistinctConcat(key, a, b);
    DistinctConcat(key, b, c);
    ApartByFirst(key, b, c, y, z);
    StartsNothing(key, x);
    DistinctConcat(key, a, b + c);
    ApartFromBoth(key, a, b, c, x, y, z);
    assert a + b + c == a + (b + c);
  }

  lemma StartsNothing(key: PlannedTask -> string, x: char)
    ensures StartsWith(key, [], x)
  {
  }

  lemma ApartFromBoth(key: PlannedTask -> string, a: seq<PlannedTask>, b: seq<PlannedTask>, c: seq<PlannedTask>,
                      x: char, y: char, z: char)
    requires StartsWith(key, a, x) && StartsWith(key, b, y) && StartsWith(key, c, z) && x != y && x != z
    ensures Apart(key, a, b + c)
  {
    StartsNothing(key, y);
    StartsConcat(key, [], b, c, a, y, y, z, x);
    assert [] + b + c == b + c;
  }

  /** The build tasks are distinct among themselves. */
  lemma BuiltIsDistinct(site: Site, producer: bool, ts: seq<TsUnit>, selection: CargoSelection)
    requires Encoding(site.code) && DistinctBy((u: TsUnit) => u.id, ts)
    requires selection.Crates? ==> DistinctBy((u: CargoUnit) => u.id, selection.units)
    ensures DistinctBy(KeyOf(), Built(site, producer, ts, selection)) &&
      DistinctBy(IdentityOf(), Built(site, producer, ts, selection))
  {
    hide Encoding, DistinctBy, StartsWith, TsTasks, CargoTasks, Serialize, KeyOf, IdentityOf;
    var a, b, c := Serialize(site, if producer then [NativeTask(site)] else []), Serialize(site, TsTasks(site, ts)),
      Serialize(site, CargoTasks(site, selection));
    NativeIdentity(site, producer);
    TsIdentities(site, ts);
    CargoIdentities(site, selection);
    ThreeDistinct(KeyOf(), a, b, c, 'n', 't', 'c');
    ThreeDistinct(IdentityOf(), a, b, c, 'n', 't', FirstOfIdentity(selection));
  }

  /**
   * A plan built from distinct legacy keys and distinct inventory ids has distinct identities, and distinct keys
   * exactly when no legacy key is one of a build task.
   */
  lemma PlanIsDistinct(site: Site, legacy: seq<Task>, ts: seq<TsUnit>, cargo: seq<CargoUnit>, selection: CargoSelection)
    requires Encoding(site.code) && DistinctKeys(legacy) && forall t | t in legacy :: t.identity.None?
    requires DistinctBy((u: TsUnit) => u.id, ts)
    requires selection.Crates? ==> DistinctBy((u: CargoUnit) => u.id, selection.units)
    ensures var built := Built(site, NeedsProducer(site, legacy, ts, cargo, selection), ts, selection);
      var plan := Serialize(site, AppendBuildTasks(site, legacy, ts, cargo, selection));
      && DistinctBy(IdentityOf(), plan)
      && (DistinctBy(KeyOf(), plan) <==> Apart(KeyOf(), Serialize(site, WithoutNative(legacy)), built))
  {
    hide Encoding, DistinctBy, KeyOf, IdentityOf, NeedsProducer, Apart, DistinctKeys, Built, AppendBuildTasks;
    var producer := NeedsProducer(site, legacy, ts, cargo, selection);
    var l, built := Serialize(site, WithoutNative(legacy)), Built(site, producer, ts, selection);
    PlanIs(site, legacy, ts, cargo, selection);
    WithoutNativeIsDistinct(legacy);
    LegacyIdentities(site, WithoutNative(legacy));
    BuiltIsDistinct(site, producer, ts, selection);
    BuiltIsNotLegacy(site, l, producer, ts, selection);
    DistinctConcat(IdentityOf(), l, built);
    DistinctConcat(KeyOf(), l, built);
  }

  lemma PlanIs(site: Site, legacy: seq<Task>, ts: seq<TsUnit>, cargo: seq<CargoUnit>, selection: CargoSelection)
    ensures Serialize(site, AppendBuildTasks(site, legacy, ts, cargo, selection)) ==
      Serialize(site, WithoutNative(legacy)) +
        Built(site, NeedsProducer(site, legacy, ts, cargo, selection), ts, selection)
  {
    hide TsTasks, CargoTasks, Serialize, NeedsProducer, WithoutNative;
    SerializeFour(site, WithoutNative(legacy),
                  if NeedsProducer(site, legacy, ts, cargo, selection) then [NativeTask(site)] else [],
                  TsTasks(site, ts), CargoTasks(site, selection));
  }

  lemma SerializeFour(site: Site, a: seq<Task>, b: seq<Task>, c: seq<Task>, d: seq<Task>)
    ensures Serialize(site, a + b + c + d) ==
      Serialize(site, a) + (Serialize(site, b) + Serialize(site, c) + Serialize(site, d))
  {
    SerializeConcat(site, a, b);
    SerializeConcat(site, a + b, c);
    SerializeConcat(site, a + b + c, d);
  }

  lemma BuiltIsNotLegacy(site: Site, l: seq<PlannedTask>, producer: bool, ts: seq<TsUnit>, selection: CargoSelection)
    requires StartsWith(IdentityOf(), l, 'l') && Encoding(site.code) && DistinctBy((u: TsUnit) => u.id, ts)
    requires selection.Crates? ==> DistinctBy((u: CargoUnit) => u.id, selection.units)
    ensures Apart(IdentityOf(), l, Built(site, producer, ts, selection))
  {
    hide Encoding, DistinctBy, StartsWith, TsTasks, CargoTasks, Serialize, KeyOf, IdentityOf, Apart;
    var a, b, c := Serialize(site, if producer then [NativeTask(site)] else []), Serialize(site, TsTasks(site, ts)),
      Serialize(site, CargoTasks(site, selection));
    NativeIdentity(site, producer);
    TsIdentities(site, ts);
    CargoIdentities(site, selection);
    StartsConcat(IdentityOf(), a, b, c, l, 'n', 't', FirstOfIdentity(selection), 'l');
  }

  // ---------------------------------------------------------------- native addons

  ghost predicate IsTsTask(site: Site, ts: seq<TsUnit>, t: Task) { exists u :: u in ts && t == TsTask(site, u) }

  ghost predicate IsCargoTask(site: Site, t: Task) {
    && t.phase == Some(CargoBuild) && t.capabilities == Some(Capabilities(true, false, false, false))
    && "cargo-build:" <= t.key && t.cwd == Some(site.root) && t.identity.Some? && t.identity != Some("")
  }

  lemma CargoTasksAre(site: Site, selection: CargoSelection)
    ensures forall t | t in CargoTasks(site, selection) :: IsCargoTask(site, t)
  {
    var tasks := CargoTasks(site, selection);
    forall i | 0 <= i < |tasks| ensures IsCargoTask(site, tasks[i]) {}
  }

  /** What a plan is made of. */
  lemma PlanMember(site: Site, legacy: seq<Task>, ts: seq<TsUnit>, cargo: seq<CargoUnit>, selection: CargoSelection,
                   t: Task)
    requires t in AppendBuildTasks(site, legacy, ts, cargo, selection)
    ensures || t in WithoutNative(legacy)
            || (NeedsProducer(site, legacy, ts, cargo, selection) && t == NativeTask(site))
            || IsTsTask(site, ts, t)
            || IsCargoTask(site, t)
  {
    hide NeedsProducer, IsCargoTask, CargoTasks, NativeTask, TsTask;
    CargoTasksAre(site, selection);
    var tsTasks := TsTasks(site, ts);
    if t in tsTasks {
      var i :| 0 <= i < |tsTasks| && tsTasks[i] == t;
      assert ts[i] in ts;
    }
  }

  lemma ProducerIsMember(site: Site, legacy: seq<Task>, ts: seq<TsUnit>, cargo: seq<CargoUnit>,
                         selection: CargoSelection)
    requires NeedsProducer(site, legacy, ts, cargo, selection)
    ensures NativeTask(site) in AppendBuildTasks(site, legacy, ts, cargo, selection)
  {
    hide NeedsProducer, CargoTasks, NativeTask, TsTasks, WithoutNative;
  }

  /** A task that loads the addons never stands in a plan that does not build them. */
  lemma ConsumersHaveAProducer(site: Site, legacy: seq<Task>, ts: seq<TsUnit>, cargo: seq<CargoUnit>,
                               selection: CargoSelection)
    requires forall t | t in legacy :: t.capabilities.None?
    ensures var plan := AppendBuildTasks(site, legacy, ts, cargo, selection);
      && ((exists t :: t in plan && (CapabilitiesOf(t).nativeConsumer || CapabilitiesOf(t).nativeProducer)) ==>
          NativeTask(site) in plan)
      && (forall t | t in plan && NativeBuildKey(t.key) :: t == NativeTask(site))
  {
    hide CapabilitiesOf, AppendBuildTasks, NativeBuildKey;
    var plan := AppendBuildTasks(site, legacy, ts, cargo, selection);
    forall t | t in plan
      ensures CapabilitiesOf(t).nativeConsumer || CapabilitiesOf(t).nativeProducer ==> NativeTask(site) in plan
      ensures NativeBuildKey(t.key) ==> t == NativeTask(site)
    {
      OnlyOneNativeKey(site, legacy, ts, cargo, selection, t);
      if CapabilitiesOf(t).nativeConsumer || CapabilitiesOf(t).nativeProducer {
        NativeTaskNeedsProducer(site, legacy, ts, cargo, selection, t);
        ProducerIsMember(site, legacy, ts, cargo, selection);
      }
    }
  }

  lemma NativeTaskNeedsProducer(site: Site, legacy: seq<Task>, ts: seq<TsUnit>, cargo: seq<CargoUnit>,
                                selection: CargoSelection, t: Task)
    requires forall t | t in legacy :: t.capabilities.None?
    requires t in AppendBuildTasks(site, legacy, ts, cargo, selection)
    requires CapabilitiesOf(t).nativeConsumer || CapabilitiesOf(t).nativeProducer
    ensures NeedsProducer(site, legacy, ts, cargo, selection)
  {
    hide NeedsNative, Identity, CargoNeedsProducer, AppendBuildTasks, Join;
    PlanMember(site, legacy, ts, cargo, selection, t);
  }

  lemma OnlyOneNativeKey(site: Site, legacy: seq<Task>, ts: seq<TsUnit>, cargo: seq<CargoUnit>,
                         selection: CargoSelection, t: Task)
    requires t in AppendBuildTasks(site, legacy, ts, cargo, selection)
    ensures NativeBuildKey(t.key) ==> t == NativeTask(site)
  {
    hide Identity, NeedsProducer, AppendBuildTasks, Join, NativeTask;
    PlanMember(site, legacy, ts, cargo, selection, t);
    assert t.key != [] && t.key[0] != 'n' ==> !NativeBuildKey(t.key);
  }

  predicate SameCrate(u: CargoUnit, v: CargoUnit) { v.id == u.id && v.manifestPath == u.manifestPath }

  /** The change has the addons' own crate built, by itself or with its workspace. */
  ghost predicate BuildsAddonCrate(cargo: seq<CargoUnit>, selection: CargoSelection) {
    exists u :: u in cargo && u.nativeAddonSource
                && (selection.Crates? ==> exists v :: v in selection.units && SameCrate(u, v))
  }

  lemma CargoProducerMeans(site: Site, cargo: seq<CargoUnit>, selection: CargoSelection)
    requires Encoding(site.code)
    ensures CargoNeedsProducer(site, cargo, selection) <==> BuildsAddonCrate(cargo, selection)
  {
    hide Encoding, Identity;
    if selection.Crates? {
      var units, tasks := selection.units, CargoTasks(site, selection);
      forall u | u in cargo
        ensures (exists t :: t in tasks && (t.key == WORKSPACE_KEY || t.identity == Some(CrateIdentity(site, u)))) <==>
          exists v :: v in units && SameCrate(u, v)
      {
        forall i | 0 <= i < |tasks|
          ensures tasks[i].key != WORKSPACE_KEY
          ensures tasks[i].identity == Some(CrateIdentity(site, u)) <==> SameCrate(u, units[i])
        {
          CrateKey(site, units[i]);
          if tasks[i].identity == Some(CrateIdentity(site, u)) {
            IdentityIsInjective(site, "cargo", units[i].id, units[i].manifestPath, u.id, u.manifestPath);
          }
        }
        assert forall i | 0 <= i < |tasks| :: tasks[i] in tasks && units[i] in units;
      }
    } else {
      assert WorkspaceTask(site) in CargoTasks(site, selection);
    }
  }

  lemma CrateKey(site: Site, u: CargoUnit)
    ensures CargoTask(site, u).key != WORKSPACE_KEY
  {
    assert CargoTask(site, u).key[12] == 'c' && WORKSPACE_KEY[12] == 'e';
  }

  /** The native build is planned exactly when something planned builds or loads the addons. */
  lemma ProducerIsPlanned(site: Site, legacy: seq<Task>, ts: seq<TsUnit>, cargo: seq<CargoUnit>,
                          selection: CargoSelection)
    requires Encoding(site.code)
    ensures NativeTask(site) in AppendBuildTasks(site, legacy, ts, cargo, selection) <==>
      || (exists t :: t in legacy && (NativeBuildKey(t.key) || NeedsNative(t.key)))
      || (exists u :: u in ts && (u.nativeConsumer || u.nativeProducer))
      || BuildsAddonCrate(cargo, selection)
  {
    hide NeedsNative, CargoNeedsProducer, BuildsAddonCrate, Encoding, AppendBuildTasks;
    CargoProducerMeans(site, cargo, selection);
    ProducerMeans(site, legacy, ts, cargo, selection);
  }

  lemma ProducerMeans(site: Site, legacy: seq<Task>, ts: seq<TsUnit>, cargo: seq<CargoUnit>, selection: CargoSelection)
    ensures NativeTask(site) in AppendBuildTasks(site, legacy, ts, cargo, selection) <==>
      NeedsProducer(site, legacy, ts, cargo, selection)
  {
    hide NeedsProducer, AppendBuildTasks, TsTask, Identity, Join;
    if NeedsProducer(site, legacy, ts, cargo, selection) { ProducerIsMember(site, legacy, ts, cargo, selection); }
    if NativeTask(site) in AppendBuildTasks(site, legacy, ts, cargo, selection) {
      PlanMember(site, legacy, ts, cargo, selection, NativeTask(site));
      TsTasksAre(site, ts, NativeTask(site));
    }
  }

  lemma TsTasksAre(site: Site, ts: seq<TsUnit>, t: Task)
    ensures IsTsTask(site, ts, t) ==> t.phase == Some(TsBuild)
  {
    hide Identity, Join;
  }

  /** The shards run what is neither a native build nor for the Python job. */
  predicate IsShard(t: Task) { !CapabilitiesOf(t).nativeProducer && t.phase != Some(Python) }

  /** Some job runs it: a shard, the native build or the Python job. */
  predicate HasJob(t: Task) { IsShard(t) || NativeBuildKey(t.key) || t.phase == Some(Python) }

  /**
   * Every planned task is run by some job, as long as no selected TypeScript unit is itself marked a native producer:
   * the shards skip such a unit by its mark, and the native job by its key.
   */
  lemma EveryTaskHasAJob(site: Site, legacy: seq<Task>, ts: seq<TsUnit>, cargo: seq<CargoUnit>,
                         selection: CargoSelection)
    requires forall t | t in legacy :: t.capabilities.None?
    ensures (forall t | t in AppendBuildTasks(site, legacy, ts, cargo, selection) :: HasJob(t)) <==>
      forall u | u in ts :: !u.nativeProducer
  {
    hide NeedsNative, NeedsRust, RustTestKey, Identity, NeedsProducer, Join, AppendBuildTasks;
    forall u | u in ts && u.nativeProducer
      ensures TsTask(site, u) in AppendBuildTasks(site, legacy, ts, cargo, selection) && !HasJob(TsTask(site, u))
    {
      UnitIsPlanned(site, legacy, ts, cargo, selection, u);
      assert TsTask(site, u).key[0] == 't';
    }
    forall t | t in AppendBuildTasks(site, legacy, ts, cargo, selection) && forall u | u in ts :: !u.nativeProducer
      ensures HasJob(t)
    {
      PlanMember(site, legacy, ts, cargo, selection, t);
    }
  }

  lemma UnitIsPlanned(site: Site, legacy: seq<Task>, ts: seq<TsUnit>, cargo: seq<CargoUnit>, selection: CargoSelection,
                      u: TsUnit)
    requires u in ts
    ensures TsTask(site, u) in AppendBuildTasks(site, legacy, ts, cargo, selection)
  {
    hide NeedsProducer, CargoTasks, NativeTask, TsTask, WithoutNative;
    var i :| 0 <= i < |ts| && ts[i] == u;
    assert TsTasks(site, ts)[i] in TsTasks(site, ts);
  }

  /**
   * Every selected unit is built where its directory leads; the plan file names that directory as the inventory does,
   * unless it takes a name back.
   */
  lemma UnitIsBuiltInPlace(site: Site, legacy: seq<Task>, ts: seq<TsUnit>, cargo: seq<CargoUnit>,
                           selection: CargoSelection, u: TsUnit)
    requires u in ts && NormalizeInventoryPath(u.dir) == Ok(u.dir)
    ensures exists p :: && p in Serialize(site, AppendBuildTasks(site, legacy, ts, cargo, selection))
                        && p.command == ["bun", "run", "build"] && p.phase == TsBuild
                        && Resolve(site.root, p.cwd) == Resolve(site.root, u.dir)
                        && (p.cwd == u.dir <==> TakesNothingBack(site, u.dir))
  {
    hide AppendBuildTasks, Join, RelativeText, Identity, Split, Encoding;
    var tasks := AppendBuildTasks(site, legacy, ts, cargo, selection);
    UnitIsPlanned(site, legacy, ts, cargo, selection, u);
    var i :| 0 <= i < |tasks| && tasks[i] == TsTask(site, u);
    SplitPlain(".", '/');
    assert "." in Split(".", '/');
    assert SafeInventoryPath(u.dir) && u.dir[0] != '/' && u.dir != ".";
    AcceptedPathStaysInside(site.root, u.dir);
    var place := Join(site.root, u.dir);
    ResolveHere(site.root);
    ResolveRelative(site.root, place);
    assert Serialize(site, tasks)[i].cwd == CwdOf(site, TsTask(site, u));
  }

  /** The last segment of the directory is not `..`, or the directory is the parent itself. */
  predicate TakesNothingBack(site: Site, dir: string) {
    Split(dir, '/')[|Split(dir, '/')| - 1] != ".." || (dir == ".." && site.root != [])
  }

  /** One such unit, and a plan with a task that no job runs. */
  lemma MarkedUnitHasNoJob(site: Site)
    ensures var u := TsUnit("natives", "@gajae-code/natives", "packages/natives", false, true);
      var plan := AppendBuildTasks(site, [], [u], [], Crates([]));
      NormalizeInventoryPath(u.dir).Ok? && TsTask(site, u) in plan && !HasJob(TsTask(site, u))
  {
    hide Join, Identity, AppendBuildTasks;
    var u := TsUnit("natives", "@gajae-code/natives", "packages/natives", false, true);
    UnitIsPlanned(site, [], [u], [], Crates([]), u);
    assert TsTask(site, u).key[0] == 't';
    NativesDirIsAccepted();
  }

  lemma NativesDirIsAccepted()
    ensures NormalizeInventoryPath("packages/natives").Ok?
  {
    hide SafeInventoryPath, NormalizeInventoryPath;
    var a, b := "packages", "natives";
    assert "packages/natives" == a + ['/'] + b;
    assert '/' !in a && '/' !in b && '.' !in a && '.' !in b && '\\' !in a && '\\' !in b;
    TwoNamesAreAccepted(a, b);
  }

  // ---------------------------------------------------------------- the plan file

  datatype Mode = Pr | Push

  datatype Plan = Plan(sourceSha: string, mode: Mode, paths: seq<string>, tasks: seq<PlannedTask>)

  /** JSON text, its hash, the normal form of path lists and the code of identities, all left open. */
  datatype Format = Format(encode: Plan -> Bytes, decode: Bytes -> Option<Plan>, digest: Bytes -> string,
                           canonical: seq<string> -> seq<string>, site: Site)
  {
    ghost predicate Valid() {
      (forall p :: decode(encode(p)) == Some(p)) && (forall raw :: digest(raw) != "") && Encoding(site.code)
    }
  }

  /** What a job that reads the plan is told. Empty text stands for a variable that is not set. */
  datatype PlanEnv = PlanEnv(sourceSha: string, digest: string, checkedOut: string,
                             matrixKey: string, matrixRust: bool, matrixNextest: bool, matrixNative: bool)

  predicate AllDifferent<K(==)>(s: seq<K>) { |set x | x in s| == |s| }

  function KeysIn(tasks: seq<Task>): seq<string> { seq(|tasks|, i requires 0 <= i < |tasks| => tasks[i].key) }

  function IdentitiesIn(tasks: seq<Task>): seq<Option<string>> {
    seq(|tasks|, i requires 0 <= i < |tasks| => tasks[i].identity)
  }

  function FindKey(tasks: seq<Task>, key: string): (r: Option<Task>)
    ensures r.Some? ==> r.value in tasks && r.value.key == key
    ensures r.None? ==> forall t | t in tasks :: t.key != key
  {
    if tasks == [] then None else if tasks[0].key == key then Some(tasks[0]) else FindKey(tasks[1..], key)
  }

  predicate MatrixFits(env: PlanEnv, c: Capabilities) {
    c.rust == env.matrixRust && c.nextest == env.matrixNextest && c.nativeConsumer == env.matrixNative
  }

  /** `loadCanonicalPlan`. */
  function Load(format: Format, raw: Bytes, env: PlanEnv): Result<seq<Task>> {
    match format.decode(raw)
    case None => Rejected
    case Some(plan) =>
      if format.canonical(plan.paths) != plan.paths || env.sourceSha == "" || env.digest == "" then Rejected
      else if plan.sourceSha != env.sourceSha || env.checkedOut != env.sourceSha then Rejected
      else if format.digest(raw) != env.digest then Rejected
      else match Deserialize(format.site, plan.tasks)
        case Rejected => Rejected
        case Ok(tasks) =>
          if !AllDifferent(KeysIn(tasks)) || !AllDifferent(IdentitiesIn(tasks)) then Rejected
          else if env.matrixKey == "" then Ok(tasks)
          else match FindKey(tasks, env.matrixKey)
            case None => Rejected
            case Some(t) =>
              if t.capabilities.Some? && MatrixFits(env, t.capabilities.value) then Ok(tasks) else Rejected
  }

  lemma {:induction false} AllDifferentIsDistinct<K>(s: seq<K>)
    ensures |set x | x in s| <= |s|
    ensures AllDifferent(s) <==> Distinct(s)
  {
    if s != [] {
      var front, last := s[..|s| - 1], s[|s| - 1];
      AllDifferentIsDistinct(front);
      DistinctMore(front, last);
      assert s == front + [last];
      var these := set x | x in front;
      assert (set x | x in front + [last]) == these + {last};
      hide Distinct;
      if last in these { assert these + {last} == these; }
    }
  }

  lemma DistinctMore<K>(s: seq<K>, x: K)
    ensures Distinct(s + [x]) <==> Distinct(s) && x !in s
  {
    var t := s + [x];
    assert forall j | 0 <= j < |s| :: t[j] == s[j];
    if x in s {
      var j :| 0 <= j < |s| && s[j] == x;
      assert t[j] == t[|s|];
    }
  }

  // ---------------------------------------------------------------- where loaded tasks run

  /** A directory that the reader accepts although it lies above the repository. */
  predicate Escapes(cwd: string) { cwd == ".." || cwd == "./.." }

  ghost predicate RunsInside(site: Site, t: Task) { t.cwd.Some? && site.root <= t.cwd.value }

  lemma ReadTaskRunsInside(site: Site, p: PlannedTask)
    requires DeserializeTask(site, p).Ok?
    ensures RunsInside(site, DeserializeTask(site, p).value) <==> site.root == [] || !Escapes(p.cwd)
  {
    hide NormalizeInventoryPath, Resolve, RelativeText;
    if p.cwd == "." { ResolveHere(site.root); } else { AcceptedValueStaysInside(site.root, p.cwd); }
  }

  /** Every task of a loaded plan runs inside the repository, except exactly when the file says `..` or `./..`. */
  lemma LoadedTasksRunInside(format: Format, raw: Bytes, env: PlanEnv)
    requires Load(format, raw, env).Ok?
    ensures format.decode(raw).Some?
    ensures (forall t | t in Load(format, raw, env).value :: RunsInside(format.site, t)) <==>
      format.site.root == [] || forall p | p in format.decode(raw).value.tasks :: !Escapes(p.cwd)
  {
    hide AllDifferent, FindKey, Deserialize, DeserializeTask, RunsInside, Escapes;
    var ps, tasks := format.decode(raw).value.tasks, Load(format, raw, env).value;
    assert Deserialize(format.site, ps) == Ok(tasks);
    forall i | 0 <= i < |ps|
      ensures RunsInside(format.site, tasks[i]) <==> format.site.root == [] || !Escapes(ps[i].cwd)
    {
      assert DeserializeTask(format.site, ps[i]) == Ok(tasks[i]);
      ReadTaskRunsInside(format.site, ps[i]);
    }
    assert forall i | 0 <= i < |ps| :: ps[i] in ps && tasks[i] in tasks;
  }

  /** Such a task is read, and runs in the directory that holds the repository. */
  lemma TaskCanRunOutside(site: Site, cwd: string, capabilities: Capabilities)
    requires Escapes(cwd)
    ensures var read := DeserializeTask(site, PlannedTask("k", "i", "", [], cwd, capabilities, Legacy));
      read.Ok? && read.value.cwd == Some(Up(site.root)) && (site.root != [] ==> !RunsInside(site, read.value))
  {
    hide NormalizeInventoryPath, Resolve;
    ParentLeavesTheRepository(site.root);
    HiddenParentLeavesTheRepository(site.root);
  }

  /** What the planner emits about a plan. */
  datatype Flags = Flags(hasNative: bool, hasTasks: bool, hasPython: bool)

  predicate Any(p: Task -> bool, tasks: seq<Task>) { exists t | t in tasks :: p(t) }

  predicate IsPython(t: Task) { t.phase == Some(Python) }

  /** The mark as the aggregator reads it. */
  predicate MarkedProducer(t: Task) { t.capabilities.Some? && t.capabilities.value.nativeProducer }

  function EmittedFlags(tasks: seq<Task>): Flags {
    Flags(Any((t: Task) => CapabilitiesOf(t).nativeProducer, tasks), Any(IsShard, tasks), Any(IsPython, tasks))
  }

  /** What the aggregator makes of the plan it loaded. */
  function RecomputedFlags(tasks: seq<Task>): Flags {
    Flags(Any(MarkedProducer, tasks), Any((t: Task) => !MarkedProducer(t) && !IsPython(t), tasks), Any(IsPython, tasks))
  }

  function EmittedPlan(format: Format, sourceSha: string, mode: Mode, paths: seq<string>, tasks: seq<Task>): Bytes {
    format.encode(Plan(sourceSha, mode, paths, Serialize(format.site, tasks)))
  }

  /** The environment of a job that follows the planner: its digest and commit, and for a shard its own task's flags. */
  ghost predicate Follows(format: Format, env: PlanEnv, sourceSha: string, raw: Bytes, tasks: seq<Task>) {
    && env.sourceSha == sourceSha && env.checkedOut == sourceSha && env.digest == format.digest(raw)
    && WasPlanned(env, tasks)
  }

  /** The flags survive the trip through the file. */
  lemma FlagsAgree(site: Site, tasks: seq<Task>)
    requires Deserialize(site, Serialize(site, tasks)).Ok?
    ensures RecomputedFlags(Deserialize(site, Serialize(site, tasks)).value) == EmittedFlags(tasks)
  {
    hide Deserialize, Serialize, CapabilitiesOf, RecomputedFlags, EmittedFlags;
    var read := Deserialize(site, Serialize(site, tasks)).value;
    ReadTasks(site, tasks);
    forall i | 0 <= i < |tasks|
      ensures read[i].capabilities == Some(CapabilitiesOf(tasks[i])) &&
        (read[i].phase == Some(Python) <==> tasks[i].phase == Some(Python))
    {
      assert SameTask(site, tasks[i], read[i]);
    }
    Correspond(tasks, read);
  }

  lemma AnyAgrees(tasks: seq<Task>, read: seq<Task>, p: Task -> bool, q: Task -> bool)
    requires |read| == |tasks| && forall i | 0 <= i < |tasks| :: p(tasks[i]) == q(read[i])
    ensures Any(p, tasks) == Any(q, read)
  {
    if t :| t in tasks && p(t) {
      var i :| 0 <= i < |tasks| && tasks[i] == t;
      assert read[i] in read;
    }
    if r :| r in read && q(r) {
      var i :| 0 <= i < |read| && read[i] == r;
      assert tasks[i] in tasks;
    }
  }

  lemma Correspond(tasks: seq<Task>, read: seq<Task>)
    requires |read| == |tasks|
    requires forall i | 0 <= i < |tasks| :: read[i].capabilities == Some(CapabilitiesOf(tasks[i]))
    requires forall i | 0 <= i < |tasks| :: read[i].phase == Some(Python) <==> tasks[i].phase == Some(Python)
    ensures RecomputedFlags(read) == EmittedFlags(tasks)
  {
    hide CapabilitiesOf, Any;
    AnyAgrees(tasks, read, (t: Task) => CapabilitiesOf(t).nativeProducer, MarkedProducer);
    AnyAgrees(tasks, read, IsShard, (t: Task) => !MarkedProducer(t) && !IsPython(t));
    AnyAgrees(tasks, read, IsPython, IsPython);
  }

  /** The duplicate test of the reader is distinctness of what was written. */
  lemma ReadKeys(site: Site, tasks: seq<Task>)
    requires Deserialize(site, Serialize(site, tasks)).Ok?
    ensures var read := Deserialize(site, Serialize(site, tasks)).value;
      && (AllDifferent(KeysIn(read)) <==> DistinctBy(KeyOf(), Serialize(site, tasks)))
      && (AllDifferent(IdentitiesIn(read)) <==> DistinctBy(IdentityOf(), Serialize(site, tasks)))
  {
    hide SerializeTask, AllDifferent, Deserialize;
    var ps := Serialize(site, tasks);
    var read := Deserialize(site, ps).value;
    AllDifferentIsDistinct(KeysIn(read));
    AllDifferentIsDistinct(IdentitiesIn(read));
    assert forall i | 0 <= i < |ps| :: DeserializeTask(site, ps[i]) == Ok(read[i]);
    ReadDistinct(site, ps, read);
  }

  lemma ReadDistinct(site: Site, ps: seq<PlannedTask>, read: seq<Task>)
    requires |read| == |ps| && forall i | 0 <= i < |ps| :: DeserializeTask(site, ps[i]) == Ok(read[i])
    ensures Distinct(KeysIn(read)) <==> DistinctBy(KeyOf(), ps)
    ensures Distinct(IdentitiesIn(read)) <==> DistinctBy(IdentityOf(), ps)
  {
    var keys, identities := KeysIn(read), IdentitiesIn(read);
    forall i | 0 <= i < |ps| ensures keys[i] == ps[i].key && identities[i] == Some(ps[i].identity) {
      assert DeserializeTask(site, ps[i]) == Ok(read[i]);
    }
    hide KeysIn, IdentitiesIn, DeserializeTask;
    assert Distinct(keys) <==> DistinctBy(KeyOf(), ps);
  }

  /** The task a shard is told about is found, with the capabilities it was told. */
  lemma MatrixIsFound(site: Site, tasks: seq<Task>, env: PlanEnv, t: Task)
    requires Deserialize(site, Serialize(site, tasks)).Ok? && DistinctBy(KeyOf(), Serialize(site, tasks))
    requires t in tasks && t.key == env.matrixKey && MatrixFits(env, CapabilitiesOf(t))
    ensures var found := FindKey(Deserialize(site, Serialize(site, tasks)).value, env.matrixKey);
      found.Some? && found.value.capabilities.Some? && MatrixFits(env, found.value.capabilities.value)
  {
    hide DeserializeTask, SerializeTask, CapabilitiesOf, MatrixFits, Deserialize;
    var ps := Serialize(site, tasks);
    var read := Deserialize(site, ps).value;
    ReadTasks(site, tasks);
    forall i | 0 <= i < |tasks|
      ensures read[i].key == tasks[i].key == ps[i].key && read[i].capabilities == Some(CapabilitiesOf(tasks[i]))
    {
      assert SameTask(site, tasks[i], read[i]);
      SameKey(site, tasks[i]);
    }
    var i :| 0 <= i < |tasks| && tasks[i] == t;
    var found := FindKey(read, env.matrixKey);
    assert read[i] in read;
    var j :| 0 <= j < |read| && read[j] == found.value;
    assert KeyOf()(ps[i]) == KeyOf()(ps[j]);
    assert i == j;
  }

  /** What is found under the key, with fitting capabilities, was planned so. */
  lemma MatrixIsPlanned(site: Site, tasks: seq<Task>, env: PlanEnv)
    requires Deserialize(site, Serialize(site, tasks)).Ok?
    ensures var found := FindKey(Deserialize(site, Serialize(site, tasks)).value, env.matrixKey);
      found.Some? && found.value.capabilities.Some? && MatrixFits(env, found.value.capabilities.value) ==>
      exists t :: t in tasks && t.key == env.matrixKey && MatrixFits(env, CapabilitiesOf(t))
  {
    hide CapabilitiesOf, MatrixFits, Deserialize, Serialize, FindKey;
    var read := Deserialize(site, Serialize(site, tasks)).value;
    var found := FindKey(read, env.matrixKey);
    ReadTasks(site, tasks);
    if found.Some? {
      var i :| 0 <= i < |read| && read[i] == found.value;
      assert SameTask(site, tasks[i], read[i]) && tasks[i] in tasks;
    }
  }

  lemma SameKey(site: Site, t: Task)
    ensures SerializeTask(site, t).key == t.key
  {
  }

  /** A shard's own task is found with the flags it was told; other jobs are told none. */
  predicate FindsItself(env: PlanEnv, read: seq<Task>) {
    env.matrixKey == "" ||
    var found := FindKey(read, env.matrixKey);
    found.Some? && found.value.capabilities.Some? && MatrixFits(env, found.value.capabilities.value)
  }

  ghost predicate WasPlanned(env: PlanEnv, tasks: seq<Task>) {
    env.matrixKey == "" || exists t :: t in tasks && t.key == env.matrixKey && MatrixFits(env, CapabilitiesOf(t))
  }

  lemma FindsWhatWasPlanned(site: Site, tasks: seq<Task>, env: PlanEnv)
    requires Deserialize(site, Serialize(site, tasks)).Ok? && DistinctBy(KeyOf(), Serialize(site, tasks))
    ensures FindsItself(env, Deserialize(site, Serialize(site, tasks)).value) <==> WasPlanned(env, tasks)
  {
    hide CapabilitiesOf, MatrixFits, Deserialize, Serialize, FindKey, DistinctBy, KeyOf;
    MatrixIsPlanned(site, tasks, env);
    if t :| t in tasks && t.key == env.matrixKey && MatrixFits(env, CapabilitiesOf(t)) {
      MatrixIsFound(site, tasks, env, t);
    }
  }

  /** The checks of the loader on an emitted plan. */
  lemma LoadOfEmitted(format: Format, sourceSha: string, mode: Mode, paths: seq<string>, tasks: seq<Task>, env: PlanEnv)
    requires format.Valid()
    ensures var raw := EmittedPlan(format, sourceSha, mode, paths, tasks);
      var read := Deserialize(format.site, Serialize(format.site, tasks));
      Load(format, raw, env) ==
      if && sourceSha != "" && env.sourceSha == sourceSha && env.checkedOut == sourceSha
         && env.digest == format.digest(raw) && format.canonical(paths) == paths
         && read.Ok? && AllDifferent(KeysIn(read.value)) && AllDifferent(IdentitiesIn(read.value))
         && FindsItself(env, read.value)
      then read else Rejected
  {
    hide AllDifferent, Deserialize, Serialize, FindKey, MatrixFits, Encoding;
  }

  /** Whatever a job is told: when it loads an emitted plan at all, it gets the planned tasks in the planned order. */
  lemma LoadedTasksArePlanned(format: Format, sourceSha: string, mode: Mode, paths: seq<string>, tasks: seq<Task>,
                              env: PlanEnv)
    requires format.Valid() && Load(format, EmittedPlan(format, sourceSha, mode, paths, tasks), env).Ok?
    ensures SameTasks(format.site, tasks, Load(format, EmittedPlan(format, sourceSha, mode, paths, tasks), env).value)
  {
    hide SameTasks, AllDifferent, FindKey, Deserialize, Serialize;
    ReadTasks(format.site, tasks);
  }

  /**
   * The plan another job loads is the plan that was made: it is accepted exactly by a job that follows the planner and
   * when its paths are canonical, its directories readable and its keys and identities distinct; it then holds the
   * planned tasks, re-serialises to the same tasks and has the same flags.
   */
  lemma PlanRoundTrip(format: Format, sourceSha: string, mode: Mode, paths: seq<string>, tasks: seq<Task>, env: PlanEnv)
    requires format.Valid() && forall t | t in tasks :: t.identity != Some("")
    ensures var raw := EmittedPlan(format, sourceSha, mode, paths, tasks);
      var read := Load(format, raw, env);
      && (read.Ok? <==> && Follows(format, env, sourceSha, raw, tasks)
                        && sourceSha != "" && format.canonical(paths) == paths
                        && (forall t | t in tasks :: ReadableCwd(format.site, t))
                        && DistinctBy(KeyOf(), Serialize(format.site, tasks))
                        && DistinctBy(IdentityOf(), Serialize(format.site, tasks)))
      && (read.Ok? ==> && SameTasks(format.site, tasks, read.value)
                       && Serialize(format.site, read.value) == Serialize(format.site, tasks)
                       && RecomputedFlags(read.value) == EmittedFlags(tasks))
  {
    hide DistinctBy, AllDifferent, Deserialize, Serialize, KeyOf, IdentityOf, ReadableCwd, RecomputedFlags,
      EmittedFlags, SameTasks, Load, EmittedPlan, FindsItself, CapabilitiesOf, MatrixFits, Encoding;
    var site := format.site;
    LoadOfEmitted(format, sourceSha, mode, paths, tasks, env);
    SerializeIsFixedPoint(site, tasks);
    if Deserialize(site, Serialize(site, tasks)).Ok? {
      ReadKeys(site, tasks);
      FlagsAgree(site, tasks);
      if DistinctBy(KeyOf(), Serialize(site, tasks)) { FindsWhatWasPlanned(site, tasks, env); }
    }
  }

  lemma UnitIsReadable(site: Site, u: TsUnit)
    requires NormalizeInventoryPath(u.dir) == Ok(u.dir)
    ensures ReadableCwd(site, TsTask(site, u))
  {
    hide SafeInventoryPath, Join, RelativeText, Identity;
    assert u.dir == NormalizeInventoryPath(u.dir).value;
    assert '\\' !in u.dir;
    hide NormalizeInventoryPath;
    PlaceIsAccepted(site.root, u.dir);
  }

  lemma RootIsReadable(site: Site, t: Task)
    requires t.cwd == Some(site.root)
    ensures ReadableCwd(site, t)
  {
    hide Resolve, RelativeText;
    ResolveHere(site.root);
  }

  lemma BuiltTasksAreReadable(site: Site, legacy: seq<Task>, ts: seq<TsUnit>, cargo: seq<CargoUnit>,
                              selection: CargoSelection)
    requires forall u | u in ts :: NormalizeInventoryPath(u.dir) == Ok(u.dir)
    requires forall t | t in legacy :: t.identity.None?
    ensures var plan := AppendBuildTasks(site, legacy, ts, cargo, selection);
      && (forall t | t in plan :: t.identity != Some(""))
      && ((forall t | t in plan :: ReadableCwd(site, t)) <==>
          forall t | t in WithoutNative(legacy) :: ReadableCwd(site, t))
  {
    hide NormalizeInventoryPath, NeedsProducer, ReadableCwd, Join, AppendBuildTasks, Identity;
    forall t | t in AppendBuildTasks(site, legacy, ts, cargo, selection)
      ensures t.identity != Some("") && (ReadableCwd(site, t) || t in WithoutNative(legacy))
    {
      PlanMember(site, legacy, ts, cargo, selection, t);
      if IsTsTask(site, ts, t) {
        var u :| u in ts && t == TsTask(site, u);
        UnitIsReadable(site, u);
        IdentityOfDomain(site, "ts", u.id, u.dir);
      } else if t !in WithoutNative(legacy) {
        RootIsReadable(site, t);
      }
    }
    forall t | t in WithoutNative(legacy) ensures t in AppendBuildTasks(site, legacy, ts, cargo, selection) {
      LegacyIsPlanned(site, legacy, ts, cargo, selection, t);
    }
  }

  lemma IdentityOfDomain(site: Site, domain: string, id: string, location: string)
    ensures Identity(site, domain, id, location) != ""
  {
  }

  lemma LegacyIsPlanned(site: Site, legacy: seq<Task>, ts: seq<TsUnit>, cargo: seq<CargoUnit>,
                        selection: CargoSelection, t: Task)
    requires t in WithoutNative(legacy)
    ensures t in AppendBuildTasks(site, legacy, ts, cargo, selection)
  {
    hide NeedsProducer, CargoTasks, NativeTask, TsTasks, WithoutNative;
  }

  /**
   * A plan from the planner's own parts loads, in a job that follows the planner, exactly when the legacy tasks'
   * directories are readable and none of their keys is one of a build task; identities never clash.
   */
  lemma BuiltPlanLoads(format: Format, sourceSha: string, mode: Mode, paths: seq<string>, env: PlanEnv,
                       legacy: seq<Task>, ts: seq<TsUnit>, cargo: seq<CargoUnit>, selection: CargoSelection)
    requires format.Valid() && DistinctKeys(legacy) && forall t | t in legacy :: t.identity.None?
    requires DistinctBy((u: TsUnit) => u.id, ts) && forall u | u in ts :: NormalizeInventoryPath(u.dir) == Ok(u.dir)
    requires selection.Crates? ==> DistinctBy((u: CargoUnit) => u.id, selection.units)
    ensures var tasks := AppendBuildTasks(format.site, legacy, ts, cargo, selection);
      var raw := EmittedPlan(format, sourceSha, mode, paths, tasks);
      var read := Load(format, raw, env);
      && (read.Ok? <==> && Follows(format, env, sourceSha, raw, tasks)
                        && sourceSha != "" && format.canonical(paths) == paths
                        && (forall t | t in WithoutNative(legacy) :: ReadableCwd(format.site, t))
                        && Apart(KeyOf(), Serialize(format.site, WithoutNative(legacy)),
                                 Built(format.site, NeedsProducer(format.site, legacy, ts, cargo, selection),
                                       ts, selection)))
      && (read.Ok? ==> && SameTasks(format.site, tasks, read.value)
                       && Serialize(format.site, read.value) == Serialize(format.site, tasks)
                       && RecomputedFlags(read.value) == EmittedFlags(tasks))
  {
    hide AppendBuildTasks, Serialize, Load, EmittedPlan, Apart, Built, NeedsProducer, DistinctBy, DistinctKeys,
      ReadableCwd, KeyOf, IdentityOf, Follows, RecomputedFlags, EmittedFlags, WithoutNative, NormalizeInventoryPath,
      SameTasks;
    BuiltTasksAreReadable(format.site, legacy, ts, cargo, selection);
    PlanIsDistinct(format.site, legacy, ts, cargo, selection);
    PlanRoundTrip(format, sourceSha, mode, paths, AppendBuildTasks(format.site, legacy, ts, cargo, selection), env);
  }
}
