/**
 * Evidence that an affected-path run passed: a manifest over the plan and one receipt per shard, and a detached receipt
 * over the manifest. One job writes them, another validates them against its own environment.
 */
module AffectedEvidence {
  import opened Common
  import opened AffectedPlan
  import opened RepoPaths
  import opened InventoryPaths
  import Decimals

  // ---------------------------------------------------------------- values

  datatype EvidenceTask = EvidenceTask(key: string, identity: string)

  datatype Child = Child(name: string, sha256: string)

  datatype ReplayScope = ReplayScope(repository: string, workflow: string, runId: string)

  datatype Results = Results(
    plan: string, native: string, shards: string, python: string,
    windowsDoctor: string, windowsDoctorRequired: string,
    windowsNativeToolchain: string, windowsNativeToolchainRequired: string,
    telegramGuard: string, telegramGuardRequired: string, telegramWindows: string, telegramWindowsRequired: string,
    hasNative: string, hasTasks: string, hasPython: string,
    darwinSmoke: string, darwinSmokeRequired: string)

  datatype Manifest = Manifest(sourceSha: string, planDigest: string, planMode: string, replayScope: ReplayScope,
                               results: Results, tasks: seq<EvidenceTask>, children: seq<Child>)

  datatype Receipt = Receipt(manifestSha256: string, sourceSha: string, planDigest: string, replayScope: ReplayScope)

  predicate IsFlag(s: string) { s == "true" || s == "false" }

  /** A job that was required succeeded, and any other was skipped. */
  predicate Settles(result: string, required: string) {
    IsFlag(required) && result == if required == "true" then "success" else "skipped"
  }

  /** `validateAffectedAggregate`. */
  predicate ResultsPass(r: Results) {
    && r.plan == "success"
    && Settles(r.native, r.hasNative) && Settles(r.shards, r.hasTasks) && Settles(r.python, r.hasPython)
    && Settles(r.windowsDoctor, r.windowsDoctorRequired)
    && Settles(r.windowsNativeToolchain, r.windowsNativeToolchainRequired)
    && Settles(r.darwinSmoke, r.darwinSmokeRequired)
    && Settles(r.telegramGuard, r.telegramGuardRequired) && Settles(r.telegramWindows, r.telegramWindowsRequired)
  }

  /** What a job is told; empty text stands for a variable that is not set. */
  datatype Env = Env(scope: ReplayScope, sourceSha: string, planDigest: string, planMode: string, results: Results,
                     planSourceSha: string, checkedOut: string, matrixKey: string, matrixRust: bool,
                     matrixNextest: bool, matrixNative: bool, failAfterManifest: bool)

  predicate AllSet(r: Results) {
    && r.plan != "" && r.native != "" && r.shards != "" && r.python != ""
    && r.windowsDoctor != "" && r.windowsDoctorRequired != ""
    && r.windowsNativeToolchain != "" && r.windowsNativeToolchainRequired != ""
    && r.telegramGuard != "" && r.telegramGuardRequired != ""
    && r.telegramWindows != "" && r.telegramWindowsRequired != ""
    && r.hasNative != "" && r.hasTasks != "" && r.hasPython != "" && r.darwinSmoke != "" && r.darwinSmokeRequired != ""
  }

  predicate ScopeSet(s: ReplayScope) { s.repository != "" && s.workflow != "" && s.runId != "" }

  /** Every required variable is set. */
  predicate EnvSet(env: Env) {
    ScopeSet(env.scope) && env.sourceSha != "" && env.planDigest != "" && env.planMode != "" && AllSet(env.results)
  }

  // ---------------------------------------------------------------- files

  /** What a directory holds. A link is never followed. */
  datatype Node = File(bytes: Bytes) | Directory(entries: map<string, Node>) | Link

  type Folder = map<string, Node>

  const MANIFEST := ".ci-dev-affected-evidence.json"
  const RECEIPT := ".ci-dev-affected-evidence.receipt.json"
  const PLAN := ".ci-dev-affected-plan.json"
  const SHARDS := ".ci-dev-shard-receipts"

  function ReadFile(folder: Folder, name: string): (r: Option<Bytes>)
    ensures r.Some? <==> name in folder && folder[name].File?
  {
    if name in folder && folder[name].File? then Some(folder[name].bytes) else None
  }

  /** JSON texts and SHA-256, left open. A text that holds exactly a key and an identity names a shard's task. */
  datatype Codec = Codec(sha256: Bytes -> string, encodeManifest: Manifest -> Bytes,
                         decodeManifest: Bytes -> Option<Manifest>,
                         encodeReceipt: Receipt -> Bytes, decodeReceipt: Bytes -> Option<Receipt>,
                         shardTask: Bytes -> Option<EvidenceTask>, modeName: Mode -> string, plan: Format)
  {
    ghost predicate Valid() {
      && plan.Valid() && plan.digest == sha256
      && (forall b :: LowerHex(sha256(b), 64))
      && (forall m :: decodeManifest(encodeManifest(m)) == Some(m))
      && (forall r :: decodeReceipt(encodeReceipt(r)) == Some(r))
      && modeName(Pr) == "pr" && modeName(Push) == "push"
    }
  }

  /** `0.json`, `1.json` and so on. */
  function ShardName(i: nat): string { Decimals.Numeral(i) + ".json" }

  /** `expectedEvidenceTasks`. */
  function ShardTasks(site: Site, tasks: seq<Task>): seq<EvidenceTask> {
    if tasks == [] then []
    else
      var t := tasks[|tasks| - 1];
      ShardTasks(site, tasks[..|tasks| - 1])
      + (if !MarkedProducer(t) && !IsPython(t) then [EvidenceTask(t.key, CanonicalIdentity(site, t))] else [])
  }

  /** The shards the planner's matrix starts, in order. */
  function MatrixShards(site: Site, tasks: seq<Task>): seq<EvidenceTask> {
    if tasks == [] then []
    else
      var t := tasks[|tasks| - 1];
      MatrixShards(site, tasks[..|tasks| - 1]) +
        (if IsShard(t) then [EvidenceTask(t.key, CanonicalIdentity(site, t))] else [])
  }

  /** The receipts that are expected from the plan file are those of the shards that were started. */
  lemma {:induction false} ReceiptsMatchMatrix(site: Site, tasks: seq<Task>, read: seq<Task>)
    requires |read| == |tasks| && forall i | 0 <= i < |tasks| ::
      DeserializeTask(site, SerializeTask(site, tasks[i])) == Ok(read[i])
    ensures ShardTasks(site, read) == MatrixShards(site, tasks)
  {
    hide DeserializeTask, SerializeTask;
    if tasks != [] {
      var n := |tasks| - 1;
      assert forall i | 0 <= i < n :: tasks[..n][i] == tasks[i] && read[..n][i] == read[i];
      ReceiptsMatchMatrix(site, tasks[..n], read[..n]);
      ReadTask(site, tasks[n]);
    }
  }

  datatype LoadedPlan = LoadedPlan(tasks: seq<Task>, raw: Bytes, mode: string)

  /** `readValidatedEvidencePlan`. */
  function ReadPlan(codec: Codec, folder: Folder, env: Env): (r: Result<LoadedPlan>)
    ensures r.Ok? ==> PLAN in folder && folder[PLAN] == File(r.value.raw)
  {
    match ReadFile(folder, PLAN)
    case None => Rejected
    case Some(raw) =>
      match codec.plan.decode(raw)
      case None => Rejected
      case Some(plan) =>
        var loading := PlanEnv(env.planSourceSha, env.planDigest, env.checkedOut, env.matrixKey, env.matrixRust,
                               env.matrixNextest, env.matrixNative);
        match Load(codec.plan, raw, loading)
        case Rejected => Rejected
        case Ok(tasks) => Ok(LoadedPlan(tasks, raw, codec.modeName(plan.mode)))
  }

  // ---------------------------------------------------------------- child evidence

  /** `/^\d+\.json$/`. */
  predicate ReceiptName(s: string) {
    |s| > 5 && s[|s| - 5..] == ".json" && Decimals.Digits(s[..|s| - 5])
  }

  /** What the receipt directory holds: nothing at all when no shard ran, else as many receipts as shards. */
  function Receipts(folder: Folder, n: nat): Result<Folder> {
    if n == 0 then
      if SHARDS in folder then Rejected else Ok(map[])
    else if SHARDS !in folder || !folder[SHARDS].Directory? then Rejected
    else
      var entries := folder[SHARDS].entries;
      if |entries| != n || exists name | name in entries :: !ReceiptName(name) then Rejected else Ok(entries)
  }

  /** The receipt of one shard names its task. */
  predicate ReceiptFits(codec: Codec, entries: Folder, i: nat, task: EvidenceTask) {
    ReadFile(entries, ShardName(i)).Some? && codec.shardTask(ReadFile(entries, ShardName(i)).value) == Some(task)
  }

  function ShardChild(codec: Codec, entries: Folder, i: nat): Child
    requires ReadFile(entries, ShardName(i)).Some?
  {
    Child(SHARDS + "/" + ShardName(i), codec.sha256(ReadFile(entries, ShardName(i)).value))
  }

  predicate AllFit(codec: Codec, entries: Folder, shards: seq<EvidenceTask>) {
    forall i | 0 <= i < |shards| :: ReceiptFits(codec, entries, i, shards[i])
  }

  function ShardChildren(codec: Codec, entries: Folder, shards: seq<EvidenceTask>): (r: seq<Child>)
    requires AllFit(codec, entries, shards)
    ensures |r| == |shards|
  {
    seq(|shards|, i requires 0 <= i < |shards| =>
      assert ReceiptFits(codec, entries, i, shards[i]);
      ShardChild(codec, entries, i))
  }

  /** What `collectChildEvidence` returns. */
  function Collected(codec: Codec, folder: Folder, shards: seq<EvidenceTask>): Result<seq<Child>> {
    match Receipts(folder, |shards|)
    case Rejected => Rejected
    case Ok(entries) =>
      if ReadFile(folder, PLAN).None? || !AllFit(codec, entries, shards) then Rejected
      else Ok([Child(PLAN, codec.sha256(ReadFile(folder, PLAN).value))] + ShardChildren(codec, entries, shards))
  }

  method CollectChildEvidence(codec: Codec, folder: Folder, shards: seq<EvidenceTask>) returns (r: Result<seq<Child>>)
    ensures r == Collected(codec, folder, shards)
  {
    hide ReceiptName, Receipts, ReadFile;
    var receipts := Receipts(folder, |shards|);
    if receipts.Rejected? { return Rejected; }
    var entries := receipts.value;
    var plan := ReadFile(folder, PLAN);
    if plan.None? { return Rejected; }
    var children := [Child(PLAN, codec.sha256(plan.value))];
    for i := 0 to |shards|
      invariant AllFit(codec, entries, shards[..i])
      invariant children == [Child(PLAN, codec.sha256(plan.value))] + ShardChildren(codec, entries, shards[..i])
    {
      var raw := ReadFile(entries, ShardName(i));
      assert ReceiptFits(codec, entries, i, shards[i]) <==> raw.Some? && codec.shardTask(raw.value) == Some(shards[i]);
      if raw.None? { return Rejected; }
      if codec.shardTask(raw.value) != Some(shards[i]) { return Rejected; }
      assert forall j | 0 <= j < i :: shards[..i + 1][j] == shards[..i][j];
      children := children + [Child(SHARDS + "/" + ShardName(i), codec.sha256(raw.value))];
    }
    assert shards[..|shards|] == shards;
    return Ok(children);
  }

  // ---------------------------------------------------------------- writing

  function Truth(b: bool): string { if b then "true" else "false" }

  /** `validatePlanCapabilities`: the flags the run was given are those of the plan. */
  predicate FlagsMatch(tasks: seq<Task>, results: Results) {
    var flags := RecomputedFlags(tasks);
    && results.hasNative == Truth(flags.hasNative)
    && results.hasTasks == Truth(flags.hasTasks)
    && results.hasPython == Truth(flags.hasPython)
  }

  predicate IsMode(s: string) { s == "pr" || s == "push" }

  /** What writer and validator both ask of the plan and the environment. */
  predicate PlanBound(codec: Codec, plan: LoadedPlan, env: Env) {
    && EnvSet(env) && IsMode(env.planMode) && env.planMode == plan.mode && codec.sha256(plan.raw) == env.planDigest
    && ResultsPass(env.results) && FlagsMatch(plan.tasks, env.results)
  }

  function ManifestFor(codec: Codec, plan: LoadedPlan, env: Env, children: seq<Child>): Manifest {
    Manifest(env.sourceSha, env.planDigest, env.planMode, env.scope, env.results,
             ShardTasks(codec.plan.site, plan.tasks), children)
  }

  function ReceiptFor(codec: Codec, m: Manifest): Receipt {
    Receipt(codec.sha256(codec.encodeManifest(m)), m.sourceSha, m.planDigest, m.replayScope)
  }

  function WithEvidence(codec: Codec, folder: Folder, m: Manifest): Folder {
    folder[MANIFEST := File(codec.encodeManifest(m))][RECEIPT := File(codec.encodeReceipt(ReceiptFor(codec, m)))]
  }

  /** The manifest that is to be written, once everything was checked and no evidence is there yet. */
  function Prepared(codec: Codec, folder: Folder, env: Env): (r: Result<Manifest>)
    ensures r.Ok? ==> MANIFEST !in folder && RECEIPT !in folder
  {
    match ReadPlan(codec, folder, env)
    case Rejected => Rejected
    case Ok(plan) =>
      if !PlanBound(codec, plan, env) || MANIFEST in folder || RECEIPT in folder then Rejected
      else match Collected(codec, folder, ShardTasks(codec.plan.site, plan.tasks))
        case Rejected => Rejected
        case Ok(children) => Ok(ManifestFor(codec, plan, env, children))
  }

  /** The folder as `writeAffectedEvidence` leaves it when the file system does as it is told. */
  function Written(codec: Codec, folder: Folder, env: Env): Result<Folder> {
    match Prepared(codec, folder, env)
    case Rejected => Rejected
    case Ok(m) => if env.failAfterManifest then Rejected else Ok(WithEvidence(codec, folder, m))
  }

  /** How an exclusive write ends: whole, refused, or with an error after some of the bytes are there. */
  datatype Write = Whole | Refused | CutShort(kept: nat)

  /** What the file system does: both writes, reading the manifest back, and removing it again. */
  datatype Faults = Faults(manifest: Write, readsBack: bool, receipt: Write, removes: bool)

  const NO_FAULTS := Faults(Whole, true, Whole, true)

  function Kept(bytes: Bytes, n: nat): Bytes { if n < |bytes| then bytes[..n] else bytes }

  /** The manifest goes again, if the file system lets it. */
  function Cleaned(folder: Folder, faults: Faults): Folder { if faults.removes then folder - {MANIFEST} else folder }

  /** What an attempt to write evidence leaves, and whether it succeeds. */
  function Attempt(codec: Codec, folder: Folder, m: Manifest, fail: bool, faults: Faults): (Folder, bool) {
    var bytes := codec.encodeManifest(m);
    match faults.manifest
    case Refused => (folder, false)
    case CutShort(n) => (folder[MANIFEST := File(Kept(bytes, n))], false)
    case Whole =>
      var begun := folder[MANIFEST := File(bytes)];
      var receipt := codec.encodeReceipt(ReceiptFor(codec, m));
      if !faults.readsBack || fail then (Cleaned(begun, faults), false)
      else match faults.receipt
        case Refused => (Cleaned(begun, faults), false)
        case CutShort(n) => (Cleaned(begun[RECEIPT := File(Kept(receipt, n))], faults), false)
        case Whole => (begun[RECEIPT := File(receipt)], true)
  }

  // ---------------------------------------------------------------- validating

  predicate WellFormedManifest(m: Manifest) {
    && LowerHex(m.sourceSha, 40) && LowerHex(m.planDigest, 64) && IsMode(m.planMode) && ScopeSet(m.replayScope)
    && (forall t | t in m.tasks :: t.key != "" && t.identity != "")
    && (forall c | c in m.children :: LowerHex(c.sha256, 64))
  }

  predicate WellFormedReceipt(r: Receipt) {
    LowerHex(r.manifestSha256, 64) && LowerHex(r.sourceSha, 40) && LowerHex(r.planDigest, 64) && ScopeSet(r.replayScope)
  }

  /** `parseCanonicalManifest`: well-formed, and written in the one way the writer would. */
  function ParseManifest(codec: Codec, raw: Bytes): Option<Manifest> {
    match codec.decodeManifest(raw)
    case None => None
    case Some(m) => if WellFormedManifest(m) && raw == codec.encodeManifest(m) then Some(m) else None
  }

  function ParseReceipt(codec: Codec, raw: Bytes): Option<Receipt> {
    match codec.decodeReceipt(raw)
    case None => None
    case Some(r) => if WellFormedReceipt(r) && raw == codec.encodeReceipt(r) then Some(r) else None
  }

  /** The receipt speaks of the manifest beside it. */
  function BoundManifest(codec: Codec, folder: Folder): Option<(Manifest, Receipt)> {
    match (ReadFile(folder, RECEIPT), ReadFile(folder, MANIFEST))
    case (Some(receiptRaw), Some(manifestRaw)) =>
      (match (ParseReceipt(codec, receiptRaw), ParseManifest(codec, manifestRaw))
       case (Some(receipt), Some(manifest)) =>
         if receipt.manifestSha256 == codec.sha256(manifestRaw) then Some((manifest, receipt)) else None
       case (_, _) => None)
    case (_, _) => None
  }

  /** `validateAffectedEvidence` returns. */
  predicate Accepts(codec: Codec, folder: Folder, env: Env) {
    match (BoundManifest(codec, folder), ReadPlan(codec, folder, env))
    case (Some((manifest, receipt)), Ok(plan)) =>
      && EnvSet(env)
      && manifest.sourceSha == env.sourceSha && receipt.sourceSha == env.sourceSha
      && manifest.planDigest == env.planDigest && receipt.planDigest == env.planDigest
      && manifest.replayScope == env.scope && receipt.replayScope == env.scope
      && manifest.planMode == env.planMode && manifest.planMode == plan.mode && codec.sha256(plan.raw) == env.planDigest
      && ResultsPass(manifest.results) && manifest.results == env.results
      && IsMode(manifest.planMode) && FlagsMatch(plan.tasks, env.results)
      && manifest.tasks == ShardTasks(codec.plan.site, plan.tasks)
      && Collected(codec, folder, ShardTasks(codec.plan.site, plan.tasks)) == Ok(manifest.children)
    case (_, _) => false
  }

  // ---------------------------------------------------------------- written evidence is accepted

  /** The plan's shard tasks, as far as the plan can be read. */
  function PlanShards(codec: Codec, folder: Folder, env: Env): seq<EvidenceTask> {
    match ReadPlan(codec, folder, env)
    case Rejected => []
    case Ok(plan) => ShardTasks(codec.plan.site, plan.tasks)
  }

  lemma NamesDiffer()
    ensures MANIFEST != RECEIPT && MANIFEST != PLAN && MANIFEST != SHARDS
    ensures RECEIPT != PLAN && RECEIPT != SHARDS && PLAN != SHARDS
  {
    assert |MANIFEST| == 30 && |RECEIPT| == 38 && |PLAN| == 26 && |SHARDS| == 22;
  }

  /** Evidence beside the plan and the receipts does not change how those read. */
  lemma EvidenceIsAside(codec: Codec, folder: Folder, env: Env, m: Manifest, shards: seq<EvidenceTask>)
    ensures ReadPlan(codec, WithEvidence(codec, folder, m), env) == ReadPlan(codec, folder, env)
    ensures Collected(codec, WithEvidence(codec, folder, m), shards) == Collected(codec, folder, shards)
    ensures ReadFile(WithEvidence(codec, folder, m), MANIFEST) == Some(codec.encodeManifest(m))
    ensures ReadFile(WithEvidence(codec, folder, m), RECEIPT) == Some(codec.encodeReceipt(ReceiptFor(codec, m)))
  {
    hide Load, AllFit, ReceiptFor, ShardChildren;
    NamesDiffer();
    var after := WithEvidence(codec, folder, m);
    assert ReadFile(after, PLAN) == ReadFile(folder, PLAN);
    assert Receipts(after, |shards|) == Receipts(folder, |shards|);
  }

  /** Written evidence parses back exactly when the manifest is well-formed. */
  lemma EvidenceParses(codec: Codec, folder: Folder, m: Manifest)
    requires codec.Valid() && LowerHex(m.planDigest, 64) && ScopeSet(m.replayScope)
    requires ReadFile(folder, MANIFEST) == Some(codec.encodeManifest(m))
    requires ReadFile(folder, RECEIPT) == Some(codec.encodeReceipt(ReceiptFor(codec, m)))
    ensures BoundManifest(codec, folder) == if WellFormedManifest(m) then Some((m, ReceiptFor(codec, m))) else None
  {
    hide LowerHex, ScopeSet, IsMode, ReadFile;
  }

  lemma {:induction false} ShardIdentities(site: Site, tasks: seq<Task>)
    requires forall t | t in tasks :: t.identity.Some? && t.identity.value != ""
    ensures forall t | t in ShardTasks(site, tasks) :: t.identity != ""
  {
    if tasks != [] {
      ShardIdentities(site, tasks[..|tasks| - 1]);
      assert tasks[|tasks| - 1] in tasks;
    }
  }

  lemma LoadedIdentities(codec: Codec, folder: Folder, env: Env)
    requires ReadPlan(codec, folder, env).Ok?
    ensures forall t | t in ReadPlan(codec, folder, env).value.tasks :: t.identity.Some? && t.identity.value != ""
  {
    hide AllDifferent, FindKey, Deserialize, NormalizeInventoryPath;
    var raw := ReadFile(folder, PLAN).value;
    var ps := codec.plan.decode(raw).value.tasks;
    var tasks := ReadPlan(codec, folder, env).value.tasks;
    assert Deserialize(codec.plan.site, ps) == Ok(tasks);
    forall i | 0 <= i < |tasks| ensures tasks[i].identity.Some? && tasks[i].identity.value != "" {
      assert DeserializeTask(codec.plan.site, ps[i]) == Ok(tasks[i]);
    }
  }

  lemma CollectedHashes(codec: Codec, folder: Folder, shards: seq<EvidenceTask>)
    requires codec.Valid() && Collected(codec, folder, shards).Ok?
    ensures forall c | c in Collected(codec, folder, shards).value :: LowerHex(c.sha256, 64)
  {
    hide LowerHex, Receipts;
    var entries := Receipts(folder, |shards|).value;
    var children := ShardChildren(codec, entries, shards);
    forall i | 0 <= i < |children| ensures LowerHex(children[i].sha256, 64) {
      assert ReceiptFits(codec, entries, i, shards[i]);
    }
  }

  /** The same run: one commit, plan and mode, the same results, and the same place in the replay scope. */
  predicate SameRun(env: Env, other: Env) {
    && other.scope == env.scope && other.sourceSha == env.sourceSha && other.planDigest == env.planDigest
    && other.planMode == env.planMode && other.results == env.results
  }

  /** A plan that two jobs can read is the same for both. */
  lemma PlanIsTheSame(codec: Codec, folder: Folder, env: Env, other: Env)
    requires ReadPlan(codec, folder, env).Ok? && ReadPlan(codec, folder, other).Ok?
    ensures ReadPlan(codec, folder, env) == ReadPlan(codec, folder, other)
  {
    hide Deserialize, AllDifferent, FindKey;
  }

  /**
   * Written evidence is accepted by any job exactly when that job belongs to the same run and can read the plan, the
   * source commit is a full hash and every shard task has a key.
   */
  lemma AcceptedWhereItBelongs(codec: Codec, folder: Folder, env: Env, other: Env)
    requires codec.Valid() && Written(codec, folder, env).Ok?
    ensures Accepts(codec, Written(codec, folder, env).value, other) <==>
      && SameRun(env, other) && ReadPlan(codec, folder, other).Ok?
      && LowerHex(env.sourceSha, 40) && forall t | t in PlanShards(codec, folder, env) :: t.key != ""
  {
    hide ReadPlan, Collected, ResultsPass, FlagsMatch, BoundManifest, LowerHex, WithEvidence, ShardTasks, AllSet;
    var plan := ReadPlan(codec, folder, env).value;
    var shards := ShardTasks(codec.plan.site, plan.tasks);
    var children := Collected(codec, folder, shards).value;
    var m := ManifestFor(codec, plan, env, children);
    var after := WithEvidence(codec, folder, m);
    EvidenceIsAside(codec, folder, other, m, shards);
    assert LowerHex(m.planDigest, 64);
    EvidenceParses(codec, after, m);
    LoadedIdentities(codec, folder, env);
    ShardIdentities(codec.plan.site, plan.tasks);
    CollectedHashes(codec, folder, shards);
    if ReadPlan(codec, folder, other).Ok? { PlanIsTheSame(codec, folder, env, other); }
    assert WellFormedManifest(m) <==> LowerHex(env.sourceSha, 40) && forall t | t in shards :: t.key != "";
  }

  /**
   * Evidence that was written is accepted in the same environment exactly when the source commit is a full hash and
   * every shard task has a key.
   */
  lemma WrittenIsAccepted(codec: Codec, folder: Folder, env: Env)
    requires codec.Valid() && Written(codec, folder, env).Ok?
    ensures Accepts(codec, Written(codec, folder, env).value, env) <==>
      LowerHex(env.sourceSha, 40) && forall t | t in PlanShards(codec, folder, env) :: t.key != ""
  {
    hide Accepts, LowerHex, PlanShards;
    AcceptedWhereItBelongs(codec, folder, env, env);
  }

  // ---------------------------------------------------------------- written and refused

  /** A run with these shards, in which nothing else was planned or required. */
  function Quiet(shards: bool): Results {
    Results("success", "skipped", if shards then "success" else "skipped", "skipped", "skipped", "false",
            "skipped", "false", "skipped", "false", "skipped", "false", "false", Truth(shards), "false",
            "skipped", "false")
  }

  /** The plan file for these tasks at this commit. */
  function PlanFor(codec: Codec, commit: string, tasks: seq<PlannedTask>): Bytes {
    codec.plan.encode(Plan(commit, Pr, [], tasks))
  }

  /** Its job, told this source commit. */
  function JobFor(codec: Codec, raw: Bytes, commit: string, source: string, shards: bool): Env {
    Env(ReplayScope("r", "w", "1"), source, codec.sha256(raw), "pr", Quiet(shards), commit, commit, "",
        false, false, false, false)
  }

  lemma PlanIsRead(codec: Codec, folder: Folder, commit: string, source: string, shards: bool, ps: seq<PlannedTask>,
                   tasks: seq<Task>)
    requires codec.Valid() && codec.plan.canonical([]) == [] && commit != ""
    requires Deserialize(codec.plan.site, ps) == Ok(tasks) && |tasks| <= 1
    requires ReadFile(folder, PLAN) == Some(PlanFor(codec, commit, ps))
    ensures var raw := PlanFor(codec, commit, ps);
      ReadPlan(codec, folder, JobFor(codec, raw, commit, source, shards)) == Ok(LoadedPlan(tasks, raw, "pr"))
  {
    hide LowerHex, Deserialize, AllDifferent, ReadFile;
    assert codec.plan.decode(PlanFor(codec, commit, ps)) == Some(Plan(commit, Pr, [], ps));
    AllDifferentIsDistinct(KeysIn(tasks));
    AllDifferentIsDistinct(IdentitiesIn(tasks));
  }

  lemma JobIsBound(codec: Codec, raw: Bytes, tasks: seq<Task>, commit: string, source: string, shards: bool)
    requires codec.Valid() && source != "" && RecomputedFlags(tasks) == Flags(false, shards, false)
    ensures PlanBound(codec, LoadedPlan(tasks, raw, "pr"), JobFor(codec, raw, commit, source, shards))
  {
    hide RecomputedFlags;
  }

  /** An empty plan. */
  function EmptyPlan(codec: Codec, commit: string): Bytes { PlanFor(codec, commit, []) }

  function EmptyFolder(codec: Codec, commit: string): Folder { map[PLAN := File(EmptyPlan(codec, commit))] }

  lemma NothingIsRead(site: Site)
    ensures Deserialize(site, []) == Ok([]) && RecomputedFlags([]) == Flags(false, false, false)
  {
  }

  /** An empty run whose job is told a source commit that is not a full hash: evidence is written, and then refused. */
  lemma ShortCommitIsWrittenAndRefused(codec: Codec, commit: string, source: string)
    requires codec.Valid() && codec.plan.canonical([]) == []
    requires LowerHex(commit, 40) && source != "" && !LowerHex(source, 40)
    ensures var env := JobFor(codec, EmptyPlan(codec, commit), commit, source, false);
      var written := Written(codec, EmptyFolder(codec, commit), env);
      written.Ok? && !Accepts(codec, written.value, env)
  {
    hide ReadPlan, PlanBound, Accepts, JobFor, PlanFor, RecomputedFlags, Deserialize;
    var folder := EmptyFolder(codec, commit);
    var env := JobFor(codec, EmptyPlan(codec, commit), commit, source, false);
    JobMeans(codec, EmptyPlan(codec, commit), commit, source, false);
    NamesDiffer();
    NothingIsRead(codec.plan.site);
    PlanIsRead(codec, folder, commit, source, false, [], []);
    JobIsBound(codec, EmptyPlan(codec, commit), [], commit, source, false);
    assert Collected(codec, folder, []).Ok?;
    WrittenIsAccepted(codec, folder, env);
  }

  lemma JobMeans(codec: Codec, raw: Bytes, commit: string, source: string, shards: bool)
    ensures var env := JobFor(codec, raw, commit, source, shards);
      env.sourceSha == source && !env.failAfterManifest
  {
  }

  /** A task without a key. */
  const NAMELESS := PlannedTask("", "i", "", [], ".", Capabilities(false, false, false, false), Legacy)

  function NamelessTask(site: Site): Task {
    Task("", Some("i"), "", [], Some(site.root), Some(Capabilities(false, false, false, false)), Some(Legacy))
  }

  function NamelessPlan(codec: Codec, commit: string): Bytes { PlanFor(codec, commit, [NAMELESS]) }

  /** Its plan and the receipt of its shard. */
  function NamelessFolder(codec: Codec, commit: string, receipt: Bytes): Folder {
    map[PLAN := File(NamelessPlan(codec, commit)), SHARDS := Directory(map[ShardName(0) := File(receipt)])]
  }

  lemma NamelessIsRead(site: Site)
    ensures Deserialize(site, [NAMELESS]) == Ok([NamelessTask(site)])
    ensures RecomputedFlags([NamelessTask(site)]) == Flags(false, true, false)
    ensures ShardTasks(site, [NamelessTask(site)]) == [EvidenceTask("", "i")]
  {
    ResolveHere(site.root);
    hide Resolve, RelativeText;
    var t := NamelessTask(site);
    assert DeserializeTask(site, NAMELESS) == Ok(t);
    var read := Deserialize(site, [NAMELESS]);
    assert forall i | 0 <= i < 1 :: DeserializeTask(site, [NAMELESS][i]).Ok?;
    assert read.Ok? && DeserializeTask(site, [NAMELESS][0]) == Ok(read.value[0]);
    assert read.value == [t];
    assert t in [t] && IsPython(t) == false && MarkedProducer(t) == false;
    assert [t][..0] == [];
  }

  lemma FirstReceiptName()
    ensures ReceiptName(ShardName(0))
  {
    var n := Decimals.Numeral(0);
    assert ShardName(0)[|n|..] == ".json" && ShardName(0)[..|n|] == n;
  }

  lemma NamelessIsCollected(codec: Codec, commit: string, receipt: Bytes)
    requires codec.shardTask(receipt) == Some(EvidenceTask("", "i"))
    ensures Collected(codec, NamelessFolder(codec, commit, receipt), [EvidenceTask("", "i")]).Ok?
  {
    hide ReceiptName, ShardName;
    NamesDiffer();
    FirstReceiptName();
    var folder, shards := NamelessFolder(codec, commit, receipt), [EvidenceTask("", "i")];
    var entries := folder[SHARDS].entries;
    assert |entries| == 1 && Receipts(folder, 1) == Ok(entries);
    assert ReceiptFits(codec, entries, 0, shards[0]);
  }

  /** A full source commit, but one shard's task has an empty key: evidence is written, and then refused. */
  lemma EmptyKeyIsWrittenAndRefused(codec: Codec, commit: string, receipt: Bytes)
    requires codec.Valid() && codec.plan.canonical([]) == []
    requires LowerHex(commit, 40) && codec.shardTask(receipt) == Some(EvidenceTask("", "i"))
    ensures var env := JobFor(codec, NamelessPlan(codec, commit), commit, commit, true);
      var written := Written(codec, NamelessFolder(codec, commit, receipt), env);
      written.Ok? && !Accepts(codec, written.value, env)
  {
    hide ReadPlan, PlanBound, Accepts, JobFor, PlanFor, RecomputedFlags, Deserialize, Collected, ShardTasks;
    var folder, raw := NamelessFolder(codec, commit, receipt), NamelessPlan(codec, commit);
    var env, site := JobFor(codec, raw, commit, commit, true), codec.plan.site;
    JobMeans(codec, raw, commit, commit, true);
    NamesDiffer();
    NamelessIsRead(site);
    PlanIsRead(codec, folder, commit, commit, true, [NAMELESS], [NamelessTask(site)]);
    JobIsBound(codec, raw, [NamelessTask(site)], commit, commit, true);
    NamelessIsCollected(codec, commit, receipt);
    assert EvidenceTask("", "i") in PlanShards(codec, folder, env);
    WrittenIsAccepted(codec, folder, env);
  }

  // ---------------------------------------------------------------- what a failed attempt leaves

  /** No proper prefix of a receipt's text is the text of a receipt. */
  ghost predicate PrefixFree(codec: Codec) {
    forall a, b :: codec.encodeReceipt(a) <= codec.encodeReceipt(b) ==> codec.encodeReceipt(a) == codec.encodeReceipt(b)
  }

  lemma AcceptedHasBoth(codec: Codec, folder: Folder, env: Env)
    requires Accepts(codec, folder, env)
    ensures MANIFEST in folder && RECEIPT in folder && folder[RECEIPT].File?
    ensures exists r :: folder[RECEIPT].bytes == codec.encodeReceipt(r)
  {
    hide ReadPlan, Collected, WellFormedManifest, WellFormedReceipt, ResultsPass, FlagsMatch, EnvSet;
  }

  /**
   * Whatever an attempt leaves, in any environment it is accepted only if it is the complete evidence; and never after
   * a failure in which the manifest was removed again.
   */
  lemma LeftoverIsNotEvidence(codec: Codec, folder: Folder, m: Manifest, fail: bool, faults: Faults, env: Env)
    requires PrefixFree(codec) && MANIFEST !in folder && RECEIPT !in folder
    ensures var (left, ok) := Attempt(codec, folder, m, fail, faults);
      && (ok ==> left == WithEvidence(codec, folder, m))
      && (Accepts(codec, left, env) ==> left == WithEvidence(codec, folder, m))
      && (Accepts(codec, left, env) && faults.removes ==> ok)
  {
    hide Accepts;
    var (left, ok) := Attempt(codec, folder, m, fail, faults);
    NamesDiffer();
    if Accepts(codec, left, env) {
      AcceptedHasBoth(codec, left, env);
      if !ok {
        var receipt := codec.encodeReceipt(ReceiptFor(codec, m));
        var r :| left[RECEIPT].bytes == codec.encodeReceipt(r);
        assert codec.encodeReceipt(r) <= receipt;
      }
    }
  }

  /** A failed attempt can be made again exactly if it left nothing behind. */
  lemma RetryNeedsACleanFolder(codec: Codec, folder: Folder, env: Env, fail: bool, faults: Faults)
    requires Prepared(codec, folder, env).Ok? &&
      !Attempt(codec, folder, Prepared(codec, folder, env).value, fail, faults).1
    ensures var m := Prepared(codec, folder, env).value;
      var left := Attempt(codec, folder, m, fail, faults).0;
      && (Prepared(codec, left, env) == if left == folder then Ok(m) else Rejected)
      && (left == folder <==>
          || faults.manifest.Refused?
          || (faults.manifest.Whole? && faults.removes && (!faults.readsBack || fail || faults.receipt.Refused?)))
  {
    hide ReadPlan, PlanBound, Collected, ShardTasks, Kept;
    NamesDiffer();
    var m := Prepared(codec, folder, env).value;
    var left := Attempt(codec, folder, m, fail, faults).0;
    if left != folder { assert MANIFEST in left || RECEIPT in left; }
  }

  // ---------------------------------------------------------------- what acceptance means

  lemma ShardNamesDiffer(i: nat, j: nat)
    requires ShardName(i) == ShardName(j)
    ensures i == j
  {
    var a, b := Decimals.Numeral(i), Decimals.Numeral(j);
    assert ShardName(i)[..|a|] == a && ShardName(j)[..|b|] == b;
  }

  function ShardNames(n: nat): set<string> { set i | 0 <= i < n :: ShardName(i) }

  lemma {:induction false} ShardNamesCount(n: nat)
    ensures |ShardNames(n)| == n
  {
    hide ShardName;
    if n > 0 {
      ShardNamesCount(n - 1);
      forall i | 0 <= i < n - 1 ensures ShardName(i) != ShardName(n - 1) {
        if ShardName(i) == ShardName(n - 1) { ShardNamesDiffer(i, n - 1); }
      }
      assert ShardNames(n) == ShardNames(n - 1) + {ShardName(n - 1)};
    }
  }

  /** The receipts are `0.json` to the last, each naming its own task, and nothing else is there. */
  ghost predicate ExactReceipts(codec: Codec, folder: Folder, shards: seq<EvidenceTask>) {
    if shards == [] then SHARDS !in folder
    else
      && SHARDS in folder && folder[SHARDS].Directory? && folder[SHARDS].entries.Keys == ShardNames(|shards|)
      && forall i | 0 <= i < |shards| :: ReceiptFits(codec, folder[SHARDS].entries, i, shards[i])
  }

  /** Counting the receipts and finding each expected one leaves room for no other. */
  lemma CollectedIsExact(codec: Codec, folder: Folder, shards: seq<EvidenceTask>)
    requires Collected(codec, folder, shards).Ok?
    ensures ExactReceipts(codec, folder, shards)
  {
    hide ShardName, ReceiptName, ShardChildren;
    if shards != [] {
      var entries := folder[SHARDS].entries;
      assert Receipts(folder, |shards|) == Ok(entries);
      assert |entries.Keys| == |entries|;
      forall i | 0 <= i < |shards| ensures ShardName(i) in entries { assert ReceiptFits(codec, entries, i, shards[i]); }
      ShardNamesCount(|shards|);
      SubsetOfSameSize(ShardNames(|shards|), entries.Keys);
    }
  }

  /** Accepted evidence covers the plan's shards, one receipt each, in their order. */
  lemma AcceptedCoversPlan(codec: Codec, folder: Folder, env: Env)
    requires Accepts(codec, folder, env)
    ensures ExactReceipts(codec, folder, PlanShards(codec, folder, env))
  {
    hide Collected, ExactReceipts, BoundManifest, ReadPlan;
    CollectedIsExact(codec, folder, PlanShards(codec, folder, env));
  }

  /** A job that had to run succeeded, and one that had not was skipped. */
  predicate Ended(result: string, required: bool) { result == if required then "success" else "skipped" }

  predicate EndedAsRequired(result: string, required: string) {
    (required == "true" && result == "success") || (required == "false" && result == "skipped")
  }

  /**
   * Behind accepted evidence the planner succeeded, and the native, shard and Python jobs succeeded if the planned
   * tasks have work for them and were skipped if not; the other jobs succeeded or were skipped as required.
   */
  lemma AcceptedJobsPassed(codec: Codec, folder: Folder, env: Env, sourceSha: string, mode: Mode, paths: seq<string>,
                           tasks: seq<Task>)
    requires codec.Valid() && Accepts(codec, folder, env)
    requires ReadFile(folder, PLAN) == Some(EmittedPlan(codec.plan, sourceSha, mode, paths, tasks))
    ensures var r := env.results;
      && r.plan == "success"
      && Ended(r.native, exists t :: t in tasks && CapabilitiesOf(t).nativeProducer)
      && Ended(r.shards, exists t :: t in tasks && !CapabilitiesOf(t).nativeProducer && t.phase != Some(Python))
      && Ended(r.python, exists t :: t in tasks && t.phase == Some(Python))
      && EndedAsRequired(r.windowsDoctor, r.windowsDoctorRequired)
      && EndedAsRequired(r.windowsNativeToolchain, r.windowsNativeToolchainRequired)
      && EndedAsRequired(r.darwinSmoke, r.darwinSmokeRequired)
      && EndedAsRequired(r.telegramGuard, r.telegramGuardRequired)
      && EndedAsRequired(r.telegramWindows, r.telegramWindowsRequired)
  {
    hide Accepts, EmittedPlan, RecomputedFlags, CapabilitiesOf, ReadPlan, ReadFile;
    AcceptedResults(codec, folder, env);
    FlagsOfPlanFile(codec, folder, env, sourceSha, mode, paths, tasks);
  }

  lemma AcceptedResults(codec: Codec, folder: Folder, env: Env)
    requires Accepts(codec, folder, env)
    ensures ReadPlan(codec, folder, env).Ok?
    ensures ResultsPass(env.results) && FlagsMatch(ReadPlan(codec, folder, env).value.tasks, env.results)
  {
    hide Collected, BoundManifest, ReadPlan, ShardTasks, ResultsPass, FlagsMatch;
  }

  lemma FlagsOfPlanFile(codec: Codec, folder: Folder, env: Env, sourceSha: string, mode: Mode, paths: seq<string>,
                        tasks: seq<Task>)
    requires codec.Valid() && ReadPlan(codec, folder, env).Ok?
    requires ReadFile(folder, PLAN) == Some(EmittedPlan(codec.plan, sourceSha, mode, paths, tasks))
    ensures RecomputedFlags(ReadPlan(codec, folder, env).value.tasks) == EmittedFlags(tasks)
  {
    hide Load, EmittedPlan, RecomputedFlags, EmittedFlags, CapabilitiesOf, ReadFile;
    var plan := ReadPlan(codec, folder, env).value;
    LoadedTasksArePlanned(codec.plan, sourceSha, mode, paths, tasks, PlanEnv(
      env.planSourceSha, env.planDigest, env.checkedOut, env.matrixKey, env.matrixRust, env.matrixNextest,
      env.matrixNative));
    forall i | 0 <= i < |tasks|
      ensures plan.tasks[i].capabilities == Some(CapabilitiesOf(tasks[i])) &&
        (plan.tasks[i].phase == Some(Python) <==> tasks[i].phase == Some(Python))
    {
      assert SameTask(codec.plan.site, tasks[i], plan.tasks[i]);
    }
    Correspond(tasks, plan.tasks);
  }

  // ---------------------------------------------------------------- no byte can change

  /** The receipt directory, as far as there is one. */
  function ReceiptFolder(folder: Folder): Folder {
    if SHARDS in folder && folder[SHARDS].Directory? then folder[SHARDS].entries else map[]
  }

  lemma ReceiptsAre(folder: Folder, n: nat)
    requires Receipts(folder, n).Ok?
    ensures Receipts(folder, n).value == ReceiptFolder(folder)
  {
  }

  /** Two files are equal if their hashes are. */
  predicate Told(codec: Codec, a: Option<Bytes>, b: Option<Bytes>) {
    a.Some? && b.Some? && codec.sha256(a.value) == codec.sha256(b.value) ==> a == b
  }

  /** The hash tells the manifests, the plans and the receipts of the same name in two folders apart. */
  predicate NoCollision(codec: Codec, f: Folder, g: Folder) {
    && Told(codec, ReadFile(f, MANIFEST), ReadFile(g, MANIFEST)) && Told(codec, ReadFile(f, PLAN), ReadFile(g, PLAN))
    && forall name | name in ReceiptFolder(f) ::
         Told(codec, ReadFile(ReceiptFolder(f), name), ReadFile(ReceiptFolder(g), name))
  }

  /** Equal child evidence means equal plan and equal receipts. */
  lemma ChildrenDetermineFiles(codec: Codec, f: Folder, g: Folder, s: seq<EvidenceTask>, t: seq<EvidenceTask>)
    requires NoCollision(codec, f, g) && Collected(codec, f, s).Ok? && Collected(codec, f, s) == Collected(codec, g, t)
    ensures |s| == |t| && ReadFile(f, PLAN) == ReadFile(g, PLAN)
    ensures forall i | 0 <= i < |s| ::
      var a, b := Receipts(f, |s|).value, Receipts(g, |t|).value;
      ReadFile(a, ShardName(i)).Some? && ReadFile(a, ShardName(i)) == ReadFile(b, ShardName(i))
  {
    hide ShardName, Receipts, ReceiptFolder;
    var a, b := Receipts(f, |s|).value, Receipts(g, |t|).value;
    ReceiptsAre(f, |s|);
    ReceiptsAre(g, |t|);
    var x, y := ShardChildren(codec, a, s), ShardChildren(codec, b, t);
    var cs, ds := Collected(codec, f, s).value, Collected(codec, g, t).value;
    assert cs[0] == ds[0] && cs[1..] == x && ds[1..] == y;
    forall i | 0 <= i < |s|
      ensures ReadFile(a, ShardName(i)).Some? && ReadFile(a, ShardName(i)) == ReadFile(b, ShardName(i))
    {
      assert ReceiptFits(codec, a, i, s[i]) && ReceiptFits(codec, b, i, t[i]);
      assert x[i] == y[i];
      assert Told(codec, ReadFile(a, ShardName(i)), ReadFile(b, ShardName(i)));
    }
  }

  /** What the evidence is about: the manifest, the plan and the receipts. */
  predicate SameEvidence(f: Folder, g: Folder) {
    && ReadFile(f, MANIFEST) == ReadFile(g, MANIFEST) && ReadFile(f, PLAN) == ReadFile(g, PLAN)
    && (SHARDS in f <==> SHARDS in g) && (SHARDS in f ==> f[SHARDS] == g[SHARDS])
  }

  lemma ReceiptsDetermineFolder(codec: Codec, f: Folder, g: Folder, s: seq<EvidenceTask>, t: seq<EvidenceTask>)
    requires |s| == |t| && Collected(codec, f, s).Ok? && Collected(codec, g, t).Ok?
    requires forall i | 0 <= i < |s| ::
      var a, b := Receipts(f, |s|).value, Receipts(g, |t|).value;
      ReadFile(a, ShardName(i)).Some? && ReadFile(a, ShardName(i)) == ReadFile(b, ShardName(i))
    ensures (SHARDS in f <==> SHARDS in g) && (SHARDS in f ==> f[SHARDS] == g[SHARDS])
  {
    hide ShardName, ReceiptName, ShardChildren, AllFit;
    CollectedIsExact(codec, f, s);
    CollectedIsExact(codec, g, t);
    if s != [] {
      var a, b := f[SHARDS].entries, g[SHARDS].entries;
      assert Receipts(f, |s|) == Ok(a) && Receipts(g, |t|) == Ok(b);
      forall name | name in a ensures a[name] == b[name] {
        assert name in ShardNames(|s|);
        var i :| 0 <= i < |s| && name == ShardName(i);
        assert ReadFile(a, ShardName(i)) == ReadFile(b, ShardName(i));
      }
      assert a == b;
    }
  }

  /**
   * Two accepted folders with the same detached receipt hold the same manifest, plan and receipts, whatever the
   * environments, unless the hash confuses two of those very files: any other changed byte of them is refused.
   */
  lemma ReceiptDeterminesEvidence(codec: Codec, f: Folder, g: Folder, env: Env, other: Env)
    requires NoCollision(codec, f, g) && Accepts(codec, f, env) && Accepts(codec, g, other)
    requires ReadFile(f, RECEIPT) == ReadFile(g, RECEIPT)
    ensures SameEvidence(f, g)
  {
    hide Collected, ReadPlan, WellFormedManifest, WellFormedReceipt, ResultsPass, FlagsMatch, EnvSet, Receipts,
      ReadFile, NoCollision;
    ManifestIsDetermined(codec, f, g);
    var m := BoundManifest(codec, f).value.0;
    assert BoundManifest(codec, g).value.0 == m;
    hide BoundManifest;
    var s, t := PlanShards(codec, f, env), PlanShards(codec, g, other);
    ChildrenDetermineFiles(codec, f, g, s, t);
    ReceiptsDetermineFolder(codec, f, g, s, t);
  }

  lemma ManifestIsDetermined(codec: Codec, f: Folder, g: Folder)
    requires NoCollision(codec, f, g) && BoundManifest(codec, f).Some? && BoundManifest(codec, g).Some?
    requires ReadFile(f, RECEIPT) == ReadFile(g, RECEIPT)
    ensures ReadFile(f, MANIFEST) == ReadFile(g, MANIFEST) && BoundManifest(codec, f) == BoundManifest(codec, g)
  {
    hide WellFormedManifest, WellFormedReceipt, ReadFile;
  }

  // ---------------------------------------------------------------- the jobs

  class EvidenceRoot {
    var folder: Folder

    constructor (folder: Folder)
      ensures this.folder == folder
    {
      this.folder := folder;
    }

    /** An exclusive write to a name that is not taken. */
    method WriteFile(name: string, bytes: Bytes, how: Write) returns (ok: bool)
      requires name !in folder
      modifies this
      ensures ok == how.Whole?
      ensures folder == match how
        case Whole => old(folder)[name := File(bytes)]
        case Refused => old(folder)
        case CutShort(n) => old(folder)[name := File(Kept(bytes, n))]
    {
      match how
      case Whole =>
        folder := folder[name := File(bytes)];
        return true;
      case Refused =>
        return false;
      case CutShort(n) =>
        folder := folder[name := File(Kept(bytes, n))];
        return false;
    }

    /**
     * `writeAffectedEvidence`: nothing happens unless everything was checked; then the files are left exactly as the
     * attempt says, and both are there whole if it succeeds.
     */
    method WriteAffectedEvidence(codec: Codec, env: Env, faults: Faults) returns (r: Result<()>)
      modifies this
      ensures Prepared(codec, old(folder), env).Rejected? ==> r.Rejected? && folder == old(folder)
      ensures Prepared(codec, old(folder), env).Ok? ==>
        (folder, r.Ok?) ==
        Attempt(codec, old(folder), Prepared(codec, old(folder), env).value, env.failAfterManifest, faults)
      ensures faults == NO_FAULTS ==> (r.Ok? <==> Written(codec, old(folder), env).Ok?)
      ensures faults == NO_FAULTS ==> folder == if r.Ok? then Written(codec, old(folder), env).value else old(folder)
    {
      hide ReadPlan, PlanBound, Collected, ShardTasks, Kept;
      var loaded := ReadPlan(codec, folder, env);
      if loaded.Rejected? { return Rejected; }
      var plan := loaded.value;
      if !PlanBound(codec, plan, env) { return Rejected; }
      if MANIFEST in folder || RECEIPT in folder { return Rejected; }
      var collected := CollectChildEvidence(codec, folder, ShardTasks(codec.plan.site, plan.tasks));
      if collected.Rejected? { return Rejected; }
      var manifest := ManifestFor(codec, plan, env, collected.value);
      NamesDiffer();
      var wroteManifest := WriteFile(MANIFEST, codec.encodeManifest(manifest), faults.manifest);
      if !wroteManifest { return Rejected; }
      var ok := false;
      if faults.readsBack && !env.failAfterManifest {
        var finalized := ReadFile(folder, MANIFEST);
        var receipt := Receipt(codec.sha256(finalized.value), manifest.sourceSha, manifest.planDigest,
                               manifest.replayScope);
        ok := WriteFile(RECEIPT, codec.encodeReceipt(receipt), faults.receipt);
      }
      if ok { return Ok(()); }
      if faults.removes { folder := folder - {MANIFEST}; }
      assert faults == NO_FAULTS ==> folder == old(folder);
      return Rejected;
    }

    /** `validateAffectedEvidence`. */
    method ValidateAffectedEvidence(codec: Codec, env: Env) returns (r: Result<()>)
      ensures r.Ok? <==> Accepts(codec, folder, env)
    {
      hide ReadPlan, Collected, ShardTasks, BoundManifest, ResultsPass, FlagsMatch, EnvSet;
      var bound := BoundManifest(codec, folder);
      if bound.None? { return Rejected; }
      var (manifest, receipt) := bound.value;
      var loaded := ReadPlan(codec, folder, env);
      if loaded.Rejected? || !EnvSet(env) { return Rejected; }
      var plan := loaded.value;
      if manifest.sourceSha != env.sourceSha || manifest.planDigest != env.planDigest { return Rejected; }
      if receipt.sourceSha != env.sourceSha || receipt.planDigest != env.planDigest { return Rejected; }
      if manifest.replayScope != env.scope || receipt.replayScope != env.scope { return Rejected; }
      if manifest.planMode != env.planMode || manifest.planMode != plan.mode { return Rejected; }
      if codec.sha256(plan.raw) != env.planDigest { return Rejected; }
      if !ResultsPass(manifest.results) || manifest.results != env.results { return Rejected; }
      if !IsMode(manifest.planMode) || !FlagsMatch(plan.tasks, env.results) { return Rejected; }
      var expected := ShardTasks(codec.plan.site, plan.tasks);
      if manifest.tasks != expected { return Rejected; }
      var children := CollectChildEvidence(codec, folder, expected);
      if children != Ok(manifest.children) { return Rejected; }
      return Ok(());
    }
  }
}
