# Release, CI and research models

A Dafny 4.11 model of the protocol-like parts of this repository, with proofs about all inputs and all runs. It covers
the canonical package tarball and the release protocol (`release-evidence.ts`, `ci-release-publish.ts`, `release.ts`,
`nightly-release.ts`, `changelog-history-guard.ts`), the affected-path planner and its evidence (`ci-dev-affected.ts`),
the binary readers of `dev-link.ts`, and the research engine of `doribogo`.

`dafny verify dfyconfig.toml` checks the whole project.

## How it is laid out

| files | component |
|---|---|
| `Common`, `Sorting`, `Splitting`, `Decimals`, `Utf8`, `Whitespace` | shared notions: bytes and results, stable sorting, split and join, numerals, text |
| `TarFields`, `Pax`, `PaxFormat`, `TarReader`, `TarPaths`, `TarExtensions`, `TarImages`, `TarWriter`, `TarRoundTrip`, `TarCanonical`, `TarReread`, `TarInspect`, `TarBomExample` | the tarball codec |
| `Evidence`, `PublishOrder`, `PublishPlan`, `PublishRun`, `ImmutableWrite`, `ImmutableOutcome` | release evidence, publication order, the publication run, exclusive file creation |
| `Versions`, `Nightly`, `AtomicPush`, `Changelog`, `ChangelogText` | version order, nightly versions, the atomic push, changelog release and guard |
| `DependentsClosure`, `RepoPaths`, `InventoryPaths`, `RawPaths`, `AffectedPlan`, `AffectedEvidence` | affected-path planning, directories, the plan file, the evidence files |
| `ChunkedSearch`, `BinaryFraming` | searching a file in chunks, shim metadata, PE completeness |
| `Frontier`, `ResearchRun` | the research frontier and the research run |

Loops and in-place updates of the source are methods over arrays, class fields or local state, each proved equal to a
specification function or against the property itself; expressions are functions. Whatever lies outside is a parameter
or an environment that answers as it likes: hashes, gzip, base64 and JSON text, registry, remote, file system,
harvester, `localeCompare`. Thrown errors are `Rejected`; messages are not modelled.

## Where the code does not keep a promise on every input

Each of these is stated as an exact condition on the input, with an input that fails it.

- A tar path whose ustar name field opens with a byte order mark does not survive the round trip, because the reader's
  `TextDecoder` drops the mark (`TarCanonical.RoundTrip`, `TarBomExample.BomBreaksTheRoundTrip`). Its canonical archive
  can even be unreadable, though the input inspects (`TarInspect.CanonicalInspectsAlike`,
  `TarBomExample.CanonicalFormIsRefused`).
- `max_candidates` below zero breaks the frontier's top-k law, since a Python slice then counts from the end
  (`Frontier.StreamingNeedsABound`).
- A release whose `## [Unreleased]` stands inside another heading's open bracket removes that heading, and the guard then
  refuses the release (`Changelog.ReleasedPassesGuard`, `Changelog.ReleaseCanRemoveHistory`).
- The new version's heading is not always inserted, although a comment in `releasedChangelogContent` says so: it takes an
  unreleased heading, at its line's start if there are notes (`Changelog.NewHeadingIsAdded`,
  `Changelog.ReleaseCanAddNothing`).
- A selected TypeScript unit marked as a native producer is planned but run by no job: shards skip it by its mark, the
  native job by its key (`AffectedPlan.EveryTaskHasAJob`, `AffectedPlan.MarkedUnitHasNoJob`). The shipped inventory has
  no such unit.
- `normalizeInventoryPath` refuses `../` but accepts `..`, and the reader of a plan, which resolves the directory as it
  was written, accepts `./..` too; a task with either runs outside the repository (`RawPaths.AcceptedValueStaysInside`,
  `AffectedPlan.LoadedTasksRunInside`, `AffectedPlan.TaskCanRunOutside`). It also accepts `x/..`, which is written back
  differently (`InventoryPaths.AcceptedPathStaysInside`, `RawPaths.TakenBackNameLeadsHere`).
- Evidence can be written that the validator then refuses, exactly when the source commit is not a full hash or a shard
  task has an empty key (`AffectedEvidence.WrittenIsAccepted`, `AffectedEvidence.ShortCommitIsWrittenAndRefused`,
  `AffectedEvidence.EmptyKeyIsWrittenAndRefused`).

## Model

| member | source | states |
|---|---|---|
| `TarFields.OctalFieldReadsBack` | gajae-code/scripts/release-evidence.ts:316-323 | A number that fits a field of the given length is written without rejection and read back as the same number |
| `TarFields.ParseOctalIsExact` | gajae-code/scripts/release-evidence.ts:316-323 | A field is read as a number if and only if, its high bits dropped, it is white space, octal digits of that value, white space, then any NULs and spaces; without digits it is zero, and every other text is rejected |
| `TarFields.DigitsThenPadding` | gajae-code/scripts/release-evidence.ts:316-318 | Digits behind any white space and before any mixture of NULs and spaces, such as `000644 \0`, are read as their value |
| `TarFields.FieldIsSafeInteger` | gajae-code/scripts/release-evidence.ts:316-323 | What a field of at most twelve bytes parses to is a safe integer, so the safe-integer rejection is never reached |
| `TarFields.StringFieldReadsBack` | gajae-code/scripts/release-evidence.ts:325-333 | Text without NUL that fits a NUL-padded field is read back unchanged, also when it fills the field |
| `TarFields.CalculateChecksum` | gajae-code/scripts/release-evidence.ts:335-340 | The loop computes the byte sum of the header with the checksum field taken as eight spaces |
| `Pax.ParseAttributes` | gajae-code/scripts/release-evidence.ts:364-389 | The record loop yields the last `path` attribute, or rejects, exactly as the record-by-record definition does |
| `Pax.RecordReadsBack` | gajae-code/scripts/release-evidence.ts:368-385 | A record of the standard form `length key=value\n` is read as its own key and decoded value whatever follows, rejected only for invalid UTF-8 |
| `Pax.PathRecordWins` | gajae-code/scripts/release-evidence.ts:364-389 | A later `path` record replaces an earlier one, any other record changes nothing |
| `PaxFormat.PathAttributeIsExact` | gajae-code/scripts/release-evidence.ts:364-389 | A header yields a path, or none, if and only if it is a list of records that each give their own length without a leading zero, a key without `=`, valid UTF-8 and a newline, the path being that of the last `path` record; all else is rejected |
| `Utf8.ValidIsExact` | gajae-code/scripts/release-evidence.ts:325-333 | The bytes that decode without error are exactly the UTF-8 encodings of sequences of Unicode scalar values |
| `TarExtensions.GnuLongPathReadsBack` | gajae-code/scripts/release-evidence.ts:391-399 | A long-path header yields the path before its NUL, with or without a newline, whatever follows |
| `TarExtensions.PaxPathReadsBack` | gajae-code/scripts/release-evidence.ts:364-389 | A header that ends with a `path` record yields that path, whatever well-formed records stand before it |
| `TarExtensions.ExtensionNamesMember` | gajae-code/scripts/release-evidence.ts:442-457 | A member after an extension reads exactly as if its own header had carried the path, whatever that header says, and the extension names only that member |
| `TarReader.Admit` | gajae-code/scripts/release-evidence.ts:455-472 | With running set and totals, a member is accepted exactly when it is safe, new and within the limits over all members so far, and is then the new last member |
| `TarReader.Advance` | gajae-code/scripts/release-evidence.ts:439-472 | One block moves the reader exactly as the stateless step does, for PAX, GNU long-path and member blocks |
| `TarReader.ParseEntries` | gajae-code/scripts/release-evidence.ts:418-475 | The loop with offset, pending path, seen set and totals equals the recursive definition of parsing that recomputes them; what that definition accepts, and as what, is `TarImages.ParseTarIsExact` |
| `TarImages.PieceIsRead` | gajae-code/scripts/release-evidence.ts:425-472 | A header whose name, prefix, mode, size, checksum and type fields hold given values in any accepted form is read as that member or extension, whatever its other bytes and its padding are, and exactly its bytes are consumed |
| `TarImages.MadeOfPieces` | gajae-code/scripts/release-evidence.ts:402-475 | A stream of such pieces and at least two zero blocks is read as its members, paths applied, if no path is left over and the members are safe, distinct and within budget, and is rejected otherwise |
| `TarImages.ParseTarIsExact` | gajae-code/scripts/release-evidence.ts:402-475 | A stream is accepted with given members if and only if it is within the limits, is made of such pieces and zeros with no path left over, and they are its members, safe, distinct and within budget |
| `TarImages.SilentPartsChangeNothing` | gajae-code/scripts/release-evidence.ts:426-448 | Inserting a PAX header without a path, global or not, between any two pieces, or taking another number of zeros at the end, does not change what is parsed or that it is refused |
| `TarImages.MoreZerosChangeNothing` | gajae-code/scripts/release-evidence.ts:426-433 | Zeros appended to an accepted stream within the limit do not change its members |
| `TarPaths.SafePathIsExact` | gajae-code/scripts/release-evidence.ts:342-355 | A path is safe if and only if it is `package` and names below it joined by slashes, perhaps with a last slash, where no name holds a separator or NUL and walking along the names goes one level deeper with each |
| `TarPaths.SafePathLeadsInside` | gajae-code/scripts/release-evidence.ts:342-355 | Unpacked anywhere, and on a system that also separates with backslashes, a safe path leads into `package` below that place |
| `TarRoundTrip.ParsedArchiveIsSafe` | gajae-code/scripts/release-evidence.ts:342-475 | Whatever is accepted has distinct, safe, valid UTF-8 paths, safe modes, empty directories and sizes and counts within limits, and its canonical length plus terminator is at most that of the input |
| `TarRoundTrip.PrintedMember` | gajae-code/scripts/release-evidence.ts:424-523 | Reading a printed member consumes exactly its bytes and yields it, up to a dropped byte order mark, or rejects exactly when it is not admissible |
| `TarRoundTrip.PrintedListReadsBack` | gajae-code/scripts/release-evidence.ts:402-540 | Reading a printed list, when it succeeds, changes nothing but names that open with a byte order mark |
| `TarWriter.SplitUstarPath` | gajae-code/scripts/release-evidence.ts:491-500 | The backwards search equals the split at the last fitting slash |
| `TarWriter.SplitUstar` | gajae-code/scripts/release-evidence.ts:491-500 | Name and prefix fit their fields and join to the path; rejected exactly when the path is long and no slash fits |
| `TarWriter.WriteField` | gajae-code/scripts/release-evidence.ts:477-481 | Writing a field in place fills exactly that field and leaves the rest of the header alone |
| `TarWriter.WriteHeader` | gajae-code/scripts/release-evidence.ts:502-523 | The header written field by field into a zeroed buffer, checksum last, is the header defined from its parts |
| `TarWriter.CanonicalHeader` | gajae-code/scripts/release-evidence.ts:502-523 | A fresh buffer with the member's header, rejected exactly when the path or size does not fit |
| `TarWriter.CreateTarball` | gajae-code/scripts/release-evidence.ts:525-535 | The output loop over the sorted members equals the recursive printer followed by two zero blocks |
| `TarCanonical.RoundTrip` | gajae-code/scripts/release-evidence.ts:402-540 | Printing and parsing returns exactly the members sorted by path bytes if and only if the limits are valid, the members are safe, distinct, splittable and within budget, and no name field opens with a byte order mark |
| `TarCanonical.RoundTripIsSorted` | gajae-code/scripts/release-evidence.ts:526-526 | The order of the printed members is the stable sort by path bytes |
| `TarCanonical.PrintIsInjective` | gajae-code/scripts/release-evidence.ts:502-535 | Two safe member lists with the same printed bytes are equal |
| `TarCanonical.CanonicalizeIsNormalForm` | gajae-code/scripts/release-evidence.ts:402-545 | When canonicalising succeeds, also on PAX and GNU input, the output is no longer than the input, and it canonicalises to itself if and only if no name field opens with a byte order mark |
| `TarReread.RereadsAreSafe` | gajae-code/scripts/release-evidence.ts:342-475 | Dropping the marks that open name fields keeps modes, data and totals, so the list that comes back is safe exactly when its paths are still safe and distinct |
| `TarReread.CanonicalParses` | gajae-code/scripts/release-evidence.ts:402-545 | The canonical archive can be read again if and only if the input members' paths come back safe and distinct |
| `TarInspect.CanonicalInspectsAlike` | gajae-code/scripts/release-evidence.ts:547-563 | The canonical archive inspects to the same manifest bytes, unpacked size and file count, or the same rejection, if and only if the input members' paths come back safe and distinct or the input did not inspect; they come back so when no name field opens with a byte order mark |
| `TarInspect.InspectIsExact` | gajae-code/scripts/release-evidence.ts:547-563 | An archive inspects to given values if and only if it parses, has a file at `package/package.json` with those bytes that parse to that manifest, `fileCount` is the number of indices of file members and `unpackedSize` the number of bytes in them; there is only one such file |
| `TarInspect.TarballNormalForm` | gajae-code/scripts/release-evidence.ts:402-416 | With gzip, the canonical tarball is a fixed point exactly when it is within the compressed limit and no name opens with a byte order mark |
| `TarBomExample.BomBreaksTheRoundTrip` | gajae-code/scripts/release-evidence.ts:325-333 | A concrete safe, printable, in-budget member that the archive does not give back |
| `TarBomExample.CanonicalFormIsRefused` | gajae-code/scripts/release-evidence.ts:402-563 | A concrete archive of a manifest and a member that inspects and canonicalises, but whose canonical form is refused |
| `Sorting.SortIsStable` | gajae-code/scripts/release-evidence.ts:526-526 | The sort of the model is in order, a permutation, and keeps equivalent elements in place |
| `Sorting.StableSortIsUnique` | chatgpt-workspace/doribogo/autonomous_discovery.py:55-55 | There is only one such sequence, so any stable sort is this one |
| `Evidence.VerifiedIsDetermined` | gajae-code/scripts/release-evidence.ts:804-841 | A final document verifies against an expected document and digest if and only if those are valid and it is the one document in which the registry confirms every record |
| `Evidence.TwoVerifiedAreEqual` | gajae-code/scripts/release-evidence.ts:804-841 | Two documents that verify against the same expected document and digest are equal |
| `Evidence.CreatedEvidenceVerifies` | gajae-code/scripts/release-evidence.ts:770-802 | Creation succeeds exactly when inputs are valid, every package was observed with the expected bytes and nothing unknown was observed; the result then verifies with the same digest |
| `Evidence.ExpectedIsMeasured` | gajae-code/scripts/release-evidence.ts:586-645 | Expected evidence is valid if and only if every record is what the package table, the release version and sound measurements (hashes, sizes, known dependency names) make it, under a full commit hash and a supported version |
| `PublishOrder.Order` | gajae-code/scripts/ci-release-publish.ts:1082-1093 | The indegree and ready-list loop emits, at every point, the least index whose dependencies are all emitted, until none is left |
| `PublishOrder.Plan` | gajae-code/scripts/ci-release-publish.ts:1068-1102 | For every graph: rejected if and only if it has a cycle; otherwise a topological order that is lexicographically least among all of them |
| `PublishPlan.Declare` | gajae-code/scripts/ci-release-publish.ts:1028-1061 | Records are matched if and only if they are, name and directory, exactly the configured packages once each; the result is a permutation of them in declaration order |
| `PublishPlan.PlanPublication` | gajae-code/scripts/ci-release-publish.ts:1028-1102 | A plan exists if and only if the records match, share one version with exact dependencies, and have no dependency cycle; it is a permutation with dependencies first, and the least such by declaration order |
| `PublishRun.AwaitVisible` | gajae-code/scripts/ci-release-publish.ts:1009-1022 | After a publication the registry is looked at at most retries + 1 times, stopping at the first sighting |
| `PublishRun.PublishAbsent` | gajae-code/scripts/ci-release-publish.ts:988-1025 | From an observation that found nothing: one publication, bounded looks, and a returned observation is exact |
| `PublishRun.PublishRetained` | gajae-code/scripts/ci-release-publish.ts:964-1026 | Against any registry: tarball read first, published only when the look just before found nothing, bounded looks after; it returns if and only if the last look showed the record's SRI, hashes and dependencies with the tag at its version, for a version the channel can release, and returns exactly that |
| `PublishRun.ExactIsAsReleased` | gajae-code/scripts/ci-release-publish.ts:937-948 | An observation passes if and only if SRI, tarball hash, manifest hash, dependencies and tagged version are the record's, and on the stable channel the version is stable |
| `PublishRun.PublishAll` | gajae-code/scripts/ci-release-publish.ts:1104-1113 | Over the whole run and wherever it stops: each package published at most once, only directly after it was seen absent, looks bounded, and only after every package it depends on was seen exact; what completed is a prefix of the plan, and unless killed the run stops only at a package whose log shows why it was given up |
| `PublishRun.CompletedIsClosed` | gajae-code/scripts/ci-release-publish.ts:1104-1113 | Whatever prefix of the plan completed is closed under internal dependencies |
| `PublishRun.Reobserve` | gajae-code/scripts/ci-release-publish.ts:1116-1130 | The last sweep only looks, once per package; unless killed it returns if and only if the log shows every package of the plan, in order, with exactly the record's values and the tag at its version, and what it returns are those values |
| `PublishRun.SweepFinalizes` | gajae-code/scripts/ci-release-publish.ts:1161-1173 | A complete sweep always yields the one final document, and it verifies |
| `PublishRun.PublishRelease` | gajae-code/scripts/ci-release-publish.ts:1157-1173 | From expected to final evidence: a returned document is the one that verifies, and the last looks showed every package released under its tag; unless killed, it is refused only for unfit evidence, no plan, a package given up or a sweep that did not match; the publication log is safe whether or not it returns |
| `ImmutableWrite.StepKeepsInv` | gajae-code/scripts/release-evidence.ts:882-901 | Every file system step of every writer, crashes and failures included, keeps the invariant |
| `ImmutableWrite.RunKeepsInv` | gajae-code/scripts/release-evidence.ts:882-901 | The invariant holds in every state of every interleaving of any number of writers |
| `ImmutableWrite.DestinationNeverChanges` | gajae-code/scripts/release-evidence.ts:872-902 | Once the destination holds bytes it holds the same bytes in every later state |
| `ImmutableWrite.DestinationIsNeverPartial` | gajae-code/scripts/release-evidence.ts:872-902 | A destination that appears during a run always holds the complete bytes of some writer |
| `ImmutableWrite.SuccessfulWritersAgree` | gajae-code/scripts/release-evidence.ts:890-898 | Any two writers that report success, at any times, were given the same bytes, and the destination holds them |
| `ImmutableOutcome.OutcomeIsExact` | gajae-code/scripts/release-evidence.ts:882-901 | In a run without failing calls, crashes or shared temporary names, a finished writer reports success if and only if the destination holds its bytes |
| `ImmutableOutcome.SomeoneSucceeds` | gajae-code/scripts/release-evidence.ts:882-901 | When all writers of such a run are finished and the destination was not there before, at least one reports success |
| `ImmutableOutcome.NothingIsLeftBehind` | gajae-code/scripts/release-evidence.ts:882-903 | When all writers of a fault-free run are finished, the directory holds what it held before and the destination; no temporary file remains |
| `ImmutableOutcome.NobodyIsStuck` | gajae-code/scripts/release-evidence.ts:882-901 | A writer that is not finished can always take another step, whatever the others have done |
| `Versions.CompareNumericAgrees` | gajae-code/scripts/release-evidence.ts:165-168 | Length-then-lexicographic comparison of canonical decimals of any size is the order of their values |
| `Versions.CompareStableVersions` | gajae-code/scripts/release-evidence.ts:170-182 | The part-by-part loop equals the comparison function, rejections included |
| `Versions.CompareStableIsTripleOrder` | gajae-code/scripts/release-evidence.ts:170-182 | The comparison is the lexicographic order of number triples, and equal only for equal strings |
| `Nightly.HighestPatchIsMaximum` | gajae-code/scripts/nightly-release.ts:75-77 | The fold returns one of the patch numbers, and none is larger in value |
| `Nightly.DeriveSucceeds` | gajae-code/scripts/nightly-release.ts:60-75 | A nightly is derived if and only if there is at least one version, all are stable with the same major and minor numbers, the run id is the numeral of a positive number and the commit is 40 hex digits |
| `Nightly.DerivedParses` | gajae-code/scripts/nightly-release.ts:60-80 | A derived version parses to the shared line with the next patch number and the four nightly identifiers |
| `Nightly.NightlyIsBetween` | gajae-code/scripts/nightly-release.ts:60-80 | By section 11 of Semantic Versioning 2.0.0 the nightly is above every version it was derived from and below every stable version above all of those |
| `Nightly.NightliesAreOrdered` | gajae-code/scripts/nightly-release.ts:55-80 | Nightlies of the same versions are ordered by time, then by run number |
| `AtomicPush.ParseLsRemoteRefs` | gajae-code/scripts/release.ts:440-449 | The tolerant loop yields, for each ref, the object of the last well-shaped line that names it, and nothing else |
| `AtomicPush.AssertAtomicPushRemoteState` | gajae-code/scripts/release.ts:396-421 | The strict loop accepts if and only if every non-empty line is well-shaped and expected, no ref repeats, the tag is listed, and the tolerant reading has both refs at the commit |
| `AtomicPush.StrictIsTolerant` | gajae-code/scripts/release.ts:396-498 | What the strict check accepts is exactly what the tolerant path classifies as committed on tidy output that lists the tag itself |
| `AtomicPush.PrintedVerifies` | gajae-code/scripts/release.ts:396-449 | For output printed from a remote's refs, the strict check accepts if and only if the remote has main and the peeled tag at the commit |
| `AtomicPush.PrintedCarries` | gajae-code/scripts/release.ts:440-454 | For output printed from a remote's refs, the tolerant reading finds both refs at the commit if and only if the remote leads there |
| `AtomicPush.ReconcileFailedPush` | gajae-code/scripts/release.ts:533-546 | After a push that reported failure, the verdict is committed if and only if the remote answers and both main and the tag lead to the commit |
| `AtomicPush.VerifyRemote` | gajae-code/scripts/release.ts:562-567 | The last step succeeds if and only if the remote answers and has main and the peeled tag at the commit |
| `AtomicPush.PushReleaseRefsAtomically` | gajae-code/scripts/release.ts:512-567 | With other parties moving refs and any exit codes: returns only if the last query saw both refs at the commit, pushes at most once and never without a baseline; undisturbed, returns exactly when the remote has both refs there, whatever the push reported |
| `Changelog.ReleaseHeadings` | gajae-code/scripts/changelog-history-guard.ts:49-59 | The line loop yields the trimmed names of released headings in order |
| `Changelog.CompareHistory` | gajae-code/scripts/changelog-history-guard.ts:68-83 | Nothing is reported if and only if every heading of the base text is one of the head text; what is reported are exactly the missing ones |
| `Changelog.ReleasedHeadings` | gajae-code/scripts/release.ts:278-299 | Headings before and after a release, line by line around the first unreleased heading, through both replacements and the reinstated heading |
| `Changelog.ReleaseInsertsHeading` | gajae-code/scripts/release.ts:278-299 | With the first unreleased heading at a line start, or no notes, the headings after the release are the old ones in order with the new version inserted at that place |
| `ChangelogText.ReleaseKeepsText` | gajae-code/scripts/release.ts:278-299 | From the released heading on every character, notes included, is kept; before it only line ends change and the empty heading is put in; without an unreleased heading nothing changes |
| `Changelog.NewHeadingIsAdded` | gajae-code/scripts/release.ts:279-299 | The text announces one more version if and only if it has an unreleased heading that is at its line's start or belongs to a cycle without notes |
| `ChangelogText.NotesAreExact` | gajae-code/scripts/release.ts:271-276 | There are notes if and only if something visible stands between the first unreleased heading that ends its line and the next heading with a version |
| `Changelog.ReleaseCanAddNothing` | gajae-code/scripts/release.ts:279-294 | A concrete changelog with notes whose release announces no version at all |
| `Changelog.ReleasedPassesGuard` | gajae-code/scripts/release.ts:278-299 | The guard reports nothing about a released text if and only if it is not the case that notes were released by a heading inside another heading's name which no other heading has |
| `Changelog.LostHeading` | gajae-code/scripts/release.ts:286-294 | Releasing fails exactly when there are notes, the title is not the first line and no second unreleased heading follows |
| `Changelog.ReleaseCanRemoveHistory` | gajae-code/scripts/release.ts:286-294 | A concrete changelog whose release removes a heading, and the guard reports it |
| `DependentsClosure.SelectDependents` | gajae-code/scripts/ci-dev-affected.ts:1227-1237 | Handling one queued name adds exactly its direct dependents to selection and queue; the empty name adds none |
| `DependentsClosure.ExpandWithDependents` | gajae-code/scripts/ci-dev-affected.ts:1223-1239 | For every package list, with cycles or repeated names: the selected names are the least set holding the touched ones and closed under "depends on a selected package", sorted by directory; with distinct names, exactly those packages |
| `DependentsClosure.LeastClosedIsReachable` | gajae-code/scripts/ci-dev-affected.ts:1223-1239 | The least closed set is what chains of dependents reach from the start |
| `DependentsClosure.ReverseEntries` | gajae-code/scripts/ci-dev-affected.ts:1546-1554 | The reversed map leads from a crate to exactly the entries that depend on its manifest |
| `DependentsClosure.ExpandCargoDependents` | gajae-code/scripts/ci-dev-affected.ts:1546-1561 | The Cargo loop through the reversed map yields the least closed set of its dependency relation too |
| `InventoryPaths.NormalizedIsNormal` | gajae-code/scripts/ci-dev-affected.ts:1399-1403 | An accepted inventory path is accepted again, unchanged |
| `InventoryPaths.AcceptedPathStaysInside` | gajae-code/scripts/ci-dev-affected.ts:1399-1403 | A path in normal form leads into the repository if and only if it is not `..`, and reads back as it stands if and only if it takes no name back with a last `..` |
| `RawPaths.AcceptedValueStaysInside` | gajae-code/scripts/ci-dev-affected.ts:2047-2054 | A value whose normal form is accepted and that is then resolved as it was written leads into the repository if and only if it is neither `..` nor `./..` |
| `RawPaths.ParentLeavesTheRepository` | gajae-code/scripts/ci-dev-affected.ts:1399-1403 | `..` is accepted and leads above the repository |
| `RawPaths.HiddenParentLeavesTheRepository` | gajae-code/scripts/ci-dev-affected.ts:1399-1403 | `./..` is accepted as `..` and leads above the repository |
| `RawPaths.TakenBackNameLeadsHere` | gajae-code/scripts/ci-dev-affected.ts:1399-1403 | `x/..` is accepted, leads to the repository itself, and is not written back as it stands |
| `InventoryPaths.PlaceIsAccepted` | gajae-code/scripts/ci-dev-affected.ts:1399-1403 | Wherever an accepted path leads, the relative path of that place is accepted again, or is the repository itself |
| `RepoPaths.ResolveRelative` | gajae-code/scripts/ci-dev-affected.ts:1623-1644 | Resolving the relative path of a directory against the repository gives that directory |
| `AffectedPlan.SerializeIsFixedPoint` | gajae-code/scripts/ci-dev-affected.ts:1623-1646 | Serialised tasks deserialise if and only if their directories, taken relative to the repository, are readable; they are then the planned tasks, and serialising again gives the same |
| `AffectedPlan.LoadedTasksArePlanned` | gajae-code/scripts/ci-dev-affected.ts:1623-1646 | Whenever any job loads an emitted plan it gets as many tasks in the same order, each with the planned key, identity, description, command and capabilities, the planned phase or Legacy, and the planned directory or the root |
| `AffectedPlan.UnitIsBuiltInPlace` | gajae-code/scripts/ci-dev-affected.ts:1433-1446 | Every selected TypeScript unit is planned with its build command in the place its directory leads to, and the plan file names that directory as the inventory does unless it takes a name back |
| `AffectedPlan.IdentityIsInjective` | gajae-code/scripts/ci-dev-affected.ts:1464-1465 | Within a domain, equal identities encode equal ids and equal locations |
| `AffectedPlan.PlanIsDistinct` | gajae-code/scripts/ci-dev-affected.ts:1433-1445 | A plan built from distinct legacy keys and inventory ids has distinct identities, and distinct keys if and only if no legacy key is a build task's |
| `AffectedPlan.ConsumersHaveAProducer` | gajae-code/scripts/ci-dev-affected.ts:374-378 | A plan with any task that consumes or produces native addons holds the native build task, and that is its only task with a native build key |
| `AffectedPlan.ProducerIsPlanned` | gajae-code/scripts/ci-dev-affected.ts:1438-1444 | The native build task is planned if and only if a legacy task builds or loads the addons, a selected TypeScript unit does, or the addons' own crate is built, by itself or with the workspace |
| `AffectedPlan.EveryTaskHasAJob` | gajae-code/scripts/ci-dev-affected.ts:562-563 | Every planned task is run by the shards, the native job or the Python job if and only if no selected TypeScript unit is marked a native producer |
| `AffectedPlan.MarkedUnitHasNoJob` | gajae-code/scripts/ci-dev-affected.ts:562-563 | A concrete accepted unit whose planned task no job runs |
| `AffectedPlan.PlanRoundTrip` | gajae-code/scripts/ci-dev-affected.ts:2002-2063 | A job loads an emitted plan if and only if it was told the planner's commit and digest, has that commit checked out and, as a shard, a planned key with its flags, and paths are canonical, directories readable, keys and identities distinct; it then has the planned tasks, and recomputes the emitted flags |
| `AffectedPlan.LoadedTasksRunInside` | gajae-code/scripts/ci-dev-affected.ts:2028-2063 | Every task of a loaded plan runs inside the repository if and only if no directory in the file is `..` or `./..` |
| `AffectedPlan.TaskCanRunOutside` | gajae-code/scripts/ci-dev-affected.ts:2039-2063 | A concrete task with either directory is read, and runs in the directory above the repository |
| `AffectedPlan.FlagsAgree` | gajae-code/scripts/ci-dev-affected.ts:1734-1740 | The aggregator's `has_native`, `has_tasks` and `has_python` are the planner's |
| `AffectedPlan.BuiltPlanLoads` | gajae-code/scripts/ci-dev-affected.ts:546-590 | For plans of `appendBuildTasks`, a job that follows the planner loads exactly when paths are canonical, legacy directories readable and no legacy key clashes, and no other job does; then tasks are the planned ones and flags agree |
| `AffectedEvidence.ReceiptsMatchMatrix` | gajae-code/scripts/ci-dev-affected.ts:1796-1798 | The shard tasks read from the plan file are, in order, the shards that the planner's matrix starts |
| `AffectedEvidence.CollectChildEvidence` | gajae-code/scripts/ci-dev-affected.ts:1915-1937 | The loop yields name and hash of the plan and of each receipt in order, or rejects, exactly as specified over the whole directory |
| `AffectedEvidence.WrittenIsAccepted` | gajae-code/scripts/ci-dev-affected.ts:1938-1983 | Written evidence is accepted in the same environment if and only if the source commit is 40 hex digits and every shard task has a key |
| `AffectedEvidence.AcceptedWhereItBelongs` | gajae-code/scripts/ci-dev-affected.ts:1938-1983 | Written evidence is accepted by any job if and only if that job has the same replay scope, source commit, plan digest, mode and results and can read the plan, the commit is a full hash and every shard task has a key |
| `AffectedEvidence.AcceptedJobsPassed` | gajae-code/scripts/ci-dev-affected.ts:1668-1690 | Behind accepted evidence the planner succeeded; the native, shard and Python jobs succeeded if the planned tasks have work for them and were skipped if not; every other job succeeded if required and was skipped if not |
| `AffectedEvidence.ShortCommitIsWrittenAndRefused` | gajae-code/scripts/ci-dev-affected.ts:1938-1983 | For an empty plan at any full commit, a job told any other non-empty source commit than a full hash writes evidence that is then refused |
| `AffectedEvidence.EmptyKeyIsWrittenAndRefused` | gajae-code/scripts/ci-dev-affected.ts:1938-1983 | With a full source commit, a plan whose one shard task has an empty key gets evidence that is then refused |
| `AffectedEvidence.LeftoverIsNotEvidence` | gajae-code/scripts/ci-dev-affected.ts:1950-1959 | Whatever a write that is refused or cut short leaves behind is accepted, in any environment, only if it is the complete evidence, and never after a failure in which the manifest was removed |
| `AffectedEvidence.RetryNeedsACleanFolder` | gajae-code/scripts/ci-dev-affected.ts:1948-1959 | After a failed attempt the next is possible if and only if nothing was left: the manifest write was refused, or it was removed again and no receipt was begun |
| `AffectedEvidence.AcceptedCoversPlan` | gajae-code/scripts/ci-dev-affected.ts:1915-1983 | Acceptance implies that the receipt directory is absent for no shards and otherwise holds exactly `0.json` to `(n-1).json`, receipt i naming the i-th shard task |
| `AffectedEvidence.ReceiptDeterminesEvidence` | gajae-code/scripts/ci-dev-affected.ts:1961-1983 | Two accepted folders with the same detached receipt have the same manifest, plan and receipts, in any environments, unless the hash confuses two of those very files; so any other changed byte is refused |
| `AffectedEvidence.EvidenceRoot.WriteAffectedEvidence` | gajae-code/scripts/ci-dev-affected.ts:1938-1960 | Nothing changes unless every check passed; then, with either write refused or cut short and the clean-up failing or not, the folder is exactly what the attempt leaves, with both files whole on success |
| `AffectedEvidence.EvidenceRoot.ValidateAffectedEvidence` | gajae-code/scripts/ci-dev-affected.ts:1961-1983 | The step-by-step validation accepts exactly the specified folders |
| `ChunkedSearch.WindowDecides` | gajae-code/scripts/dev-link.ts:177-185 | Looking at overlap plus new piece decides every occurrence that ends in the piece |
| `ChunkedSearch.SearchWindow` | gajae-code/scripts/dev-link.ts:180-183 | What an iteration does with the bytes it read, on the real buffer: in bounds, an occurrence is found if one ends in them, and the overlap for the next read is in place |
| `ChunkedSearch.ReadInto` | gajae-code/scripts/dev-link.ts:178-178 | A read throws if and only if the buffer has no room for the whole chunk, and otherwise puts what it delivers behind the overlap |
| `ChunkedSearch.FileContains` | gajae-code/scripts/dev-link.ts:167-192 | For every file and needle and all short non-zero reads, true if and only if the needle is non-empty and a contiguous slice of the file; true is right even when reads deliver nothing |
| `BinaryFraming.ShimFramingIsExact` | gajae-code/scripts/dev-link.ts:117-142 | Metadata decodes to a target if and only if it is, byte for byte, that target's encoding and within the size bound |
| `BinaryFraming.IsCompletePortableExecutable` | gajae-code/scripts/dev-link.ts:194-212 | The section loop decides whether the layout is readable and the last raw byte is the last byte of the file, all reads in bounds |
| `BinaryFraming.CompleteIsExact` | gajae-code/scripts/dev-link.ts:194-212 | Complete means that no section ends behind the file and that the section table or some section ends with it |
| `BinaryFraming.CompleteImagesArePrefixFree` | gajae-code/scripts/dev-link.ts:194-212 | No proper extension of a complete image is complete |
| `Frontier.StreamingTopK` | chatgpt-workspace/doribogo/autonomous_discovery.py:49-61 | Sorting and truncating at every addition equals the first k of one stable descending sort of the old frontier followed by all additions |
| `Frontier.StreamingNeedsABound` | chatgpt-workspace/doribogo/autonomous_discovery.py:56-56 | The law holds for all additions if and only if the bound is not negative |
| `Frontier.ValueGrowsWithScores` | chatgpt-workspace/doribogo/autonomous_discovery.py:26-28 | Raising any of the four scores raises the research value, and four equal scores are the value |
| `Frontier.ScoresWeighTheSame` | chatgpt-workspace/doribogo/autonomous_discovery.py:26-28 | Permuting the four scores does not change the value |
| `Frontier.DiscoveryFrontier.Add` | chatgpt-workspace/doribogo/autonomous_discovery.py:49-57 | Accepted exactly when the stripped topic is new, non-empty and not too deep; the frontier stays sorted and bounded |
| `Frontier.DiscoveryFrontier.Extend` | chatgpt-workspace/doribogo/autonomous_discovery.py:59-61 | The frontier becomes the top candidates of what was there and everything acceptable; the rest, and nothing else, is cut off |
| `Frontier.DiscoveryFrontier.PopNext` | chatgpt-workspace/doribogo/autonomous_discovery.py:63-77 | The first unvisited candidate is popped and recorded, or the frontier ends empty |
| `Frontier.PoppedIsBest` | chatgpt-workspace/doribogo/autonomous_discovery.py:63-77 | No other unvisited candidate is worth more than the popped one |
| `ResearchRun.MoreEvidence` | chatgpt-workspace/doribogo/research_engine.py:41-47 | More evidence never lowers the score and never unsettles an answered question |
| `ResearchRun.ThresholdMatters` | chatgpt-workspace/doribogo/research_engine.py:41-47 | For a positive minimum of sources, every answered question is settled if and only if the threshold is at most 0.55; below that, as by default, the score decides nothing |
| `ResearchRun.NormalizedInOrder` | chatgpt-workspace/doribogo/research_engine.py:34-39 | Exactly the usable rows are kept, once each and in order |
| `ResearchRun.ExpandInOrder` | chatgpt-workspace/doribogo/research_engine.py:49-50 | Every row with a non-blank heading is expanded to its own branch, once and in order, and no other row is |
| `ResearchRun.VisitGrowsTree` | chatgpt-workspace/doribogo/research_engine.py:54-57 | A visit of any pending, unvisited candidate keeps the discovery tree |
| `ResearchRun.BranchingKeepsPending` | chatgpt-workspace/doribogo/research_engine.py:49-65 | Whatever is branched hangs below the latest visit, and the equal-valued frontier stays a first-in first-out queue |
| `ResearchRun.BranchingCovers` | chatgpt-workspace/doribogo/research_engine.py:49-65 | After branching, every topic that any visit above the depth bound suggests has been visited, waits in the frontier or was cut off by its bound |
| `ResearchRun.ResearchState.Visit` | chatgpt-workspace/doribogo/research_engine.py:54-59 | A branch is visited exactly when an unvisited one is pending, and its usable rows join the evidence |
| `ResearchRun.RunResearch` | chatgpt-workspace/doribogo/research_engine.py:52-67 | For every harvester: visited topics are distinct, are the history's topics in order and at most `max_steps`; the root is the goal; every later visit was suggested by an earlier one exactly one level above, within `max_depth`, level by level; evidence is what the visits gathered. Each stop reason says what holds then, and the run goes on exactly until the first. Unless it stopped verified, every topic suggested above `max_depth` has been visited, waits or was cut off; if the frontier is empty and nothing was cut off, all are visited, and three visits cut nothing off |

## Left out

- JSON text: documents are values, and parsing and printing them is an inverse pair; keys such as `__proto__` and lone surrogates are not modelled.
- Error messages: every thrown error is one `Rejected`.
- SHA-256, SHA-512, SRI and gzip are functions; where a proof needs it, the hash tells the compared files apart and `gunzip(gzip(x)) == x`.
- AffectedEvidence.LeftoverIsNotEvidence: takes receipts whose text is never a proper prefix of another's, as JSON objects are.
- File contents of PAX keys other than `path`: the reader never uses them.
- The duplicate check on configured package names in `planExpectedEvidencePublication` has no branch of its own: the configuration check before it already excludes duplicates.
- Release channel evidence, tag snapshots, serialization guard and source binding around the publication: one-branch checks.
- PublishRun.AwaitVisible: a negative retry count gives one look, as in the source; delays are not modelled.
- ImmutableWrite.RunKeepsInv: directory creation is not modelled, and reads of the existing destination see one inode.
- Nightly.DerivedParses: the UTC identifier is taken as given digits; build metadata, which the source never produces, is not part of the version grammar.
- AtomicPush.PushReleaseRefsAtomically: the local rollback commands are text for an operator and are not modelled.
- DependentsClosure.ExpandWithDependents: dependency maps are plain maps, without names inherited from `Object.prototype`; `localeCompare` is any total preorder.
- DependentsClosure.ExpandCargoDependents: matching metadata packages with the inventory is done before and given as two maps.
- AffectedPlan.BuiltPlanLoads: which units a path selects, beyond the closures, is a parameter; `normalizeChangedPaths` is a function whose fixed points are the canonical lists.
- RepoPaths.ResolveRelative: paths are POSIX paths; drive letters and backslash separators are not modelled.
- AffectedEvidence.CollectChildEvidence: the staging root itself is a directory; links are refused but never followed.
- ChunkedSearch.FileContains: the file does not change while it is searched.
- Frontier.StreamingTopK: values are exact reals, without floating-point rounding or NaN; candidates are values, so one object added twice is two.
- ResearchRun.RunResearch: of the decision log only the reason to stop is kept, harvested fields are strings or missing, and a harvester does not throw.
- Discord and Telegram bots, scrapers, radar harvesters, prompts, card rendering, HWP bridge, batch processing, report formatting, generators, code signing and host detection.
- The fixed path and package tables of the planner and the publisher: they are parameters.
