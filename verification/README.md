# Models of the release and CI tooling

This project models the repository's contract gates, hunk-revert engine, deploy protocols,
catalog format recorder and a few smaller cores, and proves what they promise.
`dafny verify dfyconfig.toml` checks the whole project.

**The contract-compatibility checker.** `JsonValues`, `StructuralNodes` and `SchemaDiff` hold
JSON values, the structural tree, what a tree accepts, and the diff: the loops of
`_diff_constraints`, `_diff_enum`, `_diff_union`, `diff_schema` and `diff_fields` proved
against one specification. `DiffReport` says what that specification is without running it:
every change by its position, cause and label, in both directions. `DiffSoundness` proves the
label MINOR as a claim about meaning: no MAJOR change, no value lost. It holds under `Reliable`,
a check over the two trees. For what `Reliable` shuts out, `DiffExactness` (multipleOf, bare
objects, twin literals, unconstrained unions, gained members) and `UnionExactness` (any union
whose members share a key or overlap) prove exactly when passing is right, with inputs on which
it is wrong. `DiffCompleteness` proves that an empty diff means an equal shape, and
`DiffPrecision` that under its condition `Precise` MAJOR is reported exactly when a value is
lost. `RefInlining` proves that inlining `$ref` keeps a schema's meaning and ends;
`StructuralReduction` that the structural tree keeps it too, and joins everything: `GateIsSound`
speaks of two schemas as loaded, not of trees, open or closed. `ReleaseGates` models the three
`evaluate_*` gates and says outright what each passes and why it refuses, `ReleaseHistory` lifts
them to whole histories of releases and merges, with the version algebra of `ContractBumps`, and
`SchemaHistory` carries the history back to the released schemas.

**The hunk-revert engine.** `Texts` and `HunkRevert` treat the patch algebra over real texts,
`WorktreePool`, `WorktreePoolSafety` and `WorktreePoolLiveness` the runner as interleaved
steps of a main thread, workers and test processes: safety, stopping, exactly when it can
hang, an end. `WorktreePoolVerdicts` adds where timeouts come from. `HunkCheck` joins the two: a
tree under test lacks exactly its hunk.

**The deploy protocols.** `DeployVersions`, `Publishing` (all interleavings, and the retry loop
against an environment that publishes at any time) and `Teardown` (the ordered teardown
against an asynchronous registry).

**The catalog format recorder.** `CatalogTrees` says what a set of TOML trees holds;
`CatalogFormat` is the mutating walker with its counters, proved to agree with it, and the
comparator, proved to keep old readers working through whole histories. `CatalogReach` says
both again by reachability, over the values and tables of the files alone.

**Smaller cores.** `VersionHistory`, `VersionHistoryLines` and `VersionHistoryReparse` (parse,
what the lines of a list are, insert and parse again),
`Closures` (dependency and importer closure), `CompactOutput` (the log-capturing console),
`LicenseHeaders` (header insertion and recognition).

## Where the code and its documentation part

The models follow the code. These are the places where it does less than its text says; each
has an exact condition or a counterexample among the members below.

- "The hash and the diff can never disagree" (scripts/contract_schema_snapshot.py:43-46): the
  tree is hashed as text but diffed with Python's equality and by union keys, so members that
  share a key, `true` against `1`, and `1` against `1.0` in a literal or a bound, change the hash
  and not the diff.
- Of the union members that share a key only the last is compared. All scalar types have one
  key, so where `null` sorts last nothing that happens to an optional scalar is reported: a
  bound that tightens under `number | null` passes with no change at all.
- A larger `multipleOf` is called loosened; on numbers only an unchanged one is compatible then,
  on integers it depends on the integers the old step allows.
- A new `minLength` of zero, an integer bound that moves between integers, and an object that
  drops all its properties are called MAJOR and lose nothing.
- A free-form object that gains optional properties is called additive.
- A gained `oneOf` member is called additive even when it overlaps an old one.
- Properties named like a cosmetic key are dropped from the tree, and a keyword beside a
  `$ref` replaces the same keyword of its target.
- The runner's `stop` kills every registered process; an interrupt between starting the
  baseline process and registering it, or in the handler of its timeout before the kill, leaves
  that process running.
- Every worker puts its tree back (ci/hunk_revert.py:494-503), but a restoring write that raises
  skips it: once all trees are lost so, a worker at `free.get` waits forever, and the pool's
  shutdown with it.
- "From here on, nothing interrupts the cleanup" (ci/hunk_revert.py:625): an interrupt in the
  finally before its signals are ignored skips the stop and the cleanup.
- `destroy` is meant to delete a runtime only once its entry is gone; the active-instances
  answer without `--force` falls through to the deletion.
- A version read that fails starts at 1.0.0 and cannot step past the ninth published version.
- `add_header` judges a pragma docblock with line ends and `has_header` without; where the two
  differ, a second run inserts a second header.
- `closure` re-expands extras of packages it has met, so a cycle of extras the roots lead to
  never ends, unless a name the lock lacks is popped first and the program exits.
- `log_offset` points past the first new line when the log did not end in a newline.

## Model

| member | source | states |
|---|---|---|
| SchemaDiff.DiffConstraints | scripts/contract_schema_snapshot.py:404-439 | The loop over the ten constraint keys reports exactly the specified changes: added or tightened is MAJOR, removed or loosened MINOR, any other pattern change MAJOR. |
| SchemaDiff.DiffEnum | scripts/contract_schema_snapshot.py:442-449 | Exactly the values Python finds on one side only, removed ones MAJOR, added ones MINOR. |
| SchemaDiff.IndexMembers | scripts/contract_schema_snapshot.py:462-465 | The dictionary of members by key keeps the last of several members that share a key. |
| SchemaDiff.DiffUnion | scripts/contract_schema_snapshot.py:452-474 | Exactly: a lost key MAJOR, a gained key MINOR, and under a shared key the diff of the two members behind it. |
| SchemaDiff.DiffSchema | scripts/contract_schema_snapshot.py:524-563 | The recursive diff reports exactly the specified set of changes, every branch and path included. |
| SchemaDiff.DiffFields | scripts/contract_schema_snapshot.py:566-589 | Exactly: a removed field MAJOR, an added one MAJOR if required else MINOR, a changed required flag, and the diff of the two schemas at the child path. |
| DiffReport.ReportExact | scripts/contract_schema_snapshot.py:396-589 | Main result. The whole report, both ways: a change is reported if and only if moves into fields, items, values or members of one key lead from the two trees to a pair of nodes that has its cause, at the path they spell and with the label of that kind of change. |
| DiffReport.LimitsReported | scripts/contract_schema_snapshot.py:404-439 | All ten constraint keys: added, removed, tightened, loosened and changed exactly as the two sides compare, with the label of each. |
| DiffReport.LimitsMajorExact | scripts/contract_schema_snapshot.py:404-439 | A constraint change is MAJOR if and only if the new side has a pattern the old did not have, or a number key that is new or moved to its tightening side. |
| DiffReport.DroppedLimits | scripts/contract_schema_snapshot.py:415-424 | Dropping constraints while the rest stays, a pattern, minItems or maxItems included, is MINOR. |
| DiffReport.ScalarMajorExact | scripts/contract_schema_snapshot.py:555-563 | On scalars: MAJOR if and only if the type changed or a constraint narrowed, but for the version pattern adopted. |
| DiffReport.ArrayMajorExact | scripts/contract_schema_snapshot.py:536-539 | On arrays: if and only if the items changed so or a constraint narrowed. |
| DiffReport.VersionPatternAdoption | scripts/contract_schema_snapshot.py:502-531 | At contract_version the version pattern, taken on from a bare string or a literal it matches, is exactly one MINOR change; from any other literal it is MAJOR. |
| DiffReport.VersionPatternElsewhere | scripts/contract_schema_snapshot.py:526-527 | At any other path it is MAJOR. |
| DiffReport.KeysExact | scripts/contract_schema_snapshot.py:477-498 | Two members share a key if and only if they are of one kind and, where one side has several objects, carry the same required literals. |
| DiffSoundness.DiffSound | scripts/contract_schema_snapshot.py:404-589 | Main result. No MAJOR change means every value the old node accepts the new one accepts, for all nodes, paths and values, through objects, arrays, maps, enums, constraints and unions, wherever Reliable holds and strings at contract_version are published versions. |
| DiffSoundness.LimitsSound | scripts/contract_schema_snapshot.py:404-439 | With no MAJOR constraint change, a value within the old limits is within the new ones. |
| DiffSoundness.EnumSound | scripts/contract_schema_snapshot.py:442-449 | With no MAJOR enum change, every old value is still listed as the same JSON value. |
| DiffSoundness.ObjectSound | scripts/contract_schema_snapshot.py:566-589 | Soundness of the field diff. |
| DiffSoundness.UnionSound | scripts/contract_schema_snapshot.py:452-474 | Soundness of the union diff, oneOf included: the value matches a new member and, since the members exclude each other, only one. |
| DiffSoundness.ExclusiveMembersShareNoValue | scripts/contract_schema_snapshot.py:481-499 | Members told apart by a required const tag or by the class of value they accept accept no common value. |
| DiffExactness.MultipleOfExact | scripts/contract_schema_snapshot.py:398-435 | multipleOf on numbers: compatible if and only if the old step is a multiple of the new one; the diff passes if and only if the step does not shrink; the two agree only on an unchanged step. |
| DiffExactness.IntegerMultipleOfExact | scripts/contract_schema_snapshot.py:398-435 | On integers: compatible if and only if the least positive integer the old step allows is a multiple of the new step, as from 0.5 to 1. |
| DiffExactness.NoIntegerMultiple | scripts/contract_schema_snapshot.py:398-435 | A step that allows no positive integer allows zero alone, and any new step is compatible. |
| DiffExactness.FreeFormExact | scripts/contract_schema_snapshot.py:333-349 | A bare object that gains properties: passed if and only if all are optional, compatible if and only if there are none. |
| DiffExactness.ConstExact | scripts/contract_schema_snapshot.py:555-557 | A passed const is compatible if and only if it is not the boolean or number twin Python calls equal. |
| DiffExactness.EnumExact | scripts/contract_schema_snapshot.py:442-449 | The same for enums: a passed enum is compatible if and only if no old value survives only as its twin. |
| DiffExactness.PlainUnionPasses | scripts/contract_schema_snapshot.py:463-464 | A union of unconstrained scalar types, null included, is compared by its last member alone. |
| DiffExactness.PlainUnionExact | scripts/contract_schema_snapshot.py:463-499 | Two anyOfs of unconstrained scalars are compatible if and only if every old type is covered by a new one. |
| DiffExactness.OptionalIntBecomesOptionalBool | scripts/contract_schema_snapshot.py:490-499 | Counterexample: int or null against bool or null diffs as empty and rejects every old integer. |
| UnionExactness.OneKeyUnions | scripts/contract_schema_snapshot.py:452-474 | Any two unions whose members all have one key: the diff is that of their last members, whatever the others are. |
| UnionExactness.OneLastMember | scripts/contract_schema_snapshot.py:452-474 | So with one last member, as the null that sorting puts last, the diff is empty. |
| UnionExactness.AnyOfExact | scripts/contract_schema_snapshot.py:452-499 | Two anyOfs of members of one value class each, constraints included: compatible if and only if every old member is within a new one. |
| UnionExactness.AnyOfPassesExact | scripts/contract_schema_snapshot.py:452-474 | Any anyOf the diff passes is compatible if and only if every old member hidden behind a later one of its key still is. |
| UnionExactness.OneOfPassesExact | scripts/contract_schema_snapshot.py:452-474 | Any oneOf the diff passes is compatible if and only if every old value of a hidden member still has a member and no old value has two. |
| UnionExactness.OptionalExact | scripts/contract_schema_snapshot.py:452-499 | Two optional scalars, any types and constraints: the diff is empty, and they are compatible if and only if the bare scalars are. |
| UnionExactness.OptionalBoundExact | scripts/contract_schema_snapshot.py:398-474 | An optional number or integer with one bound: the diff is empty, and it is compatible if and only if the bound is no tighter, on integers after rounding. |
| UnionExactness.TightenedOptionalPasses | scripts/contract_schema_snapshot.py:452-499 | Counterexample: an optional number whose minimum goes from 0 to 5 diffs as empty and loses values. |
| DiffExactness.GainedMemberExact | scripts/contract_schema_snapshot.py:452-474 | A oneOf that gains a member, whatever it is, is compatible if and only if that member accepts nothing the old union accepted. |
| DiffExactness.GainedLiteralsExact | scripts/contract_schema_snapshot.py:452-474 | For a gained member of literals: if and only if the old union accepted none of them. |
| DiffExactness.OverlappingOneOf | scripts/contract_schema_snapshot.py:452-474 | Counterexample: a gained oneOf member is MINOR and yet an old value now matches two members. |
| DiffCompleteness.EmptyMeansSameShape | scripts/contract_schema_snapshot.py:43-46 | An empty diff means one shape (enums as sets, unions as sets of shapes), for any two trees whose literals Python tells apart and whose shadowed union members are on both sides; unions such as text or null are in. |
| DiffCompleteness.SelfDiff | scripts/contract_schema_snapshot.py:524-589 | A tree diffs against itself as empty, whatever its unions and literals. |
| DiffCompleteness.EmptyDiffExact | scripts/contract_schema_snapshot.py:524-589 | Given an empty diff, the shapes agree if and only if literals and hidden union members survived by shape. |
| DiffCompleteness.DiffEmptyIffSameShape | scripts/contract_schema_snapshot.py:43-46 | With members of one key in one order on both sides, as sorting leaves them, the diff is empty if and only if the trees have one shape. |
| DiffCompleteness.DistinctKeysSuffice | scripts/contract_schema_snapshot.py:462-465 | Unions whose members have keys of their own meet both conditions. |
| DiffCompleteness.SameShapeSameMeaning | scripts/contract_schema_snapshot.py:43-46 | Trees of one shape accept the same values, when no oneOf lists a shape twice. |
| DiffCompleteness.NoLimitChanges | scripts/contract_schema_snapshot.py:404-439 | No constraint change is reported if and only if the limits are equal. |
| DiffCompleteness.NoEnumChanges | scripts/contract_schema_snapshot.py:442-449 | No enum change is reported if and only if the value sets are equal. |
| DiffPrecision.LabelExact | scripts/contract_schema_snapshot.py:404-602 | Main result, the other way round from DiffSound: wherever Precise holds, over unchanged trees and arbitrarily nested consts, enums, arrays, maps, objects, told-apart unions and scalars whose bound moved, a MAJOR change is reported if and only if some old value is rejected. |
| DiffPrecision.ObjectPrecise | scripts/contract_schema_snapshot.py:566-589 | Exactness composes: where the labels of shared fields are exact, the label of the object is, with required flags, added and removed fields. |
| DiffPrecision.UnionPrecise | scripts/contract_schema_snapshot.py:452-474 | Exactness composes through anyOf and oneOf whose members are told apart: lost, gained and changed members included. |
| DiffPrecision.EnumPrecise | scripts/contract_schema_snapshot.py:442-449 | An enum change is MAJOR if and only if a value is lost, with no boolean against number twins. |
| DiffPrecision.NumberBoundExact | scripts/contract_schema_snapshot.py:398-439 | A bound on a number is reported MAJOR if and only if some number is lost. |
| DiffPrecision.IntegerBoundMeaning | scripts/contract_schema_snapshot.py:398-439 | A bound on an integer loses one if and only if it is tighter once rounded to the integers. |
| DiffPrecision.IntegerBoundExact | scripts/contract_schema_snapshot.py:398-439 | So its label is exact if and only if a tighter bound is tighter when rounded too; a minimum from 0.5 to 1 is a false alarm. |
| DiffPrecision.LengthBoundExact | scripts/contract_schema_snapshot.py:398-439 | The same for string lengths if and only if the change is not a new lower bound of zero. |
| DiffPrecision.FreedObjectIsAFalseAlarm | scripts/contract_schema_snapshot.py:333-343 | Counterexample: dropping every property of an object is MAJOR and loses nothing, since the bare object is free-form. |
| RefInlining.InliningKeepsMeaning | scripts/contract_schema_snapshot.py:222-290 | Main result. For definitions ranked by their references and keywords that do not collide, a value is valid under a schema with its refs if and only if it is valid under the inlined one, which holds no ref. |
| RefInlining.ResolveLeavesNoRef | scripts/contract_schema_snapshot.py:246-279 | No ref remains anywhere after inlining, whatever the definitions, cyclic ones included. |
| RefInlining.ResolveDropsCosmetics | scripts/contract_schema_snapshot.py:265-268 | No title, description, default, examples or $defs remains at any depth, whatever the definitions. |
| RefInlining.RefNameExact | scripts/contract_schema_snapshot.py:250-253 | A ref names what follows its last slash. |
| RefInlining.SiblingsWin | scripts/contract_schema_snapshot.py:250-264 | A ref to a definition gives way to the definition inlined, and the keys beside the ref stay and win. |
| RefInlining.CycleMarked | scripts/contract_schema_snapshot.py:250-261 | A ref on the way to itself leaves a marker with its name, one to no definition nothing; the keys beside it stay and win. |
| RefInlining.ResolveKeepsMeaning | scripts/contract_schema_snapshot.py:246-279 | The same equivalence for every subschema and every set of names being inlined; the recursion goes down in names not yet met, then in size. |
| RefInlining.UnwrapKeeps | scripts/contract_schema_snapshot.py:222-243 | Unwrapping a single ref wrapped in allOf keeps the meaning when its keywords and its neighbours do not meet. |
| RefInlining.MergeAccepts | scripts/contract_schema_snapshot.py:258-267 | Merging a target with its siblings means both, when no keyword collides. |
| RefInlining.KeysForeseen | scripts/contract_schema_snapshot.py:246-279 | The keys an inlined object can have are those of the objects its refs lead through. |
| RefInlining.CosmeticPropertyIsDropped | scripts/contract_schema_snapshot.py:265-268 | Counterexample: a property named like a cosmetic key loses its schema; the inlined schema accepts every value. |
| RefInlining.CollidingSiblingReplaces | scripts/contract_schema_snapshot.py:258-264 | Counterexample: a sibling that collides with its target replaces it instead of adding to it. |
| StructuralReduction.TreeKeepsMeaning | scripts/contract_schema_snapshot.py:308-349 | Main result. For every inlined schema in the kept fragment, open or closed, and every value: the structural tree accepts it if and only if the schema does and it carries declared properties only; a closed schema accepts nothing else. |
| StructuralReduction.ExclusiveSchemas | scripts/contract_schema_snapshot.py:321-323 | Members of a oneOf told apart by a required const or by the class of their values accept no common value, even when their objects are open. |
| StructuralReduction.KeywordsSpelled | scripts/contract_schema_snapshot.py:292-305 | Each of the nine numeric keywords, by its own name, asserts its own bound. |
| StructuralReduction.LimitsKept | scripts/contract_schema_snapshot.py:344-349 | The constraint keywords one by one mean what the node's limits mean. |
| StructuralReduction.MembersAgree | scripts/contract_schema_snapshot.py:321-323 | Members judged alike one by one are judged alike as anyOf or oneOf. |
| StructuralReduction.ObjectAgrees | scripts/contract_schema_snapshot.py:333-340 | An object with declared properties against its tree, required flags and additionalProperties included. |
| StructuralReduction.SummaryKeepsMeaning | scripts/contract_schema_snapshot.py:282-362 | From loaded schema to field summary: the summary accepts exactly what the schema accepts with declared properties only. |
| StructuralReduction.GateIsSound | scripts/contract_schema_snapshot.py:222-589 | Main result, end to end. When the summaries of two loaded schemas, refs and all, open or closed, diff with nothing MAJOR, every value the old schema accepts with declared properties only the new one accepts, and it declares all of them. |
| StructuralReduction.ClosedGateIsSound | scripts/contract_schema_snapshot.py:222-589 | For a closed old schema: every value it accepts. |
| ContractBumps.Strongest | scripts/contract_bumps.py:110-112 | The largest of the declared kinds, none for an empty list. |
| ContractBumps.StrongestCovers | scripts/contract_bumps.py:110-117 | The strongest kind covers a required one if and only if some declared kind does. |
| ContractBumps.BumpIsNext | scripts/contract_bumps.py:100-107 | The number a kind gets is the least one above the version, for MAJOR the least with a higher MAJOR. |
| ContractBumps.PendingKinds | scripts/contract_bumps.py:184-189 | Exactly the contracts with a pending file, each with a declared kind of its own that is as strong as every other. |
| ReleaseGates.EvaluateAgainstReleased | scripts/contract_schema_snapshot.py:799-850 | Reason by reason, over the changes away from contract_version; a contract has no problem if and only if it is on both sides, did not go back, has a higher MAJOR for a break and, once tagged, a new version for any change. |
| ReleaseGates.BumpedPassesRelease | scripts/contract_schema_snapshot.py:831-849 | A version moved by bump_version passes if and only if its kind is MAJOR or nothing breaks: a minor bump is enough for additions. |
| ReleaseGates.EvaluateAgainstBase | scripts/contract_schema_snapshot.py:712-751 | Reason by reason: an uncovered change at the same version, or a break behind another version whose MAJOR does not rise. |
| ReleaseGates.BaseExact | scripts/contract_schema_snapshot.py:728-750 | It passes if and only if nothing changed, a pending kind suffices at main's version, or another version rises in MAJOR with a break. |
| ReleaseGates.BumpedPassesBase | scripts/contract_schema_snapshot.py:728-750 | A version moved by bump_version passes if and only if its kind is MAJOR or nothing breaks. |
| ReleaseGates.EvaluateSnapshot | scripts/contract_schema_snapshot.py:609-709 | On whole snapshots: no problem if and only if the keys are equal and every entry agrees; a key on one side alone is new or removed, and each other case gets its own reason. |
| ReleaseGates.SnapshotExact | scripts/contract_schema_snapshot.py:609-709 | With no pending bump the check passes if and only if the entry was regenerated; with one, if and only if nothing changed or its kind covers the change. |
| ReleaseGates.ApartIsJudged | scripts/contract_schema_snapshot.py:831-836 | Every change of the contract without contract_version is judged by the release gate, when no field has an empty name. |
| ReleaseGates.ChangesElsewhere | scripts/contract_schema_snapshot.py:524-589 | No change below any other path is reported at the path contract_version. |
| ReleaseGates.EmptyNameHidesAChange | scripts/contract_schema_snapshot.py:831-836 | Counterexample: a property below an empty field name has contract_version's path, so its MAJOR change is not judged. |
| ReleaseHistory.ReleaseHistoryCompatible | scripts/contract_schema_snapshot.py:799-850 | Main result. Along any chain of tagged releases that each pass, no contract disappears, versions never go back, and between any two releases with one MAJOR every old value, contract_version aside, is still accepted. |
| ReleaseHistory.ReleaseVersionFixesShape | scripts/contract_schema_snapshot.py:799-850 | Along such a chain, equal versions mean equal shapes apart from contract_version, under the conditions of EmptyMeansSameShape at each step. |
| SchemaHistory.SchemaHistoryCompatible | scripts/contract_schema_snapshot.py:222-850 | Main result. The same history of the released schemas themselves: within one MAJOR, a value an older schema accepts with declared properties only is accepted by a newer one once it carries a version that one declares. |
| SchemaHistory.FieldsStay | scripts/contract_schema_snapshot.py:566-589 | Within one MAJOR no field disappears. |
| ReleaseHistory.VersionsNeverGoBack | scripts/contract_schema_snapshot.py:799-850 | Versions along a chain never decrease, over any distance. |
| ReleaseHistory.SameMajorCompatible | scripts/contract_schema_snapshot.py:799-850 | Within one MAJOR, acceptance carries over any number of steps. |
| ReleaseHistory.ContractsStay | scripts/contract_schema_snapshot.py:806-820 | The set of contracts never changes along a passing chain. |
| ReleaseHistory.DeclareThenResolve | scripts/contract_bumps.py:18-25 | A branch passes at main's version with its pending bumps if and only if it passes at bump_version of main's with none; the assigned version is above main's. |
| ReleaseHistory.MergeVersionsIncrease | scripts/contract_bumps.py:18-25 | In whatever order branches land, the versions they take strictly increase. |
| ReleaseHistory.MergesStayCompatible | scripts/contract_schema_snapshot.py:712-751 | While main's MAJOR stays the same, main accepts what it accepted through any run of merges. |
| Texts.JoinSplit | ci/hunk_revert.py:155-159 | Joining split_lines gives back the text, and its lines are well formed. |
| Texts.SplitJoin | ci/hunk_revert.py:155-159 | Splitting a join gives back the lines if and only if they are a text's lines. |
| HunkRevert.RevertText | ci/hunk_revert.py:162-174 | The slices, the start of a pure deletion and the index of minus one included, name exactly the hunk's lines. |
| HunkRevert.RevertExact | ci/hunk_revert.py:162-174 | For any diff of gapped hunks, reverting one swaps exactly its lines and keeps every other line whole. |
| HunkRevert.RevertLeavesTheOthers | ci/hunk_revert.py:170-174 | After it, the diff to the base is the other hunks, the later ones shifted. |
| HunkRevert.RevertAllIsBase | ci/hunk_revert.py:155-174 | Reverting all hunks bottom-up gives exactly the base text. |
| HunkRevert.TouchingHunksJoinLines | ci/hunk_revert.py:170-174 | Counterexample: of two touching hunks, reverting the second alone joins two lines. |
| WorktreePoolSafety.PoolSafety | ci/hunk_revert.py:408-503 | Main result. In every state of every interleaving, failing writes and restores included: free, held and lost trees are apart and make up the pool, a free tree equals HEAD, tests run on HEAD with exactly their hunk put back, and unless a restore failed a worker at free.get finds a tree. |
| WorktreePoolSafety.StepKeeps | ci/hunk_revert.py:455-516 | Every step of every thread keeps the invariant. |
| WorktreePoolSafety.RunIsGood | ci/hunk_revert.py:408-630 | The invariant, the bookkeeping of hunks and the finality of results hold in every reachable state. |
| WorktreePoolSafety.EveryTreeIsSomewhere | ci/hunk_revert.py:419-503 | Each tree is free, held, or lost by a restoring write that raised. |
| WorktreePoolSafety.NoStartAfterStop | ci/hunk_revert.py:462-464 | Once stop has held the lock no test process is ever started. |
| WorktreePoolSafety.StopEndsEveryProcess | ci/hunk_revert.py:465-510 | From stop on every process ever started has ended or been killed, but one the main thread was interrupted over: before it was registered, or in the handler of its timeout before the kill. |
| WorktreePoolSafety.LivesAfterStopExact | ci/hunk_revert.py:465-510 | After stop a process lives if and only if the interrupt caught it there alive and it has not ended by itself since. |
| WorktreePoolSafety.OrphanOutlivesCleanup | ci/hunk_revert.py:465-488 | Counterexamples: interrupted in either window, the run cleans up while the process lives on. |
| WorktreePoolSafety.CleanupIsQuiet | ci/hunk_revert.py:512-516 | When the worktrees are removed no worker is active and every tree that no failed restore lost is free and at HEAD. |
| WorktreePoolSafety.ReportedVerdictsAreReal | ci/hunk_revert.py:491-503 | A complete run has a verdict for every hunk, each from a process that ran on HEAD with that hunk alone put back: unnoticed only if it passed, noticed only if it failed. |
| WorktreePoolVerdicts.TimeoutsAreReal | ci/hunk_revert.py:470-488 | A hunk has a timeout as its verdict only if the wait for its tests ran out. |
| HunkCheck.TreeLacksOneHunk | ci/hunk_revert.py:162-503 | Patch algebra and pool together: while tests run on a hunk of a diff, the tree is HEAD but for that file, whose text has that hunk's base lines back and still differs from the base by exactly the other hunks. |
| WorktreePoolSafety.NothingLostKeeps | ci/hunk_revert.py:607-612 | No submitted hunk gets lost before the drain. |
| WorktreePoolLiveness.StepSpends | ci/hunk_revert.py:455-516 | Every step lowers one measure over queue, workers, processes and main thread. |
| WorktreePoolLiveness.RunsEnd | ci/hunk_revert.py:586-630 | Every run ends within ten steps a hunk and fourteen more. |
| WorktreePoolLiveness.NeverBlocks | ci/hunk_revert.py:491-497 | Until the run is over the program has a step it can take, unless every tree was lost by failed restores while a worker waits at free.get. |
| WorktreePoolLiveness.HungForever | ci/hunk_revert.py:491-503 | In that state it stays, whatever else happens, and nothing is cleaned up. |
| WorktreePoolLiveness.MaximalRunsCleanUp | ci/hunk_revert.py:534-541 | A run that cannot go on hangs if and only if at some point every tree was lost under a waiting worker. Else every worker is idle, and it has cleaned up if and only if no interrupt came in the finally before signals were ignored; without cleanup its hunks are all run and the trees stay behind. |
| WorktreePoolLiveness.FailedRestoreHangs | ci/hunk_revert.py:491-503 | Counterexample for any two hunks and one job: a write and its restoring write raise, the next hunk waits for the tree, and the run hangs. |
| WorktreePoolLiveness.EscapeLeavesTheTrees | ci/hunk_revert.py:621-630 | Counterexample: the tests fail on HEAD, the interrupt comes right then, and nothing is removed. |
| DeployVersions.ParseRender | pipeline/atx_deploy.py:492-493 | Reading a rendered number gives the number back. |
| DeployVersions.BumpExact | pipeline/atx_deploy.py:483-494 | Three digit parts, whatever follows a dash, bump in the last; anything else starts over at 1.0.0. |
| DeployVersions.BumpNumeric | pipeline/atx_deploy.py:483-494 | A numeric version's patch goes up by one and any suffix after a dash is dropped. |
| DeployVersions.PatchInjective | pipeline/atx_deploy.py:483-494 | Different patch numbers render to different versions. |
| Publishing.PublishedWithoutGaps | pipeline/atx_deploy.py:497-504 | Main result. In every interleaving of runs on an unpublished agent the versions published are exactly 1.0.0 to 1.0.k. |
| Publishing.EachPublishIsNewest | pipeline/atx_deploy.py:564-577 | Each successful publish takes the version right after all before it, and none is taken twice. |
| Publishing.GivingUpTakesEightOthers | pipeline/atx_deploy.py:564-577 | A run that gives up after a successful read was overtaken since that read by at least eight versions of pairwise different other runs. |
| Publishing.Publish | pipeline/atx_deploy.py:564-577 | The retry loop against a registry others publish to at any time: it publishes the version right after all others, or eight versions were published from its first candidate on, or an error that is no conflict ended it. |
| Publishing.FirstVersion | pipeline/atx_deploy.py:497-504 | The candidate read: the next version, or 1.0.0 when the read fails. |
| Publishing.TryPublish | pipeline/atx_deploy.py:565-577 | A publish succeeds exactly when its candidate is the next version. |
| Publishing.Registry.PublishAgentVersion | pipeline/atx_deploy.py:566-574 | Refused exactly when the version exists, else appended. |
| Publishing.AloneExact | pipeline/atx_deploy.py:483-504 | With nobody else publishing, a run succeeds if and only if its read succeeded or fewer than eight versions exist. |
| Teardown.WaitDeregistered | pipeline/atx_deploy.py:388-404 | Answers whether the entry is gone; only a pending deregistration with its runtime in place can have finished. |
| Teardown.Destroy | pipeline/atx_deploy.py:671-724 | While a pending deregistration may finish before any call: under an entry that remains, the runtime is deleted if and only if the active-instances answer was received; a wait that ran out leaves the runtime and a hidden entry; errors delete nothing. |
| Teardown.DestroyAgain | pipeline/atx_deploy.py:700-708 | Destroying again once the deregistration has finished leaves neither entry nor runtime, for an idle agent or with force. |
| Teardown.BusyWithoutForce | pipeline/atx_deploy.py:692-700 | Counterexample: after the fall-through a later forced destroy can never finish. |
| CatalogFormat.Kind.SegmentOf | scripts/catalog_format_snapshot.py:159-173 | The pattern loop with its early return is the specified segment. |
| CatalogFormat.Kind.WalkTable | scripts/catalog_format_snapshot.py:175-189 | Walking a table adds exactly its tables and key types to the record, counters in step. |
| CatalogFormat.Kind.WalkValue | scripts/catalog_format_snapshot.py:191-203 | The same for a value: tables, arrays of tables and nested arrays. |
| CatalogFormat.Kind.WalkItems | scripts/catalog_format_snapshot.py:198-203 | And for the items of an array. |
| CatalogFormat.Kind.ReadKeys | scripts/catalog_format_snapshot.py:205-213 | The flags and types read off the counters are those of the walked trees. |
| CatalogTrees.CountsAgree | scripts/catalog_format_snapshot.py:205-213 | Main result. As many tables hold a key path as were walked at its container if and only if every table there holds it: the required flag is exact. |
| CatalogTrees.TablesRooted | scripts/catalog_format_snapshot.py:175-189 | Every key counted in a table sits directly below that table's container. |
| CatalogTrees.TableTypesHeld | scripts/catalog_format_snapshot.py:175-203 | Every recorded key path is an array's items or is held by a walked table. |
| CatalogReach.TypesReached | scripts/catalog_format_snapshot.py:175-203 | The types recorded below a table are those of the values that steps into entries and items reach, at the paths the steps spell. |
| CatalogReach.TablesReached | scripts/catalog_format_snapshot.py:175-203 | Every table the steps reach, inside arrays and nested arrays too, is exactly one visit with exactly its own keys, and there is no other. |
| CatalogReach.RecordedExact | scripts/catalog_format_snapshot.py:205-247 | Main result. A kind's recorded format by its files alone: a path is recorded if and only if a value is reached at it, with exactly those types, and required if and only if every reached table at its container holds it. |
| CatalogFormat.BuildKind | scripts/catalog_format_snapshot.py:242-247 | A fresh walker over a kind's files yields the specified keys. |
| CatalogFormat.FlagByForm | scripts/catalog_format_snapshot.py:205-213 | Whether a key has a required flag at all is settled by the form of its path. |
| CatalogFormat.BuildFormat | scripts/catalog_format_snapshot.py:235-248 | The format of a catalog, kind by kind. |
| CatalogFormat.EvaluateFormat | scripts/catalog_format_snapshot.py:251-282 | Exactly the specified problems between two formats. |
| CatalogReach.KeyProblemsExact | scripts/catalog_format_snapshot.py:251-282 | The comparator's problems of a key, said of the values and tables reached in the two catalogs: gone, retyped, no longer or newly required. |
| CatalogFormat.CompatibleMeansReadable | scripts/catalog_format_snapshot.py:251-282 | No problem if and only if every recorded file, key, type and required flag holds and no optional key became required. |
| CatalogFormat.HistoryReadable | scripts/catalog_format_snapshot.py:251-282 | The same from the first to any later release of a passing history. |
| CatalogFormat.ReaderSafety | scripts/catalog_format_snapshot.py:235-282 | Main result, about the catalogs themselves: through any passing history every file and key path stays, a key's types were all recorded, and a required key is in every table at its container. |
| CatalogFormat.OptionalStaysOptional | scripts/catalog_format_snapshot.py:271-277 | A key recorded as optional stays optional: its flag cannot get lost between releases. |
| CatalogFormat.LostFlagHidesAChange | scripts/catalog_format_snapshot.py:271-277 | Between arbitrary recorded formats a missing flag would hide the change from the comparator. |
| VersionHistory.ListGoesOn | scripts/contract_bumps.py:267-277 | The lookahead over blank lines finds the next entry or deeper line, or stops. |
| VersionHistory.Histories | scripts/contract_bumps.py:280-310 | The nested loops find exactly the specified lists, with their indents, versions and ends. |
| VersionHistory.HistoriesAreLists | scripts/contract_bumps.py:280-310 | Every list found has an entry and lies inside the docstring. |
| VersionHistoryLines.ParseExact | scripts/contract_bumps.py:267-310 | Main result. A list of histories is the parse of a docstring if and only if each is what its lines make it (heading, first entry's indent and prefix, the lines that belong to it and no more, its entries' versions), they come in order, and every heading with an entry starts one or lies in one. |
| VersionHistoryLines.StyleKept | scripts/contract_bumps.py:330-340 | The inserted entry has the indent and prefix of the list's first entry line. |
| VersionHistory.InsertHistoryEntry | scripts/contract_bumps.py:343-385 | Over the class docstring and then the module docstring: the entry goes next to the first list whose newest is current, at the end it grows at; refused when there is none or when its last line closes the docstring. |
| VersionHistory.InsertInDocstring | scripts/contract_bumps.py:368-381 | The inner loop, over one docstring. |
| VersionHistoryLines.OwnerExact | scripts/contract_bumps.py:361-374 | The entry goes to the first docstring, class before module, with a list whose newest is current, and there to the first such list; refused if and only if there is none. |
| VersionHistoryReparse.InsertThenReparse | scripts/contract_bumps.py:280-385 | Main result. Parsing after an insertion gives the lists before unchanged, the one list grown by the one version at its own end, and the lists after moved down. |
| VersionHistoryReparse.InsertedEntryIsFound | scripts/contract_bumps.py:343-385 | The new version is then the newest of the list that held current, the order is kept, and no other list changes. |
| VersionHistoryReparse.GrownIsNewest | scripts/contract_bumps.py:257-264 | A version above the newest becomes the newest at either end and does not turn the list round. |
| VersionHistoryReparse.InsertKeepsLines | scripts/contract_bumps.py:375-381 | Every line survives, in order. |
| VersionHistoryReparse.OtherDocstringStays | scripts/contract_bumps.py:280-310 | The other docstring parses to the same lists, in place above the insertion and moved down below it. |
| Closures.Closure | scripts/render_atx_requirements.py:68-90 | Main result. Wherever the worklist ends on these roots, it returns exactly the names of the least set of requests that holds the roots and is closed under dependencies and requested extras, or exits because some name outside the lock is in every such set. |
| Closures.ExtrasExact | scripts/render_atx_requirements.py:83-89 | A request's extras lead to the requests of every extra asked for, and to no other. |
| Closures.TurnShrinks | scripts/render_atx_requirements.py:76-89 | A turn meets a new package or leaves less weight on the worklist. |
| Closures.TrapLoopsForever | scripts/render_atx_requirements.py:76-89 | A request whose extras lead back among themselves keeps the worklist from ever emptying. |
| Closures.TerminationExact | scripts/render_atx_requirements.py:68-90 | Per lock and roots: without a trap within every closed set that holds the roots, the worklist empties; when every requested name is in the lock, it ends if and only if there is none. |
| Closures.UnknownNameEndsTrap | scripts/render_atx_requirements.py:76-82 | An input with a trap on which the loop ends all the same: the unknown name is popped first. |
| Closures.WithImporters | scripts/check_version_pins.py:154-164 | The least superset of the modules that holds every importer of its modules. |
| CompactOutput.CleanExact | scripts/_compact_output.py:37 | Cleaning write by write is cleaning the whole output if and only if no colour code is open between writes. |
| CompactOutput.CodeCleaned | scripts/_compact_output.py:37 | A colour code between plain text goes and the text stays. |
| CompactOutput.PointerExact | scripts/_compact_output.py:111-121 | log_offset and log_lines name exactly the appended lines if and only if the log was empty or ended in a newline or nothing was appended; else the first is missed. |
| CompactOutput.NamedExact | scripts/_compact_output.py:111-121 | The same of the log lines a payload names. |
| CompactOutput.CompactConsole.Write | scripts/_compact_output.py:79-84 | Cleaned text goes once, in order, to the buffer or the log; a closed log raises and changes nothing. |
| CompactOutput.CompactConsole.Attach | scripts/_compact_output.py:92-102 | The buffer moves to the log, after what the log held; a second attach does nothing. |
| CompactOutput.CompactConsole.Status | scripts/_compact_output.py:104-109 | The line goes to stdout and to the log; with a closed log it is out before the error. |
| CompactOutput.CompactConsole.PointerNow | scripts/_compact_output.py:111-121 | The payload: the output's tail without a log, else offset and number of lines. |
| CompactOutput.CompactConsole.Close | scripts/_compact_output.py:123-133 | The first close prints one pointer line and shuts the log; later ones do nothing. |
| LicenseHeaders.SpdxIdentifier | scripts/license_headers.py:147-168 | The scan over the leading comment lines, with its early exits, is the specified one. |
| LicenseHeaders.AddHeader | scripts/license_headers.py:189-208 | The edited line list is the specified one. |
| LicenseHeaders.PreambleExact | scripts/license_headers.py:123-140 | What stays above the header: a shebang, in Python an encoding line first or below it, in a script the block comment right there if it holds a pragma. |
| LicenseHeaders.ScanExact | scripts/license_headers.py:147-168 | An identifier is found if and only if it is on a comment line below blank and comment lines without one. |
| LicenseHeaders.NewlineExact | scripts/license_headers.py:184-186 | The header takes the line end of the first line that ends in a newline. |
| LicenseHeaders.HeaderRecognised | scripts/license_headers.py:123-208 | Main result. The header just inserted is recognised if and only if no pragma docblock seen only with its line ends hides it. |
| LicenseHeaders.SecondRunExact | scripts/license_headers.py:189-208 | A second run changes nothing if and only if the header was there or is not hidden. |
| LicenseHeaders.FlowDocblockHides | scripts/license_headers.py:135-137 | Counterexample, with the pragma pattern spelled out: a docblock whose bare "@flow" line runs into the next when joined without line ends. |
| LicenseHeaders.EncodingExact | scripts/license_headers.py:123-131 | A declared encoding stays declared if and only if it is on line one or below a shebang. |
| LicenseHeaders.OnlyHeaderAdded | scripts/license_headers.py:199-208 | Line by line: the lines above keep text and end, an unended one is ended, then the two header lines, a blank one if anything follows, and the rest but its leading blank lines. |
| LicenseHeaders.StaysWellFormed | scripts/license_headers.py:199-208 | The result is again a text's lines. |

## Left out

- Order and message texts of the reported changes and problems: sets of structured changes are compared.
- The text of a union member key: a kind with its tags stands for it, so tags that clash only as text are not modelled.
- Cycle nodes (`$cycle`) in the structural tree, and const or enum literals that are lists or objects.
- Objects with declared properties are read as closed in the tree. Most models in the repository leave them open, and for those the claims are about values that carry declared properties only.
- DiffPrecision.LabelExact: outside Precise are a node with several constraints of which one changes, array limits that move, changed unions whose members share a key (UnionExactness has those), a member or field that accepts nothing, and a changed kind or scalar type that still accepts some old value (integer to number, a const to an enum holding it); the last are reported MAJOR though nothing need be lost.
- StructuralReduction.GateIsSound: a value with undeclared properties is outside the claim for an open schema, since a newer release may declare them otherwise.
- StructuralReduction.TreeKeepsMeaning: keywords the tree drops (such as `uniqueItems` or `minProperties`) put a schema outside the kept fragment; `format` and `discriminator` are annotations.
- The sorting `_resolve` does of `required`, `enum` and union members, which no meaning here depends on.
- A `$ref` that is not text, and a second wrapped `$ref` that appears after a first was unwrapped beside other keywords: both are unwrapped in one step here.
- Pydantic's schema generation, JSON and TOML parsing, SHA-256 (a digest is an opaque text) and the snapshot files.
- Version strings are pairs of numbers; a string that is none raises in the source.
- `scripts/resolve_contract_versions.py` is not part of this model beyond assigning `bump_version` of main's version.
- `evaluate_snapshot` compares whole entries with Python's equality; here entries are compared as values.
- git's output is an already parsed hunk list; `collect`, `skip_reason` and the choice of hunks.
- WorktreePoolSafety.PoolSafety: the runner is a state machine on values, not a class; its owner and process-group files, signals and the sweep of stale folders are not in it; tests are taken not to write to their tree. Making the worktrees, and the interpreter's own shutdown after an escaped interrupt, are not in it either.
- The registry: reads answer the newest version, a lookup error means the entry is gone, and metadata, access control and builds are not modelled.
- Teardown: one agent at a time; polling time is a number of lookups.
- TOML key paths are sequences of segments; the quoting of unusual keys in their text is not modelled.
- The version history: lines are classified (entry, deeper, blank, heading, other) instead of matched, docstrings are line spans, and the wrapped text of a new entry is a parameter.
- Closures.Closure: package names are taken as canonical already; a run that never ends returns nothing, so the contract speaks of roots on which the loop ends, which `TerminationExact` characterises.
- CompactOutput.CompactConsole: each method is one step, as under its lock; the log file is written by this console alone; `display_path` is not modelled.
- LicenseHeaders: the comment, identifier and encoding patterns are parameters constrained only by what they make of the header's own lines, which are parameters too; word characters in the pragma pattern are ASCII; a text is its lines with line ends newline, carriage return or both, and the other line boundaries of `splitlines` are left out.
- `scripts/contract_value_snapshot.py`, `ci/pr_evidence.py`, `ci/claims.py`, `ci/pre_merge.py`, `ci/security.py` and the `render_*`, `run_*` and `check_*` scripts but those cited: text checks and plumbing around the cores modelled here.
