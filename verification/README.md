# Verified model of modot

modot deploys dotfiles: it compares the files a configuration asks for with the disk
and with what it recorded last time, plans actions, carries them out in parallel, and
records the new state. This project models that reconcile loop and the smaller
algorithms around it, and proves what they promise.

**The reconcile loop.** `FileTree` is the file system as a tree of directories, files
and links, with the file-system calls the executor makes on one target. `Executor` is
the parallel map over targets as a transition system: any interleaving, any fault.
`Planner` is the decision on one target, `Reconcile` one whole apply as a function of
the state it has loaded. `StateKeys` is the state file and its relative keys, `Persist`
an apply that loads its state through those keys and saves it through them, `Runs`
sequences of such applies. `Manager` holds the state, the state file and the apply
method itself as objects that are updated in place, each method proved to do what
`Reconcile` and `Persist` specify. `DestPaths` shows where the one assumption of the
loop, that no target lies below another, comes from. `AtomicFile` is the
temp-and-rename writer under concurrent writers and crashes.

**Around it.** `Icons` and `IconCrop` (flood fill and crop of an icon), `LspBackend`
and `Framing` (request correlation and message framing), `Lockfile` and `Keyed`
(lockfile upserts and merging), `TagOrder` (ranking release tags), `EslintOutput`,
`DiffLines` and `MultiFile` (three text scanners), `PlaceStep` (renaming over a file
tree), `Genetic` and `PairStats` (the evolutionary palette search). `SemVer` is the
precedence of Semantic Versioning on its own terms. `Text` and `Sorting` hold the
standard-library operations these use.

Hash functions, gitignore matching, regular expressions, JSON encoding, fitness and
random choices are parameters or arbitrary values. SHA-256 is taken to be injective
where a result needs it, and says so. Sorts that the source leaves to the library are
an insertion sort with the library's promise (a stable, ordered permutation) proved.

Some results are negative; they come with the exact condition, or with an input:

- A file that asks for permission bits 0 is installed with 0666 (`atomicfile.Create`
  sets exactly 0666, where its comment says "subject to umask"), and one that cannot be
  opened is rewritten, so the planner never finds either up to date.
- A target whose state key is not read back, as that of a file whose name ends in a
  space, is forgotten: the next apply writes it again, and removes the path its key is
  read as, which nobody desired (`Persist.LostKey`, `Persist.SpacedFileLost`).
  `Persist.SecondPlan` gives idempotence as an if-and-only-if with both exceptions.
- A path that is no longer desired comes back as a directory when something below it is
  written: `Runs.ExistsExactly` says exactly what exists after a series of applies.
- An apply that fails, or only fails to save, can leave a bundle fingerprint in the
  state that the fast path then trusts wrongly. `Runs.MisledExactly` says which applies
  can.
- `placestep.Clean` is not idempotent; `PlaceStep.CleanAgain` says exactly when it is.
- A state key is not read back if it ends in white space, or its relative form begins
  or ends in it: `StateKeys.KeyRoundTrip`.
- Tag ranks that mix numbers and text are not ordered: `TagOrder.MixedRanksCycle`. And
  prerelease identifiers with a sign, with build metadata (unless it follows a signed
  number) or past 64 bits are not ranked as Semantic Versioning ranks them:
  `TagOrder.RanksAsSemVer`.
- The diff reader miscounts a hunk with added text that starts with `++`, or with
  deleted text that starts with `--` before an added line, and no others:
  `DiffLines.HunkReadRight`.
- A tool row that repeats an earlier one makes the lockfile's index and its rows
  disagree exactly as `Lockfile.RebuildExactly` says, and a source provider that fills
  in an untrimmed ref makes rows multiply: `Lockfile.RepeatsExactly`.

## Model

| member | source | states |
|---|---|---|
| `FileTree.StepEffect` | internal/deployer/executor.go:119-182 | what one file-system step on a target (make parents, clear, install, remove) does to every path of the tree |
| `FileTree.StepFails` | internal/deployer/executor.go:119-182 | which of those calls fail without a fault from outside: on a directory that holds something, through what is no directory, without a readable source |
| `Executor.StepAgrees` | internal/deployer/executor.go:119-182 | in every state a run can reach, whether a target's next step succeeds depends on the first tree alone, not on how far the other targets are |
| `Executor.StepKeepsInv` | internal/deployer/executor.go:119-182 | every event of a run, be it an error, leaves the tree equal to what the first tree and the step counters predict |
| `Executor.DoableRunsThrough` | internal/deployer/executor.go:119-182 | work that is doable on the first tree cannot fail in any interleaving without outside faults |
| `Executor.RunEndsInFinal` | internal/deployer/executor.go:107-218 | any run, failed or not, leaves the tree its counters predict, and those count only steps possible on the first tree; a complete run without error leaves exactly the tree read off the first tree and the work; without outside faults it has an error exactly if some work was not doable at the start |
| `Executor.OldFileKept` | internal/deployer/executor.go:160-182 | in any run, complete or not and with any errors, a regular file that a file is to replace stays until the new one stands in its place; more generally, what may stand at a target at any time |
| `Executor.ExposedExactly` | internal/deployer/executor.go:107-218 | judged on the first tree, an existing node can be changed by some run, cut short at some point, exactly if work at it or above it can clear or replace it |
| `Executor.DoableCompletes` | internal/deployer/executor.go:107-218 | work that is doable on the first tree has an interleaving that completes it, so the run theorems are not about nothing |
| `Executor.Confluence` | internal/deployer/executor.go:107-218 | any two interleavings end in the same tree if both succeed, and without outside faults with the same verdict |
| `Executor.Frame` | internal/deployer/executor.go:107-218 | even in a run that fails half way, a path at or below no target keeps its node, or appears as a missing parent directory |
| `Executor.NestedTargetsRace` | internal/deployer/executor.go:119-182 | why targets may not nest: with an orphan above a desired file one interleaving succeeds and another fails |
| `Planner.PlanOne` | internal/deployer/planner.go:42-125 | the branches of planOne, with its flag and early returns, decide what the decision function says |
| `Planner.DecidesExactly` | internal/deployer/planner.go:42-125 | each decision by what stands at the target: Create exactly where nothing does; with --no-cache Update for anything else; else an error exactly where a needed comparison cannot be made, and Noop exactly where a fingerprint covers the file or it is seen to be there and recorded or ignored |
| `Planner.NoopMeansEqual` | internal/deployer/planner.go:68-125 | a Noop reached without the bundle fast path means the target has exactly the kind, link, permission bits and bytes the file asks for |
| `Planner.InstalledIsNoop` | internal/deployer/planner.go:42-125 | what the executor installs is Noop for the next plan if and only if a recorded fingerprint covers it, or it is recorded as it is or ignored, asks for some permission bits and is a link or can be opened |
| `Reconcile.PatchedIsOwned` | internal/deployer/executor.go:93-102 | folding the patches of a plan's work into the kept state gives exactly the non-ignored desired files |
| `Reconcile.ExactState` | internal/dotfiles/manager.go:93-206 | after any successful apply, the "no changes" exit included, the state in memory, which is what is saved, is exactly the non-ignored desired files with their notes |
| `Reconcile.TreeAfter` | internal/dotfiles/manager.go:93-206 | the tree after a successful apply, path by path |
| `Reconcile.CanSucceed` | internal/dotfiles/manager.go:93-206 | an apply can succeed if and only if every target can be planned and all its work is doable on the tree as it is |
| `Reconcile.Converges` | internal/dotfiles/manager.go:93-206 | after a successful apply a desired target whose fingerprint was not trusted has exactly the kind, link, permission bits and bytes its file asks for, if and only if it was not written for a file that asks for no bits |
| `Reconcile.NoCacheWritesAll` | internal/deployer/planner.go:50-54 | with --no-cache no plan fails, every desired target is written whatever was recorded, and after a successful apply all that ask for some permission bits, and no others, are as desired |
| `Reconcile.OldFileOrNew` | internal/deployer/executor.go:160-182 | whatever became of an apply, a regular file that stood at a target that asks for one is still there, or the new one is |
| `Reconcile.HookStops` | internal/dotfiles/manager.go:148-170 | a before hook that fails, a dry run, a failing load or plan stops an apply that has work before it writes tree or state |
| `Reconcile.Undisturbed` | internal/deployer/planner.go:129-159 | a target without work is not disturbed by the work on others |
| `Reconcile.OthersUntouched` | internal/dotfiles/manager.go:93-206 | whatever the outcome, a path at or below no desired target and no recorded one that is not ignored keeps its node, save for missing parents |
| `Reconcile.FailureKeepsState` | internal/dotfiles/manager.go:148-206 | an apply that does not succeed leaves the state alone, and a dry run changes nothing |
| `Reconcile.OnlyOwnedOrphansRemoved` | internal/deployer/planner.go:151-156 | a removal only targets a path that was recorded, is not desired and is not ignored |
| `Reconcile.NextPlan` | internal/deployer/planner.go:42-125 | after a successful apply and no outside edit, whatever state the next plan loads, a target is Noop if and only if it is ignored or remembered as it is, and a fingerprint covers it or the plan can see that it is as desired |
| `Reconcile.IdleAgain` | internal/dotfiles/manager.go:93-206 | if that holds of every target and the load gives back what was in memory, a second apply plans nothing and changes neither tree nor state |
| `Persist.StateFileExact` | internal/dotfiles/manager.go:93-206 | after a successful apply the state file holds the non-ignored desired files under their keys, or was left alone because it was loaded as just these |
| `Persist.StoppedBefore` | internal/dotfiles/manager.go:93-170 | such an apply leaves the state file alone too |
| `Persist.RememberedExactly` | internal/deployer/state.go:111-166 | a target with a key to itself is loaded again, with its note, if and only if its key is read back |
| `Persist.LoadAfterSave` | internal/deployer/state.go:111-166 | if every key is read back a load gives exactly what was saved, whatever the order of the map |
| `Persist.NextLoad` | internal/dotfiles/manager.go:93-206 | so the load after a successful apply finds exactly the non-ignored desired targets, and exactly their notes unless the apply left an ambiguous old file alone |
| `Persist.SecondPlan` | internal/dotfiles/manager.go:93-206 | idempotence, exactly: after an apply that saved, with no outside edit, a target is Noop in the next plan if and only if, ignored, it looks as desired, or else its key is read back and a fingerprint covers it or it looks as desired |
| `Persist.SecondApplyIsIdle` | internal/dotfiles/manager.go:93-206 | if all keys are read back and all targets look as desired or have a fingerprint, a second apply, whatever it loads, changes neither tree nor state file |
| `Persist.LostKey` | internal/deployer/planner.go:129-159 | if the key of a target is read as another path, the next plan removes that path and writes the target again, with no outside edit |
| `Persist.LostKeyDeletes` | internal/deployer/executor.go:124-132 | and if that apply succeeds the other path is gone |
| `Persist.KeyReadBack` | internal/deployer/executor.go:19-50 | the premise of these results for the state file: a target whose key has no `$` and no leading `~` is read back if and only if neither its name nor its key has space at an end |
| `Persist.SaveIsFileSave` | internal/deployer/state.go:142-166 | saving targets by their codec is what the save of the state file does to their names, in both directions |
| `Persist.LoadIsFileLoad` | internal/deployer/state.go:111-139 | and loading them what its load does, where every key names an absolute path |
| `Persist.SpacedFileLost` | internal/dotfiles/manager.go:93-206 | an input: after `/h/foo ` was applied under the root `/h` the next plan removes `/h/foo` and writes `/h/foo ` again |
| `Runs.OwnershipStep` | internal/dotfiles/manager.go:93-206 | after one successful apply a target of it exists if and only if it is desired, and is then recorded unless it is ignored |
| `Runs.LeavesExactly` | internal/dotfiles/manager.go:93-206 | after one successful apply any path exists if and only if it is a desired target, or is no target, was there or stands above something written, and nothing written above it clears it |
| `Runs.ExistsExactly` | internal/dotfiles/manager.go:116-201 | over any series of successful applies, each free of nesting by itself, what exists at the end is exactly what that rule, apply after apply, leaves |
| `Runs.Ownership` | internal/dotfiles/manager.go:116-201 | so a non-ignored path with a key that is read back, recorded or absent at the start or desired at some time, exists at the end if and only if the last apply desires it, if whatever is desired below it is followed by an apply that desires it |
| `Runs.OwnershipApart` | internal/dotfiles/manager.go:116-201 | in particular if nothing is ever desired below it |
| `Runs.ParentsAppear` | internal/deployer/executor.go:137-141 | why that is asked: a target that is written brings the directories above it back, over a pruned path too |
| `Runs.StrangersSurvive` | internal/dotfiles/manager.go:93-206 | over any series of applies, successful or not, nested or not, a node stays what it was if no target ever desired, no key of the first state file and no key of those targets stands for a path at or above it (ignored ones aside) |
| `Runs.Unsuccessful` | internal/dotfiles/manager.go:148-206 | an apply that does not succeed leaves the state file alone, and the tree as its run left it, or as it was if nothing ran |
| `Runs.FastPathRefines` | internal/deployer/planner.go:56-66 | with sound fingerprints that describe the disk, skipping the hash gives the action of the full comparison exactly where the target can be opened for that comparison |
| `Runs.BundlesKept` | internal/deployer/executor.go:131-182 | a successful apply whose bundle keys are read back leaves every fingerprint of the state file true of the disk |
| `Runs.HarmlessKeepsBundles` | internal/dotfiles/manager.go:93-206 | so does one that did no work, or whose work cannot reach a node that a fingerprint describes, whatever became of it |
| `Runs.FastPathRefinesOverRuns` | internal/deployer/planner.go:56-125 | after any series of such applies, each free of nesting by itself, planning with the fast path is planning by full comparison exactly where that comparison can be made |
| `Runs.ConvergesWithBundles` | internal/dotfiles/manager.go:93-206 | with sound fingerprints every desired target converges, trusted or not |
| `Runs.MisledExactly` | internal/dotfiles/manager.go:93-206 | some outcome of an apply leaves a fingerprint in the state file that is no longer true if and only if the apply can be planned and its work can, if cut short, change the node such a fingerprint describes |
| `Runs.MisledBySave` | internal/dotfiles/manager.go:172-206 | the same for applies that do all their work and only fail to save |
| `Runs.FailedRunMisleadsFastPath` | internal/deployer/planner.go:56-66 | an instance: after a failed execution the next apply loads the old fingerprint and plans Noop over the wrong file |
| `Manager.SortedActions` | internal/deployer/types.go:61-86 | sorting keeps the same actions, orders them by kind and then by target, and keeps ties in input order |
| `Manager.DropIgnored` | internal/deployer/ignore.go:39-51 | the state loses exactly its ignored keys, and the count is how many |
| `Manager.StateFile.Load` | internal/deployer/state.go:111-139 | a fresh state with every key under the target it is read as, and nothing else, or an error |
| `Manager.StateFile.Save` | internal/deployer/state.go:142-166 | every target is stored under its key, of two with one key the later by name; a failing save leaves the file alone |
| `Manager.PlanDesired` | internal/deployer/planner.go:129-150 | one action for each desired file, of the decided kind, or an error exactly for a file whose decision is one |
| `Manager.PruneOrphans` | internal/deployer/planner.go:151-156 | one Delete for each recorded target that is not desired, whatever the order of the map |
| `Manager.Plan` | internal/deployer/planner.go:129-159 | fails exactly if some decision fails, and else answers each desired file in order, repeated targets included, and has one Delete for each orphan |
| `Manager.PlanIsPlan` | internal/deployer/planner.go:129-159 | with one desired file a target that is one action of the decided kind for every desired and every recorded target |
| `Manager.PlanIsWork` | internal/deployer/planner.go:129-159 | the actions of a plan amount to the work the specification hands to the executor |
| `Manager.RunPool` | internal/deployer/executor.go:119-182 | the pool, driven by any schedule, is the transition system |
| `Manager.CollectWork` | internal/deployer/executor.go:107-118 | exactly the actions that are not Noop go to the pool |
| `Manager.SortedWork` | internal/deployer/executor.go:107-118 | sorting the actions and dropping the noops leaves exactly the plan's work |
| `Manager.ApplyPatch` | internal/deployer/executor.go:93-102 | the new state after one patch |
| `Manager.FoldPatches` | internal/deployer/executor.go:184-218 | the patches of the finished work give the patched state |
| `Manager.Execute` | internal/deployer/executor.go:107-218 | tree, verdict and state after the sorted, filtered, parallel execution; on an error the state is left alone |
| `Manager.PlanTallies` | internal/dotfiles/manager.go:130-146 | the four counts of a plan are the numbers of targets created, updated, deleted and left alone |
| `Manager.Manager.Count` | internal/dotfiles/manager.go:130-146 | the counting loop counts the actions of each kind |
| `Manager.Manager.Prepare` | internal/dotfiles/manager.go:116-148 | planning and counting agree with the specified work; there are changes exactly if there is work |
| `Manager.Manager.Perform` | internal/dotfiles/manager.go:172-206 | execution and save give the tree of the run, the verdict, and the patched state in the state file exactly on success |
| `Manager.Manager.Carry` | internal/dotfiles/manager.go:148-206 | early exits, execution and save give outcome, tree and state file of the specification |
| `Manager.Manager.PlanAndCarry` | internal/dotfiles/manager.go:116-206 | the same with planning and its failure before it, from the state at hand |
| `Manager.Manager.Apply` | internal/dotfiles/manager.go:93-206 | the whole apply, a failing load included, as updates of tree, state file and counts, is the transition the theorems above are about |
| `StateKeys.CleanIdempotent` | internal/deployer/executor.go:19-50 | cleaning a path twice is cleaning it once |
| `StateKeys.AbsoluteKeyStays` | internal/deployer/executor.go:37-50 | a clean absolute key in the state file is read back, whatever the root, exactly if it has no space at its end |
| `StateKeys.StoredBelow` | internal/deployer/executor.go:19-33 | a path at or below the root is stored as what is left of it there, and one elsewhere as it is |
| `StateKeys.StoredPlain` | internal/deployer/executor.go:19-33 | without a root a path is stored as it is |
| `StateKeys.HomeKey` | internal/deployer/executor.go:37-50 | a key that starts with `~/` leads below the home directory, and `~` to it, whatever the root |
| `StateKeys.ReadPlain` | internal/deployer/executor.go:37-50 | a blank key leads nowhere, one that expands to an absolute path there, whatever the root |
| `StateKeys.KeyRoundTrip` | internal/deployer/executor.go:19-50 | a clean absolute key whose stored form has no `$` and no leading `~` is read back if and only if neither the key nor its stored form has space at an end |
| `StateKeys.RelKeyBack` | internal/deployer/executor.go:19-50 | below the root a trimmed relative key leads back to its path |
| `StateKeys.ShorterKey` | internal/deployer/executor.go:37-50 | an untrimmed one leads to another path |
| `StateKeys.UntrimmedLost` | internal/deployer/executor.go:19-50 | a key with space at its end is stored without it and never comes back |
| `StateKeys.LoadAfterSave` | internal/deployer/state.go:111-166 | loading what was saved gives the same state, for keys that are read back |
| `StateKeys.FileStateStore.Save` | internal/deployer/state.go:142-166 | every key is stored under its relative form, and of two keys with one form the later in string order wins; a failing write leaves the file alone |
| `StateKeys.FileStateStore.Load` | internal/deployer/state.go:111-139 | every stored key is loaded under its absolute form, and nothing else is; a missing file is an empty state, an unreadable one an error |
| `Sorting.SortedKeys` | internal/deployer/state.go:145-150 | the keys of a map, each once, in string order |
| `Sorting.StringLessExactly` | internal/deployer/state.go:150 | in string order the first difference decides, and a proper prefix comes first |
| `Sorting.ListingUnique` | internal/deployer/state.go:145-150 | there is only one such list, whatever the order of the map |
| `StateKeys.FindGitRoot` | internal/deployer/ignore.go:53-65 | the nearest work tree at or above the start, or none if there is none |
| `AtomicFile.File.Create` | internal/atomicfile/atomicfile.go:49-66 | a new empty temp, or an error with the temp removed again, or with nothing made |
| `AtomicFile.File.Write` | internal/atomicfile/atomicfile.go:93-98 | bytes are appended to the temp, or the call fails on a finished file |
| `AtomicFile.File.Abort` | internal/atomicfile/atomicfile.go:110-129 | removes the temp once; after a commit it is a no-op |
| `AtomicFile.File.Commit` | internal/atomicfile/atomicfile.go:133-176 | renames all of the temp over the final path or leaves that path as it was, and what is reported |
| `AtomicFile.StepKeepsInv` | internal/atomicfile/atomicfile.go:49-193 | every call, failure or crash of any writer keeps the final path complete, temps apart and other files untouched |
| `AtomicFile.FinalIsComplete` | internal/atomicfile/atomicfile.go:49-193 | for any number of writers and any interleaving the final path holds its first content or all bytes of one writer that reached its rename; only crashed or active writers leave a temp |
| `AtomicFile.FailedWriterHarmless` | internal/atomicfile/atomicfile.go:110-176 | once a writer has failed before its rename, returned or died, no call it still makes changes the final path, whatever the others do meanwhile |
| `AtomicFile.CanFinish` | internal/atomicfile/atomicfile.go:49-193 | in every reachable state a writer whose remaining calls do not fail finishes, and if it had not failed before its whole data is installed |
| `AtomicFile.OnlyRenameInstalls` | internal/atomicfile/atomicfile.go:166-176 | the final path changes at a successful rename and at no other step, and then to the whole data of that writer |
| `AtomicFile.CommitIsItsCalls` | internal/atomicfile/atomicfile.go:143-176 | the transition system's calls, made in a row, change the directory as the Commit method says |
| `DestPaths.PathSet.Add` | internal/source/compose_dest.go:638-650 | the index keeps the added paths and exactly their proper ancestors |
| `DestPaths.PathSet.Overlaps` | internal/source/compose_dest.go:652-673 | two look-ups and a walk up answer whether some added path equals the name, is above it or is below it |
| `DestPaths.ClashExactly` | internal/source/compose_dest.go:652-673 | two paths clash exactly if one is at or below the other, the dot path only with itself |
| `DestPaths.IndexTree` | internal/source/compose_dest.go:590-599 | the index of a tree holds exactly its paths |
| `DestPaths.ProfileFiles.AddDirect` | internal/source/compose_dest.go:683-697 | a direct file is refused exactly if it clashes with an earlier one |
| `DestPaths.ProfileFiles.AddMerged` | internal/source/compose_dest.go:754-773 | a merged file may repeat a path only with the same record |
| `DestPaths.GroupOne` | internal/source/compose_dest.go:120-145 | one turn of the loop fails exactly if the file does not fit those before it |
| `DestPaths.Group` | internal/source/compose_dest.go:110-146 | the grouping loop goes through if and only if the files are pairwise and one by one acceptable |
| `DestPaths.DirectFilesApart` | internal/source/compose_dest.go:601-697 | no accepted direct file overlaps another or a CUE path |
| `DestPaths.DirectTargetsAntichain` | internal/source/compose_dest.go:110-146 | the targets of accepted direct files are pairwise non-nested, as the executor needs them |
| `DestPaths.OrderIrrelevant` | internal/source/compose_dest.go:110-146 | acceptance does not depend on the input order |
| `Icons.Fill.Enqueue` | internal/icons/icons.go:134-147 | a background pixel is queued the first time it is offered |
| `Icons.Fill.SeedQueue` | internal/icons/icons.go:149-162 | every border pixel and the centre is offered |
| `Icons.Fill.OfferNeighbours` | internal/icons/icons.go:172-184 | the four neighbours of a pixel are offered, at the edges of the image too |
| `Icons.Fill.Clear` | internal/icons/icons.go:166-170 | the next pixel of the queue is taken and cleared, and no other |
| `Icons.Fill.Turn` | internal/icons/icons.go:164-185 | one turn clears one pixel and offers its four neighbours |
| `Icons.Fill.Flood` | internal/icons/icons.go:164-185 | at the end exactly the joined pixels were queued |
| `Icons.Fill.FewEnough` | internal/icons/icons.go:134-147 | no pixel is queued twice, so the queue never outgrows the image |
| `Icons.WalkStaysIn` | internal/icons/icons.go:164-185 | a set that holds the seeds and is closed under background neighbours holds every pixel a walk reaches |
| `Icons.MakeBackgroundTransparent` | internal/icons/icons.go:116-188 | a pixel is cleared if and only if background-coloured 4-neighbour steps join it to a background-coloured border pixel or centre; all others are unchanged |
| `Icons.RgbaSays` | internal/icons/icons.go:120-133 | the colours compared: opaque pixels have the same colour exactly if they are the same, transparent ones all have |
| `IconCrop.ContentBox` | internal/icons/icons.go:190-219 | the scan finds the tight box around the visible pixels, or that there are none |
| `IconCrop.CropToContentSquare` | internal/icons/icons.go:190-233 | the result is the picture itself without content, else the square with the box in its middle, pixel by pixel |
| `IconCrop.ContentMoves` | internal/icons/icons.go:221-232 | the crop moves the visible pixels by one vector, loses none and adds none |
| `IconCrop.CropCentred` | internal/icons/icons.go:221-232 | the crop is the smallest square its content fits in, and opposite margins differ by at most one pixel, the smaller first |
| `IconCrop.TightUnique` | internal/icons/icons.go:190-219 | there is only one tight box |
| `IconCrop.CropAgain` | internal/icons/icons.go:190-233 | cropping a crop changes nothing |
| `LspBackend.StepKeepsInv` | internal/lsp/backend.go:112-204 | every step of callers, reader and process watcher keeps ids unique, entries matched to their unanswered callers, and every waiting call in the table, answered, or about to be |
| `LspBackend.Correlation` | internal/lsp/backend.go:112-204 | over any run each channel is sent at most one message, what arrives has the caller's own id, ids differ, and a call that waits has its entry, its message, or its message in the reader's hands |
| `LspBackend.GivesUpOnlyIfTold` | internal/lsp/backend.go:161-204 | a call gives up, or returns without a message, only if its own write failed or its own context ended |
| `LspBackend.GivenUpForGood` | internal/lsp/backend.go:183-202 | and then it returns no message |
| `LspBackend.AnsweredWasWritten` | internal/lsp/backend.go:183-204 | only a call whose message was written waits or returns a message |
| `LspBackend.AnswerWasBrought` | internal/lsp/backend.go:112-154 | what a call has in its channel or returns was read from the connection, or is failPending's error, under the call's own id |
| `LspBackend.MessageReturned` | internal/lsp/backend.go:194-204 | a message in the channel of a call that is not told to give up stays there until the call returns it |
| `LspBackend.CanBeAnswered` | internal/lsp/backend.go:121-154 | a registered call that waits returns its response once it is read and delivered, or failPending's error |
| `LspBackend.LockExcludes` | internal/lsp/backend.go:142-154 | while one goroutine is in failPending the table changes by its deletions alone, and the other does not enter |
| `LspBackend.GoroutinesGo` | internal/lsp/backend.go:112-154 | the read loop and the wait for the process change state only as they read, deliver, and fail what is pending |
| `LspBackend.NoDeadlock` | internal/lsp/backend.go:112-204 | after any run every call can still be brought to its return by its own context alone |
| `LspBackend.NoSendBlocks` | internal/lsp/backend.go:128-154 | in every reachable state the reader's send and every send of failPending goes through, and the lock is given back |
| `LspBackend.FailPendingServesAll` | internal/lsp/backend.go:142-154 | when failPending ends every call registered by then has its message, is about to get it, or has given up, and stays so |
| `LspBackend.LateCallWaits` | internal/lsp/backend.go:161-204 | a call registered after reader and watcher have ended is moved by nothing but its own context |
| `LspBackend.IdStays` | internal/lsp/backend.go:161-165 | once given, an id stays with its call |
| `LspBackend.Backend.Begin` | internal/lsp/backend.go:161-182 | a request gets a new id and an entry of its own |
| `LspBackend.Backend.Forget` | internal/lsp/backend.go:183-202 | a failed write or a cancelled context takes out the caller's own entry and no other |
| `LspBackend.Backend.Dispatch` | internal/lsp/backend.go:121-136 | a response goes to its waiter and to nobody else, and the entry goes |
| `LspBackend.Backend.FailPending` | internal/lsp/backend.go:142-154 | every pending call is sent an error under its own id and the table is empty |
| `Framing.ReadsAnyFrame` | internal/lsp/jsonrpc.go:74-130 | a frame is read back, and nothing behind it, with its length header in any letter case and other headers around it |
| `Framing.LowerEqual` | internal/lsp/jsonrpc.go:83-90 | folding makes two header names equal exactly if they differ in the case of letters alone |
| `Framing.ReadsWhatWasWritten` | internal/lsp/jsonrpc.go:74-130 | reading what any sequence of writes left gives the same bodies in order and stops exactly behind them |
| `Framing.ReadStable` | internal/lsp/jsonrpc.go:74-108 | what is decided on part of a stream does not change when more arrives, and an early end leaves nothing unread |
| `Framing.CutFrameEnds` | internal/lsp/jsonrpc.go:74-108 | a frame cut off anywhere gives the end of input, never a message |
| `Framing.CutStream` | internal/lsp/jsonrpc.go:74-130 | a stream cut off anywhere gives exactly the messages complete in it |
| `Framing.Conn.WriteMessage` | internal/lsp/jsonrpc.go:113-131 | one frame is appended, with the default version filled in; a message that cannot be encoded writes nothing, and a failing stream takes a prefix of the frame |
| `Framing.Conn.ReadBytes` | internal/lsp/jsonrpc.go:74-99 | the read loop gives the result, and leaves the rest, that the specification says, errors included |
| `Framing.Conn.ReadMessage` | internal/lsp/jsonrpc.go:74-108 | the decoded body with the default version filled in |
| `Framing.VersionDefault` | internal/lsp/jsonrpc.go:100-116 | a message without a version gets "2.0", and nothing else changes |
| `Text.ItoaRoundTrip` | internal/lsp/jsonrpc.go:92-125 | the decimal length printer and parser are inverse |
| `Lockfile.PutRowAt` | internal/modfile/sumops.go:73-118 | an upsert edits the first row of its key or appends one; no other row changes |
| `Lockfile.PutRowWrites` | internal/modfile/sumops.go:73-209 | what an upsert writes, field by field: value (and for a source digest and versioning) as the update has them, names where the update has some, everything else as it was; or the whole new row at the end where no row of that kind and ref exists |
| `Lockfile.PutRowSays` | internal/modfile/sumops.go:73-209 | afterwards a row of the key has the version, or value, digest and versioning, of the update |
| `Lockfile.PutRowTwice` | internal/modfile/sumops.go:51-209 | an upsert that finds the row it writes changes nothing the second time |
| `Lockfile.RepeatsExactly` | internal/modfile/sumops.go:51-209 | and those are exactly the upserts that can be repeated on any rows: another one appends its row again |
| `Lockfile.PutAllTwice` | internal/modfile/sumops.go:51-209 | a series with one upsert a key, repeated, changes nothing |
| `Lockfile.PutAllKeeps` | internal/modfile/sumops.go:51-209 | over any upserts that find their own rows keys stay unique, the source rows never get fewer, and other rows are untouched |
| `Lockfile.PutAllCount` | internal/modfile/sumops.go:120-209 | over any upserts at all the source rows never get fewer |
| `Lockfile.NormalizedStubsFirst` | internal/modfile/sumfile.go:142-159 | loading puts the rows, whatever the sort does with equal refs, in an order in which those without a ref come first |
| `Lockfile.RebuildExactly` | internal/modfile/sumops.go:73-118 | on any rows a rebuild finds the version of a tool upsert if and only if the last row behind the upserted one that rebuilds under its ref, if any, has that version |
| `Lockfile.RebuildSays` | internal/modfile/sumfile.go:176-209 | the rebuilt index has exactly the keys that some tool row tells of, ref before name and value before version, each with the lock of the last such row |
| `Lockfile.IndexedSays` | internal/modfile/sumops.go:67-71 | an upsert puts the lock under its ref and under the caller's name if there is one, and changes no other entry |
| `Lockfile.RebuildAfterPut` | internal/modfile/sumfile.go:176-209 | with unique keys and that order a rebuild from the rows finds the version of a tool upsert |
| `Lockfile.RebuildAfterPutElsewhere` | internal/modfile/sumfile.go:176-209 | and any upsert leaves what a rebuild finds for the other keys |
| `Lockfile.IndexAgreesExactly` | internal/modfile/sumops.go:51-209 | over any upserts on any rows, for a stable ref that no alias shadows, the in-memory index and a rebuild give the same version if and only if no later row overruled the last write to it |
| `Lockfile.IndexAgrees` | internal/modfile/sumops.go:51-209 | so on rows with unique keys, those without a ref first, index and rebuild always agree |
| `Lockfile.DuplicateRowsDisagree` | internal/modfile/sumops.go:73-118 | an instance: with two rows for one tool, index and rebuild disagree |
| `Lockfile.TidyIsStable` | internal/modfile/sumops.go:133-149 | with providers that fill in trimmed refs every row a source upsert stores is one it finds again |
| `Lockfile.UntidyDuplicates` | internal/modfile/sumops.go:133-149 | a provider that fills in a ref with space at an end makes every call append its row once more |
| `Lockfile.SumFile.RebuildToolLocks` | internal/modfile/sumfile.go:176-209 | the rebuild loop computes the specified index |
| `Lockfile.SumFile.PutInRows` | internal/modfile/sumops.go:73-118 | the row loop performs the specified upsert, and reports a change exactly if the rows changed |
| `Lockfile.SumFile.EditRow` | internal/modfile/sumops.go:80-105 | the edit of a row found, one field at a time, and whether it changed any |
| `Lockfile.SumFile.UpsertTool` | internal/modfile/sumops.go:51-118 | rows, index and report after a tool upsert, rejected inputs included |
| `Lockfile.SumFile.UpsertSource` | internal/modfile/sumops.go:120-209 | rows and report after a source upsert, rejected inputs and provider rules included; with tidy providers keys stay unique and a second call finds nothing to change |
| `Lockfile.StoredRow` | internal/modfile/sumops.go:120-162 | the row stored is what the provider fills in, with the lock's own ref and value where it gives no ref; it is declined exactly in the cases listed |
| `Lockfile.SumFile.CountSourceDependencies` | internal/modfile/runner.go:98-109 | the number of source rows |
| `Lockfile.CountsRows` | internal/modfile/runner.go:98-109 | that count is the size of the set of rows of trimmed kind source |
| `Lockfile.SumFile.UpdateSources` | internal/modfile/runner.go:62-75 | the update closure upserts its entries one by one, reports a change exactly if one of them changed a row, its shrink guard never fires, and with tidy providers keys stay unique |
| `Lockfile.UpdateTwice` | internal/modfile/runner.go:62-75 | a second run of the closure with the same entries, no two for one ref, changes nothing |
| `Lockfile.MergeRenovateDependencies` | internal/modfile/renovate.go:69-113 | the merge is the sorted last-wins dedupe |
| `Lockfile.MergeDeterministic` | internal/modfile/renovate.go:69-127 | a row survives exactly if it is the last of its non-empty key, no key comes twice, and any sorting algorithm gives this one result |
| `Lockfile.KeysSeparate` | internal/modfile/renovate.go:115-127 | merge keys are equal exactly for rows identified alike, by kind and ref or else by datasource and name, where no kind and no datasource has a colon |
| `Lockfile.ColonsCollide` | internal/modfile/renovate.go:115-127 | with a colon in a kind two different rows share a key |
| `Lockfile.MergeKeepsLast` | internal/modfile/renovate.go:69-113 | so the merge keeps the last row of each identity, in the order of kind, ref, datasource and name |
| `Keyed.LastWinsExactly` | internal/modfile/renovate.go:69-98 | which rows a keyed last-wins merge keeps |
| `Keyed.MergeInto` | internal/modfile/renovate.go:69-98 | the loop with its index map computes that merge |
| `Keyed.OneArrangement` | internal/modfile/renovate.go:99-112 | rows with distinct keys have only one ordered arrangement |
| `TagOrder.NewerIsWeakOrder` | internal/modfile/tag_spec.go:183-228 | on ranks parsed alike newerThan is a strict weak order, and what ties has the same numbers up to trailing zeros and the same prerelease |
| `TagOrder.MixedRanksCycle` | internal/modfile/tag_spec.go:183-186 | three tags of which each is newer than the next, all around, when numbers and text mix |
| `TagOrder.ParseVersionRank` | internal/modfile/tag_spec.go:157-181 | the loop parses the specified rank |
| `TagOrder.Numbers` | internal/modfile/tag_spec.go:172-179 | the loop over the parts: all their numbers, or none if one is not a number |
| `TagOrder.PrintedParses` | internal/modfile/tag_spec.go:157-181 | parsing a written version, with or without "v", gives its numbers and prerelease identifiers back |
| `TagOrder.CmpPreIdent` | internal/modfile/tag_spec.go:230-249 | the three-way comparison is the order of keys: what reads as a 64-bit number by value, below all other text |
| `TagOrder.NewerThan` | internal/modfile/tag_spec.go:183-228 | the loops decide by the first difference of numbers, then of prereleases, a release above them; `TagOrder.RanksAsSemVer` relates that to the standard |
| `TagOrder.WellReadAgree` | internal/modfile/tag_spec.go:183-249 | between well read versions newerThan is precedence as section 11 defines it |
| `TagOrder.RanksAnyAsSemVer` | internal/modfile/tag_spec.go:183-249 | over arbitrary identifiers newerThan ranks a version against every well read one as section 11 of Semantic Versioning 2.0.0 does if and only if it is well read itself: no identifier with build metadata, a signed number, or digits past 64 bits |
| `TagOrder.RanksAsSemVer` | internal/modfile/tag_spec.go:183-249 | a legal semantic version is ranked so against every legal, well read one if and only if its identifiers are well read, up to build metadata behind a signed number, as in `1.0.0--1+b` |
| `TagOrder.SignedNumberMisranks` | internal/modfile/tag_spec.go:230-249 | `1.0.0-0` is ranked above `1.0.0--1` |
| `TagOrder.BuildMetadataMisranks` | internal/modfile/tag_spec.go:164-169 | `1.0.0-rc.2+x` is ranked above `1.0.0-rc.10+x` |
| `TagOrder.LongNumberMisranks` | internal/modfile/tag_spec.go:230-249 | a number past 64 bits is ranked above an identifier that is no number |
| `TagOrder.PreNewer` | internal/modfile/tag_spec.go:203-228 | the prerelease half of the comparison: first difference, absence below presence, a release on top |
| `TagOrder.VersionText` | internal/modfile/tag_spec.go:113-150 | version group, else major.minor.patch with zeros, else the whole match; the last group of a name counts |
| `TagOrder.PartsRanked` | internal/modfile/tag_spec.go:101-150 | where the version group is empty and the last groups named major, minor and patch hold numbers, or nothing for 0, the tag is ranked by these three, in that order, as a release |
| `TagOrder.VersionRanked` | internal/modfile/tag_spec.go:101-150 | a version group with text is what is ranked; where neither it nor a part is named the whole match is |
| `TagOrder.RankTag` | internal/modfile/tag_spec.go:101-111 | the rank of a tag, if it is not empty, matches and has a version text |
| `TagOrder.Newest` | internal/modfile/tag_spec.go:68-82 | the loop over the tags is the specified scan |
| `TagOrder.ScanFindsNewest` | internal/modfile/tag_spec.go:54-87 | where all ranks are numbers (or all text) the tag picked is one that none is newer than, and the earliest of those |
| `TagOrder.PicksHighest` | internal/modfile/tag_spec.go:54-87 | where all ranks are numbers and well read no tag has a higher precedence than the one picked |
| `TagOrder.ScanOfPermutation` | internal/modfile/tag_spec.go:54-87 | permuting the tags changes the pick only within equal rank |
| `TagOrder.SelectNewestTag` | internal/modfile/tag_spec.go:54-87 | the loop is that scan; empty, invalid and matchless patterns are errors |
| `TagOrder.SelectsGreatest` | internal/modfile/tag_spec.go:54-87 | where every tag that takes part says major, minor and patch, the one selected has the greatest triple, and is the first with it |
| `TagOrder.SelectFails` | internal/modfile/tag_spec.go:54-87 | which error is returned when, and that there is no other |
| `EslintOutput.ExtractFirstJSONValue` | internal/checks/codec/eslint.go:84-132 | the scan returns the text from the first bracket to where its depth is back at zero, or nothing |
| `EslintOutput.FirstBracket` | internal/checks/codec/eslint.go:85-96 | the first loop skips what the extraction may skip, or finds nothing to extract |
| `EslintOutput.ExtractsPrinted` | internal/checks/codec/eslint.go:84-132 | after any text without brackets and before any trailer exactly the printed array or object is found (sections 2 and 7 of RFC 8259) |
| `EslintOutput.ClosesAtEnd` | internal/checks/codec/eslint.go:97-132 | started on a bracketed balanced text the scanner closes exactly at its end, whatever follows |
| `EslintOutput.EscapeInvalidStringControlChars` | internal/checks/codec/eslint.go:134-173 | the byte loop computes the specified escaping |
| `EslintOutput.EscapeInStep` | internal/checks/codec/eslint.go:134-173 | the scan state of the output stays in step with the input's, and no raw control character is left inside a string |
| `EslintOutput.EscapeIdentity` | internal/checks/codec/eslint.go:134-173 | escaping is the identity if and only if nothing needs escaping |
| `EslintOutput.EscapeIdempotent` | internal/checks/codec/eslint.go:134-173 | escaping twice is escaping once |
| `EslintOutput.EscapedReadsAlike` | internal/checks/codec/eslint.go:134-173 | decoded as JSON strings are (section 7 of RFC 8259), the escaped text says what the raw one does, control characters other than line feed, carriage return and tab read as spaces |
| `EslintOutput.StrictReader` | internal/checks/codec/eslint.go:134-173 | without raw control characters that tolerant reading is the strict one |
| `EslintOutput.SanitizesPrinted` | internal/checks/codec/eslint.go:70-82 | chatter around a printed JSON value is removed and the value comes through unchanged |
| `DiffLines.ParseUnifiedDiffLines` | internal/checks/review/review.go:172-222 | the line loop computes the keys of the specified state machine |
| `DiffLines.ReadHunkStart` | internal/checks/review/review.go:188-203 | the loop over the parts of a hunk header |
| `DiffLines.HeaderStart` | internal/checks/review/review.go:190-205 | a printed hunk header is read back as its first new line |
| `DiffLines.FirstPlusPart` | internal/checks/review/review.go:188-203 | the part read is the first that starts with `+` and not with `+++` |
| `DiffLines.HeaderSays` | internal/checks/review/review.go:188-203 | a header starts at the number that part begins with, and where that is none the counter stays |
| `DiffLines.BodySteps` | internal/checks/review/review.go:205-220 | the lines of a hunk that counts right add exactly the keys of its added lines and leave the file |
| `DiffLines.HunkReadRight` | internal/checks/review/review.go:186-222 | one hunk is read right if and only if no added text in it starts with `++` and no deleted text that starts with `--` stands before an added line |
| `DiffLines.KeyInjective` | internal/checks/review/review.go:224-226 | keys separate file and line |
| `DiffLines.DiffRoundTrip` | internal/checks/review/review.go:172-226 | of a printed diff over any files, deleted files, stray lines and hunks that count right the keys are exactly those of its added lines |
| `DiffLines.PlusPlusLost` | internal/checks/review/review.go:206-222 | the smallest hunk misread for its added text |
| `DiffLines.DashDashShifts` | internal/checks/review/review.go:206-222 | the smallest hunk misread for its deleted text |
| `MultiFile.ParseMultiFile` | internal/template/multifile.go:22-76 | the loop collects the specified parts, and says whether there are any |
| `MultiFile.ReadPart` | internal/template/multifile.go:34-72 | one part: name, mode with its default, trimmed content |
| `MultiFile.ModeRead` | internal/template/multifile.go:60-66 | a mode written in octal, zeros in front or not, is read as its number below 2^32 and as 0644 otherwise |
| `MultiFile.ModeRejected` | internal/template/multifile.go:60-66 | what is not all octal digits is read as 0644 |
| `MultiFile.MultiFileRoundTrip` | internal/template/multifile.go:22-76 | what `file` and `endfile` print is parsed to the same names, the octal values of modes below 2^32 (0644 for larger ones) and the trimmed contents, in order, with any text without `<` in between |
| `MultiFile.ParseBody` | internal/template/funcmap.go:40-49 | one printed file is parsed to what it was printed for |
| `PlaceStep.MoveConserves` | internal/placestep/step.go:91-134 | a move keeps paths distinct and in order, every file out is one that went in, and the missing ones are the overwritten ones |
| `PlaceStep.MoveElements` | internal/placestep/step.go:91-134 | what a move leaves, entry by entry: what is at or below the source goes to the same place below the destination, and what stays and is not overwritten stays |
| `PlaceStep.MoveBack` | internal/placestep/step.go:91-134 | moving to and back restores the entries when nothing that stays is at or below the destination |
| `PlaceStep.RewriteBack` | internal/placestep/step.go:204-213 | a renamed path stands at or below the destination and is renamed back to itself |
| `PlaceStep.AtOrBelowExactly` | internal/placestep/step.go:101-109 | a path is at or below another exactly if its segments start with the other's |
| `PlaceStep.RewriteSegments` | internal/placestep/step.go:204-213 | renaming puts the segments of the destination in the place of those of the source |
| `PlaceStep.MoveStep` | internal/placestep/step.go:91-134 | the two loops and the map give the specified entries and one warning for each overwritten entry |
| `PlaceStep.SplitEntries` | internal/placestep/step.go:101-109 | the first loop separates moving from staying entries, in order |
| `PlaceStep.PlaceMoving` | internal/placestep/step.go:115-126 | the second loop leaves in the map the renamed entries and the staying ones they do not hit, with a warning for each one hit |
| `PlaceStep.Collect` | internal/placestep/step.go:128-133 | whatever the order of the map, the entries come out sorted by path |
| `PlaceStep.Apply` | internal/placestep/step.go:52-89 | steps run in name order; a pipeline that succeeds keeps paths distinct and files conserved, and output plus overwrite warnings is input |
| `PlaceStep.FailsExactly` | internal/placestep/step.go:52-89 | a pipeline fails if and only if some step that is reached has an unclean path or a check that does not pass |
| `PlaceStep.ApplyOne` | internal/placestep/step.go:80-89 | one step keeps paths distinct, files conserved and the sum of output and overwrite warnings |
| `PlaceStep.CleanSegments` | internal/placestep/step.go:184-201 | what Clean accepts it turns into proper segments joined by single slashes |
| `PlaceStep.CleanRefuses` | internal/placestep/step.go:184-201 | Clean refuses exactly paths with a `..` segment, or with no segment but empty ones and dots |
| `PlaceStep.CleanAgain` | internal/placestep/step.go:184-201 | cleaning again changes nothing if and only if the result has no space at an end |
| `Genetic.InitPopulation` | internal/palette/genetic/evolution.go:17-32 | palettes of the right size with colours of the random range, in windows of one new array |
| `Genetic.CrossoverInto` | internal/palette/genetic/evolution.go:36-45 | the destination window holds the alternating zip of the parents, and nothing else is written |
| `Genetic.MutateInPlace` | internal/palette/genetic/evolution.go:49-55 | at most one colour is replaced, by one of the image |
| `Genetic.Evolve` | internal/palette/genetic/evolution.go:58-78 | the best survivor first, then children; all in a new array, so survivors are never written |
| `Genetic.Breed` | internal/palette/genetic/evolution.go:70-75 | one child by crossover and mutation, in its own window |
| `Genetic.AddChild` | internal/palette/genetic/evolution.go:69-76 | a child's window overlaps no earlier one, so those keep what they hold |
| `Genetic.ScorePop` | internal/palette/genetic/fitness.go:247-263 | the scores are the stable sort of the population's fitness, best first |
| `Genetic.Select` | internal/palette/genetic/driver.go:73-76 | the survivors are the best 500, or all if there are fewer |
| `Genetic.ScoredRight` | internal/palette/genetic/fitness.go:247-263 | each score belongs to its palette, and none is above the first |
| `Genetic.EarliestBest` | internal/palette/genetic/fitness.go:257-261 | of equally fit palettes the earliest is first |
| `Genetic.NextNoWorse` | internal/palette/genetic/driver.go:52-80 | the next generation's best is no less fit |
| `Genetic.Turn` | internal/palette/genetic/driver.go:52-80 | one generation: it stops exactly if the best fitness did not change, and else extends the run |
| `Genetic.Winner` | internal/palette/genetic/driver.go:82-83 | the earliest of the fittest palettes |
| `Genetic.NeverFalls` | internal/palette/genetic/driver.go:52-80 | no palette of any generation of a run is fitter than the best of a later one |
| `Genetic.KnownOrigin` | internal/palette/genetic/evolution.go:36-78 | every colour in any generation is an initial colour at the same position or a colour of the image |
| `Genetic.Generate` | internal/palette/genetic/driver.go:46-77 | the generation loop ends with a whole run that was never found cancelled, or at the first generation that finds it cancelled |
| `Genetic.Extract` | internal/palette/genetic/driver.go:26-87 | nothing only for an empty image or a run found cancelled; else the earliest fittest palette of the last generation of a run that rose until it stopped, at a generation that brought nothing or at the limit |
| `PairStats.MaxDeltaE` | internal/palette/genetic/fitness.go:67-82 | the maximum found on squares is the largest distance |
| `PairStats.AccentPairStats` | internal/palette/genetic/fitness.go:86-109 | the minimum found on squares is the smallest distance, and the penalty is the sum over all pairs by plain distance |
| `PairStats.OneMoreColour` | internal/palette/genetic/fitness.go:86-109 | that sum counts each pair once: one more colour costs its penalty with each that is there |
| `PairStats.PenaltyFalls` | internal/palette/genetic/fitness.go:83-107 | a closer pair costs no less |
| `PairStats.DistanceSound` | internal/palette/genetic/fitness.go:58-64 | the distance is the same both ways, and 0 exactly between equal colours |
| `PairStats.Nearest` | internal/palette/genetic/fitness.go:121-128 | the minimum found on squares is the distance to the nearest colour |
| `PairStats.ThresholdsAgree` | internal/palette/genetic/fitness.go:83-107 | the squared thresholds sort pairs as the plain ones would |
| `PairStats.PenaltyFree` | internal/palette/genetic/fitness.go:86-109 | the penalty is 0 exactly if all colours are at least 15 apart |
| `PairStats.ImageSimilarity` | internal/palette/genetic/fitness.go:112-134 | minus the mean distance to the nearest image colour |
| `PairStats.SumAppend` | internal/palette/genetic/fitness.go:112-134 | the sum in that mean is the sum of its parts |

## Left out

- CUE evaluation, git, networking, drivers, the command line, progress and logging: input and output around the algorithms.
- JSON, SHA-256, gitignore matching and regular expressions: arbitrary functions, with what is assumed of them written at the lemma.
- Targets that nest or repeat in the reconcile loop: the theorems ask for pairwise non-nested targets, which `DestPaths` provides for direct desired files and without which `Executor.NestedTargetsRace` shows the outcome to depend on the schedule. That recorded targets, ignored ones aside, do not nest with desired ones in one apply is an assumption.
- Symbolic links in the middle of a target's path: a link there fails the making of parents in the model.
- A read error half way through an existing target: only a directory in place of a file makes the planner's comparison fail.
- The umask on created directories, and setuid, setgid and sticky bits: a permission is the nine bits the source asks for.
- The temp file of the writer is not seen at the granularity of the executor's steps; `AtomicFile` is about it.
- Hooks: only whether the before hooks succeed; after hooks change nothing here.
- MemoryStateStore: it hands out its own map, so that a failed or dry run can change what it stores; the model is of a store that loads a copy.
- Choosing and opening the state directory (internal/deployer/state.go:39-109), and PrettyPath.
- Persist.LoadIsFileLoad: a key of the state file that is blank, or relative while the root is empty, names no path of the tree and is left out of what is loaded; targets are absolute paths.
- StateKeys.KeyRoundTrip: says nothing of stored forms with a `$` or a leading `~`, because what they expand to depends on the environment.
- Manager.Manager.Apply: asks for one desired file a target; with two, both would run at once on one path, which the executor's model does not cover.
- CreateSibling, ReplaceDir and WritePNG of atomicfile, permissions of the temp, and the mode re-applied after the rename beyond its success or failure.
- DestPaths.Group: groups the files of one profile; the source does this for each profile separately.
- absorbLineTargets, placeInProfile, record contents and the merging of CUE trees; paths are taken as lists of components, cleaned by an arbitrary function.
- Icons.MakeBackgroundTransparent: takes the picture as NRGBA pixels from (0, 0); the conversion before it and other bounds are not modelled.
- IconCrop.CropToContentSquare: takes bounds from (0, 0), and the rounding of the drawing step is an arbitrary function of one pixel.
- Notifications and server requests in the LSP proxy, and the wrap-around of the 64-bit id counter.
- Framing.Conn.ReadBytes: does not model invalid UTF-8: padding of the length by the single bytes 0x85 and 0xA0 counts as white space here. Allocation of the body is taken to succeed.
- Lockfile.SumFile.UpsertSource: leaves out the writes to the source index (sourceLocks), for which the name and the providers' look-up keys are used; FindTool and FindSource are left out too, and the providers' own rules are arbitrary functions.
- Lockfile.SumFile.UpdateSources: leaves out the entry names, which only that index uses.
- Lockfile.IndexAgreesExactly: says nothing of alias keys, which the code does not keep fresh.
- TagOrder.ScanFindsNewest: asks for ranks that are all numbers or all text, because of TagOrder.MixedRanksCycle.
- PlaceStep.Apply: its `require` step is any check that passes or fails; the pattern matching behind it and Windows path separators are not modelled.
- The fitness formula of the palette search beyond its pair statistics, floating-point rounding, the seeded generator (choices are arbitrary) and the mapping to a palette.
