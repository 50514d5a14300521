# Image-renaming watcher, modelled in Dafny

The repository watches one folder and keeps its images numbered in creation
order: `<prefix>_01.png`, `<prefix>_02.jpg`, and so on. It ships in three
variants:

* the original handler (`rename_images_watcher/rename_images_watcher.py`):
  PNG, JPG and JPEG images, a case-insensitive "already renamed" test,
  enumeration by two globs, and a pass that stops at the first failing rename;
* the corrected handler (`rename_images_watcher_CORRECTED.py`): the same
  images, enumeration through `get_real_image_files`, which keeps only
  entries it can stat and read, and a pass that skips each failing rename and
  goes on;
* the PNG-only handler (`rename_images_watcher_optimized.py`): PNG only, every
  target ends in `.png`, a case-sensitive canonical test, glob enumeration,
  and a pass that stops at the first failing rename.

Each variant runs the same reconciliation core:

1. list the images;
2. order them by creation time;
3. plan one `(current, temp, final)` triple for every file that is not at its
   target name;
4. rename every planned file to its temporary name (phase 1);
5. rename every temporary name to its final name (phase 2).

Around that core sit an event gate, a stability probe, a single-flight flag
and a small configuration store. The model has these modules:

| module | what it holds |
|---|---|
| `Text` | ASCII lower-casing, `%02d` padding, and the suffix as pathlib computes it |
| `Naming` | the extension tests, final and temporary names, and the canonical-name test of each variant |
| `Ordering` | the stable sort by creation time |
| `Planner` | the rename plan and the loop that builds it |
| `FileSystem` | the directory as a map from name to record, and a `Directory` class whose `Rename` fails when the source is missing, the destination is taken (names compared with case), or the file is locked |
| `Apply` | the two-phase applier: `AbortPass` (stop at the first failure) and `PerEntryPass` (skip failures), specified by functions; the methods that run the loops over a `Directory` |
| `Resolver` | `get_real_image_files` over a modelled directory listing |
| `Reconcile` | one whole `reorganize_all_files` pass per variant, and what a pass guarantees |
| `Startup` | `check_existing_files` |
| `Stability` | the size-polling probe |
| `Gate` | event filters, the debounce, and cache eviction (time in integer milliseconds) |
| `Config` | `get_prefix`, `save_prefix` and `get_paths` over the stored object |
| `TempNames` | `temp_files` only ever holds `TEMP_` names |
| `OriginalWatcher`, `CorrectedWatcher`, `PngWatcher` | the three handler classes, whose methods change `processing`, `last_event_time`, `temp_files` and the directory |

Each handler method that changes state is proved against a function. The
passes are `AbortReorganize` and `PerEntryReorganize`; the start-up checks
are `GlobCheck` and `ResolvedCheck`; the probe is `Verdict`; eviction is
`Cleanup`. The lemmas in `Planner`, `Apply`, `Reconcile`, `Startup` and
`Stability` state what those functions guarantee.

Where the written description of the system and the code disagree, the model
follows the code. The description says files created at the same instant are
ordered by name. The code sorts on creation time alone, with Python's stable
sort, so ties keep listing order (`Ordering.SortKeepsTies`,
`Reconcile.TiesCanReorder`).

## Model

| member | source | states |
|---|---|---|
| Naming.FinalNameIsCanonicalImage | rename_images_watcher/rename_images_watcher.py:191-194 | every final name planned for a PNG/JPG/JPEG file passes the case-insensitive `is_already_renamed` test, whatever its position |
| Naming.FinalNameIsCanonicalPng | rename_images_watcher_optimized/rename_images_watcher_optimized.py:159-161 | every `<prefix>_NN.png` final name of the PNG-only planner passes its case-sensitive test |
| Naming.UpperCasePng | rename_images_watcher_optimized/rename_images_watcher_optimized.py:159-161 | `<prefix>_NN.PNG` is refused by the case-sensitive PNG-only test and accepted by the case-insensitive test of the other variants |
| Naming.TempNamesFoldApart | rename_images_watcher/rename_images_watcher.py:255-259 | two temporary names that are equal once lower-cased come from the same position |
| Naming.FinalNamesFoldApart | rename_images_watcher/rename_images_watcher.py:255-259 | two final names that are equal once lower-cased come from the same position |
| Naming.TempNeverFinalFolded | rename_images_watcher/rename_images_watcher.py:255-259 | with image extensions, no temporary name is a case variant of a final name of position below 999,999 |
| Naming.FinalNameNotTemp | rename_images_watcher/rename_images_watcher.py:255 | unless the prefix followed by `_` begins with `temp_` in some case, no final name begins with `temp_` in any case |
| Naming.FinalNameInjective | rename_images_watcher/rename_images_watcher.py:255-259 | two final names that are equal come from the same position and extension |
| Naming.TempNameInjective | rename_images_watcher/rename_images_watcher.py:255-259 | two temporary names that are equal come from the same position and extension |
| Naming.TempNeverFinal | rename_images_watcher/rename_images_watcher.py:255-259 | with image extensions, no temporary name equals a final name of position below 999,999, because a matching final number would need seven or more digits |
| Naming.TempNameIsTemp | rename_images_watcher/rename_images_watcher.py:256 | every temporary name starts with `TEMP_` |
| Naming.FinalKeepsExtension | rename_images_watcher/rename_images_watcher.py:254-255 | planning a final name again gives back its own extension |
| Naming.ImageSuffix | rename_images_watcher/rename_images_watcher.py:254 | an image name that is more than a bare extension has one of `.png`, `.jpg`, `.jpeg` as its lower-cased suffix |
| Ordering.SortByCtime | rename_images_watcher/rename_images_watcher.py:245-246 | the sorted listing has non-decreasing creation times and is a permutation of the listing |
| Ordering.SortKeepsTies | rename_images_watcher/rename_images_watcher.py:246 | files created at the same instant keep their listing order (stable sort, no tie-break on the name) |
| Ordering.SortedPermutationUnique | rename_images_watcher/rename_images_watcher.py:246 | when creation times are pairwise distinct, only one sorted order exists |
| Planner.BuildPlan | rename_images_watcher/rename_images_watcher.py:249-261 | the plan-building loop returns exactly `Plan`: one triple per misplaced position, in position order |
| Planner.AppendIfMisplaced | rename_images_watcher_optimized/rename_images_watcher_CORRECTED.py:265-272 | one iteration appends the triple of position i exactly when that file is misplaced |
| Planner.PlanPositions | rename_images_watcher/rename_images_watcher.py:252-261 | the plan lists, in increasing order, exactly the positions whose file differs from `<prefix>_<i+1:02d><ext>`, each with its own triple |
| Planner.PlanMembership | rename_images_watcher/rename_images_watcher.py:252-261 | the triple of position i is planned if and only if the file's name differs from its target |
| Planner.PlanEmptyIffAllInPlace | rename_images_watcher/rename_images_watcher.py:263-265 | the plan is empty if and only if every file already has its target name |
| Planner.PlanNamesDistinct | rename_images_watcher/rename_images_watcher.py:255-259 | final names are pairwise distinct and temporary names are pairwise distinct; with fewer than 1,000,000 image files, no temporary name is a final name |
| Planner.PlanCurrentsDistinct | rename_images_watcher/rename_images_watcher.py:249-261 | distinct listed files give distinct current names in the plan |
| Planner.PlanFinalsCanonical | rename_images_watcher_optimized/rename_images_watcher_CORRECTED.py:265-272 | every planned final name passes the variant's own `is_already_renamed` test |
| FileSystem.RenamedMoves | rename_images_watcher/rename_images_watcher.py:274 | a rename moves the source's record to the destination and leaves every other file as it was |
| FileSystem.Directory.Rename | rename_images_watcher/rename_images_watcher.py:274 | the rename succeeds exactly when the source exists, is not locked and no file has the destination's exact name; on success the directory is `Renamed`, otherwise it is unchanged |
| Apply.ApplyAbortOnError | rename_images_watcher/rename_images_watcher.py:267-292 | the two renaming loops of the original variant leave the directory, `temp_files`, the success flag and the count given by `AbortPass` |
| Apply.ToTempsUntilFailure | rename_images_watcher/rename_images_watcher.py:270-274 | phase 1 adds each temporary name to `temp_files` before its rename, and stops at the first failure |
| Apply.ToFinalsUntilFailure | rename_images_watcher/rename_images_watcher.py:277-292 | phase 2 discards each temporary name after its final rename, and stops at the first failure |
| Apply.ApplyPerEntry | rename_images_watcher_optimized/rename_images_watcher_CORRECTED.py:280-314 | the two renaming loops of the corrected variant leave what `PerEntryPass` describes |
| Apply.ToTempsEach | rename_images_watcher_optimized/rename_images_watcher_CORRECTED.py:280-292 | phase 1 registers every temporary name before trying its rename, tries every entry, and collects the entries that moved (`successful_phase1`) |
| Apply.ToFinalsEach | rename_images_watcher_optimized/rename_images_watcher_CORRECTED.py:294-314 | phase 2 skips an entry whose temporary file is gone, discards a temporary name only once its final rename succeeded, and counts the successes |
| Apply.PassTempsBound | rename_images_watcher_optimized/rename_images_watcher_CORRECTED.py:283-314 | neither pass registers a temporary name that is not one of the plan's |
| Apply.AbortOutcome | rename_images_watcher/rename_images_watcher.py:270-292 | with no locked planned file, the pass completes; every planned file ends at its final name; every other file is untouched; `temp_files` loses exactly the plan's temporary names, including any it held before the pass; the count is the plan's length |
| Apply.PerEntryOutcome | rename_images_watcher_optimized/rename_images_watcher_CORRECTED.py:280-314 | every movable entry ends at its final name and every other file keeps its name and record; the temporary names of the entries that could not move stay registered; the count is the number that moved |
| Apply.VariantsAgreeWithoutLocks | rename_images_watcher_optimized/rename_images_watcher_CORRECTED.py:280-314 | with no lock, both variants leave the same directory and the same `temp_files` |
| Apply.AbortHaltsAtFirstLock | rename_images_watcher/rename_images_watcher.py:270-297 | under the phase-1 conditions only (the locked file may hold another entry's final name), a locked planned file ends the pass at its phase-1 rename. The files before it stay under their temporary names, which stay registered; it and every later file keep their names; nothing reaches a final name |
| Apply.LockedEntryStays | rename_images_watcher_optimized/rename_images_watcher_CORRECTED.py:283-314 | under the phase-1 conditions only, in the corrected pass a locked planned file keeps its name and record, and its temporary name stays in `temp_files` though no file holds it |
| Apply.BlockedEntryStaysTemp | rename_images_watcher_optimized/rename_images_watcher_CORRECTED.py:294-314 | in the corrected pass an unlocked entry whose final name is held by a locked file stays under its temporary name, which stays in `temp_files`, and the locked file keeps its name and record |
| Apply.LockOnFinalFitsPhaseOne | rename_images_watcher/rename_images_watcher.py:252-274 | an older `a.png` and a locked `H_01.png` give a plan that meets the phase-1 conditions but not those of a complete pass |
| Apply.AbortKeepsTempsRegistered | rename_images_watcher/rename_images_watcher.py:270-297 | every temporary name the abort-on-error pass filled is still in `temp_files` when the pass ends |
| Apply.PerEntryKeepsTempsRegistered | rename_images_watcher_optimized/rename_images_watcher_CORRECTED.py:294-314 | every temporary name still holding a file after the corrected pass is still in `temp_files` |
| Resolver.GetRealImageFiles | rename_images_watcher_optimized/rename_images_watcher_CORRECTED.py:32-77 | an unlistable directory yields `[]`; otherwise the result is `RealImages` of the listing: the entries that pass every check, in listing order, up to the first entry whose `is_file()` raises |
| Resolver.RealImagesMembership | rename_images_watcher_optimized/rename_images_watcher_CORRECTED.py:42-75 | a name is returned if and only if a listed entry of that name is a regular file with an image suffix, exists, has a positive size and yields one byte, and no entry listed before it made `is_file()` raise |
| Resolver.StopsAtRaise | rename_images_watcher_optimized/rename_images_watcher_CORRECTED.py:43-77 | an `is_file()` that raises ends the enumeration: the names collected before that entry are the whole result |
| Resolver.RealImagesAppend | rename_images_watcher_optimized/rename_images_watcher_CORRECTED.py:42-77 | the filter keeps listing order: filtering a listing in two halves gives the two results one after the other, unless an `is_file()` in the first half raised, in which case the second half adds nothing |
| Resolver.UnreadableSkipped | rename_images_watcher_optimized/rename_images_watcher_CORRECTED.py:65-75 | an entry that stats but fails the one-byte read is not returned |
| Resolver.RealImagesAreImages | rename_images_watcher_optimized/rename_images_watcher_CORRECTED.py:48-50 | every returned name has an image extension |
| Reconcile.AbortReorganizeSucceeds | rename_images_watcher/rename_images_watcher.py:232-297 | over a listing that fits, the original/PNG-only pass completes. Every planned file ends at its final name with its own record, other files are untouched, `temp_files` loses only the plan's temporary names, and the count is the plan's length |
| Reconcile.PerEntryReorganizeSucceeds | rename_images_watcher_optimized/rename_images_watcher_CORRECTED.py:241-334 | the same outcome for the corrected pass over the resolver's listing |
| Reconcile.ListingCaseSafe | rename_images_watcher/rename_images_watcher.py:270-292 | over a listing that fits, no temporary name is a case variant of a file, of another temporary name or of a final name; no two final names are case variants; a file that is a case variant of a final name is itself planned to move. So a rename that also refuses a destination held by a case variant refuses nothing more in either phase |
| Reconcile.PlacedAtTarget | rename_images_watcher/rename_images_watcher.py:252-292 | after a complete pass, the file at position i in creation order carries the i-th target name and its own record |
| Reconcile.InPlaceKept | rename_images_watcher/rename_images_watcher.py:258 | a file already at its target name is not moved |
| Reconcile.NoFileLost | rename_images_watcher/rename_images_watcher.py:270-292 | a complete pass loses no file |
| Reconcile.TargetsInPlace | rename_images_watcher/rename_images_watcher.py:263-265 | files that already carry their target names produce an empty plan |
| Reconcile.ReplanAfterPlacement | rename_images_watcher/rename_images_watcher.py:263-265 | after a complete pass over files with distinct creation times, any listing of the placed names plans nothing |
| Reconcile.AbortReorganizeIdempotent | rename_images_watcher_optimized/rename_images_watcher_optimized.py:182-227 | a second original/PNG-only pass over the placed files changes nothing |
| Reconcile.PerEntryReorganizeIdempotent | rename_images_watcher_optimized/rename_images_watcher_CORRECTED.py:241-334 | a second corrected pass over the placed files changes nothing |
| Reconcile.OrderedStrict | rename_images_watcher/rename_images_watcher.py:245-246 | with distinct creation times, the ordered listing is strictly increasing |
| Reconcile.PlacedCtimes | rename_images_watcher/rename_images_watcher.py:270-292 | after a complete pass, the target names in order hold files with the creation times of the ordered listing |
| Reconcile.Reordered | rename_images_watcher/rename_images_watcher.py:245-246 | names whose files have strictly increasing creation times sort back into that order, whatever order they are listed in |
| Reconcile.PlansOnlyListed | rename_images_watcher/rename_images_watcher.py:236-261 | every planned file is one of the listed names |
| Reconcile.UnreadableNeverPlanned | rename_images_watcher_optimized/rename_images_watcher_CORRECTED.py:65-75 | an entry that stats but fails the one-byte read never reaches a rename plan |
| Reconcile.TiesCanReorder | rename_images_watcher/rename_images_watcher.py:245-246 | two canonical files with equal creation times, listed in reverse, are planned to swap numbers |
| Reconcile.OrderedPair | rename_images_watcher/rename_images_watcher.py:245-246 | two files listed in creation-time order keep that order |
| Reconcile.DoubleListingStrandsFile | rename_images_watcher/rename_images_watcher.py:236-239 | a file listed twice by the two case-variant globs is planned twice. It is left under its temporary name, which stays registered, and the pass reports failure |
| Startup.CountNewZero | rename_images_watcher/rename_images_watcher.py:213-216 | no file is counted if and only if every listed name is canonical |
| Startup.CountNewWitness | rename_images_watcher/rename_images_watcher.py:213-216 | a positive count has a listed name out of canonical form behind it |
| Startup.GlobCheckSkipsCanonical | rename_images_watcher_optimized/rename_images_watcher_optimized.py:163-180 | when every listed image is canonical, the glob variants return 0 and do not reorganise |
| Startup.GlobCheckRunsPass | rename_images_watcher/rename_images_watcher.py:200-230 | when some listed image is not canonical, the glob variants run the pass and report a positive count |
| Startup.GlobCheckKeepsGap | rename_images_watcher_optimized/rename_images_watcher_optimized.py:163-180 | `<prefix>_01.png` and `<prefix>_03.png` are left as they are at start-up, although a pass would renumber the second |
| Startup.CanonicalPairKept | rename_images_watcher/rename_images_watcher.py:200-230 | any two canonical files in creation order, the second not numbered 02, are left as they are at start-up although a pass would plan the second |
| Startup.ResolvedCheckRunsPass | rename_images_watcher_optimized/rename_images_watcher_CORRECTED.py:211-239 | the corrected check reorganises whenever there is a real image, and reports the number of names not in canonical form |
| Startup.ResolvedCheckNumbersContinuously | rename_images_watcher_optimized/rename_images_watcher_CORRECTED.py:211-239 | after the corrected check over a listing that fits, the file at position i in creation order carries the i-th target name |
| Startup.ResolvedCheckClosesGap | rename_images_watcher_optimized/rename_images_watcher_CORRECTED.py:211-239 | the corrected check renumbers `<prefix>_03.png` to `<prefix>_02.png` in the same directory |
| Stability.WaitFileStable | rename_images_watcher/rename_images_watcher.py:147-189 | the polling loop returns exactly `Verdict` of the polls and the final size |
| Stability.VerdictCharacterized | rename_images_watcher/rename_images_watcher.py:147-189 | the probe accepts if and only if either (a) three consecutive polls report the same positive size before any failing poll, or (b) no poll fails and the size read after the timeout is positive |
| Stability.FailureBeforeSettlingRejects | rename_images_watcher_optimized/rename_images_watcher_CORRECTED.py:168-205 | a missing file or a stat error before the size has settled makes the probe return false |
| Gate.Cleanup | rename_images_watcher_optimized/rename_images_watcher_optimized.py:115-118 | the cache keeps exactly the entries newer than now minus five delays, with their timestamps |
| Gate.AcceptanceWindow | rename_images_watcher/rename_images_watcher.py:70-81 | after path is accepted at t, its next event passes if and only if the 1500 ms delay has passed; every other path's decision is unchanged |
| Gate.CleanupKeepsDecisions | rename_images_watcher/rename_images_watcher.py:137-145 | eviction never changes a later debounce decision |
| Gate.TempEventsIgnored | rename_images_watcher_optimized/rename_images_watcher_CORRECTED.py:79-103 | no handler of any variant passes an event for a `TEMP_` name |
| Gate.TempSetRedundant | rename_images_watcher/rename_images_watcher.py:31-68 | while `temp_files` holds only `TEMP_` names, consulting it changes no filter decision |
| OriginalWatcher.ImageRenameHandler.constructor | rename_images_watcher/rename_images_watcher.py:23-29 | a fresh handler is idle with an empty cache and no temporary names |
| OriginalWatcher.ImageRenameHandler.OnCreated | rename_images_watcher/rename_images_watcher.py:31-41 | the event is accepted if and only if it passes the extension, `TEMP_` and `temp_files` filters and the debounce; only that path's cache entry changes |
| OriginalWatcher.ImageRenameHandler.OnModified | rename_images_watcher/rename_images_watcher.py:43-56 | the same as `on_created`, and events for canonical names are dropped |
| OriginalWatcher.ImageRenameHandler.OnMoved | rename_images_watcher/rename_images_watcher.py:58-68 | the destination is filtered on extension and `TEMP_` only, then debounced |
| OriginalWatcher.ImageRenameHandler.DebouncedProcess | rename_images_watcher/rename_images_watcher.py:70-86 | an event within 1500 ms of the path's last accepted one is dropped with the cache unchanged; otherwise only that path's entry becomes now |
| OriginalWatcher.ImageRenameHandler.CleanupEventCache | rename_images_watcher/rename_images_watcher.py:137-145 | the cache becomes `Cleanup` of the old cache |
| OriginalWatcher.ImageRenameHandler.ProcessNewFile | rename_images_watcher/rename_images_watcher.py:88-135 | a vanished or canonical file, or a pass already under way, leaves everything as it was. Otherwise the flag is raised, and an unstable file or a completed pass leaves it lowered; only a stable file gets the pass and the cache cleanup |
| OriginalWatcher.ImageRenameHandler.CheckExistingFiles | rename_images_watcher/rename_images_watcher.py:200-230 | the state and the count are `GlobCheck`'s |
| OriginalWatcher.ImageRenameHandler.ReorganizeAllFiles | rename_images_watcher/rename_images_watcher.py:232-297 | the directory and `temp_files` become `AbortReorganize`'s, and `temp_files` keeps only `TEMP_` names |
| OriginalWatcher.NewFiles | rename_images_watcher/rename_images_watcher.py:213-216 | the loop collects only listed names out of canonical form, as many as `CountNew` counts |
| CorrectedWatcher.ImageRenameHandler.constructor | rename_images_watcher_optimized/rename_images_watcher_CORRECTED.py:24-30 | a fresh handler is idle with an empty cache and no temporary names |
| CorrectedWatcher.ImageRenameHandler.HandleFileEvent | rename_images_watcher_optimized/rename_images_watcher_CORRECTED.py:79-91 | the event is accepted if and only if `_should_process_file` passes and the debounce admits it |
| CorrectedWatcher.ImageRenameHandler.OnCreated | rename_images_watcher_optimized/rename_images_watcher_CORRECTED.py:93-95 | a file event goes to `_handle_file_event` with its source path |
| CorrectedWatcher.ImageRenameHandler.OnModified | rename_images_watcher_optimized/rename_images_watcher_CORRECTED.py:97-99 | the same, except that canonical names are dropped |
| CorrectedWatcher.ImageRenameHandler.OnMoved | rename_images_watcher_optimized/rename_images_watcher_CORRECTED.py:101-103 | a file event goes to `_handle_file_event` with its destination path |
| CorrectedWatcher.ImageRenameHandler.DebouncedProcess | rename_images_watcher_optimized/rename_images_watcher_CORRECTED.py:105-118 | an event within 1500 ms of the path's last accepted one is dropped; otherwise only that path's entry becomes now |
| CorrectedWatcher.ImageRenameHandler.CleanupCache | rename_images_watcher_optimized/rename_images_watcher_CORRECTED.py:163-166 | the cache becomes `Cleanup` of the old cache |
| CorrectedWatcher.ImageRenameHandler.ProcessNewFile | rename_images_watcher_optimized/rename_images_watcher_CORRECTED.py:120-161 | the same flag discipline as the original, with the corrected pass |
| CorrectedWatcher.ImageRenameHandler.CheckExistingFiles | rename_images_watcher_optimized/rename_images_watcher_CORRECTED.py:211-239 | the state and the count are `ResolvedCheck`'s |
| CorrectedWatcher.ImageRenameHandler.ReorganizeAllFiles | rename_images_watcher_optimized/rename_images_watcher_CORRECTED.py:241-334 | the directory and `temp_files` become `PerEntryReorganize`'s |
| CorrectedWatcher.ImageRenameHandler.ReorganizeFound | rename_images_watcher_optimized/rename_images_watcher_CORRECTED.py:249-334 | once the resolver has returned, the directory and `temp_files` become `PerEntryReorganizeOver`'s for the returned names: unchanged for an empty list or a vanished file, otherwise the per-entry pass over the plan |
| PngWatcher.PNGRenameHandler.constructor | rename_images_watcher_optimized/rename_images_watcher_optimized.py:24-30 | a fresh handler is idle with an empty cache and no temporary names |
| PngWatcher.PNGRenameHandler.HandleFileEvent | rename_images_watcher_optimized/rename_images_watcher_optimized.py:32-43 | the event is accepted if and only if its lower-cased name ends in `.png`, it is neither `TEMP_` nor registered, and the debounce admits it |
| PngWatcher.PNGRenameHandler.OnCreated | rename_images_watcher_optimized/rename_images_watcher_optimized.py:45-47 | a file event goes to `_handle_file_event` with its source path |
| PngWatcher.PNGRenameHandler.OnModified | rename_images_watcher_optimized/rename_images_watcher_optimized.py:49-51 | the same, except that names passing the case-sensitive canonical test are dropped |
| PngWatcher.PNGRenameHandler.OnMoved | rename_images_watcher_optimized/rename_images_watcher_optimized.py:53-55 | a file event goes to `_handle_file_event` with its destination path |
| PngWatcher.PNGRenameHandler.DebouncedProcess | rename_images_watcher_optimized/rename_images_watcher_optimized.py:57-70 | an event within 1500 ms of the path's last accepted one is dropped; otherwise only that path's entry becomes now |
| PngWatcher.PNGRenameHandler.CleanupCache | rename_images_watcher_optimized/rename_images_watcher_optimized.py:115-118 | the cache becomes `Cleanup` of the old cache |
| PngWatcher.PNGRenameHandler.ProcessNewFile | rename_images_watcher_optimized/rename_images_watcher_optimized.py:72-113 | a trigger for a canonical name returns before any pass; a trigger while `processing` is set does nothing; the flag is lowered after every pass or stability failure |
| PngWatcher.PNGRenameHandler.CheckExistingFiles | rename_images_watcher_optimized/rename_images_watcher_optimized.py:163-180 | the state and the count are `GlobCheck`'s with the `.png` policy |
| PngWatcher.PNGRenameHandler.ReorganizeAllFiles | rename_images_watcher_optimized/rename_images_watcher_optimized.py:182-227 | the directory and `temp_files` become `AbortReorganize`'s with every target ending in `.png` |
| Config.ConfigManager.SavePrefix | rename_images_watcher_optimized/rename_images_watcher_CORRECTED.py:390-401 | the record under `f"{name}_{path}"` (or `path`) is replaced, and a new key goes last; reading the prefix back gives the saved one |
| Config.ConfigManager.LoadSavedPaths | rename_images_watcher/rename_images_watcher.py:300-311 | the loop returns `get_paths`'s map |
| Config.SaveThenGet | rename_images_watcher_optimized/rename_images_watcher_CORRECTED.py:381-401 | `save_prefix` followed by `get_prefix` for the same folder returns the saved prefix |
| Config.SaveKeepsOthers | rename_images_watcher/rename_images_watcher.py:351-374 | saving leaves the answer for every folder with a different key unchanged |
| Config.MissingKeyFallsBack | rename_images_watcher_optimized/rename_images_watcher_CORRECTED.py:381-388 | a folder with no record gets its name, or `"Horizon"` when it has none |
| Config.KeyCollides | rename_images_watcher_optimized/rename_images_watcher_CORRECTED.py:384 | the key is not injective: name `a` at path `b_c` and name `a_b` at path `c` share a key, and so do the unnamed folder `a_b` and name `a` at path `b` |
| Config.SaveOverwritesNeighbour | rename_images_watcher_optimized/rename_images_watcher_CORRECTED.py:390-401 | so saving a prefix for one folder changes the prefix read for another |
| Config.PathsOfLast | rename_images_watcher_optimized/rename_images_watcher_CORRECTED.py:374-379 | `get_paths` lists a name exactly when some record with a non-empty name and path lists it, and maps it to the path of the last such record |
| TempNames.PlanTempsAreTemp | rename_images_watcher/rename_images_watcher.py:256 | every temporary name of a plan starts with `TEMP_` |
| TempNames.AbortReorganizeKeepsTempNames | rename_images_watcher/rename_images_watcher.py:270-292 | the original/PNG-only pass keeps `temp_files` made of `TEMP_` names |
| TempNames.PerEntryReorganizeKeepsTempNames | rename_images_watcher_optimized/rename_images_watcher_CORRECTED.py:280-314 | the corrected pass keeps `temp_files` made of `TEMP_` names |

## Left out

- Threads, the watchdog `Observer` and the lock. The handlers are modelled sequentially. A trigger that finds `processing` set returns `Busy`, the way a second thread returns when it finds the flag raised.
- Clocks and sleeping. Times are integer milliseconds passed in. The stability probe takes the sequence of size polls made before the timeout, plus the size read after it, in place of the clock.
- The one-second retry in `process_new_file` when the file is not there yet. `ProcessNewFile` takes the directory as it is once the retry is over.
- Real filesystem calls. `glob`, `os.listdir`, `stat`, `open`/`read`, `getctime` and `rename` are replaced by a name-to-record map, a glob result, and modelled listing entries. An exception raised by `getctime` on a vanished file is modelled as the pass doing nothing.
- `rename` replacing an existing destination, as POSIX allows. The model uses the Windows behaviour: an occupied destination makes the rename fail.
- FileSystem.Directory.Rename: names are compared with case, so a destination held only by a case variant (`temp_01_Horizon.png` against `TEMP_01_Horizon.png`) counts as free, whereas a case-insensitive volume such as the Windows default refuses it. `ListingFits` therefore excludes directories where this could arise (no name beginning `temp_` in any case, every case variant of a canonical name listed), and `Reconcile.ListingCaseSafe` proves that the plan of such a listing never meets a case variant, so the success lemmas hold on either kind of volume. Passes over other directories are modelled with case-sensitive names only.
- The regular-expression engine. `is_already_renamed` is an explicit string predicate, with the prefix compared as literal text, so a prefix containing regular-expression metacharacters is not modelled. `\d` is modelled as the ASCII digits `0`-`9` only; Python's `\d` on text also matches other Unicode decimal digits (Arabic-Indic, full-width and so on), which the model does not recognise. The predicate does model `$` matching before a final newline.
- Full event paths. The folder is watched without recursion, so an event path is modelled by the file name it ends in. The extension tests give the same answer on the path and on the name, because no extension contains a path separator.
- Unicode case folding. Lower-casing is ASCII only.
- Startup.ResolvedCheckClosesGap: proved for prefixes that, followed by `_`, do not begin with `temp_` in any case, the condition under which the gap directory fits.
- JSON reading and writing of the configuration file, and the `sys.frozen` choice of its location. The store is the object the file holds.
- The console menu, `main`, every `print`, the datetime formatting of creation times, and the corrected variant's final-verification printout, which only reports.
- Config.ConfigManager.LoadSavedPaths: only the original's loop is modelled as a method; the comprehension in `get_paths` of the other variants is `PathsOf`, with its meaning stated by `PathsOfLast`.
- Reconcile.ReplanAfterPlacement: idempotence is proved for files with pairwise distinct creation times only. With ties, a second listing in another order can renumber files (`TiesCanReorder`).
- Reconcile.AbortReorganizeSucceeds, Reconcile.PerEntryReorganizeSucceeds: proved for listings that fit. These have distinct names, all present and unlocked, image extensions on names that are more than a bare extension (a hidden file named only `.png` gets a target without extension), fewer than 1,000,000 files, no file in the directory whose name begins with `temp_` in any case, and every file listed whose name is canonical with or without case. A file outside the listing that holds a final or temporary name makes a rename fail; `AbortHaltsAtFirstLock`, `LockedEntryStays` and `BlockedEntryStaysTemp` describe what a failing rename does.
