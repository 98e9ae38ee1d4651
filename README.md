# cs2star in Dafny

This project models the part of cs2star that decides which cryoSPARC metadata files a
conversion to RELION reads. cs2star turns a cryoSPARC job directory into a RELION-ready directory.

- **The job-lineage resolver** (`cs2star/job_parser.py`: `update_dict` and
  `find_cs_files`). It reads a job's `job.json` and collects metadata files into a four-slot
  index: {particles, micrographs} × {cs, passthrough}. What it collects depends on the job
  type: heterogeneous refinement, particle sets with an optional split filter, or any other
  type. Next it drops files that do not exist. Then it walks the parent jobs in order,
  filling only the slots that are still empty, and stops once all four slots are filled.
  The model is imperative like the source: a `Files` class whose slot map is updated in
  place, and methods with loops for the per-output collection, the collapse, the
  existence filter and the parent walk. The methods are proved equal to ghost
  specification functions (`Collect`, `Resolve`, `Walk`, `Trace`). Module
  `JobParserProperties` proves what the source promises about those functions.
- **The packaged command** (`src/cs2star/cs2star.py`). It sorts the four resolved slots
  and stops when there is no particle file. It reconciles the passthrough counts with the
  primary counts, pairs the files for loading, and rewrites image paths (`fix_path`).
- **The legacy script** (`cs2star/cs2star.py`). It does a directory scan with a name
  filter, then selects split sets (or trims to the last consolidated file), assigns
  passthrough files and rewrites paths.
- **The first script** (`cs2star.py`). It does a directory scan with a shorter blacklist,
  reads every particle file with all passthrough files, and rewrites the column values.

Model conventions:

- Paths are strings. A metafile of a job is `root + "/" + name`, where `root` is the
  project directory (`job_dir.parent`).
- The file system is a `Project` value. It holds a map from job id to the parsed
  descriptor (an absent key means `job.json` is missing) and the set of paths that exist.
- The order of `sorted` is Python's `str` order, compared code point by code point.
  `pathlib` orders paths part by part. The two orders agree on paths that share their
  directory. The entries of one directory always do. The model assumes that the metafiles
  sorted together in one slot also do; nothing in the code guarantees it.
- The regular expressions `split_(\d+)` and `cryosparc_P\d+_J\d+_\d+_particles.cs` are
  token matchers. `\d+` matches greedily, which gives the same match as backtracking here,
  because every digit run is followed by `_` or by the end of the pattern.
- The parent graph is assumed acyclic. A ghost `rank` that decreases from a job to each
  parent is a precondition (`Ranked`), and it also proves termination.
- The conversion loops that load data are modelled by the list of `LoadRequest`s they
  issue: one per call of the reader, holding the file and the passthrough files given with
  it.

Where the resolver's documented behaviour and its code differ, the model follows the code:

- The recursion into parents passes no split filter (`job_parser.py:84`). The filter does
  not carry up to the parents.
- Only a missing `job.json` gives an empty index (`job_parser.py:37`). An unreadable one
  raises, and that case is left out.
- `metafiles[-1]` on an output with no metafile raises `IndexError`
  (`job_parser.py:49`, `:53`). The model returns `Err(IndexError(..))` and the error
  propagates through the parent walk.
- The generic collapse runs after every output, not once at the end (`job_parser.py:68-70`
  sit inside the output loop). `JobParserProperties.GenericNode` proves that the result is
  the same.

## Model

| member | source | states |
|---|---|---|
| JobParser.Merge | cs2star/job_parser.py:9-13 | an empty slot of `d1` takes `d2`'s slot; a non-empty slot of `d1` is kept unchanged |
| JobParser.UpdateDict | cs2star/job_parser.py:9-13 | updating `d1` in place leaves it equal to `Merge` of the old contents, even when `d1` and `d2` are the same object; `d2` is unchanged when it is another object |
| JobParserProperties.MergeIdempotent | cs2star/job_parser.py:9-13 | merging the same ancestor index twice equals merging it once |
| JobParserProperties.MergeEmptyNeutral | cs2star/job_parser.py:9-13 | merging an all-empty index changes nothing, on either side |
| JobParserProperties.MergeAssociative | cs2star/job_parser.py:9-13 | merging parents one after another equals merging the merge of the parents |
| JobParser.Files.constructor | cs2star/job_parser.py:23-32 | a fresh index has all four slots empty |
| JobParser.Files.Full | cs2star/job_parser.py:85 | holds iff all four slots are non-empty |
| JobParser.FullMeansEverySlot | cs2star/job_parser.py:85 | a full index has no empty slot, for every slot |
| JobParser.Files.Add | cs2star/job_parser.py:66 | adds one path to one slot; the other slots are unchanged |
| JobParser.Files.CollapseSlots | cs2star/job_parser.py:68-70 | every slot becomes the set of its greatest path (empty stays empty) |
| JobParser.KeepExisting | cs2star/job_parser.py:72-81 | every slot keeps exactly its paths that exist |
| JobParser.Files.RemoveMissingFrom | cs2star/job_parser.py:74-81 | one slot loses its non-existing paths; the other slots are unchanged |
| JobParser.Files.RemoveMissing | cs2star/job_parser.py:72-81 | the index becomes `KeepExisting` of the old index |
| JobParser.CollectOutput | cs2star/job_parser.py:42-70 | one output changes the index as its job type's policy says, or fails with `IndexError` on an empty metafile list |
| JobParser.CollectOne | cs2star/job_parser.py:43-66 | one output under the job type's policy: the last metafile for the hetero-refine and particle-sets rules, the non-blacklisted candidates for the generic loop, `IndexError` when a taken output has no metafile; its properties are stated by `JobParserProperties.LastFileStep` and `JobParserProperties.AddMetafilesAdds` |
| JobParser.Collect | cs2star/job_parser.py:42-70 | the output loop over the whole list, stopping at the first error; stated by `JobParserProperties.LastFilePolicies`, `JobParserProperties.GenericNode` and `JobParser.CollectErrorPersists`, and `JobParser.CollectOutputs` is proved equal to it |
| JobParser.AddGenericMetafiles | cs2star/job_parser.py:56-66 | the generic loop adds every non-blacklisted particles/micrographs metafile to the slot of its category and kind |
| JobParser.CollectOutputs | cs2star/job_parser.py:42-70 | the output loop leaves the node-local index `Collect` defines, or the first error |
| JobParser.CollectErrorPersists | cs2star/job_parser.py:42-53 | once an output raises, the whole collection fails with that error |
| JobParser.FindCsFiles | cs2star/job_parser.py:16-89 | the returned index (or error) is `Resolve` of the job, and the descriptors opened are exactly `Trace` |
| JobParser.Resolve | cs2star/job_parser.py:16-89 | the resolved index of a job: empty when `job.json` is missing, an error raised by the node's own outputs; otherwise the node's own existing files merged with the walk over its parents, which are resolved without the set filter; `JobParser.FindCsFiles` is proved equal to it, and `JobParserProperties.ResolvedPathsExist` and `JobParserProperties.DescendantPrecedence` state its properties |
| JobParser.Trace | cs2star/job_parser.py:34-36 | the descriptors `find_cs_files` opens, in order: the job itself, then the trace of every parent the walk resolves; `JobParser.FindCsFiles` returns it as its ghost trace, and `JobParserProperties.MissingDescriptor` and `JobParserProperties.SetsOnlyReachParticleSets` state its properties |
| JobParser.WalkParents | cs2star/job_parser.py:83-87 | the parent loop leaves `Walk` of the parents in the index, opening the descriptors `WalkTrace` lists |
| JobParser.Walk | cs2star/job_parser.py:83-87 | the parents in declared order, each merged into the index, stopping after the first merge that fills every slot or at the first error; stated by `JobParser.WalkStepFails`, `JobParser.WalkStepMerges` and `JobParserProperties.WalkStopsAtFirstFull` |
| JobParser.WalkTrace | cs2star/job_parser.py:83-87 | the descriptors the parent walk opens, parent by parent, up to where the walk stops; stated by `JobParserProperties.WalkTraceStartsWithFirst` and `JobParserProperties.FirstParentCompletes` |
| JobParser.WalkStepFails | cs2star/job_parser.py:83-87 | an error from the first parent is the walk's error, and no later parent is opened |
| JobParser.WalkStepMerges | cs2star/job_parser.py:83-87 | after merging the first parent the walk stops when the index is full, else continues with the rest |
| JobParserProperties.MissingDescriptor | cs2star/job_parser.py:34-39 | a missing `job.json` gives four empty slots, and no other descriptor is opened |
| JobParserProperties.LastFilePolicies | cs2star/job_parser.py:46-53 | under either last-metafile policy: an error iff a taken output has no metafile; otherwise each particle slot holds exactly the last metafiles of the taken outputs of its kind, and micrographs stay empty |
| JobParserProperties.LastFileStep | cs2star/job_parser.py:46-53 | one output adds its last metafile to its particle slot iff the policy takes it, and raises iff it is taken with no metafile |
| JobParserProperties.HeteroRefineNode | cs2star/job_parser.py:46-49 | particles/cs holds the last metafile of each non-passthrough `particles_class_` output; particles/passthrough holds that of the passthrough `particles_all_classes` output; no micrographs |
| JobParserProperties.ParticleSetsNode | cs2star/job_parser.py:50-53 | a path is collected iff it is the last metafile of an output with a `split_<n>` group whose `n` the filter admits (all without a filter), in the slot of its passthrough flag; only the selected outputs need a metafile, as only they are indexed `[-1]` |
| JobParserProperties.SubsetFilterScenario | cs2star/job_parser.py:50-53 | splits 0, 1 and 2 with filter {0, 2} collect the files of splits 0 and 2 only |
| JobParserProperties.AddMetafilesAdds | cs2star/job_parser.py:56-66 | the generic loop over one output adds exactly that output's candidates to each slot |
| JobParserProperties.GenericNode | cs2star/job_parser.py:54-70 | the generic policy never fails, and each slot ends as the greatest of all its candidates over all outputs |
| JobParserProperties.GenericNodeSelection | cs2star/job_parser.py:56-70 | at most one path per slot, the greatest candidate; a blacklisted metafile is never collected; a name with "particles" never lands in a micrographs slot; a slot with a candidate is not empty |
| JobParserProperties.ResolvedPathsExist | cs2star/job_parser.py:72-87 | every path the resolver returns, from the job or any ancestor, exists |
| JobParserProperties.WalkedPathsExist | cs2star/job_parser.py:83-87 | the parent walk only adds existing paths |
| JobParserProperties.WalkKeepsFilledSlot | cs2star/job_parser.py:83-87 | a slot filled before the walk is unchanged by it |
| JobParserProperties.DescendantPrecedence | cs2star/job_parser.py:72-87 | a slot the job fills itself, after the existence filter, is the resolved slot, whatever the ancestors hold |
| JobParserProperties.WalkStopsAtFirstFull | cs2star/job_parser.py:83-87 | the walk resolves a prefix of the parents in declared order: always the first parent, then the next one only while a slot is still empty and no error occurred |
| JobParserProperties.FirstParentCompletes | cs2star/job_parser.py:83-87 | when the first parent completes the index, no later parent's descriptor is opened and the result is full |
| JobParserProperties.WalkTraceStartsWithFirst | cs2star/job_parser.py:83-84 | the walk opens the first parent's descriptors before any other |
| JobParserProperties.FirstParentAlwaysResolved | cs2star/job_parser.py:83-87 | the first parent is resolved even when the job fills every slot by itself |
| JobParserProperties.CollectIgnoresSets | cs2star/job_parser.py:46-66 | only the particle-sets policy reads the split filter |
| JobParserProperties.SetsOnlyReachParticleSets | cs2star/job_parser.py:83-87 | for a job that is not a particle-sets job the filter changes neither the result nor the descriptors opened, since parents are resolved without it |
| Sorting.Collapse | cs2star/job_parser.py:70 | `set(sorted(s)[-1:])` is empty iff `s` is, has at most one path, and holds the greatest path |
| Sorting.KeepLast | cs2star/job_parser.py:70 | sorting and keeping the last element gives `Collapse` |
| Sorting.CollapseAbsorbs | cs2star/job_parser.py:56-70 | collapsing, adding more candidates and collapsing again equals collapsing once over all of them |
| Sorting.CollapseIdempotent | cs2star/job_parser.py:68-70 | collapsing twice equals collapsing once |
| Sorting.MaxExists | cs2star/job_parser.py:70 | every non-empty set of paths has a greatest path |
| Sorting.LastIsMax | cs2star/job_parser.py:70 | the last element of a sorted listing is the greatest element |
| Strings.LexLessIrreflexive | cs2star/job_parser.py:70 | no string is less than itself in `str` order |
| Strings.LexLessTransitive | cs2star/job_parser.py:70 | `str` order is transitive |
| Strings.LexLessTotal | cs2star/job_parser.py:70 | of two different strings one is less than the other |
| Patterns.DigitRun | cs2star/job_parser.py:51 | `\d+` takes the maximal run of digits |
| Patterns.SearchFrom | cs2star/job_parser.py:51 | a match `re.search` reports is a match of the pattern at the reported start |
| Patterns.SearchFromLeftmost | cs2star/job_parser.py:51 | the reported match is the leftmost one, and there is none iff no position matches |
| Patterns.SplitIdFound | cs2star/job_parser.py:51-52 | a split id exists iff `split_<digits>` occurs in the name |
| Patterns.SplitId | cs2star/job_parser.py:51-52 | the number of the leftmost `split_<digits>` in a name, or none; stated by `Patterns.SplitIdFound` and `Patterns.SplitIdOfLabel` (also used for cs2star/cs2star.py:106) |
| Patterns.DecimalRoundTrip | cs2star/job_parser.py:52 | `int` of the decimal digits of `n` is `n` |
| Patterns.SplitIdOfLabel | cs2star/job_parser.py:51-52 | the split id of `split_<n>` is `n` |
| Sorting.Sort | cs2star/cs2star.py:93-94 | `list.sort()` leaves a sorted permutation |
| Sorting.SortedUnique | cs2star/cs2star.py:93-94 | two sorted lists with the same elements are equal, so the sort result is determined |
| Sorting.SortedOf | src/cs2star/cs2star.py:123-130 | `sorted` of a set is strictly increasing and has exactly its elements |
| Sorting.ListingUnique | src/cs2star/cs2star.py:123-130 | a set has only one strictly increasing listing |
| ResolverFrontEnd.ListResolved | src/cs2star/cs2star.py:123-130 | stops with `NoUsableParticles` iff particles/cs is empty; otherwise the four lists are the sorted slots |
| ResolverFrontEnd.Reconcile | src/cs2star/cs2star.py:175-197 | `ValueError` iff the counts differ with two or more passthroughs; otherwise the result is empty or as long as the primary list, uses only given passthroughs, and is unchanged when the counts agree |
| ResolverFrontEnd.SinglePassthroughShared | src/cs2star/cs2star.py:178-179 | a single passthrough is repeated for every primary file |
| Loading.Zip | src/cs2star/cs2star.py:206-207 | `zip` pairs position by position up to the shorter list |
| Loading.Repeat | src/cs2star/cs2star.py:179 | `[x] * n` has `n` copies of `x` |
| ResolverFrontEnd.LoadsAsWritten | src/cs2star/cs2star.py:206-213 | the loop reads file `i` with passthrough `i`, only up to the shorter list |
| ResolverFrontEnd.Loads | src/cs2star/cs2star.py:206-213 | every file is read once, in order, with its passthrough when there is one |
| ResolverFrontEnd.LoadsAgreeWithPassthroughs | src/cs2star/cs2star.py:175-213 | with at least one passthrough, the loop as written reads every file with its own passthrough |
| ResolverFrontEnd.NoPassthroughLoadsNothing | src/cs2star/cs2star.py:175-207 | with no passthrough, the loop as written reads no file although there are files |
| ResolverFrontEnd.PlanConversion | src/cs2star/cs2star.py:118-207 | a resolver error ends the command with that error; otherwise the checks come in source order (no particles, particle counts, micrograph counts), followed by the sorted lists and the loads of the intended loading loop (`ResolverFrontEnd.Loads`, second Findings row), not the `zip` loop at 206-207 |
| ResolverFrontEnd.FixPathParts | src/cs2star/cs2star.py:297-302 | the rewritten path is the new parent, then the grandparent directory's name, then the file name (each when present); `add_s` appends "s" |
| ResolverFrontEnd.FixPathOfJobFile | src/cs2star/cs2star.py:297-302 | `<job>/<dir>/<file>` becomes `<new parent>/<job>/<file>` |
| ResolverFrontEnd.FixPath | src/cs2star/cs2star.py:297-302 | `fix_path`: the new parent, the grandparent directory's name and the file name, then "s" when `add_s`; stated by `ResolverFrontEnd.FixPathParts` and `ResolverFrontEnd.FixPathOfJobFile` |
| PathNames.JoinAddsPart | src/cs2star/cs2star.py:300 | `base / name` adds exactly the part `name` (nothing for "") |
| PathNames.SegmentsOfJoin | src/cs2star/cs2star.py:300 | splitting `a + "/" + b` at slashes gives the pieces of `a` followed by those of `b` |
| DirectoryScan.PickedMembers | cs2star/cs2star.py:77-88 | a path is listed for a class iff it is the path of an accepted entry of that class |
| DirectoryScan.ScanPartition | cs2star/cs2star.py:77-88 | every accepted entry lands in exactly one of the two lists; a rejected one in neither |
| DirectoryScan.ScanJobDir | cs2star/cs2star.py:77-94 | each list is a sorted permutation of the accepted entries of its class |
| DirectoryScan.Accepted | cs2star/cs2star.py:79-84 | the entry filter: ends in `.cs`, names particles or a split, and contains no blacklisted word (the script at cs2star.py:43-48 uses the shorter list); stated through `DirectoryScan.PickedMembers` and `DirectoryScan.ScanPartition` |
| DirectoryScan.Picked | cs2star/cs2star.py:77-88 | the paths of the accepted entries of one class, in listing order; `DirectoryScan.PickedMembers` states exactly which paths it holds, and `DirectoryScan.ScanJobDir` returns it sorted |
| LegacyFrontEnd.Scan | cs2star/cs2star.py:77-94 | stops with status 1 iff no particle file is accepted; otherwise the two sorted lists |
| LegacyFrontEnd.WantedPositionsExact | cs2star/cs2star.py:105-109 | the wanted positions are increasing and are exactly the pairs whose split id is in `sets` |
| LegacyFrontEnd.KeepSplitsFails | cs2star/cs2star.py:105-106 | the filter raises iff some zipped particle path has no split id |
| LegacyFrontEnd.KeepSplitsFirstError | cs2star/cs2star.py:105-106 | the error names the first particle path without a split id |
| LegacyFrontEnd.KeepSplitsErrors | cs2star/cs2star.py:105-106 | both together: the filter raises iff some zipped particle path has no split id, and reports the first one |
| LegacyFrontEnd.KeepSplitsKeepsWanted | cs2star/cs2star.py:105-111 | without an error the kept pairs are exactly the wanted pairs, in order, each particle with its own passthrough |
| LegacyFrontEnd.KeepSplitsErrorPersists | cs2star/cs2star.py:105-106 | an error on a prefix of the pairs is the filter's error |
| LegacyFrontEnd.KeepSplits | cs2star/cs2star.py:105-111 | the set filter over the zipped (particle, passthrough) pairs; stated by `LegacyFrontEnd.KeepSplitsErrors`, `LegacyFrontEnd.KeepSplitsKeepsWanted` and `LegacyFrontEnd.KeepSplitsErrorPersists`, and `LegacyFrontEnd.FilterSplits` is proved equal to it |
| LegacyFrontEnd.FilterSplits | cs2star/cs2star.py:103-111 | the loop over the zipped pairs gives the kept pairs, unzipped into the two filtered lists, or the error of the first path without a split id |
| LegacyFrontEnd.SelectParticles | cs2star/cs2star.py:96-113 | one particle file is left alone; a split job with a filter keeps the aligned kept pairs (or raises); otherwise a consolidated file trims the particles to the last one; the split flag is set iff there are several particle files and one mentions `split_` |
| LegacyFrontEnd.ConsolidatedKeepsGreatest | cs2star/cs2star.py:112-113 | the last file of a sorted list is its greatest |
| Patterns.IsConsolidatedName | cs2star/cs2star.py:112 | `re.search('cryosparc_P\d+_J\d+_\d+_particles.cs', name)` finds a match; stated by `Patterns.ConsolidatedNameFound` |
| Patterns.ConsolidatedNameFound | cs2star/cs2star.py:112 | a name counts as a consolidated particle file iff the pattern matches at some position in it |
| LegacyFrontEnd.PassthroughFiles | cs2star/cs2star.py:148-152 | a split job gives particle `i` the list `[passthrough i]`; any other job gives every particle all passthroughs |
| LegacyFrontEnd.Loads | cs2star/cs2star.py:156-161 | the loading loop over `zip(particles, passthrough_files)`; stated by `LegacyFrontEnd.LoadsShape` and `LegacyFrontEnd.FilteredSplitLoads` |
| LegacyFrontEnd.LoadsShape | cs2star/cs2star.py:149-156 | outside split jobs every particle file is read with all passthroughs; in a split job particle `i` is read with passthrough `i` |
| LegacyFrontEnd.FilteredSplitLoads | cs2star/cs2star.py:149-156 | after set filtering every kept particle file is read with the passthrough it was paired with |
| LegacyFrontEnd.FixPathParts | cs2star/cs2star.py:196-201 | the rewritten path ends in "s", and before it come the new parent's parts and the file name |
| LegacyFrontEnd.FixPathOfFile | cs2star/cs2star.py:196-201 | `<dir>/<file>` becomes `<new parent>/<file>s` |
| LegacyFrontEnd.FixPath | cs2star/cs2star.py:196-201 | `fix_path`: the new parent joined with the file name, then "s"; stated by `LegacyFrontEnd.FixPathParts` and `LegacyFrontEnd.FixPathOfFile` |
| ScriptFrontEnd.Loads | cs2star.py:88-95 | every particle file is read, in order, with the whole passthrough list |
| ScriptFrontEnd.LoadsLikeLegacyUnsplit | cs2star.py:88-95 | the script reads files the way the legacy script reads a job that is not split |
| ScriptFrontEnd.ConvertAsWritten | cs2star.py:41-95 | the scan with the shorter blacklist, then the loads, with no stop when there is no particle file |
| ScriptFrontEnd.NoParticleFileGoesOn | cs2star.py:53-54 | for any directory whose scan accepts no particle file (an empty one included), every listing of it gives no read while the intended check fails |
| ScriptFrontEnd.Checked | cs2star.py:53-54 | the intended check fails iff there is no particle file |
| ScriptFrontEnd.Convert | cs2star.py:41-95 | stops with the usage error iff no particle file is accepted; otherwise the listing is the sorted scan with the shorter blacklist and the reads are `ScriptFrontEnd.Loads` of it: every sorted particle file, in order, with the whole sorted passthrough list |
| ScriptFrontEnd.RelocatedPieces | cs2star.py:135-146 | the rewritten value splits into ".", the target directory, and the value's last piece plus "s" |
| ScriptFrontEnd.ColumnRewrites | cs2star.py:135-146 | micrograph names land in `./micrographs/`, patch names in `./patches/`, each keeping its last piece plus "s" |
| ScriptFrontEnd.Relocated | cs2star.py:135-146 | `'./' + dir + '/' + value.split('/')[-1] + 's'`; stated by `ScriptFrontEnd.RelocatedPieces` |
| ScriptFrontEnd.MicrographName | cs2star.py:135 | the micrograph column rewrite into `./micrographs/`; stated by `ScriptFrontEnd.ColumnRewrites` |
| ScriptFrontEnd.PatchName | cs2star.py:146 | the patch column rewrite into `./patches/`; stated by `ScriptFrontEnd.ColumnRewrites` |
| Strings.LastSegment | cs2star.py:135 | `s.split('/')[-1]` has no slash, ends `s`, and follows the last slash |
| PathNames.LastSegmentIsLastPiece | cs2star.py:135 | `LastSegment` is the last piece of the split |
| PathNames.SplitJoinRoundTrip | cs2star.py:135 | joining the pieces of `s.split('/')` with "/" gives `s` back |

## Left out

- ResolverFrontEnd.PlanConversion: plans the loads with the corrected loop `ResolverFrontEnd.Loads` of the second Findings row; the loop as written (`zip`, src/cs2star/cs2star.py:206-207 and 228-229) is `ResolverFrontEnd.LoadsAsWritten`, which reads nothing when there is no passthrough file
- Reading `job.json`: descriptors are given already parsed. A corrupt file makes the
  source raise, and that case is not modelled.
- The warnings the resolver emits do not change any result and are not modelled.
- Listing the job directory (`iterdir`) is given as a sequence of entry names. Whether a
  path exists is given as the project's set of existing paths.
- Converting the split filter from text (`sets.split(",")`, `int(s)`). The filter is given
  as a set of integers, so a non-numeric entry's `ValueError` is not modelled.
- Reading data files (`np.load`), all pyem calls, pandas concatenation and merges, class
  selection, optics fixes, and writing STAR files are left out. These are foreign
  libraries and dataframe numerics. The loops that call them are modelled only by the
  reads they issue.
- `copy_images` (mkdir, copy, symlink, unlink), creating the destination directories, and
  writing the log file are left out as file-system side effects. Dry runs, rich panels,
  progress bars and click argument parsing are left out as user interface.
- The destination-overwrite checks (`src/cs2star/cs2star.py:199-202`,
  `cs2star/cs2star.py:144-145`, `cs2star.py:84-85`) depend on the file system and are left out.
- The second destination check (`src/cs2star/cs2star.py:201`) tests `particles.star` again, not
  `micrographs.star`. It belongs to the destination checks above and is not modelled.
- Choosing the dataframe column to rewrite is left out, and so are its `KeyError` or
  `UsageError` when a column is missing.
- Path normalisation is partial. `Components` drops empty and "." parts and the root.
  It does not resolve `..` and does not make paths absolute. The new parent is taken as
  already in string form.
- `str` order replaces `pathlib`'s part-by-part order (see above).
- `\d` is ASCII digits only. Python also accepts other Unicode decimal digits.
- Cycles in the parent graph: the model requires an acyclic graph (`Ranked`). In the
  source, a walk that reaches a cycle recurses until Python's recursion limit raises
  `RecursionError`. The `break` at cs2star/job_parser.py:86-87 can stop the walk before it
  reaches the cycle, and then the source succeeds on an input the model excludes.
- Python's recursion limit: each parent level is one more nested `find_cs_files` call. A
  chain of parents deeper than the interpreter's limit (1000 frames by default) makes the
  source raise `RecursionError`, where `JobParser.Resolve` and `JobParser.FindCsFiles`
  succeed. The model has no depth bound.

## Findings

| source | as written | input that shows it | evidently intended | confidence | as-written member | corrected member |
|---|---|---|---|---|---|---|
| cs2star.py:53-54 | `click.UsageError(...)` is created but not raised, so the script goes on without particle files | a job directory with no accepted particle file, e.g. an empty one | stop with the usage error | high, not executed | ScriptFrontEnd.ConvertAsWritten (with ScriptFrontEnd.NoParticleFileGoesOn) | ScriptFrontEnd.Convert |
| src/cs2star/cs2star.py:175-177 | with no passthrough file the list stays empty, and `zip(particles, particles_passthrough)` (206-207) pairs nothing, so no particle file is read; the same holds for micrographs (187-189, 228-229) | a resolved index whose particles/cs slot holds a file while particles/passthrough is empty | read every file without a passthrough | medium, not executed | ResolverFrontEnd.LoadsAsWritten (with ResolverFrontEnd.NoPassthroughLoadsNothing) | ResolverFrontEnd.Loads |
