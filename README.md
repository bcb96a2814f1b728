# Consolidating nested type-checker configurations

This project models the upgrade command that merges nested per-directory
`.pyre_configuration.local` files into their topmost ancestor. It is a model of
`tools/upgrade/commands/consolidate_nested_configurations.py`, and it proves
properties of that model.

- `paths.dfy` (module `Paths`) covers the path strings the command handles:
  - the directory key, which `str.replace` obtains by deleting every occurrence
    of `/.pyre_configuration.local`;
  - Python's string order;
  - `sorted`, proved to return a sorted permutation of its input.
- `targets.dfy` (module `Targets`) covers `deduplicate_targets`, a stable
  first-occurrence de-duplication.
- `grouping.dfy` (module `Grouping`) covers `gather_nested_configuration_mapping`,
  the nesting grouper.
  - The Python dict is a sequence of `(topmost, nested)` entries in insertion
    order. Assigning to an existing key overwrites in place. Assigning to a new
    key appends it. `del` removes the entry, so a re-rooted group moves to the
    end.
  - `Insert` is one pass of the outer loop and `Gather` folds it over the paths.
  - The imperative method `GatherNestedConfigurationMapping` keeps the source's
    outer loop and is proved equal to `Gather`. The body of that loop is the
    method `InsertConfiguration`, which keeps the inner loop, its `inserted`
    flag and its `break`s, and is proved equal to `Insert`.
  - Lemmas prove that:
    - keys stay distinct;
    - every nested path's directory key starts with its group's directory key;
    - there are never more groups than paths;
    - for distinct paths, the keys and lists together hold exactly the input.
- `consolidation.dfy` (module `Consolidation`) covers `consolidate` and `run`
  over an abstract working tree.
  - A `Repository` holds the configuration files that load and a log of writes,
    removal requests and submissions.
  - `ConsolidateNestedConfigurations.Consolidate` and `.Run` are imperative
    methods, proved against the specification functions `Consolidated` and
    `RunEffect`.
  - Lemmas about those functions state what `run` touches:
    - with fewer than two configurations, nothing happens;
    - otherwise only groups with a non-empty list are consolidated, in mapping
      order, with one write and one batched removal each;
    - then exactly one submission follows;
    - files outside those groups are left untouched.

An exception raised while loading a configuration (missing file, bad JSON)
appears in the model as a `false` result. The state is then as the failing
`consolidate` found it: earlier groups stay merged and nothing is submitted.

The grouper compares each new path only with the first key that passes either
prefix test. Two sorted examples show what this means.

`Grouping.GatherShieldedExample` shows that keys need not be unrelated by prefix:

- The input is `a-b`, `a/.hidden`, `a`, each with the configuration file name
  appended. It is sorted, because `-` < `/` and `h` < `p`.
- The result is `{a/.hidden: [], a: [a-b]}`.
- `a/.hidden` comes first and lies inside `a`, yet it stays a topmost key beside
  `a`. The later path `a` re-roots only the first key it is related to, `a-b`.
  Overlapping scopes are therefore not collapsed into one group.

`Grouping.GatherEscapeExample` shows that a later path nested under an earlier
one can end up outside that path's group:

- The input is `a-b`, `a/.pyre_configuration-z`, `a`, `a/.pyre_configuration`,
  each with the configuration file name appended. It is sorted.
- The result is `{a: [a-b], a/.pyre_configuration: [a/.pyre_configuration-z]}`.
- `a/.pyre_configuration` comes after `a` and lies inside it. Its first related
  key is `a/.pyre_configuration-z`, which it re-roots into a group of its own.
  So it does not join `a`'s group, and nothing chains it up to `a`.

Taking the first match is thus not the same as taking the best match. The model
follows the code here.

## Model

| member | source | states |
|---|---|---|
| Paths.RemoveAll | tools/upgrade/commands/consolidate_nested_configurations.py:53-56 | `str.replace(suffix, "")` never lengthens a path, shortens it exactly when the suffix occurs, and leaves it alone otherwise |
| Paths.DirOfConfigurationPath | tools/upgrade/commands/consolidate_nested_configurations.py:53-56 | the directory key of `d + "/.pyre_configuration.local"` is `d` when `d` does not itself contain the suffix |
| Paths.Dir | tools/upgrade/commands/consolidate_nested_configurations.py:53-56 | the directory key is the path with every `/.pyre_configuration.local` deleted; it is never longer than the path and is the path itself when the suffix does not occur (see `Paths.DirOfConfigurationPath` for a configuration path) |
| Paths.LexLe | tools/upgrade/commands/consolidate_nested_configurations.py:99 | Python's string order, character by character with a proper prefix first; a definition, whose properties are stated by `Paths.LexLeTotal` and `Paths.LexLeAfterCommonPrefix` |
| Paths.LexLeTotal | tools/upgrade/commands/consolidate_nested_configurations.py:99 | any two paths are comparable in Python's string order |
| Paths.LexLeAfterCommonPrefix | tools/upgrade/commands/consolidate_nested_configurations.py:99 | putting the same prefix in front of two paths keeps their order |
| Paths.DistinctConcat | tools/upgrade/commands/consolidate_nested_configurations.py:116-121 | a list of paths without repetition splits into two halves without repetition that share no path |
| Paths.InsertSorted | tools/upgrade/commands/consolidate_nested_configurations.py:99 | inserting a path into a sorted list keeps it sorted and adds exactly that path |
| Paths.SortPaths | tools/upgrade/commands/consolidate_nested_configurations.py:99 | `sorted` returns the same paths (as a multiset) in ascending Python string order |
| Paths.SortPathsDistinct | tools/upgrade/commands/consolidate_nested_configurations.py:99 | sorting a list of distinct paths gives distinct paths |
| Targets.Dedupe | tools/upgrade/commands/consolidate_nested_configurations.py:85 | the de-duplicated targets have no repetition, hold exactly the targets of the input, and are no longer than it |
| Targets.DedupeOfDistinct | tools/upgrade/commands/consolidate_nested_configurations.py:85 | a target list without duplicates is left unchanged |
| Targets.DedupePrefix | tools/upgrade/commands/consolidate_nested_configurations.py:84-85 | appending targets and de-duplicating keeps the de-duplicated original as a prefix (first occurrences win) |
| Targets.DedupeIdempotent | tools/upgrade/commands/consolidate_nested_configurations.py:85 | de-duplicating twice is the same as once |
| Targets.DedupeMergeExample | tools/upgrade/commands/consolidate_nested_configurations.py:73-85 | topmost `[x, y]` merged with nested `[y, z]` and `[x, w]` gives `[x, y, z, w]` |
| Grouping.IndexOf | tools/upgrade/commands/consolidate_nested_configurations.py:62-65 | the position of a key is the first entry carrying it, and it is in range exactly when the key is present |
| Grouping.Store | tools/upgrade/commands/consolidate_nested_configurations.py:62-64 | `d[k] = v` overwrites an existing key in place and otherwise appends `(k, v)` last, changes no other entry, and keeps keys distinct |
| Grouping.Delete | tools/upgrade/commands/consolidate_nested_configurations.py:65 | `del d[k]` removes exactly the entry at the key's position: the entries before it keep their places, the ones after it move up by one in the same order, every entry with another key survives, and with distinct keys the key is gone and the keys stay distinct |
| Grouping.Related | tools/upgrade/commands/consolidate_nested_configurations.py:57-61 | a key and a path are related when either directory key starts with the other; a definition, used by `Grouping.FirstRelated` |
| Grouping.Insert | tools/upgrade/commands/consolidate_nested_configurations.py:47-69 | one pass of the outer loop; a definition, whose three branches are stated by `Grouping.InsertNewKey`, `Grouping.InsertAppend` and `Grouping.InsertReroot` |
| Grouping.Gather | tools/upgrade/commands/consolidate_nested_configurations.py:43-70 | the mapping the function returns, built path by path; a definition, whose properties are stated by `Grouping.GatherKeysDistinct`, `Grouping.GatherNests`, `Grouping.GatherSize` and `Grouping.GatherPartition` |
| Grouping.FirstRelated | tools/upgrade/commands/consolidate_nested_configurations.py:52-61 | the scan stops at the first key, in insertion order, whose directory key is a prefix of the path's or has the path's as prefix; no earlier key passes either test |
| Grouping.GatherNestedConfigurationMapping | tools/upgrade/commands/consolidate_nested_configurations.py:43-70 | the nested loops build `Gather(configurations)`, with distinct keys, prefix nesting in every group, no more groups than paths, and for distinct paths exactly the input as keys plus lists |
| Grouping.InsertConfiguration | tools/upgrade/commands/consolidate_nested_configurations.py:47-69 | one pass of the outer loop, with the first-path case, the scan with its `inserted` flag and `break`s, and the fallback new key, computes exactly `Insert`, whose branches the `Grouping.Insert…` lemmas state |
| Grouping.InsertNewKey | tools/upgrade/commands/consolidate_nested_configurations.py:68-69 | a path related to no key (the first path included, :48-50) becomes the last key with an empty list, adding exactly that path |
| Grouping.InsertAppend | tools/upgrade/commands/consolidate_nested_configurations.py:57-60 | a path under the first related key joins the end of that key's list; every other group stays in place unchanged |
| Grouping.InsertReroot | tools/upgrade/commands/consolidate_nested_configurations.py:61-67 | for a path that is not yet a key (and distinct keys), a path above the first related key takes over its group: the old entry goes, the new key goes last with the old list followed by the old key, the rest keep their order |
| Grouping.InsertGrowsIffUnrelated | tools/upgrade/commands/consolidate_nested_configurations.py:51-69 | the mapping gains a new last entry exactly when no key is related to the path, and otherwise does not grow |
| Grouping.InsertCount | tools/upgrade/commands/consolidate_nested_configurations.py:57-69 | for a path that is not yet a key, appending and re-rooting keep the number of groups and a new key adds one |
| Grouping.InsertKeepsKeysDistinct | tools/upgrade/commands/consolidate_nested_configurations.py:57-69 | one pass of the outer loop keeps the keys distinct |
| Grouping.InsertKeepsNests | tools/upgrade/commands/consolidate_nested_configurations.py:53-67 | one pass keeps every nested path's directory key an extension of its group's, by prefix transitivity on re-rooting |
| Grouping.InsertPartition | tools/upgrade/commands/consolidate_nested_configurations.py:57-69 | for a path the mapping does not yet hold, one pass adds exactly that path to keys plus lists |
| Grouping.GatherKeysDistinct | tools/upgrade/commands/consolidate_nested_configurations.py:46-70 | the resulting dictionary has distinct keys |
| Grouping.GatherNests | tools/upgrade/commands/consolidate_nested_configurations.py:53-67 | in the result, every nested path's directory key starts with its group key's directory key |
| Grouping.GatherSize | tools/upgrade/commands/consolidate_nested_configurations.py:46-70 | there are never more groups than configurations |
| Grouping.GatherPartition | tools/upgrade/commands/consolidate_nested_configurations.py:46-70 | for distinct paths, keys and lists together are exactly the input multiset: nothing lost, nothing duplicated |
| Grouping.GatherNestedPair | tools/upgrade/commands/consolidate_nested_configurations.py:57-59 | a second path nested under the first gives `{a: [b]}` |
| Grouping.GatherNestedThenUnrelated | tools/upgrade/commands/consolidate_nested_configurations.py:46-70 | a nested path followed by an unrelated one gives `{a: [b], c: []}` |
| Grouping.GatherExample | tools/upgrade/commands/consolidate_nested_configurations.py:43-70 | configurations in `a`, `a/b`, `c` group as `{a: [a/b], c: []}` |
| Grouping.GatherReroot | tools/upgrade/commands/consolidate_nested_configurations.py:61-65 | a second path whose directory key is a proper prefix of the first's gives `{b: [a]}` |
| Grouping.GatherRerootExample | tools/upgrade/commands/consolidate_nested_configurations.py:61-65 | on sorted input `a-x`, `a` the re-rooting branch is taken: `{a: [a-x]}` |
| Grouping.GatherUnrelatedPair | tools/upgrade/commands/consolidate_nested_configurations.py:68-69 | two paths unrelated by prefix give two groups with empty lists |
| Grouping.GatherShielded | tools/upgrade/commands/consolidate_nested_configurations.py:52-67 | re-rooting the first related key leaves a later related key as a separate group: `[j, k, a]` gives `{k: [], a: [j]}` |
| Grouping.ShieldedPathsSorted | tools/upgrade/commands/consolidate_nested_configurations.py:99 | `a-b`, `a/.hidden`, `a` with the file name appended are in `sorted` order |
| Grouping.GatherShieldedExample | tools/upgrade/commands/consolidate_nested_configurations.py:52-67 | on that sorted input the earlier `a/.hidden` stays a topmost key beside the later `a`, although `a`'s directory key is a proper prefix of `a/.hidden`'s |
| Grouping.FlatMember | tools/upgrade/commands/consolidate_nested_configurations.py:116-118 | the key and every nested path of a group are among the paths the mapping holds |
| Grouping.RerootFirstOfTwo | tools/upgrade/commands/consolidate_nested_configurations.py:61-65 | a path above the first of two keys takes that key's group and goes last, with the old key as its list |
| Grouping.GatherEscape | tools/upgrade/commands/consolidate_nested_configurations.py:52-67 | after a shielded re-root, a fourth path above the shielded key re-roots it: `[j, k, a, b]` gives `{a: [j], b: [k]}` |
| Grouping.EscapePathsSorted | tools/upgrade/commands/consolidate_nested_configurations.py:99 | `a-b`, `a/.pyre_configuration-z`, `a`, `a/.pyre_configuration` with the file name appended are in `sorted` order |
| Grouping.EscapeDirs | tools/upgrade/commands/consolidate_nested_configurations.py:53-61 | the directory keys of those four paths: the first two are unrelated, `a` is above `a-b`, `a/.pyre_configuration` is above `a/.pyre_configuration-z` and strictly inside `a` |
| Grouping.GatherEscapeExample | tools/upgrade/commands/consolidate_nested_configurations.py:43-70 | on that sorted input the later `a/.pyre_configuration`, inside `a`, becomes a key of its own: `{a: [a-b], a/.pyre_configuration: [a/.pyre_configuration-z]}` |
| Consolidation.TargetsOf | tools/upgrade/commands/consolidate_nested_configurations.py:79-84 | the targets a loaded configuration declares, none when absent; a definition |
| Consolidation.Accumulated | tools/upgrade/commands/consolidate_nested_configurations.py:73-81 | `total_targets` holds a target exactly when some nested configuration declares it |
| Consolidation.MergedTargetsUnion | tools/upgrade/commands/consolidate_nested_configurations.py:84-85 | the topmost's new targets have no repetition, are exactly the union of all pre-merge lists, and start with the topmost's own targets |
| Consolidation.MergedTargets | tools/upgrade/commands/consolidate_nested_configurations.py:84-85 | the topmost's targets extended by the accumulated ones and de-duplicated; a definition, whose properties are stated by `Consolidation.MergedTargetsUnion` and `Targets.DedupeMergeExample` |
| Consolidation.AccumulatedFrame | tools/upgrade/commands/consolidate_nested_configurations.py:76-81 | `total_targets` depends only on the files of the nested configurations |
| Consolidation.MergedTargetsFrame | tools/upgrade/commands/consolidate_nested_configurations.py:76-85 | the merged targets depend only on the group's own files |
| Consolidation.Consolidated | tools/upgrade/commands/consolidate_nested_configurations.py:72-87 | the effect of `consolidate`; a definition, whose properties are stated by `Consolidation.ConsolidatedEffect` and `Consolidation.ConsolidatedLog` |
| Consolidation.ConsolidatedKeeps | tools/upgrade/commands/consolidate_nested_configurations.py:72-87 | a consolidation leaves the targets of every path outside its group as they were |
| Consolidation.ConsolidateGroups | tools/upgrade/commands/consolidate_nested_configurations.py:116-121 | the loop of `run` over the mapping, skipping empty lists and stopping at the first failure; a definition, whose properties are stated by the `Consolidation.ConsolidateGroups…` lemmas |
| Consolidation.ConsolidateAndSubmit | tools/upgrade/commands/consolidate_nested_configurations.py:116-129 | the loop followed by one submission unless a consolidation failed; a definition, whose properties are stated by `Consolidation.ConsolidateAndSubmitOnce` and `Consolidation.ConsolidateAndSubmitLeavesOthers` |
| Consolidation.RunEffect | tools/upgrade/commands/consolidate_nested_configurations.py:94-129 | the effect of `run` on the configurations found; a definition, whose properties are stated by `Consolidation.RunSkipsFewerThanTwo`, `Consolidation.RunSubmitsOnce`, `Consolidation.RunMerges` and `Consolidation.RunLeavesOthersUntouched` |
| Consolidation.ConsolidatedLog | tools/upgrade/commands/consolidate_nested_configurations.py:86-87 | a consolidation logs one write of the topmost and one removal request of exactly the nested list, and no submission |
| Consolidation.ConsolidatedEffect | tools/upgrade/commands/consolidate_nested_configurations.py:72-87 | `consolidate` fails exactly when a configuration does not load; otherwise the nested files are gone, the topmost holds the merged targets, other files are unchanged and none appears |
| Consolidation.ConsolidateGroupsKeepsLog | tools/upgrade/commands/consolidate_nested_configurations.py:116-121 | the loop of `run` only appends to the log and never submits |
| Consolidation.ConsolidateGroupsWrites | tools/upgrade/commands/consolidate_nested_configurations.py:116-121 | when no consolidation fails, the loop writes exactly the topmost paths of the groups with a non-empty list, in mapping order |
| Consolidation.ConsolidateGroupsRemovals | tools/upgrade/commands/consolidate_nested_configurations.py:116-121 | when no consolidation fails, the loop issues exactly one removal request per group with a non-empty list, for exactly its list, in mapping order |
| Consolidation.GroupByGroupCons | tools/upgrade/commands/consolidate_nested_configurations.py:116-121 | one group's write and removal request in front of the later groups' events give the group-by-group log of all of them |
| Consolidation.ConsolidateGroupsInOrder | tools/upgrade/commands/consolidate_nested_configurations.py:116-121 | when no consolidation fails, the loop's log is the old log followed by, for each non-trivial group in mapping order, a write of its topmost and then the removal request of exactly its list, before the next group starts |
| Consolidation.ConsolidateGroupsLeavesOthers | tools/upgrade/commands/consolidate_nested_configurations.py:116-121 | a file outside every group with a non-empty list comes out of the loop unchanged |
| Consolidation.ConsolidateGroupsNoNewFiles | tools/upgrade/commands/consolidate_nested_configurations.py:116-121 | the loop never creates a file |
| Consolidation.DistinctHead | tools/upgrade/commands/consolidate_nested_configurations.py:116-121 | when the consolidated groups share no path, the first one's paths are distinct and absent from the later ones |
| Consolidation.MergeAfterEarlier | tools/upgrade/commands/consolidate_nested_configurations.py:116-121 | consolidating an earlier group that shares no path with a later one leaves the later one's merge unchanged |
| Consolidation.ConsolidateGroupsMerges | tools/upgrade/commands/consolidate_nested_configurations.py:116-121 | when no consolidation fails and the groups share no path, each consolidated topmost ends up holding the merge of the targets its group had before the loop, and each file of its list is gone |
| Consolidation.NonTrivialFlat | tools/upgrade/commands/consolidate_nested_configurations.py:116-118 | the groups `run` consolidates hold part of what all groups hold |
| Consolidation.NonTrivialFlatSkips | tools/upgrade/commands/consolidate_nested_configurations.py:117-118 | the key of a group with an empty list is held by all groups over and above what the consolidated groups hold |
| Consolidation.RunSkipsFewerThanTwo | tools/upgrade/commands/consolidate_nested_configurations.py:99-110 | with zero or one configuration found, `run` changes nothing and logs nothing |
| Consolidation.ConsolidateAndSubmitOnce | tools/upgrade/commands/consolidate_nested_configurations.py:116-129 | after the loop the changes are submitted once, last, with `commit = not no_commit`, and not at all when a consolidation failed; before the submission the log holds each consolidated group's write followed at once by its removal request, group after group |
| Consolidation.RunSubmitsOnce | tools/upgrade/commands/consolidate_nested_configurations.py:94-129 | with two or more configurations, a successful `run` logs, group after group in mapping order, the write of each non-trivial group's topmost file followed at once by the removal request of exactly its list, and then submits exactly once; a failed one does not submit |
| Consolidation.ConsolidateAndSubmitLeavesOthers | tools/upgrade/commands/consolidate_nested_configurations.py:116-129 | consolidating and submitting leaves files outside the consolidated groups unchanged |
| Consolidation.OutsideNonTrivial | tools/upgrade/commands/consolidate_nested_configurations.py:113-118 | for distinct paths, a path not found, or a key with an empty list, is in no consolidated group |
| Consolidation.NonTrivialGatherDistinct | tools/upgrade/commands/consolidate_nested_configurations.py:113-118 | for distinct paths, the groups `run` consolidates share no path |
| Consolidation.RunMerges | tools/upgrade/commands/consolidate_nested_configurations.py:94-129 | for distinct paths, a successful `run` leaves every consolidated topmost configuration holding the merge of the targets its group declared at the start, and removes every configuration of its list |
| Consolidation.RunLeavesOthersUntouched | tools/upgrade/commands/consolidate_nested_configurations.py:94-129 | for distinct paths, `run` leaves untouched every file not found and every configuration that ends up alone in its group |
| Consolidation.Repository.WriteConfiguration | tools/upgrade/commands/consolidate_nested_configurations.py:86 | writing a configuration replaces exactly that file's targets and logs the write |
| Consolidation.Repository.RemovePaths | tools/upgrade/commands/consolidate_nested_configurations.py:87 | one removal request deletes exactly the listed files and is logged once |
| Consolidation.Repository.SubmitChanges | tools/upgrade/commands/consolidate_nested_configurations.py:123-129 | submitting changes no file and logs one submission with its flags |
| Consolidation.ConsolidateNestedConfigurations.constructor | tools/upgrade/commands/consolidate_nested_configurations.py:25-30 | the command keeps its repository and its `no_commit` and `submit` flags |
| Consolidation.ConsolidateNestedConfigurations.Consolidate | tools/upgrade/commands/consolidate_nested_configurations.py:72-87 | the accumulation loop and the write and removal give exactly `Consolidated`; on failure nothing changes |
| Consolidation.ConsolidateNestedConfigurations.Run | tools/upgrade/commands/consolidate_nested_configurations.py:94-129 | sorting, the skip rules, the per-group loop and the final submission give exactly `RunEffect` |

## Left out

- Loading configurations from JSON and the `Configuration` class are not part of this model. A configuration that loads is a key of `Files` mapped to its `targets` field. A missing or unparsable file is a path that is not a key.
- Targets.Dedupe: `deduplicate_targets` is not part of this model. It is modelled as a stable first-occurrence de-duplication of the whole list.
- Consolidation.TargetsOf: an absent `targets` field counts as an empty list, both when accumulating and when `add_targets` extends the topmost configuration.
- Consolidation.ConsolidateNestedConfigurations.Consolidate: error suppression (`get_errors`, `_suppress_errors`, lines 89-92) is left out, because it edits source files through a collaborator that is not part of this model.
- Consolidation.ConsolidateNestedConfigurations.Run: `find_files` is file-system I/O, so its result is the parameter `found`.
- Consolidation.ConsolidateNestedConfigurations.Run: the subdirectory and `cwd` handling and the warnings logged are left out. So are the title, summary and `set_dependencies` arguments of `submit_changes`, which carry no behaviour the model observes.
- Exceptions are modelled as a `false` result rather than propagated. The two causes, a missing file and malformed JSON, are not told apart.
- Consolidation.Repository: the working tree and version control are merged into one file map plus an event log. `remove_paths` deletes the files and logs a single request. Staging, commits and the submit workflow appear only as a logged `Submitted(commit, submit)`.
- Argument parsing (lines 32-41) is left out. So is the `--lint` flag (line 28), which this command stores but never reads.
- Grouping.GatherPartition: proved only for distinct input paths. With a repeated path, the re-rooting assignment at line 62 can overwrite the list of an existing key.
- Grouping.GatherNestedConfigurationMapping: a later path whose directory lies inside an earlier one's does not always end up in a group chaining up to it, and keys need not be unrelated by prefix. `Grouping.GatherEscapeExample` and `Grouping.GatherShieldedExample` show each of these on sorted input, so neither property is stated.
