# Modrinth bulk manager — a Dafny model of its core

The application is a browser front end to the Modrinth mod registry. It
has two screens. The bulk downloader searches the registry and collects a
selection of mods, each with a chosen version, and downloads the selected
files one after another. The mod updater takes dropped or picked `.jar`
files, records an analysis for each, and saves the updates under new names.

This project models the logic behind those screens as pure Dafny functions
and small methods over sequences, strings and insertion-ordered maps:

- `Query` (query.dfy) covers the registry client's request compilers. It
  models `searchMods` with its optional query parameters and its `facets`
  conjunction of groups, and `getModVersions` with its optional version
  filters. `CompileSearch` builds the facet groups as the code does, joining
  a list of values into one facet; `CompileSearchIntended` builds one facet
  per value. The two agree whenever each list has at most one value, which
  is all the app ever passes (see Findings).
- `VersionOrder` (version_order.dfy) covers the game-version list of
  `getMinecraftVersions`: the release filter, and the newest-first sort with
  a comparator on dotted numeric components.
- `Selection` (selection.dfy) covers the selection map keyed by project id,
  the toggle (`handleModSelect`) and the version choice
  (`handleVersionSelect`).
- `Downloader` (downloader.dfy) covers the sequential download walk
  (`handleDownloadIndividually`), its progress checkpoints, per-entry
  failure, and the ZIP button that only delegates.
- `SearchSession` (search_session.dfy) covers the search request built from
  the controls, the default listing, the auto-search guard, and what a
  failed request does to the result list.
- `Updater` (updater.dfy) covers the jar filter, the per-file analysis
  record (the random draw is an input), the rename of updated files, and the
  summary counts.
- The support modules are `Text` (JavaScript's `split`, `join`, `trim`,
  `endsWith`, `parseInt` and integer `toString`), `OrderedMap` (a JavaScript
  `Map` and `URLSearchParams.set`), `Modrinth` (the registry's data shapes
  and the primary-file rule) and `Wrappers`.

Query parameter values stay structured. A list is kept as the list that
would be JSON-encoded, and `DecodeFacets` is the registry's reading of the
facet groups. Round trips are stated against that reading.

## Model

| member | source | states |
|---|---|---|
| Modrinth.FirstPrimary | src/components/BulkDownloader.tsx:145 | `files.find(f => f.primary)` as a position: the first primary file, or none exactly when no file is primary |
| Modrinth.PrimaryFile | src/components/VersionModal.tsx:65 | `files.find(f => f.primary) || files[0]`: none exactly when there are no files; `files[0]` when no file is primary; otherwise a primary file with no primary file before it |
| Text.JoinSplit | src/services/modrinthApi.ts:91-92 | joining the pieces of `split('.')` with the separator gives back the version string |
| Text.SplitJoin | src/services/modrinthApi.ts:91-92 | splitting a join of dot-free pieces gives back the pieces |
| Text.TrimEmptyIff | src/components/BulkDownloader.tsx:75 | `trim()` is empty exactly when every character is ECMAScript white space |
| Text.NonNumericIsZero | src/services/modrinthApi.ts:91-96 | a component that does not start with a digit, sign or space reads as 0 through `parseInt(n) \|\| 0`, never failing |
| Text.ParseDecimal | src/services/modrinthApi.ts:9-10 | `parseInt` reads back exactly the integer that `toString` wrote |
| Text.SubstituteLiteral | src/components/ModUpdater.tsx:132 | a replacement string without `$` is inserted as it is |
| Text.SubstituteAppend | src/components/ModUpdater.tsx:132 | a replacement whose second part cannot complete a `$` pattern expands part by part |
| OrderedMap.UniqueKeysPairwise | src/components/BulkDownloader.tsx:16 | the recursive key-uniqueness of the map is the same as "no two positions share a key" |
| OrderedMap.Put | src/components/BulkDownloader.tsx:126 | `Map.set`: the key then holds the new value and every other key keeps its value |
| OrderedMap.PutPresent | src/components/BulkDownloader.tsx:126 | setting a key already present keeps the key order |
| OrderedMap.PutAbsent | src/components/BulkDownloader.tsx:126 | setting an absent key appends its pair at the end |
| OrderedMap.PutKeysWithin | src/components/BulkDownloader.tsx:126 | setting a key adds no key other than it |
| OrderedMap.PutUnique | src/components/BulkDownloader.tsx:126 | setting a key keeps the keys unique |
| OrderedMap.Remove | src/components/BulkDownloader.tsx:106 | `Map.delete`: the key is then absent and every other key keeps its value |
| OrderedMap.RemoveSubset | src/components/BulkDownloader.tsx:106 | deleting adds no key and never makes the map longer |
| OrderedMap.RemoveAbsent | src/components/BulkDownloader.tsx:106 | deleting an absent key changes nothing |
| OrderedMap.RemoveUnique | src/components/BulkDownloader.tsx:106 | deleting keeps the keys unique |
| OrderedMap.RemoveAt | src/components/BulkDownloader.tsx:106 | deleting the key at position i cuts out exactly that pair and keeps the order of the rest |
| OrderedMap.PutAt | src/components/BulkDownloader.tsx:126 | setting a present key replaces its value in place |
| OrderedMap.RemovePutFresh | src/components/BulkDownloader.tsx:106-126 | setting a fresh key and deleting it again restores the map |
| OrderedMap.PutPut | src/components/BulkDownloader.tsx:126 | setting a key twice: the last value wins |
| VersionOrder.Antisymmetric | src/services/modrinthApi.ts:89-100 | swapping the arguments of the comparator negates the result |
| VersionOrder.Reflexive | src/services/modrinthApi.ts:89-100 | a version compares equal to itself |
| VersionOrder.Transitive | src/services/modrinthApi.ts:89-100 | "may come first" is transitive, so the sort's order is well defined |
| VersionOrder.SortBy | src/services/modrinthApi.ts:89-100 | sorting with an antisymmetric, transitive comparator returns a permutation of the input in which each element compares at most 0 against every later one (so the comparator never asks for a swap) |
| VersionOrder.EqualIff | src/services/modrinthApi.ts:94-99 | two versions compare equal exactly when their components agree at every position, a missing one counting as 0 |
| VersionOrder.FirstDifferenceDecides | src/services/modrinthApi.ts:94-98 | the first differing component decides, with value `bPart - aPart`, so a larger component comes first |
| VersionOrder.TrailingZeroIsEqual | src/services/modrinthApi.ts:95-96 | `v` and `v.0` compare equal (`1.20` against `1.20.0`) |
| VersionOrder.NonNumericComponentIsZero | src/services/modrinthApi.ts:91-96 | appending a non-numeric component is the same as appending nothing |
| VersionOrder.ComponentsAppend | src/services/modrinthApi.ts:91-92 | adding a dot-separated component `t` to a version adds exactly one component, `parseInt(t) \|\| 0` |
| VersionOrder.ThreeComponents | src/services/modrinthApi.ts:91-92 | a version written `major.minor.patch` has exactly those three components |
| VersionOrder.SortDescending | src/services/modrinthApi.ts:89-100 | the sort returns a permutation of its input, ordered newest first |
| VersionOrder.ReleaseNames | src/services/modrinthApi.ts:86-88 | a version is kept exactly when some tag of type "release" carries it |
| VersionOrder.ReleaseNamesInOrder | src/services/modrinthApi.ts:86-88 | the release filter keeps the registry's order and repetitions: it distributes over concatenation and takes a tag's version exactly when the tag is a release |
| VersionOrder.ReleaseVersions | src/services/modrinthApi.ts:86-100 | the offered list is the release versions, with their multiplicities, ordered newest first |
| VersionOrder.ExampleMinorDecides | src/services/modrinthApi.ts:94-97 | `1.20.4` comes before `1.19.4` |
| VersionOrder.ExampleMinorBeatsPatch | src/services/modrinthApi.ts:94-97 | `1.20.1` comes before `1.19.4`: the minor component decides before the patch |
| VersionOrder.ExamplePatchDecides | src/services/modrinthApi.ts:94-97 | `1.20.4` comes before `1.20.1` |
| VersionOrder.SortExample | src/services/modrinthApi.ts:89-100 | sorting `1.20.1, 1.20.4, 1.19.4` gives `1.20.4, 1.20.1, 1.19.4` |
| Query.SetAll | src/services/modrinthApi.ts:8-11 | the conditional `set` calls on a fresh URL never send a name twice, and send only the names that were set |
| Query.SetAllLookup | src/services/modrinthApi.ts:8-11 | with distinct names, a parameter holds its value exactly when its condition held and is absent otherwise |
| Query.SetAllAbsent | src/services/modrinthApi.ts:8-11 | a name no condition sets is never sent |
| Query.FacetGroups | src/services/modrinthApi.ts:14-26 | the intended groups: at most three, none empty, and no group at all exactly when no filter is given |
| Query.FacetsRoundTrip | src/services/modrinthApi.ts:14-26 | the registry reads back from the groups exactly the categories, versions and project type asked for, an absent list reading as none |
| Query.IntendedOneFieldPerGroup | src/services/modrinthApi.ts:14-26 | the intended groups are an "all of" list of "any of" groups: each non-empty and filtering on one field, the fields distinct and in the order categories, versions, project type |
| Query.AsWrittenOneFieldPerGroup | src/services/modrinthApi.ts:14-26 | the code's groups have the same one-field-per-group shape, in the same order |
| Query.FacetGroupAsWritten | src/services/modrinthApi.ts:17 | the group as the code builds it is always a single string, whatever the number of values |
| Query.FacetGroupsAsWritten | src/services/modrinthApi.ts:14-26 | the groups as the code builds them: every group is a single facet |
| Query.AsWrittenGroups | src/services/modrinthApi.ts:14-26 | the code's groups are the intended groups of the joined values of each list |
| Query.MergedOneValue | src/services/modrinthApi.ts:17-21 | a list of at most one value is unchanged by the join |
| Query.MergedManyValues | src/services/modrinthApi.ts:17-21 | a list of two or more values reaches the registry as one value |
| Query.GroupsAgreeOnOneValue | src/services/modrinthApi.ts:14-26 | with at most one category and one version the code's groups are the intended ones |
| Query.AsWrittenAgreesOnOneValue | src/services/modrinthApi.ts:17-21 | for a single value the code's group and the intended one are the same |
| Query.AsWrittenMergesValues | src/services/modrinthApi.ts:17 | for categories `a, b` the code's group reads back as the one category `a","categories:b`, the intended one as `a` and `b` |
| Query.CompileSearch | src/services/modrinthApi.ts:5-30 | the search URL as the code builds it, with no parameter sent twice and only `query`, `limit`, `offset`, `index`, `facets` ever sent |
| Query.CompileSearchIntended | src/services/modrinthApi.ts:5-30 | the intended search URL, with the same guarantees on its parameters |
| Query.SearchTextParams | src/services/modrinthApi.ts:8-11 | `query` is sent only when non-empty; `index` is sent whenever given |
| Query.SearchNumberParams | src/services/modrinthApi.ts:9-10 | `limit` and `offset` are sent as decimal text exactly when present and not 0 |
| Query.SearchFacetsParam | src/services/modrinthApi.ts:14-30 | the code's `facets` is sent exactly when some filter is given, has one field per group, and reads back as the project type and the joined value of each list |
| Query.IntendedFacetsParam | src/services/modrinthApi.ts:14-30 | the intended `facets` is sent exactly when some filter is given, has one field per group, and reads back as exactly the filters asked for |
| Query.SearchAgreesOnOneValue | src/services/modrinthApi.ts:5-30 | with at most one category and one version the code's search request is the intended one |
| Query.LimitReadsBack | src/services/modrinthApi.ts:9 | the `limit` text reads back as the number given |
| Query.CompileVersions | src/services/modrinthApi.ts:59-69 | `game_versions` and `loaders` are sent only when non-empty, `featured` whenever defined (also `false`), and nothing else |
| Selection.ModSelect | src/components/BulkDownloader.tsx:102-122 | clicking a selected project removes it and requests nothing; clicking an unselected one never adds it, requests its versions, and opens the dialog exactly when the answer is a non-empty list; other entries keep their values; the selection invariant is kept |
| Selection.VersionSelect | src/components/BulkDownloader.tsx:124-129 | the project then maps to exactly its chosen version, in place if present and appended if not; other entries are unchanged; the dialog closes; the invariant is kept |
| Selection.VersionsRequestFilters | src/components/BulkDownloader.tsx:112-114 | the versions request filters on the one selected game version and on nothing else |
| Selection.ToggleOffRemovesExactly | src/components/BulkDownloader.tsx:103-109 | clicking the i-th selected project leaves the selection with just that entry cut out |
| Selection.ChooseThenToggle | src/components/BulkDownloader.tsx:103-127 | choosing a version for an unselected project and clicking it again restores the selection |
| Selection.ToggleTwice | src/components/BulkDownloader.tsx:103-118 | two clicks leave an unselected project unselected and the selection unchanged; a selected project stays removed |
| Selection.RunKeepsValid | src/components/BulkDownloader.tsx:102-129 | any sequence of clicks, choices and dismissals keeps ids unique, each entry under its own project id, and each with a version |
| Downloader.DownloadIndividually | src/components/BulkDownloader.tsx:131-169 | an empty selection does nothing; otherwise the dialog opens, each entry in order is handled on its own, and the progress updates are those of the entries in selection order |
| Downloader.Attempt | src/components/BulkDownloader.tsx:139-167 | one entry: skipped without a version; 0 and no file without a primary file; otherwise the checkpoints, then saved, or -1 and failed |
| Downloader.Checkpointing | src/components/BulkDownloader.tsx:149-153 | the inner loop publishes 0, 20, ... for the number of checkpoints reached |
| Downloader.Checkpoints | src/components/BulkDownloader.tsx:149-153 | the checkpoints of one entry are its own, start at 0, never exceed 100, and reach 100 when all six are passed |
| Downloader.CheckpointsRise | src/components/BulkDownloader.tsx:149-153 | the checkpoints of one entry rise strictly, so its progress never goes back |
| Downloader.CompletedRises | src/components/BulkDownloader.tsx:142-153 | a completed entry's progress starts at 0, ends at 100 and never goes down |
| Downloader.ItemLeavesFinal | src/components/BulkDownloader.tsx:140-165 | an entry's own updates leave it at 100 when it completed, -1 when it failed, 0 when no file was found, and untouched when it was skipped |
| Downloader.ProgressOfEntry | src/components/BulkDownloader.tsx:138-167 | with distinct ids, an entry's progress after the walk is decided by its own updates alone |
| Downloader.FinalProgressOfWalk | src/components/BulkDownloader.tsx:138-167 | after the walk each entry shows 100 if it completed, -1 if it failed, 0 if its version had no file, and nothing if it was skipped |
| Downloader.DownloadAsZip | src/components/BulkDownloader.tsx:171-180 | no archive: a non-empty selection alerts and then gives exactly the individual download's results |
| SearchSession.SearchAsks | src/components/BulkDownloader.tsx:85-92 | a search asks for mods of the selected game version, of the selected category only when there is one, 20 at a time, in the chosen order |
| SearchSession.DefaultListingAsks | src/components/BulkDownloader.tsx:53-58 | the default listing asks for the 20 most downloaded mods of the selected game version, with no text and no category |
| SearchSession.DefaultListingEffect | src/components/BulkDownloader.tsx:49-70 | the default listing is made exactly when the game-version list is not empty, and asks for the selected game version by downloads, with no text |
| SearchSession.AppRequestsAsIntended | src/components/BulkDownloader.tsx:53-92 | the app's searches and default listing pass one game version and at most one category, so the code's request is exactly the intended one |
| SearchSession.AutoSearchRunsIff | src/components/BulkDownloader.tsx:75-77 | the auto-search runs exactly when the box holds a character that is not white space |
| SearchSession.RefreshesCompared | src/components/BulkDownloader.tsx:59-96 | a search never depends on the list it replaces; the default listing depends on it only through a failure, which keeps it; both show the hits after a success; a failed search leaves an empty list |
| Updater.JarFiles | src/components/ModUpdater.tsx:84 | a picked file is kept exactly when its name ends in `.jar` |
| Updater.JarFilesInOrder | src/components/ModUpdater.tsx:84 | the file filter keeps the files' order and repetitions: it distributes over concatenation and keeps a single file exactly when it is a jar |
| Updater.DroppedJars | src/components/ModUpdater.tsx:68-75 | a dropped file is kept exactly when it is an item of kind "file" whose file is there and ends in `.jar` |
| Updater.DroppedJarsInOrder | src/components/ModUpdater.tsx:68-75 | the drop handler keeps the items' order and repetitions: it distributes over concatenation and takes one item's file exactly when the item is of kind "file", has a file, and the file is a jar |
| Updater.FileInput | src/components/ModUpdater.tsx:82-89 | an analysis starts from the file picker exactly when some picked file is a jar, and then on the filtered jars |
| Updater.Drop | src/components/ModUpdater.tsx:60-80 | an analysis starts from a drop exactly when some dropped item holds a jar, and then on the dropped jars |
| Updater.AnalyzeConsistent | src/components/ModUpdater.tsx:98-116 | a record is about its own file; it flags an update exactly when its current and latest versions differ; a failed analysis flags nothing and reports no versions; the first compatible version is the game version the analysis was given |
| Updater.AnalyzeFiles | src/components/ModUpdater.tsx:91-122 | one record per input file, in input order, with that file's name |
| Updater.AnalysesFor | src/components/ModUpdater.tsx:91-122 | an analysis of a list of jars for a game version gives one record per jar, in order, under its name, each listing that game version first when it lists any |
| Updater.PickAnalysis | src/components/ModUpdater.tsx:82-89 | a pick of files starts an analysis exactly when some file is a jar, and analyses the jars for the game version selected now |
| Updater.DropAnalysisAsWritten | src/components/ModUpdater.tsx:60-80 | as written, a drop starts an analysis exactly when some item holds a jar, and analyses the jars for the initial game version `1.20.1`, because the memoised handler keeps the first render's `analyzeFiles` |
| Updater.DropIgnoresSelection | src/components/ModUpdater.tsx:60-80 | as written, once another game version is selected, no record of a drop lists it first |
| Updater.DropCounterexample | src/components/ModUpdater.tsx:60-80 | one `a.jar` dropped with `1.20.4` selected: the code lists `1.20.1, 1.19.4, 1.18.2`, the corrected drop `1.20.4, 1.19.4, 1.18.2` |
| Updater.DropAnalysis | src/components/ModUpdater.tsx:60-80 | the corrected drop analyses the dropped jars for the game version selected now |
| Updater.DropAnalysisAgrees | src/components/ModUpdater.tsx:60-89 | the corrected drop equals the code's while the initial version is selected, and equals a pick of the same jars |
| Updater.Updatable | src/components/ModUpdater.tsx:125 | a record is offered for update exactly when it is flagged |
| Updater.UpdatableInOrder | src/components/ModUpdater.tsx:125 | the update filter keeps the analysed order and repetitions: it distributes over concatenation and keeps a record exactly when it is flagged |
| Updater.UpToDateCount | src/components/ModUpdater.tsx:142-251 | the "up to date" count `total - updatable` is the number of unflagged records, hence never negative |
| Updater.RenameKeepsStem | src/components/ModUpdater.tsx:132 | only a trailing `.jar` is rewritten: the stem stays, `-` and the version text with its `$` patterns expanded go before the extension, the name still ends in `.jar`; a version without `$` goes in literally; other names are unchanged |
| Updater.DollarPatternExpands | src/components/ModUpdater.tsx:132 | `x.jar` with latest version `$&` is saved as `x-.jar.jar` |
| Updater.AnalyzedRename | src/components/ModUpdater.tsx:98-132 | every update the analysis flags is saved as the stem, `-1.2.0` and `.jar` |
| Updater.BulkUpdate | src/components/ModUpdater.tsx:124-140 | every flagged record is tried in order; the i-th attempt's outcome depends only on whether that attempt throws, and it downloads exactly when it does not |

## Left out

- Network calls (`fetch`, `response.ok`, JSON decoding of responses) are left out. Registry answers are inputs (`Fetch`), and the search and version requests are produced as values, not sent.
- JSON encoding of the `facets`, `game_versions` and `loaders` values, and URL encoding of query parameters, are left out. The values stay structured lists.
- Browser effects are left out: the anchor element and its `click()`, `alert`, `console` output and all rendering. The download walk reports what it would save, and the ZIP button records that it alerted.
- Timers are left out: the 200 ms progress delay, the 300 ms debounce with its cleanup, and the 500 ms analysis delay. Each loop is modelled in its sequential order only. State changes made by other handlers while a request is in flight are not modelled.
- `Math.random` in `analyzeFiles` is an input per file (`Draw`). `analyzeModFile` is left out: it is imported by the updater but never called.
- `getMod` and `getCategories` are left out; they are fetches with no logic.
- The updater's fallback game-version list is left out. It is a constant shown when the list fails to load.
- Numbers are integers. A fractional `limit` or `offset` is not modelled, and neither is the loss of precision of `parseInt` results above 2^53 (`Number.MAX_SAFE_INTEGER`): there, two version components the code reads as the same number (such as `9007199254740993` and `9007199254740992`) differ in the model.
- VersionOrder.SortDescending: it is an insertion sort standing for `Array.prototype.sort`. Its contract fixes the order up to versions that compare equal (such as `1.20` and `1.20.0`); the relative order of those is not stated.
- Behaviour a reader might expect that the code does not have (the model follows the code):
  - The two-click round trip: clicking a selected project twice removes it for good, because a click never adds (`Selection.ToggleTwice`).
  - Last-request-wins for slow search responses: the code has no request counter, so a stale response can still overwrite newer results.
  - Falling back to the default listing when the query is cleared: the code runs the default listing only when the game-version list or the selected game version changes.
- The search session models each request and its outcome. It does not model the component state that holds them.

## Findings

| source | as written | input that shows it | evidently intended | confidence | as-written member | corrected member |
|---|---|---|---|---|---|---|
| src/services/modrinthApi.ts:17,21 | each group is one string, `categories:` + `values.join('","categories:')` (and the same for versions); `JSON.stringify` escapes the inner quotes, so the registry receives one facet | `categories: ["a", "b"]` gives the single facet `categories:a","categories:b`, read back as one category named `a","categories:b` | one facet per value in the group, `["categories:a", "categories:b"]`, which the registry reads as "a or b" | not executed; high for lists of two or more values; the app itself only ever passes one value, where both agree (`Query.AsWrittenAgreesOnOneValue`, `SearchSession.AppRequestsAsIntended`) | Query.AsWrittenMergesValues | Query.IntendedFacetsParam |
| src/components/ModUpdater.tsx:60-80 | `handleDrop` is wrapped in `useCallback(..., [])`, so it keeps the first render's `analyzeFiles`, whose `selectedMinecraftVersion` is the initial `1.20.1` | select `1.20.4`, then drop `a.jar`: the record says "Compatible with: 1.20.1, 1.19.4, 1.18.2" under the header "Checking compatibility with Minecraft 1.20.4" | a drop analyses for the game version selected now, as a pick of files does | not executed; high, the stale closure follows from the empty dependency list | Updater.DropCounterexample | Updater.DropAnalysis |
