# APT backend dispatch core of PackageKit, modelled in Dafny

This project models the dispatch core of PackageKit's APT backend,
`backends/aptcc/pk-backend-aptcc.cpp`. It covers:

- the module-level globals (`_cancel`, `_progress_percentage`,
  `_signal_timeout`, `_package_ids`, `_package_current`, the repository
  flags, the `_updated_*` flags and `_has_signature`);
- the handlers the PackageKit daemon calls;
- the query threads that walk the APT cache;
- the GLib timer callbacks that play the demonstration transactions.

## How the model is organised

- **`Backend.AptBackend`** is a class. Its fields are the globals, plus
  what the backend sets on its `PkBackend`: status, percentage,
  allow-cancel, and every report as one append-only `events` log. It also
  holds the live GLib timeout sources.
  - Every handler and every timer callback is a method.
  - Each method's `modifies` clause names the fields it may change.
  - Each method's `ensures` states the new state. For the event log, that
    is the events a specification function describes.
- **Specification functions.** Each query thread is described by a function
  of the cache and the thread's arguments:
  - `Threads` holds the depends, details, files and search threads;
  - `Machines` holds the install, refresh, download, update and
    update-system timers;
  - `Demo` holds the fixed answers of resolve, the repository list and the
    update list.
- **Lemmas beside those functions** state what the events promise:
  - `finished` is reported exactly once, last;
  - the only errors are the ones listed;
  - query results come out in `compare()` order, duplicates removed;
  - a package-id parse round-trips;
  - progress climbs to 100 and then stops.
- **`AptCache`** holds the APT cache as plain values: packages, versions
  and provides lists. The `aptcc` helpers the backend calls are fields of
  the `Apt` value, because their code is outside this file. Those helpers
  are `init`, `get_depends`/`get_requires`, `get_enum_group`,
  `pk_group_enum_from_text`, `search_file`, `compare()` and
  `result_equality()`.
- **`Ordering`** models `sort(.., compare())` followed by
  `erase(unique(.., result_equality()), end)`.
- **`PackageIds`** models the identifier format
  `name;version;arch;data`.

A concurrent `backend_cancel` racing a query thread is the parameter
`cancelAt`, defined in `Events`. It is the index of the `_cancel` poll
before which the cancel lands. The thread sets `_cancel` there and stops
the loop that made the poll. The other half of `backend_cancel`, which
replaces the running timer, is the method `Backend.AptBackend.Cancel`.

## Model

| member | source | states |
|---|---|---|
| Backend.AptBackend.constructor | backends/aptcc/pk-backend-aptcc.cpp:53-66 | the globals start at their declared values: not cancelled, progress 0, no timer, repositories local off and the other three on, nothing updated, no signature; no event reported and no source live |
| Backend.AptBackend.AddTimeout | backends/aptcc/pk-backend-aptcc.cpp:627 | `g_timeout_add` returns a fresh non-zero source id that is not live yet, and registers exactly that callback under it |
| Backend.AptBackend.Cancel | backends/aptcc/pk-backend-aptcc.cpp:180-191 | `_cancel` is always raised; with no running timer nothing else changes; otherwise the running source is removed and exactly one new cancel-timeout source is added |
| Backend.AptBackend.CancelTimeout | backends/aptcc/pk-backend-aptcc.cpp:162-175 | `_signal_timeout` goes back to 0, a transaction-cancelled error then `finished` are reported, and the source is not kept |
| Backend.AptBackend.EmitAll | backends/aptcc/pk-backend-aptcc.cpp:862-872 | the emit loop reports the prefix of the sorted vector that precedes the cancel poll, in order, and leaves `_cancel` set exactly when the cancel landed during the loop or before it |
| Backend.AptBackend.ProviderLoop | backends/aptcc/pk-backend-aptcc.cpp:1008-1018 | the provides-list loop yields the providers that have a candidate version, in provides order (filtered by the matcher in a details search) |
| Backend.AptBackend.HitOf | backends/aptcc/pk-backend-aptcc.cpp:929-1021 | one iteration of any cache walk adds what the query's hit function says package `i` adds |
| Backend.AptBackend.NameHitOf | backends/aptcc/pk-backend-aptcc.cpp:996-1020 | a name-search iteration skips dependency-only packages; a matching name adds the package's candidate or, for a virtual package, its providers' candidates |
| Backend.AptBackend.DetailsHitOf | backends/aptcc/pk-backend-aptcc.cpp:933-989 | a details-search iteration adds the same as a name search on a matching name, and otherwise the versions whose descriptions match (for a virtual package, the providers whose name or descriptions match) |
| Backend.AptBackend.OwnHitOf | backends/aptcc/pk-backend-aptcc.cpp:841-859 | a group-search or get-packages iteration adds the package's own candidate only when it has one and, in a group search, when its section's last path component falls in the group |
| Backend.AptBackend.CollectCache | backends/aptcc/pk-backend-aptcc.cpp:837-860 | the collect loop gathers the hits of exactly the packages before the cancel poll, in cache order, and leaves `_cancel` set exactly when the cancel landed inside the walk |
| Backend.AptBackend.LookupId | backends/aptcc/pk-backend-aptcc.cpp:226-242 | one identifier either parses and names a cache package, or gives the invalid-id or not-found error |
| Backend.AptBackend.GetDependsOrRequires | backends/aptcc/pk-backend-aptcc.cpp:193-275 | the depends/requires thread appends exactly the events and sets exactly the cancel state that `Threads.DependsRun` describes; cancel is allowed, and the status is `query` once the first id parses |
| Backend.AptBackend.DependsLoop | backends/aptcc/pk-backend-aptcc.cpp:222-255 | the collect loop stops at the first failing identifier, reporting that failure; without a failure it has gathered the dependencies of every identifier before the cancel poll, in order |
| Backend.AptBackend.DependsStep | backends/aptcc/pk-backend-aptcc.cpp:226-252 | one identifier past the poll is looked up; if found, the lookup prefix and the gathered output both grow by that package |
| Backend.AptBackend.GetDetails | backends/aptcc/pk-backend-aptcc.cpp:297-347 | the details thread appends exactly `Threads.DetailsRun(.., false)`; a NULL id list is an invalid-id error, and the status becomes `query` otherwise |
| Backend.AptBackend.DetailsLoop | backends/aptcc/pk-backend-aptcc.cpp:319-345 | `emit_details` is reported for each identifier in turn, stopping with one error and `finished` at the first identifier that fails |
| Backend.AptBackend.GetFiles | backends/aptcc/pk-backend-aptcc.cpp:358-408 | the files thread appends exactly `Threads.DetailsRun(.., true)` |
| Backend.AptBackend.FilesLoop | backends/aptcc/pk-backend-aptcc.cpp:380-406 | `emit_files` is reported for each identifier in turn, stopping with one error and `finished` at the first identifier that fails |
| Backend.AptBackend.EmitFinished | backends/aptcc/pk-backend-aptcc.cpp:865-877 | the emit loop followed by `finished` |
| Backend.AptBackend.Walk | backends/aptcc/pk-backend-aptcc.cpp:836-877 | collecting, sorting (and deduplicating for name and details searches), emitting and finishing append exactly `QueryShown` and `finished`; `_cancel` ends as `QueryCancelled` says |
| Backend.AptBackend.SearchGroup | backends/aptcc/pk-backend-aptcc.cpp:807-879 | the group-search thread appends exactly `Threads.SearchGroupRun`; the percentage ends at 100 after a walk, 0 if the cache cannot be opened, and unchanged for a NULL group |
| Backend.AptBackend.SearchPackage | backends/aptcc/pk-backend-aptcc.cpp:890-1044 | the name- and details-search thread appends exactly `Threads.SearchPackageRun`; the percentage stays invalid when the regex, the cache or a pending APT error stops it, and is 100 otherwise |
| Backend.AptBackend.GetPackages | backends/aptcc/pk-backend-aptcc.cpp:1305-1358 | the get-packages thread appends exactly `Threads.GetPackagesRun` |
| Backend.AptBackend.SearchFile | backends/aptcc/pk-backend-aptcc.cpp:753-796 | the search-file thread appends exactly `Threads.SearchFileRun` |
| Backend.AptBackend.FileHitOf | backends/aptcc/pk-backend-aptcc.cpp:782-788 | an owner name yields its package and candidate version when both exist, and nothing otherwise |
| Backend.AptBackend.FileStep | backends/aptcc/pk-backend-aptcc.cpp:782-788 | one owner name past the poll adds exactly its `emit_package` (or nothing) to the log |
| Backend.AptBackend.FileIteration | backends/aptcc/pk-backend-aptcc.cpp:779-788 | one loop iteration either stops at the cancel poll, setting `_cancel` and reporting nothing, or reports the next owner name's package |
| Backend.AptBackend.FileLoop | backends/aptcc/pk-backend-aptcc.cpp:776-789 | the loop emits the packages of exactly the owner names before the cancel poll, in order, and leaves `_cancel` set exactly when the cancel landed inside it |
| Backend.AptBackend.InstallPackages | backends/aptcc/pk-backend-aptcc.cpp:572-628 | `vips-doc` without the signature is refused with the signature request, a GPG error and `finished`; with the signature but without a valid licence, with the EULA request, a licence error and `finished`; a refusal changes nothing else. Otherwise a downloading event is reported and the install timer starts from progress 0 |
| Backend.AptBackend.InstallTimeout | backends/aptcc/pk-backend-aptcc.cpp:532-567 | one install tick reports and advances what `Machines.InstallTick` says; cancel is disallowed from progress 30; the status becomes `install` at 30 and at 50; the sub-percentage is valid strictly between 30 and 50 |
| Backend.AptBackend.InstallSignature | backends/aptcc/pk-backend-aptcc.cpp:633-649 | only a GPG key `BB7576AC` for `vips-doc` sets `_has_signature` and finishes; any other is a GPG failure then `finished`; an earlier signature is never lost |
| Backend.AptBackend.RefreshCache | backends/aptcc/pk-backend-aptcc.cpp:694-707 | progress and every `_updated_*` flag are reset, cancel is allowed, and the refresh timer becomes the running source |
| Backend.AptBackend.RefreshTimeout | backends/aptcc/pk-backend-aptcc.cpp:676-689 | one refresh tick as `Machines.RefreshTick` says; cancel is disallowed from progress 80 |
| Backend.AptBackend.UpdatePackages | backends/aptcc/pk-backend-aptcc.cpp:1133-1141 | the ids are kept, the current index is 0, the percentage is 0, the status is `download`, and the download timer runs |
| Backend.AptBackend.DownloadTimeout | backends/aptcc/pk-backend-aptcc.cpp:1108-1128 | each tick reports the current id as downloading (NULL past the end). Until the last id it only advances the index; after the last it resets the index, moves to `update` at 50%, and hands over to a fresh update timer |
| Backend.AptBackend.UpdateCurrent | backends/aptcc/pk-backend-aptcc.cpp:1077-1091 | the three checks on the current id set exactly the flag of the known package it names and report it as updating, as `UpdateStep` says |
| Backend.AptBackend.UpdateTimeout | backends/aptcc/pk-backend-aptcc.cpp:1070-1103 | each tick marks powertop, the kernel or gtkhtml2 updated when the current id is that package. After the last id the percentage is 100 and `_signal_timeout` is 0 |
| Backend.AptBackend.UpdateSystem | backends/aptcc/pk-backend-aptcc.cpp:1194-1202 | a system restart is required, the status is `download`, progress is 0, and the update-system timer runs |
| Backend.AptBackend.SystemTimeout | backends/aptcc/pk-backend-aptcc.cpp:1143-1189 | one tick as `Machines.SystemStep` says; at progress 40, when powertop is not yet updated, the status becomes `update` and cancel is disallowed |
| Backend.AptBackend.GetUpdates | backends/aptcc/pk-backend-aptcc.cpp:518-530 | offline, a no-network error then `finished` and no timer; online, nothing is reported yet and the updates timer runs |
| Backend.AptBackend.UpdatesTimeout | backends/aptcc/pk-backend-aptcc.cpp:485-513 | the update list for the current `_updated_*` flags then `finished`; `_signal_timeout` is 0 and the source is dropped |
| Backend.AptBackend.GetRepoList | backends/aptcc/pk-backend-aptcc.cpp:1207-1220 | the repository details for the current flags then `finished` |
| Backend.AptBackend.RepoEnable | backends/aptcc/pk-backend-aptcc.cpp:1225-1246 | the flag of the named repository takes the new value (an unknown id changes nothing), then `finished` |
| Backend.AptBackend.Resolve | backends/aptcc/pk-backend-aptcc.cpp:712-740 | one package event per known name, in order, then `finished` |
| Backend.AptBackend.Dispatch | backends/aptcc/pk-backend-aptcc.cpp:160-1189 | running a timer callback has exactly that callback's effect: cancel and get-updates finish and drop their timer; install, refresh and update-system advance as `InstallTick`, `RefreshTick` and `SystemStep` say; the update timer advances as `UpdateStep` says; the download timer reports the current id and, after the last one, rewinds and registers the update timer; no other callback touches the live sources |
| Backend.AptBackend.Fire | backends/aptcc/pk-backend-aptcc.cpp:162-175 | the GLib main loop runs a source's callback, with that callback's effect as `Dispatch` states it, and removes the source exactly when the callback returns false; the repository flags, `_has_signature` and `_package_ids` are outside its frame and never change; the cancel timeout always ends the transaction with the cancelled error |
| Backend.DependsCompleted | backends/aptcc/pk-backend-aptcc.cpp:257-273 | with no failing identifier, the depends thread emits the shown part of the sorted, deduplicated vector and finishes |
| Backend.FileEmitNext | backends/aptcc/pk-backend-aptcc.cpp:782-788 | an owner name that yields a candidate adds exactly that candidate's `emit_package` |
| Backend.InstallGateScenario | backends/aptcc/pk-backend-aptcc.cpp:572-649 | on a fresh backend: `vips-doc` is refused; its key is then installed; the install then starts, leaving only the install timer live |
| Backend.CancelledRefreshScenario | backends/aptcc/pk-backend-aptcc.cpp:180-191 | a refresh cancelled after at most ten ticks ends with exactly the cancelled error and `finished`, and leaves no source live |
| Capabilities.GetGroups | backends/aptcc/pk-backend-aptcc.cpp:107-133 | exactly twenty-one groups are advertised: every group except unknown, education, fonts, repos, servers and virtualization |
| Capabilities.GetFilters | backends/aptcc/pk-backend-aptcc.cpp:138-148 | exactly the positive filters gui, installed, development, free and collections; no negated form |
| Capabilities.GetMimeTypes | backends/aptcc/pk-backend-aptcc.cpp:153-157 | Debian archives are the one file type handled |
| AptCache.Find | backends/aptcc/pk-backend-aptcc.cpp:234-235 | `FindPkg` finds a package with exactly that name, or reports that none has it |
| AptCache.SectionTail | backends/aptcc/pk-backend-aptcc.cpp:849-853 | the section is cut to the suffix after its last `/`: the suffix holds no `/`, it is the whole section iff the section holds none, and otherwise a `/` precedes it |
| AptCache.Lookup | backends/aptcc/pk-backend-aptcc.cpp:226-242 | an identifier succeeds iff it parses and names a cache package; it is an invalid-id error iff it does not parse, and a not-found error otherwise |
| AptCache.LookupPrefix | backends/aptcc/pk-backend-aptcc.cpp:222-255 | checking identifiers in order finds cache packages only, and fails only with the invalid-id or not-found error |
| AptCache.LookupStops | backends/aptcc/pk-backend-aptcc.cpp:226-242 | once an identifier has failed, later identifiers change nothing |
| AptCache.LookupFailsAt | backends/aptcc/pk-backend-aptcc.cpp:226-242 | the error of the first failing identifier is the error of every longer prefix |
| AptCache.LookupPrefixSpec | backends/aptcc/pk-backend-aptcc.cpp:222-255 | without a failure, every identifier was found, in order; with one, exactly those before the failing identifier were found, and the failure is that identifier's error |
| Queries.GatherSource | backends/aptcc/pk-backend-aptcc.cpp:837-860 | every entry of a concatenation of per-package parts comes from one of the parts |
| Queries.GatherHas | backends/aptcc/pk-backend-aptcc.cpp:837-860 | every entry of a part is an entry of the concatenation |
| Queries.GatherSame | backends/aptcc/pk-backend-aptcc.cpp:837-860 | walks whose per-package parts agree collect the same vector |
| Queries.CollectNext | backends/aptcc/pk-backend-aptcc.cpp:837-860 | one more package walked appends its hit to the end of the vector |
| Queries.ProviderHitsSpec | backends/aptcc/pk-backend-aptcc.cpp:1008-1018 | a provider candidate is collected iff it is the candidate version of one of the listed providers (and matches, in a details search) |
| Queries.CollectSource | backends/aptcc/pk-backend-aptcc.cpp:837-860 | every collected candidate comes from the hit of a package already walked |
| Queries.CollectHas | backends/aptcc/pk-backend-aptcc.cpp:837-860 | every hit of a package walked is collected |
| Queries.CollectSpec | backends/aptcc/pk-backend-aptcc.cpp:837-860 | the walk collects exactly the hits of the packages it looked at |
| Queries.CollectConcrete | backends/aptcc/pk-backend-aptcc.cpp:939-955 | no query collects a virtual package: every entry pairs a package with its candidate version |
| Queries.SearchNameSpec | backends/aptcc/pk-backend-aptcc.cpp:992-1022 | a name search admits exactly the relevant name-matching packages with a candidate, or the concrete providers of a matching virtual package |
| Queries.DetailsIncludesName | backends/aptcc/pk-backend-aptcc.cpp:929-1022 | a details search finds everything a name search finds |
| Queries.DetailsAdmitsDescribed | backends/aptcc/pk-backend-aptcc.cpp:957-967 | a details search also admits a package whose name does not match when one of its four descriptions does |
| Queries.SearchGroupSpec | backends/aptcc/pk-backend-aptcc.cpp:837-860 | a group search admits exactly the relevant packages with a candidate whose section's last component classifies into the group |
| Queries.GroupHit | backends/aptcc/pk-backend-aptcc.cpp:841-859 | package `i` contributes to a group search iff the group admits it |
| Queries.GetPackagesSpec | backends/aptcc/pk-backend-aptcc.cpp:1325-1340 | get-packages admits exactly the relevant packages with a candidate version |
| Queries.IncreasingPairs | backends/aptcc/pk-backend-aptcc.cpp:837-860 | candidates increasing from the back are increasing pairwise, and all lie below the bound |
| Queries.OwnStep | backends/aptcc/pk-backend-aptcc.cpp:841-859 | a group-search or get-packages iteration adds nothing or one candidate of that very package |
| Queries.CollectOwn | backends/aptcc/pk-backend-aptcc.cpp:837-860 | for group search and get-packages the walk is the walk of own candidates |
| Queries.HitIsOwn | backends/aptcc/pk-backend-aptcc.cpp:841-859 | group search and get-packages take from a package nothing but its own candidate |
| Queries.OwnCollectIncreasing | backends/aptcc/pk-backend-aptcc.cpp:837-860 | that walk collects packages in strictly increasing cache order, all below the walked bound |
| Queries.CollectIncreasing | backends/aptcc/pk-backend-aptcc.cpp:1325-1340 | group search and get-packages collect each package at most once, in cache order |
| Queries.CollectDistinct | backends/aptcc/pk-backend-aptcc.cpp:1325-1340 | hence their collected candidates name pairwise distinct packages |
| Queries.DepsSnoc | backends/aptcc/pk-backend-aptcc.cpp:244-252 | the dependencies of one more package are appended after those already gathered |
| Queries.FileHit | backends/aptcc/pk-backend-aptcc.cpp:782-788 | an owner name yields only the concrete package of that name |
| Queries.FileHits | backends/aptcc/pk-backend-aptcc.cpp:776-789 | at most one candidate per owner name looked at, each concrete |
| Queries.FileHitsNext | backends/aptcc/pk-backend-aptcc.cpp:776-789 | one more owner name appends its hit; a name without a candidate is skipped |
| Queries.OutputSpec | backends/aptcc/pk-backend-aptcc.cpp:1024-1026 | the vector after sorting is in `compare()` order and draws only on the collected candidates. Without deduplication it is a permutation of them. With deduplication, no two neighbours are `result_equality`-equal, and every collected candidate keeps a representative |
| Queries.OutputDistinct | backends/aptcc/pk-backend-aptcc.cpp:1024-1026 | when `result_equality` identifies what `compare()` cannot order, deduplication leaves no two equal entries anywhere |
| Ordering.Insert | backends/aptcc/pk-backend-aptcc.cpp:1024 | inserting adds exactly the one element to the multiset |
| Ordering.Sort | backends/aptcc/pk-backend-aptcc.cpp:1024 | sorting is a permutation |
| Ordering.Unique | backends/aptcc/pk-backend-aptcc.cpp:1025-1026 | `unique` with `erase` keeps a sub-multiset, keeps the first element, and leaves no two neighbours equal |
| Ordering.UniqueAfter | backends/aptcc/pk-backend-aptcc.cpp:1025-1026 | the elements kept after a kept element never start with one equal to it, and no two kept neighbours are equal |
| Ordering.InsertSorted | backends/aptcc/pk-backend-aptcc.cpp:1024 | inserting into a sorted vector keeps it sorted under a strict weak order |
| Ordering.SortSorted | backends/aptcc/pk-backend-aptcc.cpp:1024 | the sorted vector is sorted under a strict weak order |
| Ordering.UniqueAfterSorted | backends/aptcc/pk-backend-aptcc.cpp:1025-1026 | dropping elements after a kept one preserves sortedness |
| Ordering.UniqueSorted | backends/aptcc/pk-backend-aptcc.cpp:1025-1026 | removing duplicates keeps a sorted vector sorted |
| Ordering.UniqueAfterCovers | backends/aptcc/pk-backend-aptcc.cpp:1025-1026 | an element dropped after a kept one is equal to it or to something kept |
| Ordering.UniqueCovers | backends/aptcc/pk-backend-aptcc.cpp:1025-1026 | with a reflexive equality nothing is lost: every input element has an equal representative in the output |
| Ordering.StrictlyIncreasing | backends/aptcc/pk-backend-aptcc.cpp:1024-1026 | a strict weak order chained between neighbours orders every earlier element before every later one |
| Ordering.NoDuplicates | backends/aptcc/pk-backend-aptcc.cpp:1024-1026 | sorting then removing adjacent duplicates removes all duplicates when the equality is the order's incomparability |
| PackageIds.Split | backends/aptcc/pk-backend-aptcc.cpp:203 | splitting at `;` always yields at least one field |
| PackageIds.JoinSplit | backends/aptcc/pk-backend-aptcc.cpp:203 | splitting loses nothing: joining the fields gives back the string |
| PackageIds.SplitJoin | backends/aptcc/pk-backend-aptcc.cpp:203 | joining separator-free fields and splitting again gives the fields back |
| PackageIds.ParsePrint | backends/aptcc/pk-backend-aptcc.cpp:203-204 | a well-formed identifier printed and parsed comes back unchanged |
| PackageIds.PrintParse | backends/aptcc/pk-backend-aptcc.cpp:203-204 | a string that parses is printed back unchanged |
| Events.Emits | backends/aptcc/pk-backend-aptcc.cpp:865-872 | one `emit_package` per candidate, in order |
| Events.EmitsAppend | backends/aptcc/pk-backend-aptcc.cpp:865-872 | emitting two vectors in turn is emitting their concatenation |
| Events.Reached | backends/aptcc/pk-backend-aptcc.cpp:837-840 | a polling loop gets through every item unless the cancel lands on one of its own polls, and then through exactly the items before it |
| Events.Polls | backends/aptcc/pk-backend-aptcc.cpp:837-840 | a loop makes at least as many polls as items it got through and at most one more, and the extra poll happens exactly when it broke off |
| Events.Emitted | backends/aptcc/pk-backend-aptcc.cpp:865-870 | an emit loop that starts with `_cancel` already set emits nothing |
| Events.FinishedLastAfter | backends/aptcc/pk-backend-aptcc.cpp:876-877 | events without `finished` put before a run that finishes once, last, keep it finishing once, last |
| Events.EmitsFinished | backends/aptcc/pk-backend-aptcc.cpp:865-877 | emitted packages closed by `finished`: no error, `finished` once and last, and some package emitted iff the vector was non-empty |
| Threads.Shown | backends/aptcc/pk-backend-aptcc.cpp:865-872 | what the emit loop gets out is a prefix of the sorted vector |
| Threads.ShownKeeps | backends/aptcc/pk-backend-aptcc.cpp:865-872 | that prefix keeps the vector's order and freedom from adjacent duplicates, and is the whole vector without a cancel |
| Threads.DependsRun | backends/aptcc/pk-backend-aptcc.cpp:193-275 | the depends thread reports nothing only when the cache cannot be opened after the first id parses |
| Threads.DependsSpec | backends/aptcc/pk-backend-aptcc.cpp:193-275 | `finished` exactly once, last. An error means exactly one invalid-id or not-found error and nothing emitted. Otherwise the emitted candidates are sorted with no two neighbours equal |
| Threads.DependsFirstFailure | backends/aptcc/pk-backend-aptcc.cpp:222-242 | without a cancel, the error reported is that of the first failing identifier |
| Threads.DependsCancelledEarly | backends/aptcc/pk-backend-aptcc.cpp:222-225 | a cancel during the collect loop emits nothing and still finishes |
| Threads.DetailsOf | backends/aptcc/pk-backend-aptcc.cpp:338 | one `emit_details` per package, in order |
| Threads.FilesOf | backends/aptcc/pk-backend-aptcc.cpp:399 | one `emit_files` per identifier, in order |
| Threads.DetailsRun | backends/aptcc/pk-backend-aptcc.cpp:297-347 | a NULL id list is one invalid-id error then `finished`; nothing at all is reported only when the cache cannot be opened |
| Threads.DetailsOfSnoc | backends/aptcc/pk-backend-aptcc.cpp:319-341 | one more package reported appends its `emit_details` |
| Threads.FilesOfSnoc | backends/aptcc/pk-backend-aptcc.cpp:380-402 | one more identifier reported appends its `emit_files` |
| Threads.DetailsCompleted | backends/aptcc/pk-backend-aptcc.cpp:319-346 | when every identifier is found, all of them are reported, then `finished` |
| Threads.DetailsFailed | backends/aptcc/pk-backend-aptcc.cpp:319-336 | when identifier `i` is the first to fail, everything before it is reported, then its error and `finished` |
| Threads.DetailsSpec | backends/aptcc/pk-backend-aptcc.cpp:297-347 | `finished` exactly once, last. If every identifier is found, one report per identifier, in order. Otherwise exactly those before the first failing identifier, then its error |
| Threads.SearchPackageRun | backends/aptcc/pk-backend-aptcc.cpp:890-1044 | the search thread reports nothing (not even `finished`) exactly when the regex fails, the cache cannot be opened, or an APT error is pending |
| Threads.SearchGroupRun | backends/aptcc/pk-backend-aptcc.cpp:807-879 | a NULL group is the group-not-found error then `finished`; nothing is reported only when the cache cannot be opened |
| Threads.GetPackagesRun | backends/aptcc/pk-backend-aptcc.cpp:1305-1358 | nothing is reported only when the cache cannot be opened |
| Threads.QuerySpec | backends/aptcc/pk-backend-aptcc.cpp:836-877 | every cache walk emits in `compare()` order. Name and details searches emit no two adjacent equal candidates. Without a cancel, group search and get-packages emit a permutation of everything collected, and name and details searches emit a sub-multiset of it that keeps a `result_equality`-equal representative of every collected candidate (when that equality is reflexive) |
| Threads.WalkDistinct | backends/aptcc/pk-backend-aptcc.cpp:1323-1352 | without a cancel, group search and get-packages never emit one package twice |
| Threads.CollectedOnce | backends/aptcc/pk-backend-aptcc.cpp:1342 | a permutation of a vector of distinct packages holds no package twice |
| Threads.CountOne | backends/aptcc/pk-backend-aptcc.cpp:1323-1340 | a vector in strictly increasing package order holds each candidate at most once |
| Threads.SearchFileRun | backends/aptcc/pk-backend-aptcc.cpp:753-796 | a `~installed` filter finishes at once with nothing found; otherwise nothing is reported only when the cache cannot be opened |
| Machines.InstallTick | backends/aptcc/pk-backend-aptcc.cpp:532-567 | below 100 the tick keeps the timer and advances one percent; at 100 it reports `finished` and stops; a tick that finishes never keeps the timer |
| Machines.InstallProgress | backends/aptcc/pk-backend-aptcc.cpp:532-567 | from any start at or below 100, `k` ticks reach `min(start + k, 100)` |
| Machines.InstallRunComplete | backends/aptcc/pk-backend-aptcc.cpp:532-567 | enough ticks report the remaining install events and `finished` exactly once, last |
| Machines.InstallRestStep | backends/aptcc/pk-backend-aptcc.cpp:532-567 | one tick reports its events and hands over to the rest of the run |
| Machines.InstallRestFinishes | backends/aptcc/pk-backend-aptcc.cpp:532-567 | the remaining install events end with `finished`, exactly once |
| Machines.RefreshTick | backends/aptcc/pk-backend-aptcc.cpp:676-689 | a refresh tick reports nothing but `finished`, keeps the timer exactly when it does not finish, and never lowers the progress or moves it off its residue modulo ten |
| Machines.RefreshProgress | backends/aptcc/pk-backend-aptcc.cpp:676-689 | from a multiple of ten, `k` ticks reach `min(start + 10k, 100)` |
| Machines.RefreshRunComplete | backends/aptcc/pk-backend-aptcc.cpp:676-707 | started at 0, eleven ticks report `finished` and nothing else |
| Machines.RefreshNeverFinishes | backends/aptcc/pk-backend-aptcc.cpp:676-689 | from a progress that is not a multiple of ten, the refresh timer never reaches exactly 100 and never finishes |
| Machines.SystemUpdated | backends/aptcc/pk-backend-aptcc.cpp:1143-1189 | a system tick never clears a flag and never changes gtkhtml; only the ticks at 40 and 60 change a flag |
| Machines.SystemEvents | backends/aptcc/pk-backend-aptcc.cpp:1143-1189 | a system tick that does not finish reports at most one package event |
| Machines.SystemStep | backends/aptcc/pk-backend-aptcc.cpp:1143-1189 | a system tick reports at most one event, keeps the timer exactly when it does not finish, and never lowers the progress or moves it off its residue modulo ten |
| Machines.SystemRunComplete | backends/aptcc/pk-backend-aptcc.cpp:1143-1189 | a complete update-system run reports exactly the remaining system events |
| Machines.SystemRunStep | backends/aptcc/pk-backend-aptcc.cpp:1143-1189 | a tick below 100 reports its event and hands over to the next |
| Machines.SystemRunFinishes | backends/aptcc/pk-backend-aptcc.cpp:1143-1202 | a complete update-system run reports `finished` exactly once, last |
| Machines.SystemAfterComplete | backends/aptcc/pk-backend-aptcc.cpp:1143-1189 | a complete update-system run leaves powertop updated if it passed 40, the kernel if it passed 60, and gtkhtml as it was |
| Machines.SystemRestStep | backends/aptcc/pk-backend-aptcc.cpp:1143-1189 | the remaining events from `p` are the events at `p`, then those from `p + 10` |
| Machines.SystemRestFinishes | backends/aptcc/pk-backend-aptcc.cpp:1143-1189 | the remaining system events end with `finished`, exactly once |
| Machines.DownloadEvents | backends/aptcc/pk-backend-aptcc.cpp:1108-1128 | one downloading event per id, in order |
| Machines.DownloadRunComplete | backends/aptcc/pk-backend-aptcc.cpp:1108-1128 | the download phase reports each remaining id exactly once, in order |
| Machines.DownloadEventsCons | backends/aptcc/pk-backend-aptcc.cpp:1108-1128 | downloading events for a list are the first id's event, then those of the rest |
| Machines.DownloadRunEmpty | backends/aptcc/pk-backend-aptcc.cpp:1108-1128 | with an empty id list, the download phase reports one downloading event with a NULL id |
| Machines.UpdateStep | backends/aptcc/pk-backend-aptcc.cpp:1070-1103 | each flag is set iff it was set or the current id is that package; `finished` is reported iff the next id is past the end |
| Machines.UpdateRunComplete | backends/aptcc/pk-backend-aptcc.cpp:1070-1103 | a complete update phase reports `finished` exactly once, last |
| Machines.UpdateAfterComplete | backends/aptcc/pk-backend-aptcc.cpp:1070-1103 | a complete update phase marks updated exactly the known packages it met among the remaining ids, and keeps every flag already set |
| Machines.UpdatedNotListed | backends/aptcc/pk-backend-aptcc.cpp:485-513 | once update-packages has updated powertop, the kernel or gtkhtml2, the update list no longer offers it |
| Demo.UpdateIdsDistinct | backends/aptcc/pk-backend-aptcc.cpp:1079-1090 | the three update ids are pairwise distinct, so each update-timer branch sets one flag |
| Demo.ResolveOne | backends/aptcc/pk-backend-aptcc.cpp:720-737 | a name resolves iff it is one of the five known names, and then to a package event whose id starts with that name |
| Demo.ResolveEventsSpec | backends/aptcc/pk-backend-aptcc.cpp:712-740 | resolve gives at most one event per name and only for known names, each naming a package that was asked for; it gives nothing when no name is known |
| Demo.Enable | backends/aptcc/pk-backend-aptcc.cpp:1225-1246 | only the flag of the named repository takes the new value |
| Demo.RepoList | backends/aptcc/pk-backend-aptcc.cpp:1207-1220 | the fedora and livna repositories are always listed with their flags, the development one iff `~development` is not asked for, and `local` never |
| Demo.EnableThenList | backends/aptcc/pk-backend-aptcc.cpp:1207-1246 | enabling or disabling a listed repository shows in the next listing, and every other listed entry is unchanged |
| Demo.EnableUnknown | backends/aptcc/pk-backend-aptcc.cpp:1225-1246 | an unknown repository id leaves every flag as it was |
| Demo.UpdatesListSpec | backends/aptcc/pk-backend-aptcc.cpp:485-513 | each package not yet updated is listed; `vino` is listed only while none is updated; nothing else is listed |
| Demo.InstallRefusal | backends/aptcc/pk-backend-aptcc.cpp:572-628 | a refusal happens iff the first id is `vips-doc` and the signature or licence is missing. A missing signature asks for the key first; with the key, a missing licence asks for the EULA |
| Demo.InstallGateOpens | backends/aptcc/pk-backend-aptcc.cpp:572-649 | the gate lets `vips-doc` through only with both the signature and a valid licence; any other first id passes; every refusal ends in `finished` exactly once |

## Left out

- The `aptcc` helpers whose code is outside this file are parameters of
  the `Apt` value, constrained by nothing but their types:
  - `aptcc::init`;
  - `find_ver` (the candidate version of a package);
  - `get_depends`/`get_requires`;
  - `get_enum_group`;
  - `pk_group_enum_from_text`;
  - `search_file`;
  - `compare()` and `result_equality()`, whose strict-weak-order and
    equality properties are stated as preconditions of the lemmas that
    need them;
  - `emit_package`, `emit_details` and `emit_files`, which appear only as
    events.
- Threads and timers are not concurrent in the model:
  - a concurrent `backend_cancel` is the index of the poll it precedes
    (`cancelAt`);
  - timer firing is the explicit `Backend.AptBackend.Fire`;
  - the progress lemmas in `Machines` assume the timer they describe is
    the only one running.
- Timer intervals (100 ms to 2000 ms) and sleeps are not modelled; only
  the order of callbacks matters.
- The sub-percentage of the install timer is reduced to whether it is
  valid. The floating-point value it reports is not modelled.
- Texts are left out: package summaries, error messages, repository
  descriptions beyond the two shown, and most arguments of the
  signature-required event (URL, user id, timestamp, fingerprint).
- `backend_initialize`, `backend_destroy`, `backend_get_update_detail`,
  `backend_install_files`, `backend_remove_packages`,
  `backend_repo_set_data`, `backend_what_provides` and
  `backend_download_packages` are not part of this model. They are demo
  stubs outside the dispatch core.
- The `_cancel` reference that the depends and search-file threads pass to
  `get_depends`, `get_requires` and `search_file` is not modelled: those
  helpers cannot stop early in the model.
- Backend.AptBackend.FileHitOf: `find_ver` on the end iterator that
  `FindPkg` returns for an unknown owner name is taken to give no version.
  The model therefore skips such a name.
- PackageIds.Parse: `pk_package_id_new_from_string` is outside this file.
  It is modelled as "exactly four `;`-separated fields with a non-empty
  name", and `Parse` carries no contract of its own; its round trips are
  stated by `PackageIds.ParsePrint` and `PackageIds.PrintParse`.
- Ordering.Sort: `std::sort` works in place on the vector. The model sorts
  by a function on sequences and proves the same result: sorted, and a
  permutation. Stability and the exact order of incomparable entries are
  not pinned down, just as the C++ standard leaves them open.
- `_progress_percentage`, `_package_current` and the GLib source ids are
  unbounded naturals; `guint`/`gulong` wrap-around is not modelled.
- Group is restricted to the groups `backend_get_groups` advertises, plus
  the few others the model needs to state what is not advertised, plus
  unknown.
- Machines.IdAt: reading `_package_ids` at the index of its NULL
  terminator gives None. Reading past the terminator is undefined
  behaviour in the source (`_package_ids[_package_current]` in the update
  and download timeouts). It is reachable only when update-packages
  transactions overlap. The model, like the source, lets several timers
  be live at once, and they share the one cursor `_package_current`.
  For example, two `UpdatePackages([])` calls start two download
  timers. Each hands over to an update timer, and the first update tick
  moves the cursor onto the terminator. The second update tick then
  reads one entry past it. The model reads None there, instead of
  whatever the pointer would hold.
- Backend.AptBackend.DependsLoop: the gathered output is stated only when
  no identifier failed; after a failure the thread reports the error and
  discards the output.
- Backend.AptBackend.Cancel: `backend_cancel` does not clear
  `_signal_timeout` after removing that source, so the stale id stays
  until the cancel timeout runs. The model keeps this behaviour and does
  not state the stale id as an error.
- The `PkBackend` bookkeeping of the daemon (thread creation, string and
  bool storage, the locale) is not modelled. The values a handler reads
  from it are the method's parameters.
