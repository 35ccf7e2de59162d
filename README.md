# mist, modelled in Dafny

mist is a command-line front end to APT and to the makedeb Package Repository (MPR). APT is the
system's package index. The MPR is a repository of source packages that mist clones and builds
locally.

This project models mist's decision and serialisation logic together with its in-place
algorithms:

- the install-order planner of the `mist-cli` draft, which moves MPR packages into later batches
  until no package depends on its own batch or a later one;
- the MPR dependency resolver, which walks `|` groups and prefers APT;
- the choice of MPR packages whose dummy `.deb` must be rebuilt, the Debian control stanza written
  for them, and the split of APT update errors into errors and warnings;
- the merged APT/MPR package cache and its helpers:
  - architecture stripping;
  - the merge;
  - unique names, the name map and membership by source;
  - the transaction classification;
  - the five-minute freshness rule of the MPR archive;
- the command-level rules of `install`, `upgrade`, `search`, `list`, `list-comments` and
  `quick-list`, and the package information blocks of `style.rs`.

The APT engine is represented as follows:

- its marks are a map held by the class `MprResolver.AptEngine`, the only mutable object;
- the marking calls it accepts or refuses, version comparison, `SplitPackage::new`,
  `as_control`, lower-casing, colours and date formatting are function-typed parameters or
  fields whose behaviour is left open;
- what APT knows of a package is given as data: its candidate, whether it is installed, and
  whether it is upgradable.

Each source file is one module: `Planner`, `MprResolver`, `Update`, `Cache`, `Install`, `Upgrade`,
`Search`, `List`, `Style`, `ListComments` and `QuickList`. Two modules hold shared definitions:
`Wrappers` (`Option`, `Result`) and `Text` (prefixes, joining with a separator, splitting,
trimming, and the byte order of strings).

Imperative code becomes methods with loops:

- the planner's `Vec<Vec<_>>` rewrite;
- the control-file builder's `push_str`/`pop`;
- the cache's sort, dedup and `HashMap` loops;
- the comment renderer's indexed loop;
- the filter and output loops of `style.rs`.

Each such method is proved equal to a specification function, and the properties the source
promises are proved about that function. Pure iterator chains are functions with lemmas: the
`list` pipeline and the prefix filter of `quick_list`.

Some behaviour of the code is easy to misread, and the model follows the code:

- A blocked package moves to batch `i + 1`, the batch after its own, not to the batch after its
  dependency (mist-cli/src/install_util.rs:271-282).
- The ordering loop has no cycle check (mist-cli/src/install_util.rs:224-283).
  `Planner.OrderMprPackages` terminates under the hypothesis that the dependency relation is
  ranked, that is, acyclic. `Planner.CycleNeverSettles` shows that under a cycle no sequence of
  batches is ever settled, so the loop never ends.
- `resolve_mpr_package` returns an empty list. `mpr_pkglist` grows only by the results of
  recursive calls, and the MPR branch never sets `good_dep_found`, so a group that only the MPR
  satisfies reaches the exit (src/install_util.rs:226-252).
- The package-base dedup of `pkgnames_to_pkgbases` removes nothing, because its slice
  `vec_index..=vec_len` is always out of range (mist-cli/src/install_util.rs:321-326).
- An APT dependency is satisfied only by a package already marked install, or by one marked
  keep, which it then marks install. The APT candidate's version is compared with the
  requirement; no version is chosen (src/install_util.rs:197-221).
- The MPR test of the planner panics when a control file parses but has no `Version` field, or
  when such a package has no candidate (mist-cli/src/install_util.rs:158-161).
  `Planner.CollectChanges` and `Planner.OrderMprPackages` return `None` exactly then.

## Model

| member | source | states |
|---|---|---|
| Planner.MprTest | mist-cli/src/install_util.rs:158-161 | reference definition, no contract of its own: the `if let` chain, false for an unreadable or unparsable control file, the panic for a missing `Version` or then a missing candidate, else the version comparison; `Planner.MprTestCases` states both iffs |
| Planner.MprTestCases | mist-cli/src/install_util.rs:158-164 | the MPR test panics exactly when the control file parsed without a `Version` field, or with one while the package has no candidate; it holds exactly when the parsed `Version` equals the candidate's version; an unreadable or unparsable file gives false |
| Planner.Tracked | mist-cli/src/install_util.rs:155-217 | the tracked packages are exactly the changes that pass the MPR test, each has a candidate, and there are no more of them than changes |
| Planner.CollectChanges | mist-cli/src/install_util.rs:152-217 | the collection panics (`None`) exactly when the test panics on some change; otherwise there is exactly one batch, and it holds exactly the MPR changes in enumeration order |
| Planner.Initial | mist-cli/src/install_util.rs:152-217 | reference definition, no contract of its own: one batch holding the tracked changes; `Planner.CollectChanges` is proved to compute it |
| Planner.Blocked | mist-cli/src/install_util.rs:231-267 | reference definition, no contract of its own: some package of batch `i` or a later one, the package itself included, provides or is named by one of its dependencies; `Planner.ScanSpec` and `Planner.SettledOrdersDependencies` state what it means for the loop |
| Planner.ScanBatch | mist-cli/src/install_util.rs:231-267 | a position found in batch `i` from position `j` is in that batch at or after `j`; `Planner.ScanBatchSpec` proves it is the first blocked one |
| Planner.ScanBatchSpec | mist-cli/src/install_util.rs:231-267 | scanning one batch from a position finds nothing iff no later position in it is blocked; otherwise it finds the first blocked position |
| Planner.ScanFromSpec | mist-cli/src/install_util.rs:230-269 | scanning batches from `i` finds nothing iff no position in them is blocked; otherwise it finds the first blocked position in batch-then-position order |
| Planner.ScanSpec | mist-cli/src/install_util.rs:226-269 | a pass finds nothing exactly when the batches are settled; otherwise it finds the first blocked package, where blocked means that some package in its own batch or a later one, itself included, provides or is named by one of its dependencies |
| Planner.DependsOnLater | mist-cli/src/install_util.rs:251-267 | the inner loops report a hit iff some package of batches `i..` satisfies a dependency name of `p` by its name or its provides |
| Planner.FindChange | mist-cli/src/install_util.rs:226-269 | the pass's search returns the first blocked position, or none when the batches are settled |
| Planner.ScanFrom | mist-cli/src/install_util.rs:226-269 | a position found in batches `i..` lies in range, in batch `i` or later; `Planner.ScanFromSpec` proves it is the first blocked one |
| Planner.Move | mist-cli/src/install_util.rs:271-282 | reference definition, no contract of its own: batch `i` loses its `j`-th package, which joins batch `i + 1`; `Planner.MoveEffect` and `Planner.MovePool` state its effect and `Planner.RemoveAndPush` is proved to compute it |
| Planner.Step | mist-cli/src/install_util.rs:226-282 | reference definition, no contract of its own: one pass moves the first blocked package, or changes nothing when none is blocked; `Planner.PassFacts` states what a pass keeps |
| Planner.Iterate | mist-cli/src/install_util.rs:224-283 | reference definition, no contract of its own: `n` passes from the initial batches; `Planner.IteratePreserves` and `Planner.OrderMprPackages` state its properties |
| Planner.MoveEffect | mist-cli/src/install_util.rs:271-282 | a move removes exactly the `j`-th package of batch `i` and appends it to batch `i + 1`, creating that batch when `i` was last; every other batch is unchanged |
| Planner.RemoveAndPush | mist-cli/src/install_util.rs:271-282 | the `remove`/`push` code performs exactly that move |
| Planner.MovePool | mist-cli/src/install_util.rs:271-282 | a move keeps the multiset of packages across all batches |
| Planner.MovePot | mist-cli/src/install_util.rs:224-283 | moving a package one batch later lowers the potential by exactly one, and the potential serves as the termination measure |
| Planner.MoveRankBound | mist-cli/src/install_util.rs:224-283 | when dependencies strictly decrease a rank, moving a blocked package never puts any package beyond its rank |
| Planner.MoveFacts | mist-cli/src/install_util.rs:271-282 | a move of a blocked package keeps the rank bound and the multiset, lowers the potential by one, and removes no batch |
| Planner.PassFacts | mist-cli/src/install_util.rs:226-282 | a pass that finds a blocked package performs the move at that position, and the move keeps the loop's invariants |
| Planner.IteratePreserves | mist-cli/src/install_util.rs:226-283 | after `n` passes the multiset of packages is unchanged and the batch count has not decreased and has grown by at most `n` |
| Planner.BatchNames | mist-cli/src/install_util.rs:285-291 | one list per batch, whose `k`-th list holds the names of batch `k` in order; `Planner.CollectNames` is proved to compute it |
| Planner.CollectNames | mist-cli/src/install_util.rs:285-291 | the returned lists are the batches' package names, batch by batch and in order |
| Planner.OrderMprPackages | mist-cli/src/install_util.rs:152-292 | the result is `None` (the panic) exactly when the MPR test panics on some change; otherwise, for ranked (acyclic) dependencies, the loop terminates and returns the names of a settled number of passes from the initial batch |
| Planner.SettledOrdersDependencies | mist-cli/src/install_util.rs:226-269 | in settled batches every package a package depends on sits in a strictly earlier batch |
| Planner.SettledEdge | mist-cli/src/install_util.rs:226-269 | in settled batches a dependency's first batch is strictly before its dependent's |
| Planner.SettledChain | mist-cli/src/install_util.rs:226-269 | along a chain of `t` dependency steps the batch index falls by at least `t` |
| Planner.CycleNeverSettles | mist-cli/src/install_util.rs:224-283 | a dependency cycle among the packages, a self-dependency included, makes every batch sequence unsettled, so the loop cannot stop |
| Planner.GetInclusive | mist-cli/src/install_util.rs:326 | `get(lo..=hi)` is in range iff `lo <= hi + 1` and `hi < len`, so the slice ending at `len` is always `None` |
| Planner.Bases | mist-cli/src/install_util.rs:301-310 | every name is replaced by its package base, and each batch's shape and element order are kept |
| Planner.PkgnamesToPkgbases | mist-cli/src/install_util.rs:297-346 | the result is absent iff some name has no MPR entry (the `unwrap` panic); otherwise it is the plain mapping to bases, since the dedup loop removes nothing |
| MprResolver.AptEngine.MarkInstall | src/install_util.rs:215 | marking sets exactly that package to install, automatic unless requested by the user, and leaves every other mark unchanged |
| MprResolver.DepGroups | src/install_util.rs:146-168 | reference definition, no contract of its own: the selected depends, makedepends and checkdepends lists, in that order; `MprResolver.SelectDepGroups` is proved to compute it |
| MprResolver.Resolve | src/install_util.rs:125-257 | reference definition, no contract of its own: the depth check, then the groups; `MprResolver.ResolveMprPackage` is proved to compute it and `MprResolver.ResolveFacts` and `MprResolver.ResolveNeedsApt` state its properties |
| MprResolver.Groups | src/install_util.rs:183-254 | reference definition, no contract of its own: the groups in order, stopping at the first failure; `MprResolver.GroupsFacts` and `MprResolver.GroupsNeedApt` state its properties |
| MprResolver.Alternatives | src/install_util.rs:187-244 | reference definition, no contract of its own: a group's alternatives left to right, up to the first that satisfies it; `MprResolver.AltFacts` and `MprResolver.AlternativesStop` state its properties |
| MprResolver.TryAlternative | src/install_util.rs:188-243 | reference definition, no contract of its own: an APT package of the name first, the MPR package only when there is none; `MprResolver.TryFacts`, `MprResolver.AcceptedOnlyByApt` and `MprResolver.AptShadowsMpr` state its properties |
| MprResolver.Order | src/install_util.rs:261-279 | reference definition, no contract of its own: each requested package followed by what resolving it returns; `MprResolver.OrderMprPackages` is proved to compute it and `MprResolver.OrderReturnsInput` states its result |
| MprResolver.Select | src/install_util.rs:159-166 | reference definition, no contract of its own: the list under `(distro, arch)`, else `(distro, –)`, else `(–, arch)`, else `(–, –)`; `MprResolver.SelectIsFallback` and `MprResolver.FirstPresentSpec` state it as the first present key |
| MprResolver.Conflicts | src/install_util.rs:170-180 | reference definition, no contract of its own: the conflicts selected the same way; `MprResolver.ConflictsUnused` proves they play no part in the result or the marks |
| MprResolver.AptVersionOk | src/install_util.rs:196-208 | reference definition, no contract of its own: true without a version bound, the `candidate().unwrap()` panic without a candidate, the `operator.unwrap()` panic without an operator, else the comparison; `MprResolver.AcceptedOnlyByApt` and `MprResolver.ResolveNeedsApt` state what it decides |
| MprResolver.MprVersionOk | src/install_util.rs:223-233 | reference definition, no contract of its own: the same check against the MPR package's version, without the candidate case; used by `MprResolver.TryAlternative`, which `MprResolver.ResolveMprPackage` is proved to compute |
| MprResolver.Limit | src/install_util.rs:266 | reference definition, no contract of its own: the configured `APT::pkgPackageManager::MaxLoopCount`, else 50; `MprResolver.OrderMprPackages` is proved to resolve under it and `MprResolver.OrderBelowLimit` states the effect of a limit below 1 |
| MprResolver.FirstPresentSpec | src/install_util.rs:154-168 | a list is found iff one of the keys is present, and it is the list under the first present key |
| MprResolver.SelectIsFallback | src/install_util.rs:159-166 | the `if let` chain is the ordered lookup over (distro,arch), (distro,-), (-,arch), (-,-) |
| MprResolver.SelectDepGroups | src/install_util.rs:146-168 | the groups are the selected depends, makedepends and checkdepends lists, concatenated in that order |
| MprResolver.ResolveMprPackage | src/install_util.rs:125-257 | the method's result and the marks it leaves are those of `Resolve`: the depth check, the groups in order, alternatives tried left to right with APT first, and the error exits |
| MprResolver.OrderMprPackages | src/install_util.rs:261-279 | each root is pushed and then resolved at depth 1, using the configured limit or 50 |
| MprResolver.KeepToInstallTrans | src/install_util.rs:211-219 | the relation "only keep marks became install marks" is transitive across successive steps |
| MprResolver.ResolveFacts | src/install_util.rs:141-256 | resolution only turns keep marks into automatic install marks, and a successful result is always the empty list |
| MprResolver.GroupsFacts | src/install_util.rs:183-254 | the group loop changes marks only from keep to install and returns only what it was given to collect |
| MprResolver.AltFacts | src/install_util.rs:187-244 | the alternative loop changes marks only from keep to install and collects nothing new |
| MprResolver.TryFacts | src/install_util.rs:188-243 | one alternative changes marks only from keep to install and collects nothing new |
| MprResolver.AcceptedOnlyByApt | src/install_util.rs:195-243 | a group is satisfied only if one of its alternatives is an APT package whose candidate meets the version bound; the MPR branch never satisfies it |
| MprResolver.GroupsNeedApt | src/install_util.rs:183-254 | when the group loop succeeds, every group has a satisfying APT alternative |
| MprResolver.ResolveNeedsApt | src/install_util.rs:132-254 | a package resolves only within the depth limit, only if it is in the MPR, and only if each of its selected groups has a satisfying APT alternative |
| MprResolver.AlternativesStop | src/install_util.rs:210-253 | once an alternative ends the group, by acceptance or by an error, the alternatives after it are never consulted |
| MprResolver.AptShadowsMpr | src/install_util.rs:195-222 | an alternative that names an APT package is decided by APT alone: the MPR catalog makes no difference and nothing is collected |
| MprResolver.ConflictsUnused | src/install_util.rs:170-180 | conflicts play no part in resolution: removing them changes neither the result nor the marks |
| MprResolver.GroupsConflictsUnused | src/install_util.rs:183-254 | the group loop does not depend on the conflicts |
| MprResolver.AltConflictsUnused | src/install_util.rs:187-244 | the alternative loop does not depend on the conflicts |
| MprResolver.TryConflictsUnused | src/install_util.rs:188-243 | one alternative does not depend on the conflicts |
| MprResolver.OrderReturnsInput | src/install_util.rs:268-278 | `order_mpr_packages` returns its input names unchanged and in order, and changes marks only from keep to install |
| MprResolver.OrderBelowLimit | src/install_util.rs:132-138 | roots start at depth 1, so a limit below 1 rejects any non-empty request with the recursion-limit error |
| Update.Diagnostics | src/update.rs:23-31 | reference definition, no contract of its own: the messages of the pieces in order; `Update.DiagnosticsMembers` and `Update.DiagnosticsAppend` state its properties |
| Update.Rebuild | src/update.rs:70-93 | reference definition, no contract of its own: a missing `.deb` means rebuild, a missing control file means no rebuild, a control file that cannot be read or parsed, or has no `Version`, is a panic, and otherwise a rebuild iff the versions differ; `Update.ToBuildSpec` states it per package |
| Update.ToBuild | src/update.rs:67-94 | reference definition, no contract of its own: the names to rebuild in iteration order, or the first panic; `Update.CollectToBuild` is proved to compute it and `Update.ToBuildSpec` and `Update.ToBuildErrSticky` state its properties |
| Update.Classify | src/update.rs:23-31 | a piece starting with `E:` becomes an error message with the prefix stripped, a piece starting with `W:` a warning; any other piece gives nothing |
| Update.DiagnosticsMembers | src/update.rs:23-31 | every message comes from a piece, and every `E:`/`W:` piece gives its message |
| Update.DiagnosticsAppend | src/update.rs:23-31 | the messages of consecutive runs of pieces follow one another, so order is kept |
| Update.UpdateMessages | src/update.rs:23-31 | the loop prints the messages of the `;`-separated pieces, in order |
| Update.ToBuildSpec | src/update.rs:67-94 | the schedule panics iff some package's check panics; otherwise a name is scheduled iff its `.deb` is missing, or its control file exists and its `Version` differs from the MPR version; a `.deb` without a control file is not rebuilt |
| Update.ToBuildErrSticky | src/update.rs:67-94 | a panic on an earlier package is the panic of the whole schedule |
| Update.CollectToBuild | src/update.rs:68-94 | the loop that fills `to_build` computes the schedule |
| Update.AllDeps | src/update.rs:112-117 | reference definition, no contract of its own: the depends, makedepends and checkdepends lists that are present, in that order; `Update.RouteDepends` and `Update.StanzaFields` state how its entries are routed |
| Update.PlainDeps | src/update.rs:109-126 | the depends list is no longer than the input |
| Update.PreDeps | src/update.rs:109-126 | the pre-depends list is no longer than the input |
| Update.RoutingPartition | src/update.rs:109-126 | every entry lands in exactly one list: without `p!` in depends, with `p!` in pre-depends with the prefix stripped |
| Update.RoutingAppend | src/update.rs:109-126 | routing consecutive lists appends their routings, so relative order is kept |
| Update.RouteList | src/update.rs:118-124 | one list's loop appends its unprefixed entries to depends and its stripped `p!` entries to pre-depends |
| Update.RouteDepends | src/update.rs:109-126 | depends and pre-depends are the routings of depends, makedepends and checkdepends, in that order |
| Update.Controls | src/update.rs:129-135 | each item is rendered by `as_control`, in order |
| Update.FieldLine | src/update.rs:103-162 | reference definition, no contract of its own: one field as `Name: value`; `Update.FieldLines` and `Update.StanzaRoundTrip` state its properties |
| Update.FieldLines | src/update.rs:102-163 | one `Name: value` line per field, in order |
| Update.AppendRelation | src/update.rs:128-163 | adding a relation field after the present ones keeps the canonical field order; the field is present iff its list is non-empty |
| Update.BaseFields | src/update.rs:102-107 | reference definition, no contract of its own: the Package, Version, Architecture and Description fields; `Update.BaseFieldsFacts` states their names and values |
| Update.RelationField | src/update.rs:128-150 | reference definition, no contract of its own: a relation field, present when its list is non-empty; `Update.AppendRelation` states its presence and order |
| Update.DependencyFields | src/update.rs:102-150 | reference definition, no contract of its own: the fields before `Conflicts`; `Update.DependencyFieldsFacts` states their presence and order |
| Update.BaseFieldsFacts | src/update.rs:102-107 | the stanza starts with Package, Version, `Architecture: all` and Description, in that order |
| Update.DependencyFieldsFacts | src/update.rs:102-150 | after the base fields, `Depends` is present iff the depends list is non-empty and `Pre-Depends` iff the pre-depends list is non-empty, in canonical order, with no `Conflicts` yet |
| Update.Stanza | src/update.rs:102-163 | reference definition, no contract of its own: the fields of the control file in the order the code appends them; `Update.StanzaFields` states their order and presence |
| Update.Render | src/update.rs:102-163 | reference definition, no contract of its own: one line per field, each ended by a newline; `Update.StanzaRoundTrip` proves the fields can be read back from it |
| Update.StanzaFields | src/update.rs:102-163 | the stanza fails exactly when the conflicts lookup is `Some` of an empty list; otherwise the fields rise in canonical order and `Conflicts` is present iff the lookup is `Some` |
| Update.StanzaRoundTrip | src/update.rs:102-163 | reading the rendered stanza back line by line gives its fields in order, for names without colons and values without newlines |
| Update.ControlItems | src/update.rs:128-163 | an empty list gives no field, the `pop().unwrap()` failure; otherwise the relations are joined by `", "` with no trailing separator |
| Update.ControlFile | src/update.rs:101-163 | the control file is the rendered stanza, or the panic when the conflicts list is empty |
| Update.Append | src/update.rs:102-163 | one `push_str` of `Name: value\n` gives the rendering of the stanza with that field added |
| Cache.ArchAt | src/cache.rs:271 | reference definition, no contract of its own: `:.*$` matches at `i`: a colon with no newline after it; `Cache.FirstArch`, `Cache.StripArch` and `Cache.FirstColonStripped` state what stripping cuts |
| Cache.FirstArch | src/cache.rs:271-276 | the position found is the leftmost match of `:.*$` at or after `from` |
| Cache.StripArch | src/cache.rs:271-276 | a name with no match is unchanged; otherwise it is cut at its leftmost match |
| Cache.FirstColonStripped | src/cache.rs:271-276 | a name without newlines loses its first colon and everything after it |
| Cache.NoColonKept | src/cache.rs:271-276 | a name without a colon is kept unchanged |
| Cache.StripIdempotent | src/cache.rs:271-276 | a stripped name has no colon, so stripping twice equals stripping once |
| Cache.AptEntry | src/cache.rs:275-294 | reference definition, no contract of its own: the entry pushed for an APT package with a candidate, its name stripped of the architecture; `Cache.NewCache` is proved to push exactly these entries |
| Cache.MprEntry | src/cache.rs:297-313 | reference definition, no contract of its own: the entry pushed for an MPR package; `Cache.NewCache` is proved to push exactly these entries |
| Cache.NewCache | src/cache.rs:267-317 | the merge fails iff some APT package has no candidate; otherwise it holds all APT entries (source Apt, no `pkgbase`) followed by all MPR entries in order, and its length is the sum of the two |
| Cache.Names | src/cache.rs:321-331 | the names of the entries, in order |
| Cache.Insert | src/cache.rs:321-331 | inserting into a sorted list keeps it sorted and adds exactly that name |
| Cache.SortNames | src/cache.rs:321-331 | `sort_unstable` gives a sorted permutation of the names |
| Cache.DedupSorted | src/cache.rs:321-331 | `dedup` on a sorted list gives a strictly sorted list with the same names |
| Cache.UniquePkgnames | src/cache.rs:321-331 | the unique names are strictly sorted, so duplicate-free, and are exactly the names of the cache |
| Cache.StrictlySortedHead | src/cache.rs:321-331 | the head of a strictly sorted list occurs only once and is below every other element |
| Cache.StrictlySortedUnique | src/cache.rs:321-331 | two strictly sorted lists with the same names are equal, so the unique names are determined by the cache |
| Cache.WithName | src/cache.rs:334-347 | reference definition, no contract of its own: the entries with one name, in cache order; `Cache.WithNameMembers` and `Cache.WithNameAppend` state its properties and `Cache.PackageMap` is proved to map each name to it |
| Cache.WithNameMembers | src/cache.rs:334-347 | the entries under a name are exactly the cache's entries with that name |
| Cache.WithNameAppend | src/cache.rs:334-347 | the entries under a name of two stretches of the cache follow one another, so cache order is kept |
| Cache.NameSetStep | src/cache.rs:337-344 | one more entry adds exactly its name to the set of names |
| Cache.WithNameStep | src/cache.rs:337-344 | one more entry is appended to its own name's entries and to no other name's |
| Cache.PackageMap | src/cache.rs:334-347 | the keys are exactly the names, each value lists every entry with that name in cache order, and no value is empty |
| Cache.HasSource | src/cache.rs:351-391 | the early-return loop holds iff some entry comes from the source |
| Cache.AvailableFromSource | src/cache.rs:351-391 | over the name map, a name has an entry of a source iff the cache has an entry with that name and source |
| Cache.AvailableApt | src/cache.rs:351-371 | reference definition, no contract of its own: `available_apt`; `Cache.AvailableAptSpec` states when it holds |
| Cache.AvailableMpr | src/cache.rs:373-391 | reference definition, no contract of its own: `available_mpr`; `Cache.AvailableMprSpec` states when it holds |
| Cache.AvailableAptSpec | src/cache.rs:351-371 | `available_apt` holds iff some entry of that name has source Apt, and is false for absent names |
| Cache.AvailableMprSpec | src/cache.rs:373-391 | `available_mpr` holds iff some entry of that name has source Mpr, and is false for absent names |
| Cache.ClassifyTransaction | src/cache.rs:395-413 | the loop fills the four lists by first mark, with the priority install, delete, downgrade, upgrade |
| Cache.ChangeOf | src/cache.rs:404-412 | reference definition, no contract of its own: the first of a package's marks in the order install, delete, downgrade, upgrade; `Cache.ListedMembers` and `Cache.NothingToDo` state what it decides |
| Cache.Listed | src/cache.rs:401-413 | reference definition, no contract of its own: the names joining one change's list, in cache order; `Cache.ListedMembers` and `Cache.ListsPartition` state its properties and `Cache.ClassifyTransaction` is proved to compute it |
| Cache.ListedMembers | src/cache.rs:401-413 | a name is in a list iff a package of that name has that list's change as its first mark |
| Cache.ListsPartition | src/cache.rs:401-413 | each marked package enters exactly one list, so the lists' lengths add up to the number of marked packages |
| Cache.NothingToDo | src/cache.rs:453-512 | "Nothing found to do" happens iff all four lists are empty, iff no package carries a mark |
| Cache.NeedsRefresh | src/cache.rs:84-128 | a refresh happens iff the file's age is strictly above 300 seconds, or the file is missing (error 2) and can be created; other OS errors, or a failed create, exit; a file dated in the future underflows |
| Cache.RefreshMonotone | src/cache.rs:84-128 | an archive that is due for a refresh stays due as time passes |
| Install.Route | src/install.rs:38-60 | reference definition, no contract of its own: where one request goes; `Install.RoutedMembers` states its consequences |
| Install.Routed | src/install.rs:38-60 | reference definition, no contract of its own: the requests going to one side, in order; `Install.RoutedMembers`, `Install.RoutedIndices` and `Install.RoutedSizes` state its properties |
| Install.Plan | src/install.rs:22-60 | reference definition, no contract of its own: the unknown names, or the two lists; `Install.PlanInstall` is proved to compute it and `Install.AbortBeforePrompt` states its error case |
| Install.Missing | src/install.rs:22-36 | reference definition, no contract of its own: the requested names neither catalog knows, one report per request; `Install.MissingMembers`, `Install.NoneMissing` and `Install.MissingSame` state its properties |
| Install.MissingMembers | src/install.rs:22-36 | a name is reported exactly when it was requested and neither catalog knows it |
| Install.NoneMissing | src/install.rs:22-36 | nothing is reported iff every request is known to APT or the MPR |
| Install.RoutedMembers | src/install.rs:38-60 | a name goes to APT iff APT has it and either the MPR lacks it or the user answered `APT`; it goes to the MPR iff the MPR has it and either APT lacks it or the answer was not `APT` |
| Install.RoutedIndices | src/install.rs:38-60 | each list holds every request routed to it, at increasing request positions, so request order is kept |
| Install.RoutedSizes | src/install.rs:38-60 | when every request is known, each one lands in exactly one of the two lists |
| Install.AbortBeforePrompt | src/install.rs:22-36 | when a name is unknown, the outcome is the same whatever the user would answer, so no prompt matters |
| Install.MissingSame | src/install.rs:22-36 | the reports depend only on the requests and the catalogs |
| Install.PlanInstall | src/install.rs:22-60 | the validation and partition loops compute the plan: the unknown names, or the two lists |
| Install.Accepted | src/install.rs:63-73 | the names before the first refused mark are accepted, and the next one is refused |
| Install.MarkedManual | src/install.rs:63-73 | the marked names are added to the marks |
| Install.MarkedManualSpec | src/install.rs:63-73 | a marked name becomes a manual install, and every other name keeps its mark |
| Install.MarkAll | src/install.rs:63-73 | the names up to the first refusal are marked manual, and a refusal aborts naming that package |
| Install.RunInstall | src/install.rs:22-76 | an unknown name aborts with no mark changed; otherwise all APT names are marked before the MPR list is returned, and a refused mark aborts |
| Upgrade.DpkgMap | src/upgrade.rs:23-27 | reference definition, no contract of its own: the stanzas inserted in order, or the panic on one without `Package`; `Upgrade.DpkgMapOk`, `Upgrade.DpkgMapKeys` and `Upgrade.DpkgMapEntry` state its properties |
| Upgrade.Decide | src/upgrade.rs:33-49 | reference definition, no contract of its own: what the loop does with one package; `Upgrade.MarkedOnlyFromApt`, `Upgrade.QueuedOnlyFromMpr` and `Upgrade.NeverBoth` state its properties |
| Upgrade.DpkgMapOk | src/upgrade.rs:23-27 | the map is built iff every stanza has a `Package` field |
| Upgrade.DpkgMapKeys | src/upgrade.rs:23-27 | the keys are exactly the packages the stanzas name |
| Upgrade.DpkgMapEntry | src/upgrade.rs:23-27 | each key holds the last stanza naming it, so a later duplicate overwrites an earlier one |
| Upgrade.BuildDpkgMap | src/upgrade.rs:23-27 | the insertion loop builds that map |
| Upgrade.DpkgErrSticky | src/upgrade.rs:23-27 | once a stanza without `Package` is met, the whole map fails |
| Upgrade.Select | src/upgrade.rs:30-50 | the selection never drops a marked package |
| Upgrade.MarkedOnlyFromApt | src/upgrade.rs:36-38 | a mark changes only when the command is not MPR-only and the package is upgradable, in dpkg status, and has no `MPR-Package` field |
| Upgrade.QueuedOnlyFromMpr | src/upgrade.rs:39-49 | a package is queued only when the command is not APT-only, its stanza has `MPR-Package`, and its installed version is strictly older than the MPR's |
| Upgrade.NeverBoth | src/upgrade.rs:36-39 | no package is both marked for APT and queued for the MPR |
| Upgrade.OnlyFlags | src/upgrade.rs:36-39 | with APT-only the MPR queue is empty; with MPR-only no mark changes |
| Upgrade.QueueGrows | src/upgrade.rs:33-47 | the queue of a prefix of the packages is a prefix of the whole queue |
| Upgrade.QueuedInOrder | src/upgrade.rs:33-47 | the package queued at step `n` comes right after everything queued before it, so the queue follows the package order |
| Upgrade.SelectLoop | src/upgrade.rs:30-50 | the loop's queue and marks are those of the selection |
| Upgrade.SelectUpgrades | src/upgrade.rs:23-50 | a broken dpkg map aborts with no mark changed; otherwise the queue and marks are those of the selection over that map |
| Upgrade.SelectErrSticky | src/upgrade.rs:30-50 | after a panic the remaining packages change nothing |
| Search.MatchesAny | src/search.rs:14-20 | reference definition, no contract of its own: some argument is in the name, or in the lower-cased description; `Search.FoundMembers` states that exactly such packages are found |
| Search.Found | src/search.rs:12-27 | reference definition, no contract of its own: the matches in archive order, each added unless an equal one is there; `Search.FoundMembers`, `Search.FoundDistinct` and `Search.FoundIndices` state its properties |
| Search.FoundMembers | src/search.rs:12-27 | a package matches iff it is in the archive and, for some argument, its name (case-sensitive) or its lower-cased description contains that argument |
| Search.FoundDistinct | src/search.rs:14-20 | the matches never hold the same package twice |
| Search.FoundIndices | src/search.rs:12-27 | matches sit at increasing archive positions, so they appear in catalog order |
| Search.FindMatches | src/search.rs:12-27 | the nested loop, with its `contains` guards, computes the matches |
| Search.EntryText | src/search.rs:44-69 | reference definition, no contract of its own: the printed lines of one match, each ended by a newline; `Search.EntryLines` states the lines and `Search.EntryTexts` the texts of all matches |
| Search.EntryLines | src/search.rs:46-69 | an entry's lines: name/version; the description only if present; the maintainer only if present; votes; popularity; out of date, `N/A` when absent |
| Search.EntryTexts | src/search.rs:41-74 | one text per match, in order |
| Search.PrintMatches | src/search.rs:29-74 | no matches print `No results.` alone; otherwise the entries are separated by a blank line, with none after the last |
| Search.EntryStep | src/search.rs:41-74 | one more entry extends the output by a newline, except for the first entry, and then by its own text |
| Search.RunSearch | src/search.rs:6-75 | `search` prints `No results.` or the joined entries of the matches |
| List.Searched | src/list.rs:18-25 | reference definition, no contract of its own: the `flat_map` of the queries' search results; `List.SearchedAppend` and `List.SearchedMembers` state its properties |
| List.Gathered | src/list.rs:18-25 | reference definition, no contract of its own: the whole package list without queries, else the search results; `List.ListedNamesSpec` states the names shown from it |
| List.Installed | src/list.rs:27-34 | reference definition, no contract of its own: the entry reports the package installed (`isInstalled == Some(true)`); `List.SelectedMembers` states the filter |
| List.ModeKeeps | src/list.rs:36-46 | reference definition, no contract of its own: the source test of each of the three `match` arms; `List.SelectedMembers` states the filter |
| List.Selected | src/list.rs:27-46 | reference definition, no contract of its own: the packages the mode and the installed flag keep; `List.SelectedMembers` states which |
| List.UniqueFrom | src/list.rs:48-51 | reference definition, no contract of its own: `unique_by` on names; `List.UniqueDistinct`, `List.UniqueHas`, `List.UniqueIndices` and `List.UniqueFirst` state its properties |
| List.UniqueByName | src/list.rs:48-51 | reference definition, no contract of its own: `unique_by` on names from no seen names; `List.UniqueDistinct`, `List.UniqueHas`, `List.UniqueIndices` and `List.UniqueFirst` state its properties |
| List.ListedNames | src/list.rs:18-51 | reference definition, no contract of its own: the names `list` shows; `List.ListedNamesSpec` states them |
| List.ListOutput | src/list.rs:53-59 | reference definition, no contract of its own: what `list` returns; `List.NameOnlyOutput` and `List.FullOutput` state it per mode |
| List.SearchedAppend | src/list.rs:18-25 | the results of consecutive runs of queries follow one another, in query order |
| List.SearchedMembers | src/list.rs:18-25 | a package is gathered iff some query's search returns it |
| List.Filter | src/list.rs:27-46 | a filter never lengthens the list |
| List.FilterMembers | src/list.rs:27-46 | an element is kept iff it is in the input and passes the test |
| List.FilterIndices | src/list.rs:27-46 | the kept elements are every passing element, at increasing input positions |
| List.SelectedMembers | src/list.rs:27-46 | a package survives iff it is installed (when installed-only is set) and its source fits the mode: AptOnly keeps Apt, MprOnly keeps Mpr, no mode keeps all |
| List.UniqueDistinct | src/list.rs:48-51 | the kept names are distinct |
| List.UniqueHas | src/list.rs:48-51 | a name is kept iff the input has it |
| List.UniqueIndices | src/list.rs:48-51 | the kept packages sit at increasing input positions, so order is kept |
| List.UniqueFirst | src/list.rs:48-51 | each kept package is the first of the input with its name |
| List.ListedNamesSpec | src/list.rs:18-51 | the names shown are distinct, and they are exactly the names of the gathered packages that pass the filters |
| List.NameOnlyOutput | src/list.rs:53-54 | in name-only mode the output joins the names by newlines with none after the last, and splitting it at newlines gives back the names |
| List.FullOutput | src/list.rs:53-59 | otherwise the output succeeds iff every entry does, and it joins the names' entries by blank lines, in order, with none after the last |
| Style.Chosen | src/style.rs:56-76 | reference definition, no contract of its own: the version and description shown; `Style.EntryPrecedence` states its precedence |
| Style.EntryText | src/style.rs:17-130 | reference definition, no contract of its own: the block for one name, or its panic; `Style.Entry` is proved to compute it and `Style.EntryNoDescription` and `Style.EntryNoOutOfDate` state its properties |
| Style.KeptNames | src/style.rs:143-168 | reference definition, no contract of its own: the names kept, in input order; `Style.KeptMembers` states which are kept and `Style.FilterNames` is proved to compute it |
| Style.EntriesText | src/style.rs:132-186 | reference definition, no contract of its own: the entries text; `Style.Entries` is proved to compute it and `Style.BlocksSpec` and `Style.BlocksErrSticky` state its properties |
| Style.Sources | src/style.rs:33-54 | reference definition, no contract of its own: the tags of the package's sources, APT first; `Style.SourceTag` states them |
| Style.Header | src/style.rs:26-80 | reference definition, no contract of its own: the name, the version shown and the source tag; `Style.Entry` is proved to build the block from it |
| Style.DescriptionLine | src/style.rs:81-87 | reference definition, no contract of its own: the description line, `N/A` without a description; `Style.EntryNoDescription` states the default |
| Style.MprLines | src/style.rs:90-126 | reference definition, no contract of its own: maintainer if any, votes, popularity and the out-of-date line; `Style.EntryNoOutOfDate` states the last line |
| Style.OutOfDateLine | src/style.rs:114-126 | reference definition, no contract of its own: the out-of-date date or `N/A`, under the label `Popularity:`; `Style.EntryNoOutOfDate` states it |
| Style.MprPart | src/style.rs:89-127 | reference definition, no contract of its own: the MPR lines when the MPR has the name, else nothing; `Style.Entry` is proved to build the block from it |
| Style.SourceTag | src/style.rs:33-54 | the tag is `[APT, MPR]`, `[APT]` or `[MPR]`, with APT before MPR; no sources means the name is in neither catalog |
| Style.EntryPrecedence | src/style.rs:56-76 | the version and description come from an installed APT package, else from the MPR, else from the APT candidate |
| Style.EntryNoDescription | src/style.rs:81-87 | a missing description shows `N/A` |
| Style.EntryNoOutOfDate | src/style.rs:114-126 | an MPR package's block ends with its out-of-date value, `N/A` when absent, under the label `Popularity:` |
| Style.Entry | src/style.rs:17-130 | name-only mode returns the name unchanged; otherwise the `write!` calls build the block, or panic as it does |
| Style.Kept | src/style.rs:147-164 | reference definition, no contract of its own: the filters of the first loop, with a name missing from APT always dropped; `Style.KeptMembers` states which names are kept |
| Style.KeptMembers | src/style.rs:143-168 | a name is kept iff APT has it, the MPR has it too when MPR-only is set, and it is installed when installed-only is set; the APT-only flag makes no difference |
| Style.Blocks | src/style.rs:172-183 | reference definition, no contract of its own: the blocks of the names in order, or the first panic; `Style.BlocksSpec`, `Style.BlocksStep` and `Style.BlocksErrSticky` state its properties |
| Style.EntryResults | src/style.rs:172-183 | reference definition, no contract of its own: each name's entry, a block or its panic; `Style.EntryResultsSpec` states it position by position |
| Style.Collect | src/style.rs:172-183 | reference definition, no contract of its own: the values in order, or the first error; `Style.CollectSpec` states when it succeeds and with what |
| Style.BlocksStep | src/style.rs:172-183 | the blocks of one more name are those before it followed by its own, unless one of them panics |
| Style.FilterNames | src/style.rs:143-168 | the filtering loop keeps exactly the kept names, in input order |
| Style.JoinEntries | src/style.rs:170-185 | in name-only mode each name is followed by a newline; otherwise the blocks are separated by blank lines and the last is followed by a newline |
| Style.EntryResultsSpec | src/style.rs:172-183 | there is one entry result per name, and it is that name's entry |
| Style.CollectSpec | src/style.rs:172-183 | collecting succeeds iff every result does, and then holds the values in order |
| Style.BlocksSpec | src/style.rs:172-183 | the blocks succeed iff every name's entry does, and then they are those entries in order |
| Style.BlocksErrSticky | src/style.rs:172-183 | a panic on one block is the panic of the whole output |
| Style.Entries | src/style.rs:132-186 | `generate_pkginfo_entries` renders the kept names, in input order |
| Style.MprOnlyNeedsApt | src/style.rs:157-164 | a name missing from APT is never kept, even with MPR-only set |
| ListComments.Rendered | src/list_comments.rs:64-71 | reference definition, no contract of its own: one comment's date and author headings and trimmed message; `ListComments.RenderedShape` states its shape |
| ListComments.CommentsText | src/list_comments.rs:54-76 | reference definition, no contract of its own: the rendered comments with the rule between each two, or the panic when there are none; `ListComments.RenderComments` is proved to compute it and `ListComments.RuleBetween` and `ListComments.SingleComment` state its properties |
| ListComments.KnownPkgbase | src/list_comments.rs:28 | reference definition, no contract of its own: the archive has the package base; `ListComments.CheckPkgbase` and `ListComments.ListComments` state the abort when it fails |
| ListComments.RenderedAll | src/list_comments.rs:58-76 | reference definition, no contract of its own: each comment's rendering, in order; `ListComments.RenderedAllSpec` and `ListComments.RenderStep` state its properties |
| ListComments.CollectPkgbases | src/list_comments.rs:20-26 | the collected bases are the archive's `pkgbase` values, in order |
| ListComments.CheckPkgbase | src/list_comments.rs:20-34 | the check passes iff the package base is among the archive's, and otherwise aborts naming it |
| ListComments.RenderedAllSpec | src/list_comments.rs:58-76 | the renderings are those of the comments, in order |
| ListComments.RenderStep | src/list_comments.rs:58-76 | one more comment adds the rule, except for the first, and then its own rendering |
| ListComments.RenderComments | src/list_comments.rs:54-76 | an empty list underflows `len() - 1`; otherwise the loop joins the renderings with the rule between consecutive comments and none after the last |
| ListComments.RuleBetween | src/list_comments.rs:55-75 | for `n` comments the text succeeds, begins with the first rendering and ends with the last, and its length is the renderings' total length plus `n - 1` times the rule's length |
| ListComments.SingleComment | src/list_comments.rs:73-75 | a single comment is shown alone, with no rule |
| ListComments.RenderedShape | src/list_comments.rs:64-71 | a comment renders as its `# Date:` and `# Author:` headings, a blank line, then its trimmed message, ending in no whitespace when the message is not blank |
| ListComments.PagingMode | src/list_comments.rs:79-83 | `always` gives Always, `never` gives Never, and anything else gives QuitIfOneScreen |
| ListComments.ListComments | src/list_comments.rs:14-91 | an unknown package base aborts; otherwise the command gives the rendered text and the paging mode, or the underflow |
| QuickList.Output | src/quick_list.rs:10-28 | reference definition, no contract of its own: the lines `quick_list` prints; `QuickList.AptFirst`, `QuickList.Occurrences` and `QuickList.Printed` state its properties |
| QuickList.Prefixed | src/quick_list.rs:10-28 | a name is kept iff it is listed and starts with the prefix |
| QuickList.PrefixedCount | src/quick_list.rs:10-28 | a kept name is kept as many times as it is listed |
| QuickList.PkgNames | src/quick_list.rs:20-28 | the MPR names, in archive order |
| QuickList.AptFirst | src/quick_list.rs:10-28 | all APT lines come before all MPR lines; MPR-only prints no APT line and APT-only no MPR line |
| QuickList.Occurrences | src/quick_list.rs:10-28 | a prefixed name is printed once per listing in each catalog that is not excluded, so a name in both catalogs is printed twice |
| QuickList.Printed | src/quick_list.rs:10-28 | a name is printed iff it starts with the prefix and a catalog that is not excluded has it |

## Left out

- The APT mirroring block of the planner (mist-cli/src/install_util.rs:101-218) is not modelled. It depends on engine state only. Only the MPR test and the push at lines 158-165 and 215-217 are modelled.
- Engine calls are not modelled: resolve, get_changes, do_install, candidate and provides queries, and `protect`. Provides and dependency names, the candidate's version (absent when there is no candidate) and the outcome of reading `<name>/DEBIAN/control` are fields of `Planner.Change`.
- These are abstract functions: `SplitPackage::new`, `as_control`, `check_version_requirement` and `cmp_versions`, `get_distro_arch_info`, `to_lowercase`, colours and chrono date formatting.
- The network is out of scope: HTTP requests, the comment endpoint and its JSON decoding, and the sleep/retry loop. The decoded comments and archives are inputs.
- The file system and processes are out of scope: archive decoding (`valid_archive`), `git`, `dpkg-deb`, editors and reading `/var/lib/dpkg/status`. Their results are inputs, such as `Update.PkgFiles` and `Cache.Metadata`.
- The interactive prompt and the transaction commit after classification (src/cache.rs:514-541) are I/O and are left out.
- The CLI glue (argument parsing, dispatch, `info`, `pkglist`, `clone`, `comment`) is left out. It is thin lookups around I/O.
- The pager itself (`bat`) is left out. `ListComments.ListComments` returns the text and the paging mode it would be given.
- The unhandled `SearchMode::Installed` arm is not modelled. Only the three arms the `match` in src/list.rs has are modelled.
- The cache's `search` and `pkglist` lookups in `list` are a function parameter and an input sequence, and `is_installed` is the `isInstalled` field of each cache entry. HashMap iteration order is not modelled.
- The `f32` popularity is an opaque string token.
- Rust panics (`unwrap`, `len() - 1`, subtraction underflow) are modelled as `Err`/`None` results, following debug-build overflow checks. In a release build the underflows would wrap, which is not modelled.
- Comment dates are unbounded integers, not `i64`.
- Cache.StripArch: follows the regex `:.*$`, where `.` stops at a newline. With a non-matching name the result is the name itself. This is proved in general; the first-colon form is proved only for names without newlines.
- Search.FoundIndices: states the increasing archive positions of the matches, but not that each match sits at the first archive position of that package.
- Planner.OrderMprPackages: requires a rank on the dependency relation. Without one the source's loop may not terminate, and `Planner.CycleNeverSettles` covers the cyclic case.
- MprResolver.AptEngine.MarkInstall: models only the mark of the named package. `mark_install(true, false)` at src/install_util.rs:215 also lets the engine mark that package's own dependencies for installation (its first argument, `auto_inst`); those further marks are engine behaviour and are not modelled.
- MprResolver.ResolveMprPackage: version comparison (`check_version_requirement`) and the APT candidate's version are abstract functions of the catalog. The resolver marks the engine's candidate and chooses no version (src/install_util.rs:197-221).
- Cache.SortNames: `sort_unstable` is modelled by insertion into a sorted list. The contract claims sortedness and the multiset only, which determine the result under a total order; the algorithm itself and its instability are not modelled.
