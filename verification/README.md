# Verification of the Ubuntu Pro Client's document, ordering and schedule logic

This project models the places where the Ubuntu Pro Client rewrites structured documents and orders or schedules
work, and proves what the rest of the client relies on. To check it, run `dafny verify dfyconfig.toml`.

| Files | What they model |
|---|---|
| `Json`, `Overlay`, `OverlayLaws`, `OverlayOrder`, `OverlayIds` | JSON documents and the overlay merge: the code, the tree function it computes, the algebra of that function, when documents absorb each other, and lists whose ids are missing or not unique |
| `Deltas`, `EntitlementDelta` | the structural difference of two access documents, that it is a correct patch, and what a contract refresh has to process |
| `Overrides`, `OverrideLaws`, `OverrideOrder` | contract overrides: weights, selection, layering; which value wins, by weight and by the keys of the selectors, and that layering again changes nothing |
| `DataTypes`, `DataTypeLaws` | typed data objects: parser and printer, driven by a schema datatype that nests objects, lists, dicts and enums |
| `Text`, `AptAuth`, `AptAuthLaws`, `AptAuthRuns`, `AptAuthLimits`, `AptAuthWords` | the apt auth file as text, its line editor, the order it keeps, whole runs of additions and removals, and inputs that a removal does not restore |
| `ServiceOrder`, `EnableOrder` | the depth-first sort of the services, and the stable sort of the requested ones |
| `AptProxy` | the two exclusive scopes of apt proxies, cached reads, legacy fields and the rendered file |
| `RetryAutoAttach` | the retry schedule of auto-attach over restarts |
| `Timer` | the two timer jobs over any series of ticks |
| `Sources`, `SourcesLaws`, `SourcesWords` | the one-line and deb822 forms of a repository file, and the conversion of the one to the other |

Code that loops or updates state in the client is a method here, or a class with the fields that the client keeps;
each is proved equal to a specification function (`Merge`, `Delta`, `Overridden`, `FromDict`, `ToDict`, `AddUrls`,
`VisitRoots`, `Execute`, `Invoke`, `TickAfter`, `ListLines` and so on), and the laws are proved of those functions. A
Python exception is a `Failure`, or `None` where nothing depends on which exception it is. A Python loop over a dict
takes its keys in an arbitrary order, so what is proved holds for every order.

Files are optional texts. What happens outside (whether a proxy is accepted, an attempt fails, a job raises, the
daemon is killed, the client is attached, what the clock says, which order `list(set(...))` takes) is a parameter, and
the theorems are about all values of it.

## What the proofs show about the code

- **When overlays compose.** Merging two overlays one after the other equals merging their merge if and only if,
  wherever base and second overlay would be merged, the first overlay has a value of the same kind or the second one
  leaves nothing of the base behind (`ComposesExactly`). A null between two dicts is such a place, and breaks
  composition where the second dict lacks something of the base's (`KindClashDoesNotCompose`). The laws are about
  well-formed documents: lists of dicts lie under the three id keys and have different ids.
- **Ids that are not unique.** Overlay elements whose ids the base lacks are all appended, in order
  (`NewElementsAreAppended`). If some of them share an id, a second merge of the same overlay merges them into each
  other; it changes nothing if and only if elements of one id are alike, that is equal but for the order of the elements
  of their lists of dicts (`DuplicatesMergedTwice`; `DuplicateIdsBreakIdempotence` is an input where they are not). Under
  a list key without an id key every overlay dict is merged into every base element (`UnkeyedListsFold`), so a list
  absorbs itself if and only if all its elements are alike (`UnkeyedListsAbsorbed`).
- **Weights.** The selector weights 2, 3 and 4 have different sums, all of them above the 1 of the series override, so
  equal weight means equal selector (`WeightsAreFaithful`). A selector without any key matches everything, has weight
  zero and is therefore never applied.
- **Removing does not always undo adding in the auth file.** Given that no line of the repositories was there before,
  there are three reasons, and no others (`RemovalRestores` and `RemoveUndoesAdd` are if-and-only-ifs, for files in any
  order). A removal joins lines without a newline at the end, so an empty line at the end of the file is lost
  (`EmptyLineIsLost`). A removal looks for its pattern anywhere in a line, so it takes a comment that holds it
  (`CommentIsLost`). And `add_auth_apt_repo` strips a slash from the repository url before it is keyed,
  `remove_auth_apt_repo` does not; the keys differ exactly when the path ends in two slashes or nothing follows `://`
  (`SlashesAgree`), and then the added line stays behind unless a snapshot has the same key (`TwoSlashesLeaveALine`).
- **The apt proxy file.** Unsetting a proxy of one scope rewrites the file for that scope, even while the other scope is
  in use; the file is then wrong, and this is the only way (`ExecuteRenders`, `RunRenders`; `UnsetLosesFile` is an
  input).
- **Variant lookup.** `process_entitlement_delta` looks up `use_selector` under `entitlements`
  (uaclient/contract.py:769-773), while the document it processes holds its entitlement under `entitlement`. Without
  the former key the variant is always empty, and this is what the entitlement's obligations say if and only if they
  name no variant (`VariantIsEmpty`, `VariantIsLost`). The model follows the code.
- **Message of the day.** At boot the state file is written without a message (lib/auto_attach.py:101-113), so the two
  may disagree; one run of the retry daemon makes them agree, whatever came before (`Daemon.RetryAutoAttach`).
- **Retry schedule.** A kill after the cleanup and before total failure is stored leaves no state file, so the whole
  schedule runs again. Counting these kills gives the bound on attempts from any stored state (`AttemptsAreBounded`),
  and it is reached for all numbers of kills of both kinds (`BoundIsReached`).
- **Timer.** A state file may hold a null `next_run`; the job is then due at once. A tick that cannot delete an invalid
  state file runs no job.

## Model

| member | source | states |
|---|---|---|
| Overlay.DepthFirstMergeOverlayDict | uaclient/util.py:385-434 | in any order of the keys: raises exactly when an element of a matched list of dicts is no dict (`Mergeable`), and otherwise yields the specified merge at every depth |
| Overlay.UpdateDictList | uaclient/util.py:401-419 | each overlay element in turn is merged into all elements with its id; those that match nothing follow at the end, in order |
| Overlay.ReplaceMatches | uaclient/util.py:411-415 | `was_replaced` is set exactly when some element has the id, and then every such element is merged, none otherwise changed |
| OverlayLaws.MergePath | uaclient/util.py:385-434 | the value at every path of the merged document: the overlay's if it has one (except where a dict meets a dict or a list meets a list of dicts, which are merged), gone where the overlay put something else above it, else the base's |
| OverlayLaws.MergeListWellFormed | uaclient/util.py:401-419 | a merged list in closed form: each base element merged with the one overlay element of its id, then the overlay elements of new ids in order; ids stay different and in place |
| OverlayLaws.MergeKeepsId | uaclient/util.py:412-414 | a matched element keeps its id, also when the id is a dict (`selector`) |
| OverlayLaws.WellFormedMergeable | uaclient/util.py:385-434 | merging well-formed documents never raises |
| OverlayLaws.MergeWellFormed | uaclient/util.py:385-434 | and yields a well-formed document |
| OverlayLaws.MergeSelf | uaclient/util.py:385-434 | a well-formed document absorbs itself |
| OverlayLaws.ComposesExactly | uaclient/util.py:385-434 | overlays compose (merging `o1` and then `o2` equals merging the merge of both, appended elements and replaced lists included) if and only if `Composes` holds: same kinds, or `o2` covers the base |
| OverlayLaws.CoversExactly | uaclient/util.py:385-434 | merging `o` into `b` leaves exactly `o` if and only if `o` covers `b` structurally: all its keys at every depth, and its lists of dicts as a prefix |
| OverlayLaws.MergeComposes | uaclient/util.py:385-434 | in particular overlays compose wherever the kinds agree |
| OverlayLaws.MergeIdempotent | uaclient/util.py:385-434 | applying the same overlay twice equals applying it once |
| OverlayLaws.KindClashDoesNotCompose | uaclient/util.py:421-434 | three documents whose kinds clash, for which composition fails |
| OverlayIds.ListsMatchedById | uaclient/util.py:402-419 | elements of `availableResources`, `resourceEntitlements` and `overrides` are matched by `name`, `type` and `selector` alone, and appended where these differ |
| OverlayIds.OtherListsMatchAlways | uaclient/util.py:407-415 | elements under any other key always match |
| OverlayIds.OnlyDictsMerge | uaclient/util.py:408-413 | a list of dicts is merged with nothing but a list of dicts; any other element on either side raises |
| OverlayIds.NewElementsAreAppended | uaclient/util.py:408-419 | overlay elements whose ids the base lacks are all appended in order, any number of them, whatever ids they share |
| OverlayOrder.SubsumesExactly | uaclient/util.py:385-434 | merging `y` into `x` changes nothing if and only if `x` has structurally all that `y` has, list elements in any order |
| OverlayOrder.SubsumesTransitive | uaclient/util.py:385-434 | absorbing is transitive |
| OverlayOrder.SubsumedParts | uaclient/util.py:385-434 | of two documents that absorb a third, neither has more than it if their merge has not |
| OverlayOrder.AlikeExactly | uaclient/util.py:385-434 | two documents absorb each other if and only if they are equal but for the order of the elements of lists of dicts |
| OverlayIds.FixedExactly | uaclient/util.py:401-419 | merging a whole list of dicts into each of its elements in turn changes none of them if and only if they are all alike |
| OverlayIds.MatchedFold | uaclient/util.py:401-419 | where every overlay element has a match, in closed form: each base element with all overlay elements of its id merged into it in turn |
| OverlayIds.DuplicatesMergedTwice | uaclient/util.py:401-419 | for any number of new elements with any ids, a second merge of the same overlay changes nothing if and only if the elements of one id are all alike |
| OverlayIds.DuplicateIdsBreakIdempotence | uaclient/util.py:401-419 | two elements of one name, not in the base, for which merging twice differs from merging once |
| OverlayIds.UnkeyedListsNeverGrow | uaclient/util.py:402-419 | where `id_key` is None and the base list is not empty, no overlay element is ever appended |
| OverlayIds.UnkeyedListsFold | uaclient/util.py:402-419 | such a merge in closed form: every base element with all overlay dicts merged into it in turn |
| OverlayIds.UnkeyedListsAbsorbed | uaclient/util.py:402-419 | such a list of well-formed dicts, of any length, absorbs itself if and only if all its elements are alike |
| Deltas.GetDictDeltas | uaclient/util.py:106-133 | raises exactly when a dict meets something that is no dict, and otherwise yields the specified delta |
| Deltas.DeltaMentionsChanges | uaclient/util.py:106-133 | a delta has a key exactly when the documents differ there |
| Deltas.DeltaEmptyIffEqual | uaclient/util.py:106-133 | the delta is empty if and only if the documents are equal |
| Deltas.DeltaPatches | uaclient/util.py:106-133 | applying the delta of `a` and `b` to `a`, with the drop marker as deletion, gives `b` |
| Deltas.DeltaPath | uaclient/util.py:106-133 | at every depth the delta holds a value exactly where the documents differ inside a dict of the new one, so it repeats nothing that is unchanged; and which value |
| Deltas.DiffableExactly | uaclient/util.py:113-119 | the delta raises if and only if at some path a dict of the old document meets a value of the new one that is no dict |
| EntitlementDelta.ProcessEntitlementDelta | uaclient/contract.py:755-774 | for all inputs: what is raised, that nothing happens without deltas, and which service and variant the deltas go to |
| EntitlementDelta.LookupsByPath | uaclient/contract.py:760-773 | the service is what stands under `entitlement`, `type` in the stored dict, or in the deltas where that is missing or false; the variant is what stands under `entitlements`, `obligations`, `use_selector` |
| EntitlementDelta.PreparedAccess | uaclient/contract.py:755-758 | overrides are applied only where asked for, and to nothing but the entitlement |
| EntitlementDelta.RefreshIsQuiet | uaclient/contract.py:755-760 | a stored access dict is a fixed point of applying overrides, so refreshing an unchanged contract finds no deltas |
| EntitlementDelta.VariantIsEmpty | uaclient/contract.py:769-773 | without the key `entitlements` the variant handed on is empty, overrides applied or not; it is the entitlement's own `use_selector` if and only if that is missing or empty |
| EntitlementDelta.VariantIsLost | uaclient/contract.py:769-773 | for every named variant, an access dict whose variant is looked up as empty |
| Overrides.GetOverrideWeight | uaclient/contract.py:870-880 | the sum of the weights of the selector's keys if all of them match, else zero, in any order of the keys |
| Overrides.WeighOverrides | uaclient/contract.py:901-907 | the overrides keyed by weight, and the error of the first malformed one |
| Overrides.SelectOverrides | uaclient/contract.py:883-909 | the selected layers, and that `series` and nothing else is taken out of the entitlement |
| Overrides.SelectedWeights | uaclient/contract.py:54-59 | every match is selected and outranks the series override, which alone has its weight; no weight exceeds the sum of all |
| Overrides.ApplyOverride | uaclient/contract.py:956-963 | one layer: dicts are updated, everything else replaced, keys it lacks untouched; raises exactly when a dict is to be updated by no dict |
| Overrides.ApplySorted | uaclient/contract.py:955-963 | the sparse layers in ascending order have the effect of all weights counted up from zero |
| Overrides.ApplyContractOverrides | uaclient/contract.py:912-963 | succeeds exactly when there is an entitlement whose layers can be selected and applied; only the entitlement changes; otherwise what is raised, as far as it does not depend on the order of the keys |
| OverrideLaws.WeightsAreFaithful | uaclient/contract.py:870-880 | two matches have equal weight only if their selectors are equal; a larger selector weighs more; only the empty one weighs nothing |
| OverrideLaws.ByWeightIsEffective | uaclient/contract.py:901-907 | keying by weight keeps, for each weight, exactly the last listed match |
| OverrideLaws.OverridePriority | uaclient/contract.py:883-963 | every key and sub-key holds the value of the heaviest effective override that defines it, else of the series override, else its own |
| OverrideLaws.OverrideFrame | uaclient/contract.py:912-963 | keys no override writes, `overrides` among them, are unchanged; `series` is gone; no other key appears |
| OverrideLaws.OverridesIdempotent | uaclient/contract.py:895-963 | applying the overrides again changes nothing, although the series override was consumed the first time |
| OverrideOrder.WeightsFollowPrecedence | uaclient/contract.py:54-59 | matching selectors are ordered by their keys: series, cloud, variant, series and cloud, series and variant, cloud and variant, all three; so any two different ones are ordered |
| OverrideOrder.InForceEffective | uaclient/contract.py:901-907 | an override counts if and only if its non-empty selector holds this series, cloud and variant only, and no later override repeats the selector |
| OverrideOrder.HigherOverrideWins | uaclient/contract.py:883-963 | of the overrides listed in the document that count and fill a slot, the one whose selector is highest in this order gives its value, whatever the order of the list |
| OverrideOrder.SeriesOverrideWins | uaclient/contract.py:895-963 | where none fills it, the entry of this series under `series` does, or else it is unchanged |
| OverrideOrder.SelectsExactly | uaclient/contract.py:895-907 | the selection succeeds if and only if `series` and `overrides` have the shapes it takes |
| OverrideOrder.LayerKinds | uaclient/contract.py:956-963 | what a layer does to a key for all kinds of both values |
| DataTypes.ParseValue | uaclient/data_types.py:75-261 | the typed value of every nested schema, or an error |
| DataTypes.ParseDict | uaclient/data_types.py:394-431 | field by field, strict and lenient; missing, null and ill-typed values as in the code |
| DataTypes.PrintObject | uaclient/data_types.py:364-384 | the printed dict of an object, with and without nulls |
| DataTypes.PrintValue | uaclient/data_types.py:264-299 | the printed form of nested lists, dicts, enums and objects |
| DataTypeLaws.ParseAccepts | uaclient/data_types.py:75-261 | strict parsing succeeds exactly on the documents the schema describes, and yields a value of the class |
| DataTypeLaws.ParseDictAccepts | uaclient/data_types.py:394-431 | so does lenient parsing: it fails exactly when a required key is missing or a non-null required value is ill-typed |
| DataTypeLaws.ToDictPointwise | uaclient/data_types.py:364-384 | each field is printed under its own key, or left out exactly when it is null and nulls are not kept |
| DataTypeLaws.RoundTrip | uaclient/data_types.py:205-299 | every value of every nested schema parses back from its print; without nulls exactly when no required field is null at any depth |
| DataTypeLaws.RoundTripObject | uaclient/data_types.py:364-439 | the same for `from_dict(v.to_dict())` |
| DataTypeLaws.LenientAgrees | uaclient/data_types.py:413-428 | lenient parsing agrees with strict parsing whenever that succeeds |
| DataTypeLaws.LenientDropsIllTyped | uaclient/data_types.py:412-430 | lenient parsing is strict parsing of the document without its ill-typed optional values, and each of these becomes null |
| DataTypeLaws.ExtraKeysAreIgnored | uaclient/data_types.py:398-430 | the result depends on nothing but the keys of the fields |
| DataTypeLaws.LenientNormalises | uaclient/data_types.py:394-431 | what lenient parsing yields prints as a document that strict parsing reads as the same object |
| AptAuth.EditLines | uaclient/apt.py:682-701 | the loop with its flag replaces the repository's line, or inserts before the first less specific one, or appends |
| AptAuth.KeepLines | uaclient/apt.py:716-718 | exactly the lines with the pattern go |
| AptAuth.AuthFile.AddAptAuthConfEntry | uaclient/apt.py:659-703 | the new text of the file, and no change when the url cannot be unpacked |
| AptAuth.AuthFile.RemoveRepoFromAptAuthFile | uaclient/apt.py:706-724 | likewise; the file is deleted when nothing is left |
| AptAuth.AuthFile.AddAuthAptRepo | uaclient/apt.py:609-641 | credentials split at their only colon, one slash stripped, and all urls added up to one that cannot be unpacked |
| AptAuth.AuthFile.RemoveAuthAptRepo | uaclient/apt.py:744-745 | all urls removed up to one that cannot be unpacked |
| AptAuthLaws.AddKeepsOrder | uaclient/apt.py:682-701 | adding a line keeps the order: no line's repository is part of that of a later line |
| AptAuthLaws.FirstMatchIsLongest | uaclient/apt.py:693-697 | in an ordered file the first line whose repository begins a path names the longest such repository |
| AptAuthLaws.AddAgain | uaclient/apt.py:688-692 | in an ordered file, adding a line that is there changes nothing |
| AptAuthLaws.AddLinesLaw | uaclient/apt.py:640-703 | after adding a list: ordered, one line per repository with the given credentials, and no line lost or invented |
| AptAuthRuns.RemovalIsExact | uaclient/apt.py:715-718 | the removal pattern, searched anywhere in the line, is found in an auth line exactly when it is that repository's, whatever the credentials |
| AptAuthRuns.LinesAdded | uaclient/apt.py:673-703 | writing and reading back the text is the edit of its lines |
| AptAuthRuns.LinesRemoved | uaclient/apt.py:713-724 | likewise for a removal, which also loses an empty line at the end |
| AptAuthRuns.ReachableOrdered | uaclient/apt.py:659-724 | from an absent file, after any series of additions and removals, the file is ordered, and for every path its first match is its longest |
| AptAuthRuns.AddFileLaw | uaclient/apt.py:640-703 | adding a list leaves one line per distinct repository with the given credentials and all other lines as they were; adding it again leaves the text of the file as it is |
| AptAuthRuns.RemovalRestores | uaclient/apt.py:659-724 | in any file without a line of the repositories, adding one list and removing another restores the lines if and only if all that was added is removed, no line holds a removed pattern, and the file did not end in an empty line |
| AptAuthRuns.SlashesAgree | uaclient/apt.py:620-669 | adding and removing key a url alike if and only if its path does not end in two slashes and is not missing |
| AptAuthRuns.RemoveUndoesAdd | uaclient/apt.py:609-745 | removing a service's urls restores the lines if and only if the file did not end in an empty line, no line holds a removed pattern, and the keys agree or a snapshot has the same key |
| AptAuthLimits.TwoSlashesLeaveALine | uaclient/apt.py:620-708 | a url ending in two slashes, whose line is still there after it was added and removed |
| AptAuthLimits.EmptyLineIsLost | uaclient/apt.py:713-724 | a file ending in an empty line, which is lost when any repository is added and removed |
| AptAuthLimits.CommentIsLost | uaclient/apt.py:715-718 | for every repository, a comment that is no line of it and is lost when it is added and removed |
| AptAuthWords.UserAndPassword | uaclient/apt.py:609-613 | one colon separates the user name from the password, in this order |
| AptAuthWords.BearerToken | uaclient/apt.py:611-613 | credentials with no colon, or with more than one, are the password of the user `bearer` |
| AptAuthWords.ProtocolIsCut | uaclient/apt.py:662-665 | the path is what follows `://`; a second `://` raises |
| AptAuthWords.AuthLineWords | uaclient/apt.py:674-681 | the words of a written line: machine, login and password, each followed by its value, and the comment |
| AptAuthWords.NewLinePlace | uaclient/apt.py:682-701 | in any file the new line replaces or precedes the first line whose second word is part of the repository, and is last if there is none |
| AptAuthWords.EmptyFileIsDeleted | uaclient/apt.py:716-724 | a removal deletes the file if and only if it leaves no line, or one that is empty |
| AptAuthWords.LoopsStopAt | uaclient/apt.py:640-641 | the first url that cannot be unpacked ends the loop, and what was done for those before it stays |
| ServiceOrder.Sorter.SortEntitlementsVisit | uaclient/entitlements/__init__.py:150-178 | on every finite acyclic graph the visit ends, its inner guard never fails, and it appends what the specification says |
| ServiceOrder.SortEntitlements | uaclient/entitlements/__init__.py:181-194 | the order of all known services |
| ServiceOrder.VisitAllAvoids | uaclient/entitlements/__init__.py:167-175 | visiting what a service names never marks the service itself, although nodes are marked late |
| ServiceOrder.VisitWellOrdered | uaclient/entitlements/__init__.py:150-178 | a visit extends the order and keeps it free of repetitions, with everything a service names before it |
| ServiceOrder.OrderIsTopological | uaclient/entitlements/__init__.py:150-194 | the order lists exactly the services reachable from the known ones, once each, after everything they reach |
| ServiceOrder.NamedInTurn | uaclient/entitlements/__init__.py:162-178 | what a service names is visited in its order: after the first `j` of them, exactly what these reach is listed besides what was; the service itself is last |
| ServiceOrder.RootsInTurn | uaclient/entitlements/__init__.py:185-192 | so are the known services: the order begins with exactly what the first `j` of them reach |
| EnableOrder.OrderForEnablingSorts | uaclient/entitlements/__init__.py:113-127 | the requested names are permuted, ordered by rank, and stable within a rank |
| EnableOrder.EnablingFollowsTheGraph | uaclient/entitlements/__init__.py:113-127 | of two requested services one of which reaches the other, the latter comes first; invalid names come last |
| AptProxy.UAConfig.GetGlobalAptProxy | uaclient/config.py:177-192 | the cached read gives the uncached value, cached None and the legacy field included |
| AptProxy.UAConfig.SetGlobalAptProxy | uaclient/config.py:194-199 | sets the field, drops the legacy one, saves, and keeps the cache valid for both protocols |
| AptProxy.UAConfig.SetProAptProxy | uaclient/config.py:151-163 | sets and saves the field; the cache stays valid |
| AptProxy.CacheAgrees | uaclient/config.py:177-223 | after every interleaving of reads and setter calls a cached read gives what would be computed |
| AptProxy.AptConf.SetupAptProxy | uaclient/apt.py:829-882 | the file is the rendering of the two proxies, absent when there is none |
| AptProxy.ConfigureAptProxy | uaclient/cli/cli_util.py:218-239 | the file holds the new proxy and the other one of the same scope |
| AptProxy.ActionConfigSet | uaclient/cli/config.py:68-202 | settings and file afterwards, in the code's order of cached reads and writes; nothing changes when the value is blank or not accepted |
| AptProxy.ActionConfigUnset | uaclient/cli/config.py:205-251 | settings and file afterwards, where a legacy key counts as the global one |
| AptProxy.FileTexts | uaclient/apt.py:47-54 | the directives of both scopes and protocols word for word, http first, with missing and empty proxies left out |
| AptProxy.GlobalBeforeLegacy | uaclient/config.py:180-192 | a proxy in use is the global field, or the legacy one where that is missing or empty |
| AptProxy.FieldsAfter | uaclient/cli/config.py:113-250 | every one of the six fields after any command |
| AptProxy.RejectedChangesNothing | uaclient/cli/config.py:85-87 | a blank value, or one that is not accepted, changes nothing; an accepted value with a visible character is carried out |
| AptProxy.ExecuteExclusive | uaclient/cli/config.py:113-171 | a set ends the use of the other scope whatever the start, and no command makes both be in use |
| AptProxy.ExecuteWrites | uaclient/cli/config.py:129-171 | after any command the file renders the scope that the command names, as the settings then are |
| AptProxy.ExecuteRenders | uaclient/cli/config.py:113-250 | the file is what the settings call for if and only if the command was not an unset of one scope while the other was in use |
| AptProxy.UnsetLosesFile | uaclient/cli/config.py:227-250 | with only a global proxy in use, unsetting a pro proxy that is not set removes the file that the settings call for |
| AptProxy.RunRenders | uaclient/cli/config.py:113-250 | over every run of commands: scopes stay exclusive, and the file is right if and only if the last command carried out did not clash |
| RetryAutoAttach.Daemon.RetryAutoAttach | uaclient/daemon/retry_auto_attach.py:77-185 | one run of the daemon, with a kill possible at every sleep, after every attempt and after the cleanup; afterwards the message of the day is that of the stored state whatever it was before, and a run not killed leaves no options and no notice but that of total failure |
| RetryAutoAttach.Daemon.Cleanup | uaclient/daemon/retry_auto_attach.py:65-74 | the state file, the options file, the message of the day and both notices are gone |
| RetryAutoAttach.Daemon.Announce | uaclient/daemon/retry_auto_attach.py:98-131 | the position is stored and the message of the day is the one that goes with it; so is the notice, if the lock was free |
| RetryAutoAttach.Daemon.FailTotally | uaclient/daemon/retry_auto_attach.py:161-185 | total failure is stored and told in the same words by message and notice |
| RetryAutoAttach.InvokeStaysInSchedule | uaclient/daemon/retry_auto_attach.py:82-103 | in one run the stored index does not decrease and stays in the schedule, unless the cleanup deletes it; and every attempt is paid for by an index passed, a kill in the loop or a kill in the cleanup |
| RetryAutoAttach.AttemptsAreBounded | uaclient/daemon/retry_auto_attach.py:82-167 | from any stored state, over all runs up to the one that attaches: at most as many attempts as intervals and kills in the loop, and once more the intervals for each kill in the cleanup |
| RetryAutoAttach.BoundIsReached | uaclient/daemon/retry_auto_attach.py:82-167 | for all numbers of kills of both kinds, runs that reach this bound; so a kill in the cleanup breaks the bound of intervals and kills together |
| RetryAutoAttach.TotalFailureIsFinal | uaclient/daemon/retry_auto_attach.py:161-167 | after total failure no further run makes an attempt or changes the stored state, until one attaches or is killed in its cleanup |
| RetryAutoAttach.RunStops | uaclient/daemon/retry_auto_attach.py:94-168 | attempts made and state stored by a run whose first `j` attempts fail and which then attaches, gives up or is killed |
| RetryAutoAttach.RestartKeepsPlace | uaclient/daemon/retry_auto_attach.py:82-103 | a run killed in its first sleep stores the index and reason it found |
| RetryAutoAttach.ScheduleEnds | uaclient/daemon/retry_auto_attach.py:18-37 | the intervals end after 15 and 30 minutes and then after the hours and days that the schedule's comments give, the last after 31 days |
| RetryAutoAttach.MotdTexts | uaclient/daemon/retry_auto_attach.py:104-176 | attempts are counted from one, total failure counts one more than there are intervals, and a missing reason is an unknown error |
| RetryAutoAttach.AllAttemptsFail | uaclient/daemon/retry_auto_attach.py:82-168 | a run in which every attempt fails makes one per interval left, sleeps them all, and stores total failure with the last reason, or nothing if it is killed in the cleanup |
| Timer.Run | lib/timer.py:40-60 | a job with interval zero is not started; success means started and no exception |
| Timer.MeteringIntervalSeconds | lib/timer.py:91-110 | zero exactly when the user disabled the job, and otherwise the greater of the user's and the server's interval |
| Timer.RunJob | lib/timer.py:121-139 | started exactly when enabled and due; the state changes only on success |
| Timer.JobsStatus.RunJobs | lib/timer.py:142-177 | the state file after a tick, and exactly which jobs were started |
| Timer.DisabledJobsNeverRun | lib/timer.py:62-78 | over all ticks, a job whose timer is configured as 0 is never started and its record never changes |
| Timer.MeteringIsRecorded | lib/timer.py:91-139 | exactly a successful run of the enabled and due metering job is recorded, its next run after the configured seconds or the server's if more; null, negative and ill-typed timers count as 14400 |
| Timer.MessagingIsRecorded | lib/timer.py:62-139 | the same of the messaging job with 21600, without the server |
| Timer.StartsWhenDue | lib/timer.py:121-131 | a job is started exactly when its timer does not disable it and its stored next run has come or is missing |
| Timer.JobsAreIndependent | lib/timer.py:142-177 | over all ticks each job's record is as if it ran alone |
| Timer.RecordsAreSpaced | lib/timer.py:121-139 | over all ticks each recorded run comes at or after the next run stored by every earlier one |
| Timer.JobKeepsState | lib/timer.py:121-139 | a failing or disabled job keeps its state over all ticks, and no state is replaced before its next run |
| Sources.GetListFileContent | uaclient/apt.py:536-559 | the text of the list file, as the lines of its suites |
| Sources.GetSourcesFileContent | uaclient/apt.py:562-591 | the text of the deb822 stanza, with the suites that are enabled |
| SourcesLaws.ConvertListToDeb822 | lib/convert_list_to_deb822.py:48-69 | what is written for any list file, whichever order the suites come out of the set in |
| SourcesLaws.ListNamesSuites | uaclient/apt.py:536-559 | reading a generated list file back gives exactly the enabled suites, in order, each with the url and type `deb` |
| SourcesLaws.StanzaFields | uaclient/apt.py:66-73 | reading a generated stanza back gives its types, url and suites in order |
| SourcesLaws.FormatsAgree | uaclient/apt.py:536-591 | both formats name the same suites in the same order |
| SourcesLaws.ConversionKeepsSources | lib/convert_list_to_deb822.py:48-69 | converting a generated list file keeps its url and its suites, each once, and asks for no sources; without an enabled suite nothing is written |
| SourcesWords.ListText | uaclient/apt.py:553-558 | the two lines of a suite word for word, commented where updates are not enabled |
| SourcesWords.UpdatesSuites | uaclient/apt.py:570-578 | the suite of the series is always enabled, its updates only where updates are |
| SourcesWords.StanzaOrigin | uaclient/apt.py:66-73 | the stanza is for the component main and signed by the keyring of that name |
| SourcesWords.WordsRead | lib/convert_list_to_deb822.py:48-52 | reading any list file gives the words of the lines that begin with `deb`, `deb-src` among them |
| SourcesWords.ConvertedFields | lib/convert_list_to_deb822.py:53-69 | converting any list file: every field of the stanza; it has source packages if and only if some source line is of them |

## Left out

- Overlay.DepthFirstMergeOverlayDict: yields the merged document as a value; updating the base dict in place, sharing of overlay parts between documents, and the partly merged base that an exception leaves behind are not modelled.
- OverlayLaws.ComposesExactly: a list under one of the three id keys holds dicts throughout; lists of other values under these keys, which the code replaces as a whole, are outside the laws, since merging such a list into a list of dicts raises.
- Overrides.ApplyContractOverrides: the same holds for the access dict that the client updates in place.
- Overrides.ApplyOverride: `dict.update` with a list of pairs or of two-letter strings, which Python accepts, counts as an error.
- Deltas.GetDictDeltas: the path argument, which only names keys in the log, is left out.
- EntitlementDelta.ProcessEntitlementDelta: ends where the service is looked up; the lookup and the service's own processing are not modelled.
- DataTypes.ParseValue: which exception is raised, and the nesting of its messages, is not modelled; nor are floats and fields typed as bare `DataObject`.
- AptAuth.AuthFile.AddAuthAptRepo: the check of the credentials against the server, the keyring export and the apt policy output are not modelled; whether updates are enabled is a parameter of the file formats.
- AptAuthRuns.RemovalRestores: says nothing of files that already have a line of one of the repositories.
- ServiceOrder.Sorter.SortEntitlementsVisit: on a cyclic graph the Python code exceeds the recursion limit; the model asks for an acyclic graph. A service is its name, so two classes that share a name are one service.
- AptProxy.ActionConfigSet: the check of a proxy url is a parameter; a value that holds `=` and the keys that set no apt proxy are not modelled.
- RetryAutoAttach.Daemon.RetryAutoAttach: a kill inside the cleanup or inside the storing of a state, where the message of the day and the notices may be left behind, and a negative or null index in a state file the client did not write, are not modelled; nor is the date in its messages.
- Timer.JobsStatus.RunJobs: both reads of an interval within a tick see the same configuration.
- SourcesLaws.ConvertListToDeb822: a line of a list file is its words; options in brackets and other forms that `SourceEntry` of python-apt understands are not modelled.
- Equality of Python values across types (`True == 1`) is not modelled; values of different kinds differ here.
- Files, processes, the network, the clock and systemd appear as optional texts and parameters only; file modes are left out.
- The status, fix and security-status commands, snap and livepatch proxies, message texts and the parsing of command lines are presentation or flat case analysis.
- The lock file is not modelled as mutual exclusion: its check and its write are separate steps, so the code does not decide that property.
