# DotConfig: a layered git-config editor, modelled in Dafny

DotConfig is a desktop editor for git configuration. Entries are
`key = value` pairs that live in one of three files: the repository's
`.git/config` (`local`), the user's `~/.gitconfig` (`global`) or
`/etc/gitconfig` (`system`). The editor also has a synthetic `merged` view.
This project models the logic at the heart of the editor.

- **Entry store.** The entry store (`ConfigStore`) holds the active scope,
  the working entries and the search text.
- **Scope resolution.** `getEffectiveValue` resolves a key to its winning
  entry. It stable-sorts the matching entries by scope rank, with `merged`
  first, then local, global, system. It then reports as `overriddenBy` the
  nearest other tier that also holds the key.
- **Native fold.** The native `merged_view` fold (`GitConfig`) reads system,
  global and local entries in that order. It keeps one winner per key and
  a history of displaced entries.
- **Bridge.** The bridge (`Bridge`) turns native entries into store
  entries. When the native side is unavailable, it builds placeholder data
  from the schema instead.
- **Diff panel.** The diff panel (`DiffSummary`) lists changed keys and
  flags a key whose local, global and system values disagree.
- **Screen logic.** The editor screen's own logic (`App`) covers:
  - the category and search projection of the schema;
  - the typed default of a new key;
  - the key suggestions;
  - the subset of entries handed to a save;
  - add-or-overwrite;
  - the choice between the global file and a repository.
- **Alias and remote lists.** The alias and remote list stores
  (`AliasStore`, `RemoteStore`) hold the user's aliases and remotes.
- **Schema table.** The static schema table (`ConfigSchema`) is the input
  every other piece reads.

Supporting modules:
- `Wrappers` holds `Option`.
- `Seqs` holds an order-preserving `Filter` with its algebra.
- `Text` holds the JavaScript string operations the code relies on:
  - `trim`;
  - ASCII `toLowerCase`;
  - `includes`;
  - decimal rendering of numbers;
  - a code-point order standing in for `localeCompare`.

State that the source updates in place is modelled as a class:
- the zustand stores become `ConfigStore.Store`, `AliasStore.Store` and
  `RemoteStore.Store`;
- the React component's state becomes `App.Screen`.

Each method is tied to a pure function of the old state, and the
properties are proved about those functions.

The Rust fold `GitConfig.MergedView` keeps the loop of the source. Its loop
invariant ties the `effective` map and the `history` list to the
reference functions `Winners` and `History` of the entries read so far.

The model follows the code on these points:
- `overriddenBy` names the *nearest* other tier. For `{local, global,
  system}` it gives `global`.
- No stale-response guard exists on loads.
- `handleChooseGlobal` leaves the selected repository path as it was.

## Model

| member | source | states |
|---|---|---|
| ConfigSchema.SchemaSize | src/schema/configSchema.ts:13-165 | the schema has 18 items and there are 6 categories |
| ConfigSchema.SchemaKeysDistinct | src/schema/configSchema.ts:13-156 | no two schema items share a key |
| ConfigSchema.CategoriesCoverSchema | src/schema/configSchema.ts:13-165 | the six category names are distinct and every item's category is one of them |
| ConfigSchema.SchemaWellTyped | src/schema/configSchema.ts:13-156 | every enum item lists a non-empty set of values and defaults to one of them; non-enum items list no values; boolean defaults are "true" or "false" |
| ConfigStore.Rank | src/stores/configStore.ts:56-60 | the sort key lies in -1..2 and is -1 exactly for `merged` (`indexOf` of a scope not in the priority list) |
| ConfigStore.RankInjective | src/stores/configStore.ts:56-60 | distinct scopes get distinct ranks |
| ConfigStore.Matches | src/stores/configStore.ts:57-58 | the filtered copy holds only input entries with exactly the key |
| ConfigStore.MatchesEmptyIff | src/stores/configStore.ts:57-58 | the filter is empty exactly when no entry has the key |
| ConfigStore.MatchesAppend | src/stores/configStore.ts:57-58 | filtering distributes over concatenation (it keeps input order) |
| ConfigStore.MatchesCount | src/stores/configStore.ts:57-58 | an entry with the key is kept as often as it occurs |
| ConfigStore.SortByRankPermutes | src/stores/configStore.ts:59-61 | the sort is a permutation of the matches |
| ConfigStore.SortByRankIsStable | src/stores/configStore.ts:59-61 | the sort equals the concatenation of the rank buckets in input order, so ties keep input order |
| ConfigStore.EffectiveAbsentIff | src/stores/configStore.ts:63-64 | the result is absent exactly when no entry has the key |
| ConfigStore.EffectiveIsPrimary | src/stores/configStore.ts:57-63 | the result is the first input entry of least rank among those with the key, except for its `overriddenBy` |
| ConfigStore.PrimaryUnique | src/stores/configStore.ts:57-63 | that primary entry is unique |
| ConfigStore.OverriddenByIsNearestRival | src/stores/configStore.ts:66-72 | `overriddenBy` is the first of local, global, system held by a matching entry at a position other than the primary's, and absent when none is |
| ConfigStore.SingleMatchNotOverridden | src/stores/configStore.ts:66-74 | one matching entry gives that entry with `overriddenBy` cleared, replacing any value it carried |
| ConfigStore.EffectiveWithDistinctScopes | src/stores/configStore.ts:57-63 | with at most one matching entry per scope, the winner has strictly the lowest rank |
| ConfigStore.ThreeTiersReportNearest | src/stores/configStore.ts:66-72 | `{system, global, local}` yields the local entry overridden by `global` |
| ConfigStore.LocalOverSystem | src/stores/configStore.ts:66-72 | `{local, system}` yields the local entry overridden by `system` |
| ConfigStore.MergedSortsFirst | src/stores/configStore.ts:56-72 | a `merged` entry outranks local and reports `local` as overriding |
| ConfigStore.DuplicateTierKeepsInputOrder | src/stores/configStore.ts:59-72 | two global entries keep input order; the first wins and reports `global` |
| ConfigStore.WithValueFrame | src/stores/configStore.ts:39-46 | `updateValue` keeps length, order, keys, scopes and overrides, and changes the value of exactly the entries with that key and scope |
| ConfigStore.WithValueNoMatch | src/stores/configStore.ts:39-46 | with no entry of that key and scope it changes nothing |
| ConfigStore.WithValueKeepsUnique | src/stores/configStore.ts:39-46 | it keeps key and scope pairs unique |
| ConfigStore.EditKeepsResolution | src/stores/configStore.ts:39-75 | after an update every key resolves to the same entry and override, with the new value where the winner had the edited scope |
| ConfigStore.SeedEntriesShape | src/stores/configStore.ts:24-28 | one seed entry per schema item in order, scope by index mod 3, booleans "false", others "value-" and the 1-based index |
| ConfigStore.SeedEntriesWellFormed | src/stores/configStore.ts:24-28 | seed entries have unique key and scope pairs, never use `merged`, and their placeholder values differ |
| ConfigStore.Store.constructor | src/stores/configStore.ts:33-35 | the initial state is scope `merged`, the seed entries and an empty search |
| ConfigStore.Store.SetScope | src/stores/configStore.ts:36 | replaces the scope and nothing else |
| ConfigStore.Store.SetEntries | src/stores/configStore.ts:37 | replaces the entries and nothing else |
| ConfigStore.Store.SetSearch | src/stores/configStore.ts:38 | replaces the search text and nothing else |
| ConfigStore.Store.UpdateValue | src/stores/configStore.ts:39-46 | the new entries are the value update of the old ones; scope and search are unchanged |
| App.GroupedSchemaContents | src/App.tsx:45-57 | one group per category in order; an item is in a group exactly when it has that category and its lower-cased key or label contains the trimmed, lower-cased term, as often as it is in the schema |
| App.BlankSearchKeepsCategory | src/App.tsx:46-54 | a blank search keeps, in schema order, every item of each category |
| App.BlankSearchGroupsWholeSchema | src/App.tsx:45-57 | with covering categories, a blank search puts each item in exactly the groups of its category |
| App.BlankSearchGroupsRealSchema | src/App.tsx:45-57 | with the real schema, a blank search puts each item in at least one group and in no two groups, so in exactly one |
| App.FindMetaIsFirst | src/App.tsx:183 | the lookup finds the first schema item with the key, and nothing when no item has it |
| App.DefaultPriority | src/App.tsx:182-189 | over any schema, the typed default follows the priority rule: "" for an unknown key, else the explicit default, else "false" for a boolean, the first listed value or "" for an enum, and "" for a string or path |
| App.DefaultIsLegal | src/App.tsx:182-189 | over a well-typed schema, the typed default of a known key is a boolean literal for booleans and one of the listed values for enums |
| App.SchemaDefaultsLegal | src/App.tsx:182-189 | over the real schema an unknown key gets "" and a boolean key gets "true" or "false" |
| App.SchemaDefaultExamples | src/App.tsx:182-189 | over the real schema `user.name`, a string key with no default, gets "" and the enum `core.autocrlf` gets its default `input` |
| App.SuggestionsBounded | src/App.tsx:177-180 | the suggestions are a prefix of the schema items whose key contains the trimmed input, in schema order, at most eight long; below eight none is missing |
| App.BlankQuerySuggestsFirstItems | src/App.tsx:177-180 | a blank input suggests the first eight schema items in order |
| App.SavePayloadIsScope | src/App.tsx:120-122 | the save sends exactly the entries of the current scope, each as often as it occurs, and keeps key and scope pairs unique |
| App.AddConfigAbandoned | src/App.tsx:191-198 | the add is abandoned exactly for a blank key or a declined overwrite |
| App.AddConfigOverwrites | src/App.tsx:194-203 | a confirmed overwrite keeps length, order, keys, scopes and overrides and gives the chosen value to exactly the entries with that key and scope |
| App.AddConfigAppends | src/App.tsx:193-204 | a new key and scope appends one entry at the end with the trimmed key, the typed-in value or else the typed default, and no override |
| App.AddConfigKeepsUnique | src/App.tsx:195-204 | adding keeps key and scope pairs unique and leaves the key holding the chosen value in that scope |
| App.ChooseRepoOutcome | src/App.tsx:130-142 | a blank input or a failed check changes nothing; otherwise the trimmed path is selected twice in the local scope |
| App.ChoicesKeepRepoNamed | src/App.tsx:124-142 | choosing a repository keeps a repository target named by one trimmed non-blank path, each choice is idempotent, and choosing global keeps the repository path |
| App.PickRepoAgreesWithChoose | src/App.tsx:144-175 | a picked path is selected untrimmed in the local scope; for a trimmed non-blank path this matches typing it and choosing |
| App.Screen.constructor | src/App.tsx:22-34 | the store starts in its initial state, no target is chosen, and every text field is empty |
| App.Screen.HandleChooseGlobal | src/App.tsx:124-128 | the selection becomes `ChooseGlobal` of the old one; entries, search and form fields are unchanged |
| App.Screen.HandleChooseRepo | src/App.tsx:130-142 | the selection becomes `ChooseRepo` of the old one for the typed input and the check's answer; nothing else changes |
| App.Screen.HandlePickRepo | src/App.tsx:158-172 | the selection becomes `PickRepo` of the old one, and the input field takes the picked path when it is a repository |
| App.Screen.HandleAddConfig | src/App.tsx:191-211 | the store's entries become `AddConfig` of the old ones and the form is reset, or nothing changes when the add is abandoned |
| GitConfig.LabelIsCapitalisedName | src-tauri/src/git_config/mod.rs:14-29 | each scope's label is its serialised lower-case name with the first letter capitalised |
| GitConfig.VariantsListEveryScopeOnce | src-tauri/src/git_config/mod.rs:39-41 | `variants` lists every scope exactly once, as local, global, system; the fold order is its reverse |
| GitConfig.ReadEntries | src-tauri/src/git_config/mod.rs:57-72 | reading yields no more entries than were listed, all in the scope read and with no override |
| GitConfig.ReadEntriesComplete | src-tauri/src/git_config/mod.rs:61-71 | when every listed entry has a name and a value, each becomes exactly one entry, in order |
| GitConfig.FoldStep | src-tauri/src/git_config/mod.rs:94-103 | one entry makes itself its key's winner and, when the key was seen, pushes the previous winner tagged with the new entry's scope |
| GitConfig.HistoryLength | src-tauri/src/git_config/mod.rs:92-108 | history length plus the number of distinct keys equals the number of entries read |
| GitConfig.LastWithIsLast | src-tauri/src/git_config/mod.rs:95-103 | each key's reference winner is its last occurrence in fold order |
| GitConfig.WinnerPrecedence | src-tauri/src/git_config/mod.rs:88-103 | the winner's scope is local exactly when local has the key, global when only global and system may, system otherwise; winners carry no override |
| GitConfig.HistoryCountKey | src-tauri/src/git_config/mod.rs:95-103 | a key occurring n times leaves n-1 history entries, so a key seen once leaves none |
| GitConfig.HistoryEntriesDisplaced | src-tauri/src/git_config/mod.rs:95-100 | every history entry is an earlier entry tagged with the scope of a later entry with the same key |
| GitConfig.FoldInputOrdered | src-tauri/src/git_config/mod.rs:88-93 | entries are folded system first, then global, then local |
| GitConfig.HistoryDisplacedUpward | src-tauri/src/git_config/mod.rs:88-100 | an entry is only displaced by one from its own scope or a nearer one |
| GitConfig.DuplicateWithinScope | src-tauri/src/git_config/mod.rs:95-100 | a key listed twice in one scope is recorded overridden by that same scope |
| GitConfig.MergedView | src-tauri/src/git_config/mod.rs:87-109 | the view fails exactly when a read fails; otherwise it is the history in displacement order followed by every key's winner once, in some order, and its length equals the number of entries read |
| GitConfig.KeysInSomeOrder | src-tauri/src/git_config/mod.rs:107 | the map's keys are enumerated once each, in an order left open |
| GitConfig.IntoValues | src-tauri/src/git_config/mod.rs:107 | `into_values` lists every value of the map exactly once |
| Bridge.ToScopeInvertsName | src/api/tauri.ts:5-8 | `toScope` is the identity on the four scope literals |
| Bridge.ToScopeOfOtherNames | src/api/tauri.ts:5-8 | a name maps to a non-local scope exactly when it is "global", "system" or "merged"; every other string maps to local |
| Bridge.LoadKeepsEntries | src/api/tauri.ts:18-23 | a successful load keeps length, order, keys and values, normalises the scope, and leaves the override absent exactly when the raw one is missing or empty |
| Bridge.LoadInvertsNaming | src/api/tauri.ts:18-23 | loading the wire form of store entries gives them back unchanged |
| Bridge.FallbackShape | src/api/tauri.ts:24-31 | the fallback has one entry per schema item, in order, all in the requested scope; booleans "false", others "mock-" and the 0-based index |
| Bridge.FallbackWellFormed | src/api/tauri.ts:26-30 | with distinct schema keys the fallback has unique key and scope pairs and distinct mock values |
| Bridge.SchemaFallbackUnique | src/api/tauri.ts:26-30 | the real fallback has unique key and scope pairs |
| DiffSummary.ChangedKeysListing | src/components/DiffSummary.tsx:9-11 | an item is listed exactly when some entry gives its key a non-empty value, in schema order |
| DiffSummary.ScopeValueIsFirst | src/components/DiffSummary.tsx:45-47 | a scope shows the value of the first entry with the key and scope, and nothing when there is none |
| DiffSummary.PresentValuesAreNonEmpty | src/components/DiffSummary.tsx:48 | missing and empty values are left out of the comparison |
| DiffSummary.ConflictIffTwoValues | src/components/DiffSummary.tsx:45-49 | a key is flagged exactly when two of local, global and system show different non-empty values |
| DiffSummary.MergedOnlyListedNotFlagged | src/components/DiffSummary.tsx:9-11 | a key with a non-empty value only in `merged` entries is listed but never flagged |
| DiffSummary.LocalGlobalDisagree | src/components/DiffSummary.tsx:45-49 | under unique key and scope pairs, differing non-empty local and global values are flagged |
| AliasStore.InitialAliasesUnsorted | src/stores/aliasStore.ts:16-20 | the initial list `st`, `ci`, `amend` is not sorted by name |
| AliasStore.SortByNamePermutes | src/stores/aliasStore.ts:22 | the sort is a permutation |
| AliasStore.SortByNameSorted | src/stores/aliasStore.ts:22 | the sort yields a list ordered by name |
| AliasStore.SortByNameIsStable | src/stores/aliasStore.ts:22 | the sort is stable: the aliases of each name come out in the order they went in |
| AliasStore.WithAliasKeepsNameOrder | src/stores/aliasStore.ts:21-22 | adding keeps the aliases of each name in their old order and places the new alias after those of its name |
| AliasStore.WithAliasSortsAndKeeps | src/stores/aliasStore.ts:21-22 | adding gives the old aliases plus the new one as a multiset, one longer, sorted by name, with no deduplication |
| AliasStore.WithCommandFrame | src/stores/aliasStore.ts:23-28 | updating keeps length, order and names and changes the command of exactly the aliases with that name |
| AliasStore.WithCommandKeepsSorted | src/stores/aliasStore.ts:23-28 | updating keeps a sorted list sorted |
| AliasStore.WithoutNameDrops | src/stores/aliasStore.ts:29-30 | removing drops exactly the aliases with that name, keeps every other one as often as it occurs, and is idempotent |
| AliasStore.WithoutNameKeepsSorted | src/stores/aliasStore.ts:29-30 | removing keeps a sorted list sorted |
| AliasStore.Store.constructor | src/stores/aliasStore.ts:16-20 | the store starts with the initial aliases |
| AliasStore.Store.AddAlias | src/stores/aliasStore.ts:21-22 | the aliases become the sorted old list with the item added |
| AliasStore.Store.UpdateAlias | src/stores/aliasStore.ts:23-28 | the aliases become the command update of the old list |
| AliasStore.Store.RemoveAlias | src/stores/aliasStore.ts:29-30 | the aliases become the old list without that name |
| RemoteStore.InitialIsOrigin | src/stores/remoteStore.ts:17-23 | the initial list is exactly one remote, `origin`, with both URLs set |
| RemoteStore.MergeFields | src/stores/remoteStore.ts:29 | a partial update overwrites exactly the fields present in it, an empty one changes nothing, and applying it twice equals applying it once |
| RemoteStore.WithRemoteAppends | src/stores/remoteStore.ts:24-25 | adding appends the remote at the end with no duplicate check |
| RemoteStore.PatchedFrame | src/stores/remoteStore.ts:26-31 | updating keeps length and order, merges the payload into every remote with that name and leaves the others unchanged |
| RemoteStore.PatchedIdempotent | src/stores/remoteStore.ts:26-31 | repeating an update changes nothing more |
| RemoteStore.WithoutNameDrops | src/stores/remoteStore.ts:32-33 | removing drops exactly the remotes with that name, keeps every other one as often as it occurs, and is idempotent |
| RemoteStore.Store.constructor | src/stores/remoteStore.ts:17-23 | the store starts with the initial remote |
| RemoteStore.Store.AddRemote | src/stores/remoteStore.ts:24-25 | the remotes become the old list with the remote appended |
| RemoteStore.Store.UpdateRemote | src/stores/remoteStore.ts:26-31 | the remotes become the patched old list |
| RemoteStore.Store.RemoveRemote | src/stores/remoteStore.ts:32-33 | the remotes become the old list without that name |
| Text.TrimIsCore | src/App.tsx:46 | `trim` returns a slice with only whitespace outside it, and the slice neither starts nor ends with whitespace |
| Text.TrimEmptyIff | src/App.tsx:131-132 | a string trims to empty exactly when it is all whitespace |
| Text.TrimIdempotent | src/App.tsx:131 | trimming twice is trimming once |
| Text.DecimalRoundTrip | src/stores/configStore.ts:26 | the decimal rendering of a number reads back as that number |
| Text.NatToStringInjective | src/api/tauri.ts:28 | distinct numbers render differently |
| Text.LexLeTotal | src/stores/aliasStore.ts:22 | the name order compares any two names |
| Text.LexLeTransitive | src/stores/aliasStore.ts:22 | the name order is transitive |
| Text.LexLeAntisymmetric | src/stores/aliasStore.ts:22 | names ordered both ways are equal |
| Seqs.FilterMembership | src/App.tsx:49-56 | an element is kept exactly when it is in the input and satisfies the predicate |
| Seqs.FilterAppend | src/App.tsx:49-56 | filtering distributes over concatenation, so input order is kept |
| Seqs.FilterCounts | src/App.tsx:121 | a kept element is kept as often as it occurs |

## Left out

- Native I/O is not modelled. This covers `Scope::path`, `ensure_file`, git2's `Config::open`, `entries` and `set_str`, `write_scope_entries`, and the Tauri `invoke` calls. `merged_view` takes each scope's listing as an input: an absent listing stands for a read error. `loadConfigFromNative` takes the native answer as an input: an absent answer stands for a failed call.
- `saveConfigToNative` only forwards to the native side and swallows its errors. Only the subset it is handed (`App.SavePayload`) is modelled.
- The following are not modelled:
  - the zustand `persist` layer and local storage;
  - the asynchronous load effect, which has no stale-response guard in the code, so the order of async completions is not modelled;
  - the JSX, the modals and the scroll-driven category highlight.
- `window.confirm`, `alert`, `prompt`, the directory dialog and `checkGitRepo` are not modelled: the confirmation and the repository check become boolean parameters.
- `App.Screen.HandlePickRepo` models only the desktop branch, after the dialog returned a path. The browser `prompt` fallback and the `catch` branch are not modelled.
- `Text.ToLower`: `toLowerCase` is modelled for ASCII letters only.
- `Text.LexLe`: `localeCompare` is modelled as the code-point order of names. Locale collation is not modelled.
- `Text.IsWhitespace`: `trim` is modelled with the ECMAScript WhiteSpace and LineTerminator code points.
- `ConfigStore.OverriddenByIsNearestRival`: `item !== primary` compares object identity. It is modelled as "at a position other than the primary's", which is what the sorted copy distinguishes.
- `GitConfig.MergedView`: the order of `HashMap::into_values` is left open. The winners are stated to appear once each, not in a particular order.
- The cross-language wiring is not modelled. It has these known quirks:
  - `App.tsx:40` passes `selectedRepoPath` to a `loadConfigFromNative` that takes only the scope.
  - `App.tsx:121` passes `selectedRepoPath` to a `saveConfigToNative` that takes only the scope and the entries (`src/api/tauri.ts:34`).
  - `checkGitRepo` is imported from `src/api/tauri.ts` but is not defined there.
  - The native `ConfigEntry` serialises its field as `overridden_by`, while the bridge reads `overriddenBy`, so for native data the override is always absent in practice.
  - The native `Scope` has no `merged` variant.
- `src-tauri/src/commands.rs`, `main.rs`, `i18n.ts` and the form components (`AliasEditor.tsx`, `RemoteEditor.tsx`) are not part of this model. Their submit guards only restrict when a store operation is called.
