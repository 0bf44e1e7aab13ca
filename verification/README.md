# nuovo-file: a verified model of the cache and the directory-picking logic

nuovo-file is a VS Code extension that creates a file or folder relative to a
directory picked from a quick-pick list. This project is a Dafny model of two
parts of it.

- **The expiring key-value `Cache`** (src/cache.ts). It keeps `{value,
  expiration?}` entries in memory and mirrors them into VS Code's `globalState`
  under one namespace on every mutation. The model is a class with a
  `map<string, Entry>` field and a ghost field `persisted` standing for what
  the store holds. `Valid()` says the two agree. Every mutating method states
  its exact effect on both, and the clock is an integer parameter `now`.
- **The selection, ranking and ignore helpers of src/extension.ts**:
  - recording a selection (`cacheSelection`) and reading it back (`lastSelection`);
  - the stable root sort (`sortRoots`) and `rootForDir`;
  - the upward `.gitignore` walk and the ignore-list assembly;
  - the `DirectoryOption` builders (`rootOptions`, `subdirOptionsForRoot`,
    `currentEditorPathOption`, `buildQuickPickItem`);
  - how the quick-pick list is put together (`convenienceOptions`, `dirQuickPickItems`).

Files and modules:

| file | module | contents |
|---|---|---|
| wrappers.dfy | Wrappers | `Option`, and `Result` whose error case is a thrown `TypeError` |
| sequences.dfy | Sequences | `indexOf`, `splice(i, 1)` and list helpers |
| paths.dfy | Paths | '/'-separated paths: `path.join`, `path.resolve(p, '..')`, `isFolderDescriptor` |
| types.dfy | Types | the records of src/types.d.ts |
| json.dfy | Json | the JavaScript values the cache stores, `typeof === 'object'`, truthiness, a stored `DirectoryOption` |
| cache.dfy | ExpiringCache | the `Cache` class |
| selection.dfy | Selection | `cacheSelection`, `lastSelection` |
| ranking.dfy | Ranking | `sortRoots` |
| ignore.dfy | IgnoreRules | `invertGlob`, the `'//'` fix, `walkupGitignores`, `gitignoreGlobs`, `configIgnoredGlobs` |
| options.dfy | DirectoryOptions | the `DirectoryOption` builders and `rootForDir` |
| candidates.dfy | Candidates | `convenienceOptions`, `dirQuickPickItems` |

Several behaviours of the code as written differ from what one might expect. The model follows the code:

- `reduce(flatten)` (src/extension.ts:119, 340) keeps only the FIRST group. lodash's `flatten` flattens its single argument and ignores the group `reduce` passes next. So:
  - `convenienceOptions` shows only the first configured kind;
  - `dirQuickPickItems` lists only the first root's directories;
  - `reduce` on an empty list throws a `TypeError`, which happens in `convenienceOptions` when the setting is missing or empty.
  - `Candidates.ReduceFlattenKeepsFirstGroup`, `Candidates.ConvenienceFirstKindOnly` and `Candidates.PickItemsFirstRootOnly` state these.
- The stored `recentRoots` list never affects the order of roots. `command` calls `sortRoots(roots, [])`, which is the identity (`Ranking.SortRootsWithoutPreference`).
- In `sortRoots` an unlisted root ranks as the number of roots. A root listed at an index at or beyond that number therefore sorts after the unlisted roots (`Ranking.UnlistedBeforeLateListed`). "Listed roots first, in list order" holds when the list is no longer than the roots (`Ranking.ListedFirstInDesiredOrder`).
- `get` returns `undefined`, not the default, for a present but expired key.
- An entry of the `convenienceOptions` setting that names none of the three kinds yields no items when it comes first, and is ignored elsewhere (`Candidates.ConvenienceGroup`).

## Model

| member | source | states |
|---|---|---|
| ExpiringCache.ExpirationFor | src/cache.ts:27-37 | an expiration is recorded iff the time-to-live is given and is an integer, and it is then `now + ttl` |
| ExpiringCache.Live | src/cache.ts:119-128 | an entry is live while it has no expiration or the time is before it; `Cache.IsExpired` is its negation on a present key |
| ExpiringCache.ExpiredStaysExpired | src/cache.ts:119-128 | once an entry has expired it stays expired at every later time |
| ExpiringCache.LiveUntilTtl | src/cache.ts:119-128 | an entry put without ttl is live at every time; one put at `t` with integer ttl is live exactly before `t + ttl` |
| ExpiringCache.Cache.constructor | src/cache.ts:14-18 | the in-memory map is the namespace's stored map, or empty when the store holds nothing; the store and map agree |
| ExpiringCache.Cache.Put | src/cache.ts:20-44 | resolves false iff the key is not a string or the value is undefined, and then nothing changes. Otherwise the key maps to the value with `ExpirationFor(ttl, now)`, every other key keeps its entry, and the store equals the new map. Without ttl, `has` and `get` return the value at every later time |
| ExpiringCache.Cache.Has | src/cache.ts:46-52 | true iff the key is present and its entry is live |
| ExpiringCache.Cache.Get | src/cache.ts:54-71 | the default for an absent key; undefined (not the default) for an expired key; the stored value for a live key |
| ExpiringCache.Cache.Forget | src/cache.ts:73-81 | absent key: resolves true and nothing changes. Present key: exactly that key is removed and the store equals the new map. Afterwards the key is not `has` at any time |
| ExpiringCache.ForgetTwice | src/cache.ts:73-81 | forgetting twice equals forgetting once, and the second call resolves true |
| ExpiringCache.Cache.Keys | src/cache.ts:83-85 | exactly the stored keys, expired ones included |
| ExpiringCache.Cache.All | src/cache.ts:87-93 | the loop maps every stored key, expired or not, to its unwrapped value, and no other key |
| ExpiringCache.Cache.GetAll | src/cache.ts:95-97 | the same result as `all` |
| ExpiringCache.Cache.Flush | src/cache.ts:99-102 | the map becomes empty and the store holds undefined |
| ExpiringCache.Cache.ClearAll | src/cache.ts:104-106 | the same effect as `flush` |
| ExpiringCache.Cache.GetExpiration | src/cache.ts:108-117 | the stored expiration when the key is present and has one, nothing otherwise |
| ExpiringCache.Cache.IsExpired | src/cache.ts:119-128 | false for an absent key or one without expiration; otherwise `now >= expiration`; equivalently present and not live |
| Json.EncodeOption | src/types.d.ts:6-9 | a stored `DirectoryOption` is an object and truthy |
| Json.DecodeEncode | src/types.d.ts:1-9 | a stored `DirectoryOption` reads back as itself |
| Json.DecodedIsObject | src/extension.ts:260-261 | whatever reads back as a `DirectoryOption` passes the `typeof === 'object'` test and is truthy |
| Sequences.IndexOf | src/extension.ts:358 | -1 iff the element is absent; otherwise the index of its first occurrence |
| Sequences.RemoveAt | src/extension.ts:360 | `splice(i, 1)` shortens the list by one |
| Selection.RecentRootsList | src/extension.ts:356-363 | the stored "recentRoots" value, defaulted to `[]` when falsy, before `splice`/`unshift`: an array gives its elements, a falsy value the empty list, and the array operations throw (None) exactly for any other truthy value |
| Selection.Promote | src/extension.ts:356-363 | the chosen path is first; the length grows by one only when the path was absent |
| Selection.PromoteMultiset | src/extension.ts:356-363 | the result has the old elements, plus the path only if it was absent |
| Selection.PromoteKeepsOthersInOrder | src/extension.ts:358-363 | the other elements keep their relative order |
| Selection.PromoteKeepsNoDuplicates | src/extension.ts:356-364 | a duplicate-free list stays duplicate-free, and the path occurs only at index 0 |
| Selection.PromoteExamples | src/extension.ts:358-363 | `[b, c]` with `a` gives `[a, b, c]`; `[a, b, c]` with `c` gives `[c, a, b]` |
| Selection.CacheSelection | src/extension.ts:349-365 | stores the option under "last" and the promoted list under "recentRoots"; returns false (the source throws) when "recentRoots" is truthy but not an array, having stored "last" only. The store mirrors the map, and "last" is live at every later time |
| Selection.LastSelection | src/extension.ts:254-266 | nothing when "last" is absent or expired; the value when it is an object (null and arrays included); otherwise "last" is forgotten and nothing is returned. The cache is otherwise unchanged |
| Selection.RecallAfterSelection | src/extension.ts:354 | a selection recorded at one time is what `lastSelection` returns at any later time |
| Ranking.SortRoots | src/extension.ts:367-375 | the result is a permutation of the roots, ordered by rank (a root's index in the desired order, or the number of roots when unlisted) |
| Ranking.SortRootsStable | src/extension.ts:367-375 | roots of equal rank keep their original relative order (stable sort) |
| Ranking.SortRootsWithoutPreference | src/extension.ts:386 | with an empty desired order the result equals the input |
| Ranking.ListedFirstInDesiredOrder | src/extension.ts:371-374 | when the desired order is no longer than the roots, a listed root precedes every unlisted root, and listed roots follow the desired order |
| Ranking.UnlistedBeforeLateListed | src/extension.ts:372-373 | a root listed at index ≥ the number of roots sorts after an unlisted one |
| Paths.Join | src/extension.ts:91 | `path.join(a, b)`: `a` without a trailing separator, then one separator; when neither side brings a separator the result is `a + "/" + b`; the length is within one of the parts' total |
| Paths.IsFolderDescriptor | src/extension.ts:27-29 | the last character is the separator (the empty path is not a folder); characterised by `FolderDescriptorIsTrailingSep` |
| Paths.FolderDescriptorIsTrailingSep | src/extension.ts:27-29 | a path names a folder iff it ends in the separator |
| Paths.Parent | src/extension.ts:54-55 | the parent is the path itself or strictly shorter |
| Paths.RootIsOwnParent | src/extension.ts:54-55 | "/" is its own parent, so the walk stops there |
| IgnoreRules.InvertGlob | src/extension.ts:64-66 | removes one leading '!' exactly when there is one, and is the identity otherwise |
| IgnoreRules.InvertGlobStripsOnce | src/extension.ts:64-66 | "!!p" becomes "!p": only one marker is removed |
| IgnoreRules.FindDoubleSep | src/extension.ts:77 | the first index where "//" occurs, or nothing when there is none |
| IgnoreRules.CollapseFirstDoubleSep | src/extension.ts:77 | the first "//" becomes "/" and everything else is unchanged; no "//" means no change |
| IgnoreRules.CollapseOnlyFirst | src/extension.ts:77 | "a//b//c" becomes "a/b//c" |
| IgnoreRules.NormalizeGitignoreGlob | src/extension.ts:76-77 | a gitignore pattern with its leading '!' dropped and first "//" collapsed: never longer, and unchanged when it has neither |
| IgnoreRules.ParentShrinks | src/extension.ts:54-55 | the parent step shrinks until its fixed point, so the walk ends |
| IgnoreRules.VisitedSteps | src/extension.ts:48-62 | the walk starts at the directory, each step goes to the parent of the previous one, and it ends at a fixed point of the parent |
| IgnoreRules.VisitedShrinks | src/extension.ts:48-62 | visited paths get strictly shorter, so no directory is visited twice |
| IgnoreRules.WalkupExample | src/extension.ts:48-62 | from "/a/b" the walk visits "/a/b", "/a", "/", and the nearer `.gitignore` is listed first |
| IgnoreRules.GitignoresOfSoundComplete | src/extension.ts:49-52 | every listed path exists and is the `.gitignore` of a visited directory; every existing one is listed; there are no more paths than directories |
| IgnoreRules.FoundAt | src/extension.ts:48-62 | the listed paths correspond one to one with strictly increasing positions in the walk, every directory holding a `.gitignore` among them, each path being that directory's `.gitignore`: one per directory, nearest directory first |
| IgnoreRules.WalkupGitignores | src/extension.ts:48-62 | the loop returns the existing `.gitignore` paths of the visited directories, nearest first |
| IgnoreRules.Flatten | src/extension.ts:70 | one group flattens to itself |
| IgnoreRules.FlattenAppend | src/extension.ts:70 | flattening one more group appends its patterns |
| IgnoreRules.GitignoreGlobs | src/extension.ts:68-71 | the patterns of the `.gitignore` files concatenated; a single file gives exactly its patterns |
| IgnoreRules.GitignoreGlobsAppend | src/extension.ts:68-71 | patterns come file by file in the files' order: one more file appends its patterns |
| IgnoreRules.SetKey | src/extension.ts:32-36 | a property assignment changes the looked-up value of that key only, and keeps keys distinct |
| IgnoreRules.Assign | src/extension.ts:32-36 | `Object.assign` keeps keys distinct |
| IgnoreRules.LookupAssign | src/extension.ts:32-36 | after `Object.assign` a key has the source's value if the source has it, the target's otherwise |
| IgnoreRules.TrueKeysExact | src/extension.ts:43-45 | a key is kept iff its value is `true`, and no key is kept twice |
| IgnoreRules.ConfigIgnoredGlobs | src/extension.ts:31-46 | `Object.assign([], nuovoFile.exclude, files.exclude)` and the keys whose value is `true`, in key order; characterised by `ConfigIgnoredGlobsExact` |
| IgnoreRules.ConfigIgnoredGlobsExact | src/extension.ts:31-46 | a key is ignored iff its merged value is `true`, where `files.exclude` overrides `nuovoFile.exclude`; no duplicates |
| IgnoreRules.AssembleIgnore | src/extension.ts:75-80 | every gitignore pattern with its '!' dropped and first "//" collapsed, in order, then the settings' patterns unchanged |
| IgnoreRules.IgnoreGlobs | src/extension.ts:68-80 | the ignore list is the normalised patterns of the walked-up `.gitignore` files, then the settings' patterns |
| DirectoryOptions.BuildQuickPickItem | src/extension.ts:179-192 | an item exists iff an option is given; it carries the option, labelled with its display text, with the given description |
| DirectoryOptions.DisplayText | src/extension.ts:130-132 | with one root the text is the relative path; with several it starts with "/", the root's name and a separator |
| DirectoryOptions.DisplayTextShowsRoot | src/extension.ts:130-132 | with several roots the display text starts with "/" and the root's name; with one root it is the relative path |
| DirectoryOptions.DisplayTextExamples | src/extension.ts:130-132 | "/src" under root "web" shows as "/web/src" with several roots, "/src" with one |
| DirectoryOptions.LocationsOf | src/extension.ts:88-93 | one location per scanned directory |
| DirectoryOptions.LocationsAgree | src/extension.ts:88-93 | every location's absolute path is its root joined with its relative path |
| DirectoryOptions.SubdirOptionsForRoot | src/extension.ts:124-139 | one option per scanned directory, in scan order, carrying that location |
| DirectoryOptions.SubdirOptionsShowRoot | src/extension.ts:124-139 | every sub-directory option follows the display rule and lies under its root |
| DirectoryOptions.RootOptions | src/extension.ts:292-302 | one option per root, with relative path "/" and the root path as absolute path |
| DirectoryOptions.RootOptionsShowRoot | src/extension.ts:292-302 | root options follow the same display rule as the other options |
| DirectoryOptions.FirstRootOf | src/extension.ts:310 | the first root whose path is a prefix of the given path, and -1 iff there is none |
| DirectoryOptions.RootForDir | src/extension.ts:377-379 | nothing iff no root path is a prefix of the option's absolute path; otherwise the first root whose path is |
| DirectoryOptions.RootOptionFindsRoot | src/extension.ts:377-379 | a root option traces back to its own root or to an earlier root that contains it |
| DirectoryOptions.CurrentEditorPathOption | src/extension.ts:304-333 | nothing iff there is no current directory, it is empty, or no root contains it. Otherwise the absolute path is the directory, and the relative path is what follows the first containing root's path ("/" when nothing follows) |
| DirectoryOptions.CurrentOptionShowsRoot | src/extension.ts:304-333 | the current-file option follows the display rule, and `rootForDir` on it gives the root it was built from |
| Candidates.FoldKeepsAccumulator | src/extension.ts:119 | each `flatten` step of the reduction returns the accumulator unchanged |
| Candidates.ReduceFlatten | src/extension.ts:119 | `reduce(flatten)` without seed throws exactly on an empty list |
| Candidates.ReduceFlattenKeepsFirstGroup | src/extension.ts:119 | `reduce(flatten)` throws iff there are no groups, and otherwise yields the first group |
| Candidates.ReduceFlattenDropsLaterGroups | src/extension.ts:340 | a non-empty later group is not appended |
| Candidates.ConvenienceGroup | src/extension.ts:102-114 | `optionsByName[kind]`: one item per root for "root", at most one item for "last" and "current", none for an unknown name |
| Candidates.ConvenienceItems | src/extension.ts:96-121 | throws exactly when the setting is missing or empty |
| Candidates.ConvenienceFirstKindOnly | src/extension.ts:96-122 | throws iff the setting is absent or empty, and otherwise yields the items of its first kind. The last selection and current file give at most one item each, with their descriptions; the roots give one item per root |
| Candidates.ConvenienceOptions | src/extension.ts:96-122 | the items for the last selection as stored before the call; the cache changes only as `lastSelection` changes it |
| Candidates.PlainItems | src/extension.ts:341-342 | one item per option, carrying it, without description |
| Candidates.PickItems | src/extension.ts:335-347 | a list exists exactly when there are roots and the convenience items exist, and it starts with the convenience items |
| Candidates.PickItemsFirstRootOnly | src/extension.ts:335-347 | a list exists iff there are roots and the convenience items exist; it equals the convenience items followed by the items of the first root's scanned directories, in scan order and nothing else; each of those lies under that root and follows the display rule |
| Candidates.DirQuickPickItems | src/extension.ts:335-347 | with no roots: throws before reading the cache, which is unchanged. Otherwise the list is `PickItems` of the convenience items computed from the cache as it was, and the cache changes only by `lastSelection` forgetting a non-object "last" |

## Left out

- The directory scan (`globby.globbySync`, src/extension.ts:82-87) is a third-party glob walker. Its result is an input: `scan(rootPath)` in `Candidates`, `matches` in `DirectoryOptions`.
- `gitignoreToGlob` is a foreign parser. It is the function parameter `toGlob`, which is total: a `.gitignore` whose read fails, making `gitignoreToGlob` throw and `directoriesSync` reject, is not modelled.
- `fs.existsSync` is the set `onDisk` of existing paths.
- `Date.now()` and the division in `now()` (src/cache.ts:3-5) are replaced by an integer parameter `now` in seconds.
- Selection.LastSelection: `cache.has('last')` and `cache.get('last')` (src/extension.ts:255, 258) each read the clock; the model takes both reads at the same instant `now`, so an entry that expires between the two reads (the source then forgets it) is not modelled. `cacheSelection` never stores "last" with a ttl, so this cannot arise from the extension's own writes.
- The `setTimeout` deferral and the promises of `directories`, `Promise.all`, and what `globalState.update` resolves with are not modelled. A settled update is the reply `StoreUpdate`.
- VS Code UI and configuration reads are not modelled: `activate`, `showQuickPick`, `showInputBox`, `openFile`, `command`, `workspaceRoots`, `currentEditorPath`. Setting values, the roots and the active editor's directory are parameters.
- `createFileOrFolder` (mkdirp, `fs.appendFileSync`) and `expandBraces` (the `braces` library) write to disk or call a library. They are not part of this model.
- Numbers are reals, so NaN and the infinities are not representable.
- Paths.Parent: `path.resolve(p, '..')` is modelled for absolute '/'-separated paths without "." or ".." segments and without repeated separators (`Parent("/a//b")` is "/a/", where Node gives "/a"). A path without any separator is treated as its own parent, because the working directory is not modelled.
- Paths.Join: `path.join` is modelled as dropping one separator on each side of the junction. It agrees only when both parts are non-empty and have no "." or ".." segments and no repeated separators (`Join("/a/b//", ".gitignore")` and `Join("/a", "//x")` keep the doubled separator where `path.join` gives "/a/b/.gitignore" and "/a/x"; `Join("/a", "./b")` is "/a/./b" where `path.join` gives "/a/b"; `Join("/a", "")` is "/a/" where `path.join` gives "/a"; and `path.join("", b)` is `b`). A workspace folder name is joined this way in display texts, so a name with such segments is displayed differently from the extension.
- DirectoryOptions.CurrentEditorPathOption: the root path is removed as a plain prefix. The source builds an unescaped `RegExp`, which agrees only for root paths without regular-expression metacharacters.
- Candidates.ConvenienceOptions: an object under "last" that is not a stored `DirectoryOption` (an array, or another object) gives no item. The source would build an item with an undefined label.
- Candidates.ReduceFlatten: lodash `flatten` also spreads array elements of the accumulator. Quick-pick items are never arrays, so this cannot occur here.
- ExpiringCache.Cache.Keys: returns a set. The source returns `Object.keys`, an array in insertion order, so the order is not modelled.
- ExpiringCache.Cache.Has: names inherited from `Object.prototype` (such as "toString") read as absent. In the source they are not `undefined`.
- IgnoreRules.ConfigIgnoredGlobs: settings objects are ordered records with distinct keys. JavaScript's ordering of integer-like keys, and the array that `Object.assign` starts from, are not modelled.
- `Cache.namespace` naming (`workspace:` plus the root paths joined by ';', src/extension.ts:384) is part of `command` and is not modelled.
