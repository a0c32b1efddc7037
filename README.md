# Earth Engine asset migrator — a Dafny model

This project models the path and tree logic of the asset migrator library
`geeAssetMigratorLib.py`. The library copies, re-permissions and deletes whole
trees of Earth Engine assets (folders, image collections, images, tables).
The model covers:

- **Path helpers.**
  - `check_end` appends a separator only when it is missing.
  - `fixAssetPath` prefixes `projects/earthengine-legacy/assets/` unless the
    path already matches `^projects/[^/]+/assets/.*$`.
  - The token file name that `setupCredentialsForMigration` derives from an
    asset root.
  - The pattern is modelled exactly, including Python's treatment of a
    newline: `.` does not match `\n`, and `$` also matches just before a
    final `\n`.
- **The walk `getTree`.** The remote store is a finite tree of `Node`s. Listing
  a parent yields the children of the node the walk stands on, in listing
  order. `GetTree` is an imperative method that appends to a shared, mutable
  `TreeList`, as the Python code appends to the list it passes down its
  recursion. It is proved against the functional specification `Level` and
  `Tree`, and properties of the walk are proved about that specification:
  - one row per asset;
  - parents before children;
  - each listing contiguous and in order;
  - destinations computed by `str.replace` of all occurrences.
- **The tree operations.** `batchChangePermissions`, `copyAssetTree` and
  `deleteAssetTree` are loops that issue one Earth Engine call per row.
  - The remote endpoint is a `Service` object holding the log of calls made.
  - Whether call number *n* raises is decided by an oracle that the service
    is created with.
  - Every exception is caught and the loop goes on, so each call is logged
    with its outcome.
  - `deleteAssetTree` reads two answers. They are parameters, and the
    prompts form a small state machine.

Modules: `Strings` (the Python `str` operations used), `AssetPaths`,
`AssetTree`, `WalkProperties`, `Remote`, `Migrator`, and `Scenario` (a worked
copy of a two-asset folder).

Line 126 has no fallback: `ee.data.getAsset(fromRoot)` raises for a missing
root, so every top-level walk requires the root to exist
(`store.name == Fix(fromRoot)`).

## Model

| member | source | states |
|---|---|---|
| AssetPaths.CheckEnd | geeAssetMigratorLib.py:21-26 | The result ends with `add`. An input that already ends with `add` is returned unchanged; any other input becomes exactly `in_path + add`. |
| AssetPaths.CheckEndIdempotent | geeAssetMigratorLib.py:21-26 | Applying `check_end` twice gives the same result as applying it once. |
| AssetPaths.MatchesAssetPattern | geeAssetMigratorLib.py:111-112 | `re.match(regex, path) != None` for the default pattern, computed from the first '/' after `projects/`. Its contract is `MatchesAssetPatternCorrect`. |
| AssetPaths.MatchesAssetPatternCorrect | geeAssetMigratorLib.py:111-112 | The computed match test (the segment after `projects/` ends at its first '/') agrees with the pattern `^projects/[^/]+/assets/.*$` for every choice of where `[^/]+` ends. |
| AssetPaths.FixAssetPath | geeAssetMigratorLib.py:111-114 | `fixAssetPath(path, legacy_prefix)` with the default pattern. Its contracts are `FixAssetPathSpec`, `FixAssetPathMatches` and `FixAssetPathIdempotent`. |
| AssetPaths.FixAssetPathSpec | geeAssetMigratorLib.py:111-114 | A path the pattern matches is returned unchanged. Any other path is returned as exactly `legacy_prefix + path`. |
| AssetPaths.LegacyPrefixedMatches | geeAssetMigratorLib.py:111-113 | A path behind the default prefix matches exactly when its remainder is accepted by `.*$`, i.e. it has no newline except possibly a final one. |
| AssetPaths.FixAssetPathMatches | geeAssetMigratorLib.py:111-114 | The fixed path matches the pattern exactly when the input matched, or the input has no newline except possibly a final one. |
| AssetPaths.FixAssetPathIdempotent | geeAssetMigratorLib.py:111-114 | Fixing a fixed path changes nothing exactly when the input matched the pattern or has no newline except possibly a final one. For an input such as `a\nb` the prefixed path still fails the pattern, so a second fix prefixes it again. |
| AssetPaths.MatchesExtended | geeAssetMigratorLib.py:130-131 | A newline-free matching path still matches after anything newline-free is appended, e.g. the '/' of lines 130-131. |
| AssetPaths.FixAssetPathNoNewline | geeAssetMigratorLib.py:111-114 | A newline-free path is fixed into a newline-free path that matches the pattern. |
| AssetPaths.TokenPath | geeAssetMigratorLib.py:93-95 | The token file of a root: `check_end(token_dir)` followed by `'_'.join(root.split('/'))` of the fixed root. Its contract is `TokenPathShape`. |
| AssetPaths.TokenPathShape | geeAssetMigratorLib.py:90-95 | The token path is `token_dir` made to end in '/', followed by the fixed root with every '/' replaced by '_'. It has the same length as the fixed root and contains no '/'. |
| AssetPaths.TokenPathNotInjective | geeAssetMigratorLib.py:93-95 | The roots `users/a_b` and `users/a/b` get the same token file. Once the first account's token is stored, `setupCredentialsForMigration` finds the file present and skips authenticating the second. |
| Strings.ReplaceAll | geeAssetMigratorLib.py:145 | `str.replace` of every non-overlapping occurrence, scanning from the left. Its contracts are `ReplaceAllWithoutOccurrence` and `ReplaceAllLeading`. |
| Strings.ReplaceAllWithoutOccurrence | geeAssetMigratorLib.py:145 | `str.replace` leaves a string without an occurrence of the target unchanged. |
| Strings.ReplaceAllLeading | geeAssetMigratorLib.py:145 | For `fromRoot/` followed by a `rest` that does not contain it, `str.replace` gives `toRoot/` followed by `rest`. |
| Strings.Split | geeAssetMigratorLib.py:94-95 | `s.split('/')`, empty pieces included. Its contract, with `Join`, is `JoinSplit`. |
| Strings.Join | geeAssetMigratorLib.py:94-95 | `'_'.join(parts)`. Its contract, with `Split`, is `JoinSplit`. |
| Strings.JoinSplit | geeAssetMigratorLib.py:94-95 | `'_'.join(s.split('/'))` is `s` with each '/' replaced by '_', character by character. |
| Strings.Lower | geeAssetMigratorLib.py:199-201 | `answer.lower()` on ASCII letters. Its contract is `LowerIsY`. |
| Strings.LowerIsY | geeAssetMigratorLib.py:199-201 | `answer.lower() == 'y'` holds exactly for the answers "y" and "Y". |
| AssetTree.WithSlash | geeAssetMigratorLib.py:130-131 | The cleaned root ends in '/' and equals `check_end(root, '/')`. |
| AssetTree.Level | geeAssetMigratorLib.py:129-153 | What one call of `getTree` appends: the listing's rows, then each container's walk. Its contracts are `GetTree`, `LevelRows`, `VisitParentsFirst`, `VisitListingsContiguous` and `LevelDestinations`. |
| AssetTree.Tree | geeAssetMigratorLib.py:124-154 | What the top-level `getTree(fromRoot, toRoot)` returns. Its contracts are `GetTree`, `TreeOrder`, `TreeCoversStore` and `TreeDestinations`. |
| AssetTree.DescendIsExpand | geeAssetMigratorLib.py:141-153 | Descending into the listing's containers in listing order is the same as walking the collected `nextLevels` in order. |
| AssetTree.GetTree | geeAssetMigratorLib.py:117-154 | On the top-level call, a new list is returned: the root row `[rootType, fixAssetPath(fromRoot), fixAssetPath(toRoot)]` followed by the walk's rows. A given list is extended in place by exactly the walk's rows. |
| AssetTree.AppendListing | geeAssetMigratorLib.py:141-149 | The listing loop appends one row per listed asset, in order: its type, its name, and its name with every `fromRoot/` replaced by `toRoot/`. It collects exactly the FOLDER and IMAGE_COLLECTION assets as `nextLevels`. |
| AssetTree.WalkPending | geeAssetMigratorLib.py:152-153 | The `nextLevels` loop appends, in order, what the recursive walk of each pending container appends. |
| AssetTree.TreeList.Reverse | geeAssetMigratorLib.py:203 | `treeList.reverse()` replaces the list by its reversal. |
| AssetTree.ReversedAt | geeAssetMigratorLib.py:203 | The reversal has the same length, and position k holds element `n-1-k`. |
| WalkProperties.LevelRows | geeAssetMigratorLib.py:137-153 | The rows one call appends are, one for one, the assets it visits, each with its own type and name. |
| WalkProperties.VisitParentsFirst | geeAssetMigratorLib.py:141-153 | Every visited asset is listed by the starting node, or by a container visited earlier. |
| WalkProperties.VisitListingsContiguous | geeAssetMigratorLib.py:141-153 | The starting node's listing comes first, whole and in listing order. Every visited container's listing appears later, whole, contiguous and in listing order. |
| WalkProperties.TreeOrder | geeAssetMigratorLib.py:124-153 | The top-level result starts with the root row of both fixed roots. Below it, the rows match the visited assets. Each asset comes after the row of the container that lists it, or is listed by the root. |
| WalkProperties.PreorderSize | geeAssetMigratorLib.py:137-153 | The pre-order enumeration names `Size-1` assets below a node. |
| WalkProperties.VisitIsPermutationOfPreorder | geeAssetMigratorLib.py:141-153 | When only containers list anything, the walk visits exactly the assets of the pre-order enumeration (the same multiset). |
| WalkProperties.TreeCoversStore | geeAssetMigratorLib.py:124-154 | When only containers list anything, the result has exactly `1 + descendants` rows, and each descendant appears once. |
| WalkProperties.ChildDestination | geeAssetMigratorLib.py:145 | A child named `parent/seg` of its parent gets the destination `t + seg`. |
| WalkProperties.LevelDestinations | geeAssetMigratorLib.py:130-153 | In a store whose names follow its hierarchy, and for a destination root without newline, every row of a call has a source ID below `fromRoot/`. Its destination is the fixed `toRoot/` followed by the rest of the source ID. |
| WalkProperties.TreeDestinations | geeAssetMigratorLib.py:121-153 | The same for the top-level result: the root row, then rows whose destination is the prefix-substituted source ID. |
| Remote.OutcomesAttemptEvery | geeAssetMigratorLib.py:164-167 | Each planned call is attempted once and in order, whatever the earlier calls' outcomes: call k is action k with outcome `start+k`. |
| Remote.Service.Perform | geeAssetMigratorLib.py:164-167 | One call is appended to the log with the oracle's outcome for its position. |
| Migrator.AclPlanAt | geeAssetMigratorLib.py:162-165 | One `setAssetAcl` per listed ID, in order, each with the same ACL. |
| Migrator.SetAcls | geeAssetMigratorLib.py:162-167 | The loop logs exactly the ACL plan's calls with their outcomes. A failing call does not stop the rest. |
| Migrator.BatchChangePermissions | geeAssetMigratorLib.py:158-167 | The ACL is set on the given asset list or, without one, on the source IDs of `getTree(root, root)`, in order, one call per ID. |
| Migrator.CopyAction | geeAssetMigratorLib.py:176-185 | The call made for one row: a create for a container, a copy without overwrite otherwise. Its contracts are `CopyPlanAt` and `CopyFollowsTree`. |
| Migrator.CopyPlanAt | geeAssetMigratorLib.py:175-188 | One call per row: a container is created as `Image_Collection` at `toID`, and anything else is copied `fromID → toID` without overwrite. |
| Migrator.CopyRows | geeAssetMigratorLib.py:175-188 | The copy loop logs exactly the copy plan's calls with their outcomes. |
| Migrator.CopyRowsThenPermissions | geeAssetMigratorLib.py:175-193 | The copy calls come first, then, only when `changePermissions` is set, one ACL call per destination ID. |
| Migrator.CopyAssetTree | geeAssetMigratorLib.py:171-193 | Corrected: the copy calls for `getTree(fromRoot, toRoot)`, then the requested ACL on every destination. |
| Migrator.CopyAssetTreeAsWritten | geeAssetMigratorLib.py:171-193 | As written: the same copy calls, then empty readers, empty writers and `all_users_can_read` false on every destination. |
| Migrator.CopyFollowsTree | geeAssetMigratorLib.py:172-188 | There are as many copy calls as tree rows, and the root's call comes first. Every asset below the root is listed by the root, or by a container whose create call came earlier. |
| Migrator.PermissionPlanApplies | geeAssetMigratorLib.py:192-193 | Corrected ACL step: each destination receives the requested readers, writers and public flag. |
| Migrator.PermissionPlanAsWrittenIgnoresArguments | geeAssetMigratorLib.py:193 | As written: each destination receives empty readers, empty writers and false, whatever was requested. |
| Migrator.PermissionPlanAsWrittenCounterexample | geeAssetMigratorLib.py:193 | As written, copying one image with one reader requested does not grant the reader. |
| Migrator.IsYes | geeAssetMigratorLib.py:199-201 | `answer.lower() == 'y'`. Its contract is `LowerIsY`. |
| Migrator.Answer | geeAssetMigratorLib.py:197-201 | The prompt reached after one answer. Its contracts are `SecondPromptOnlyAfterYes` and `ConfirmedExactly`. |
| Migrator.SecondPromptOnlyAfterYes | geeAssetMigratorLib.py:197-200 | The second prompt is shown exactly after a first answer "y" or "Y"; any other answer ends the dialogue. |
| Migrator.ConfirmedExactly | geeAssetMigratorLib.py:197-201 | Deletion is confirmed exactly when both answers are "y" or "Y". |
| Migrator.DeletionRows | geeAssetMigratorLib.py:202-203 | `getTree(root, root)[1:]`, reversed. Its contracts are `DeleteOrder`, `DeleteCoversDescendants` and `DeleteSparesRoot`. |
| Migrator.DeletePlanAt | geeAssetMigratorLib.py:204-207 | One `deleteAsset(ID1)` per row, in row order. |
| Migrator.DeleteRows | geeAssetMigratorLib.py:204-209 | The delete loop logs exactly the delete plan's calls with their outcomes. A failing delete does not stop the rest. |
| Migrator.DeleteAssetTree | geeAssetMigratorLib.py:196-209 | One prompt is shown, and a second only after a "y". Unless both answers are "y", nothing is deleted. Otherwise every row of `getTree(root, root)[1:]` is deleted, in reverse walk order. |
| Migrator.DeleteOrder | geeAssetMigratorLib.py:202-209 | One deletion per row of `getTree(root, root)[1:]`, i.e. per asset the walk visits, in reverse walk order. Every such asset not listed by the root is deleted before the container that lists it. |
| Migrator.DeleteCoversDescendants | geeAssetMigratorLib.py:202-207 | When only containers list anything, exactly `Size-1` deletions are made, one per descendant. |
| Migrator.DeleteSparesRoot | geeAssetMigratorLib.py:202-207 | In a store whose names follow its hierarchy, every deleted ID lies below `root/`, and the root itself is never deleted. |
| Scenario.DemoLevel | geeAssetMigratorLib.py:137-153 | For relative roots `a` and `b` and a folder listing a folder `sub` and an image `img1`, the walk yields `sub` and then `img1`, each placed below the fixed `b`. |
| Scenario.DemoCopy | geeAssetMigratorLib.py:171-188 | Copying that folder creates the destination root, then `b/sub`, then copies `a/img1` to `b/img1` without overwrite. |
| Scenario.DemoRootsRelative | geeAssetMigratorLib.py:111-113 | `users/a/demo` and `users/b/demo2` are relative roots: the fix prefixes them. |

## Left out

- `custom_authenticate`, `addRoots` and `initializeFromToken` (lines 31-85): OAuth, credential files, JSON files and `ee.Initialize`. These are foreign calls and file I/O.
- The message boxes and token-file existence checks of `setupCredentialsForMigration` (lines 97-108): user interface and file I/O. Only the token path computation of lines 90-95 is modelled.
- The Earth Engine calls themselves: `listAssets` and `getAsset` are the store tree, and the other calls are entries of the service log with an oracle outcome. The effect on the destination store, the printed text and the exception messages are not modelled.
- Paging of `ee.data.listAssets`: a listing is taken to be the node's complete list of children.
- A general regular-expression engine: only `fixAssetPath`'s default pattern is modelled, and its `regex` argument is not a parameter.
- Migrator.BatchChangePermissions: requires `root` when `assetList` is None. With both None the source calls `getTree(None, None)`, and `re.match` inside `fixAssetPath` raises a TypeError (lines 159-160, 121, 112); that uncaught error is not modelled.
- `input()` and `print`: the two answers are parameters of `DeleteAssetTree`, and nothing is printed.
- `geeAssetMigratorExample.py`: a configuration script with no logic of its own.
- AssetTree.GetTree: the recursive call lists the subtree node it was handed, whatever name the fixed path spells. Sharing of `treeList` is modelled as one `TreeList` object passed down the recursion.
- Strings.Lower: lower-cases only the ASCII letters, not the full Unicode case mapping of `str.lower`.
- Migrator.CopyAssetTree: the corrected method passes the requested ACL. The as-written behaviour is `Migrator.CopyAssetTreeAsWritten`.
- WalkProperties.TreeDestinations: the prefix-substitution property is stated only for a destination root without newline, since a newline can make the fixed destination stop matching the pattern once the walk extends it.
- WalkProperties.TreeCoversStore: counts one row per descendant only when non-container assets list nothing. For a store where an image lists children, the walk skips them, and only the row–asset correspondence `RowsOf` is stated.

## Findings

| source | as written | input that shows it | evidently intended | confidence | as-written member | corrected member |
|---|---|---|---|---|---|---|
| geeAssetMigratorLib.py:193 | `copyAssetTree` calls `batchChangePermissions` with `readers = []`, `writers = []` and `all_users_can_read = False`, not with its own arguments | `changePermissions = True`, `readers = ["user:reader@example.com"]`, one image row | every copied asset receives the readers, writers and public flag passed to `copyAssetTree` | not executed | Migrator.PermissionPlanAsWrittenCounterexample | Migrator.PermissionPlanApplies |
