# dbx-interface, modelled in Dafny

dbx-interface is a desktop Dropbox client: two file explorers side by side,
one over the local Dropbox folder and one over the Dropbox account. This
project models its sequential logic, the parts that are not UI:

- **The configuration store** (`package/utils.py`). This covers the document a
  new configuration holds, and `read_config`, which turns the override list
  into a set. It also covers `clean_synced_paths`, which migrates the legacy
  `SYNCED_PATHS` ledger into `TIME_LAST_SYNCED_FROM_LOCAL` and prunes that
  ledger to the files the walk of the local folder still finds. The
  configuration is a `map<string, Value>`. The walked files are an input,
  given as paths relative to the local folder. Missing keys and non-dict
  ledgers are `Result` errors, matching the `KeyError` and `AttributeError`
  the source raises.
- **The listings.**
  - The Dropbox listing (`DropboxModel.get_list_of_paths` and the older
    `dbx_utils.get_list_of_paths`) lists a folder, follows the cursor while
    the service reports more, sorts by `path_lower` and projects each entry.
    The service is an input: a pair of functions from folder and cursor to
    page.
  - The local listings (`LocalModel.get_list_of_paths` and
    `local_utils.get_list_of_paths`) collect the directory's children and
    sort them by basename. One sorts by the lower-cased basename, the other
    by the basename as it is. The children are an input.
  - Python's `list.sort(key=...)` is modelled once, as a stable sort
    (`Sorting.SortBy`). It is proved to be a sorted, stable permutation, and
    these properties are proved to determine the result uniquely.
- **Path strings.** `str.split("/")` and `"/".join` are modelled once
  (`PathText`), with their round trips. This covers the rename target, the
  new-folder and upload targets, and the download suggestion with its `.zip`
  suffix for folders. It also covers the two breadcrumb panels. A panel
  shows a path as a list of components, and a click on a component navigates
  to the path spelled by the components up to it. The panels are classes.
  Their list widget is a `seq<string>` and a clicked item is its index.
  `change_path` is a loop with `break`, returning the path it hands to the
  explorer.
- **Selection and item state** (`ItemList`, `ExplorerItem`). The selected
  items form a duplicate-free list that a checkbox toggles. An item's
  `basename` is the last component of its `path`, and the rename action
  updates both. Dialog answers are method inputs, and the task an action
  builds is the method's result. For create-folder and upload, the code's
  hand-off of that task fails (see "## Left out").

The model shows the following behaviours of the code:

- Toggling a selected item twice moves it to the end of the list, so the
  selection order changes unless it was the last one selected
  (`ItemLists.ToggleTwicePresent`).
- A rename text containing `/` leaves `basename` different from the last
  component of `path` (`ExplorerItems.ExplorerItem.Rename`,
  `LocalUtils.RenameBasename`).
- In the Dropbox panel, a folder named `My Dropbox` cannot be opened from the
  breadcrumb. A click on it leads to the root
  (`DbxExplorer.HomeNamedFolderLeadsToRoot`).
- The local panel's click on its only item gives back the root exactly when
  the root holds a `/` (`LocalExplorer.ClickRootAfterConstruction`). Without
  one, the click leads to "/" followed by the root
  (`LocalExplorer.ClickMissesRootWithoutSep`).
- The Dropbox `create_config` of `package/dbx_utils.py` writes no ledger.
  Cleaning a configuration written by it fails with a missing key, when
  both name the same file (`DbxUtils.CreatedConfigHasNoLedger`). That
  `create_config` writes `config.json` relative to the working directory,
  while `clean_synced_paths` reads the `config.json` in the project root
  (package/utils.py:11-12).

## Model

| member | source | states |
|---|---|---|
| Utils.CreateConfig | package/utils.py:45-54 | a new configuration holds exactly the eight keys: location, the two app credentials, the two tokens, the override list and the two ledgers |
| Utils.FreshConfig | package/utils.py:45-54 | read back, a new configuration has `DROPBOX_LOCATION`, `APP_KEY` and `APP_SECRET` equal to its arguments, the two tokens as given, an empty override set and two empty ledgers, and cleaning leaves it unchanged whatever the walk finds |
| Utils.AsSet | package/utils.py:65 | `set(v)` of a list holds exactly the list's elements; of a dict, exactly its keys |
| Utils.ReadConfig | package/utils.py:59-66 | the read configuration has the stored keys plus `GITIGNORE_OVERRIDES`, which is always a set: empty when the key was absent, else the set of the stored value; every other key keeps its value |
| Utils.ReadConfigOverrides | package/utils.py:65 | a stored override list keeps every element and collapses repeats: the set is no larger than the list, and equally large exactly when the list has no repeats |
| Utils.WalkedFiles | package/utils.py:72-76 | one walked path per file, in walk order, each starting with "/" followed by the relative path |
| Utils.CleanSpec | package/utils.py:80-85 | cleaning fails with a missing `TIME_LAST_SYNCED_FROM_LOCAL` exactly when neither ledger key is present, and succeeds exactly when the ledger is a dict; on success `SYNCED_PATHS` is gone, its map replaces the ledger with no merge, an entry is kept exactly when its key is a walked file, kept timestamps are unchanged, and every other key keeps its value |
| Utils.CleanIdempotent | package/utils.py:85 | cleaning twice against the same walk is cleaning once |
| Utils.CleanSyncedPaths | package/utils.py:68-85 | the walk loop, read, migration and pruning compute the cleaned read configuration; every ledger key left is "/" plus a walked relative path, and every key other than the ledgers and the override list keeps its stored value |
| RemoteListing.FetchAllEntries | package/model/dbx_model.py:12-24 | the loop asks for the first page, then for continuations with the latest cursor until a page reports no more, and returns every page's entries in order |
| RemoteListing.ReceivedHoldsEveryEntry | package/model/dbx_model.py:15-24 | the j-th entry of page k sits at its page's offset in the result, with nothing dropped or merged, and the result's length is the sum of the page lengths |
| RemoteListing.ReceivedLength | package/dbx_utils.py:40-49 | the entries received number the sum of the page lengths |
| DropboxModel.GetListOfPaths | package/model/dbx_model.py:11-29 | one pair per entry of every page; the entries are sorted by non-decreasing `path_lower`, stably, as a permutation of the entries received; each pair is (`path_display`, is a file) |
| DbxUtils.GetListOfPaths | package/dbx_utils.py:34-55 | the same sorted, stable permutation of all entries, each projected to a dict with exactly the keys `path` and `is_file` |
| DbxUtils.CreatedConfigHasNoLedger | package/dbx_utils.py:81-87 | this `create_config` writes exactly the five credential and location keys and no ledger; read back it gains an empty override set, and cleaning it fails with a missing `TIME_LAST_SYNCED_FROM_LOCAL` |
| Sorting.SortByCorrect | package/model/dbx_model.py:26 | the stable sort returns a permutation of its input, ordered by non-decreasing key, with elements of equal key in their input order |
| Sorting.SortedStableUnique | package/model/dbx_model.py:26 | any sorted, stable rearrangement of a list is the sort's result, so these properties fully determine `list.sort(key=...)` |
| Sorting.Lower | package/model/local_model.py:17 | lower-casing keeps the length, leaves no upper-case ASCII letter, and changes each character at most in its ASCII case |
| Sorting.LowerCharAlike | package/model/local_model.py:17 | two characters lower-case alike exactly when they differ at most in ASCII case |
| LocalModel.GetListOfPaths | package/model/local_model.py:11-19 | one (path, is a file) pair per child, a permutation of the collected pairs, sorted by non-decreasing lower-cased basename, stably |
| LocalModel.CaseVariantsKeepOrder | package/model/local_model.py:17 | children whose basenames differ only in ASCII case get the same key, and the sorted listing keeps the pairs with that key in iteration order |
| LocalModel.CollectedPairs | package/model/local_model.py:14-15 | each child yields its own pair, with the flag unchanged, as many times as the child occurs |
| LocalUtils.GetListOfPaths | package/utils/local_utils.py:5-13 | one pair per child, a permutation of the collected pairs, sorted by non-decreasing case-sensitive basename, stably |
| LocalUtils.CaseChangesOrder | package/utils/local_utils.py:11 | the two local listings order the same children differently: "/d/B" precedes "/d/a" here and follows it in the model's listing |
| LocalUtils.RenameTarget | package/utils/local_utils.py:22-25 | a path without "/" renames to exactly the new name; otherwise to the path's leading components joined, "/" and the new name |
| LocalUtils.RenameKeepsParent | package/utils/local_utils.py:22-25 | for a new name without "/", the target has the same leading components, the same number of components, and the new name as its last |
| LocalUtils.RenameToSameName | package/utils/local_utils.py:22-25 | renaming to the current basename gives back the path |
| LocalUtils.RenameBasename | package/utils/local_utils.py:22-25 | the target's last component is the new name exactly when the new name holds no "/" |
| PathText.Basename | package/ui/widgets/explorers/base/explorer_item.py:20 | the last component of a path holds no "/" |
| PathText.AppendComponent | package/ui/widgets/explorers/base/item_list.py:128-130 | split, append a name, join is the path followed by "/" and the name |
| ExplorerItems.ExplorerItem.constructor | package/ui/widgets/explorers/base/explorer_item.py:13-22 | the item keeps its path and file flag, and its basename is the path's last component |
| ExplorerItems.ExplorerItem.Rename | package/ui/widgets/explorers/base/explorer_item.py:87-102 | cancelled or empty: nothing changes and no task; otherwise the path becomes the rename target of the old path, the basename becomes the text, the rename task carries the old and the new path, and basename stays the last component exactly when the text holds no "/" |
| ExplorerItems.ExplorerItem.Delete | package/ui/widgets/explorers/base/explorer_item.py:103-113 | a delete task for the item's path is emitted exactly when the answer is Yes |
| ItemLists.RemoveFirst | package/ui/widgets/explorers/base/item_list.py:107 | `list.remove` of a present item shortens the list by one |
| ItemLists.RemoveFirstAt | package/ui/widgets/explorers/base/item_list.py:107 | `list.remove` cuts out exactly the first occurrence |
| ItemLists.ToggleSpec | package/ui/widgets/explorers/base/item_list.py:106-109 | a toggle flips the membership of the toggled item, keeps every other item's, and keeps the list free of repeats |
| ItemLists.ToggleTwiceAbsent | package/ui/widgets/explorers/base/item_list.py:106-109 | toggling an unselected item twice restores the list |
| ItemLists.ToggleTwicePresent | package/ui/widgets/explorers/base/item_list.py:106-109 | toggling a selected item twice moves it from its place to the end; the others keep their relative order |
| ItemLists.ItemList.constructor | package/ui/widgets/explorers/base/item_list.py:16-23 | the list starts with no selected item, remembering its explorer and current directory |
| ItemLists.ItemList.ItemSelectionStateChanged | package/ui/widgets/explorers/base/item_list.py:103-110 | the selection becomes the toggle of the old one and stays free of repeats; only the item's membership flips; the count reported is the new length |
| ItemLists.ItemList.CreateFolder | package/ui/widgets/explorers/base/item_list.py:125-133 | a task is emitted exactly when the dialog is accepted with text, and creates the explorer's current directory followed by "/" and the text |
| DbxExplorer.DisplayedItems | package/ui/widgets/explorers/dbx_explorer.py:33-38 | the panel lists "My Dropbox" first, then one item per component after the first |
| DbxExplorer.DropboxDirectoryPanel.constructor | package/ui/widgets/explorers/dbx_explorer.py:29-31 | a new panel lists only "My Dropbox" |
| DbxExplorer.DropboxDirectoryPanel.ChangeDisplayedDirectories | package/ui/widgets/explorers/dbx_explorer.py:33-38 | the panel remembers the path and lists "My Dropbox" followed by the path's components after the first |
| DbxExplorer.DropboxDirectoryPanel.ChangePath | package/ui/widgets/explorers/dbx_explorer.py:40-50 | the loop computes the click target of the clicked item, and the panel displays that path before handing it to the explorer |
| DbxExplorer.ClickHome | package/ui/widgets/explorers/dbx_explorer.py:41-42 | a click on an item reading "My Dropbox" leads to the root "" |
| DbxExplorer.ClickJoined | package/ui/widgets/explorers/dbx_explorer.py:43-47 | a click on item k of at least 1 that does not read "My Dropbox" leads to "/" followed by items 1 to k joined by "/" |
| DbxExplorer.DisplayThenClickLast | package/ui/widgets/explorers/dbx_explorer.py:33-50 | displaying the root or an absolute path whose last component is not named "My Dropbox", then clicking the last item, gives the path back |
| DbxExplorer.HomeNamedFolderLeadsToRoot | package/ui/widgets/explorers/dbx_explorer.py:41-42 | displaying a path whose last component is named "My Dropbox", then clicking that component, leads to the root |
| DbxExplorer.HomeNamedFolderExample | package/ui/widgets/explorers/dbx_explorer.py:36-42 | "/My Dropbox" splits into "" and "My Dropbox", and a click on its folder leads to the root |
| DbxExplorer.Upload | package/ui/widgets/explorers/dbx_explorer.py:65-76 | the upload task goes to the list's current directory followed by "/" and the chosen entry's name: its components are the directory's plus the name |
| DbxExplorer.Download | package/ui/widgets/explorers/dbx_explorer.py:93-100 | the suggested path is the basename in ~/Downloads with ".zip" appended exactly for folders; a download task is emitted exactly when a path was chosen |
| LocalExplorer.Shown | package/ui/widgets/explorers/local_explorer.py:35 | the panel lists the path's components from the root's last one on, and nothing when the path is shorter (Python's clamped slice) |
| LocalExplorer.LocalDirectoryPanel.constructor | package/ui/widgets/explorers/local_explorer.py:23-30 | the panel stores the root's number of components and its leading components joined as base path, and lists only the root's last component |
| LocalExplorer.LocalDirectoryPanel.ChangeDisplayedDirectories | package/ui/widgets/explorers/local_explorer.py:32-36 | the panel remembers the path and lists its components from the root's last one on |
| LocalExplorer.LocalDirectoryPanel.ChangePath | package/ui/widgets/explorers/local_explorer.py:38-48 | the loop computes the click target of the clicked item, and the panel displays that path before handing it to the explorer |
| LocalExplorer.ClickJoined | package/ui/widgets/explorers/local_explorer.py:39-45 | a click on item k leads to the base path, "/" and items 0 to k joined by "/" |
| LocalExplorer.ClickRootAfterConstruction | package/ui/widgets/explorers/local_explorer.py:26-45 | right after construction, a click on the only item leads to the root, when the root holds a "/" |
| LocalExplorer.ClickMissesRootWithoutSep | package/ui/widgets/explorers/local_explorer.py:26-45 | right after construction, for a root without "/", the base path is empty and a click on the only item leads to "/" followed by the root, not to the root |
| LocalExplorer.DisplayThenClickLast | package/ui/widgets/explorers/local_explorer.py:26-45 | for a root holding a "/", displaying any path whose components before the root's last one are the root's leading components, then clicking the last item, gives the path back; this covers the children of a root ending in "/" |
| LocalExplorer.DisplayDescendantThenClickLast | package/ui/widgets/explorers/local_explorer.py:26-45 | for a root holding a "/", displaying the root or any path that starts with the root and "/", then clicking the last item, gives the path back |
| LocalExplorer.SlashRootChild | package/ui/widgets/explorers/local_explorer.py:26-45 | under the root "/", the child "/x" is shown as the single item "x", and a click on it leads back to "/x" |

## Left out

- The Dropbox SDK, the OAuth token request, `webbrowser`, `subprocess` and the
  file system calls (`os.walk`, `Path.iterdir`, `os.rename`, `os.remove`,
  `os.rmdir`) are not modelled. Pages, directory children, walked paths and
  token answers are inputs.
- `create_dbx`, `validate_dbx` and `print_list_of_paths` are not modelled;
  they only call the SDK.
- Reading and writing `config.json` are not modelled. The write-back at the
  end of `clean_synced_paths` serialises the override set made by
  `read_config`, which JSON cannot encode. The model makes no claim that the
  write succeeds.
- Utils.CleanSyncedPaths: stops before the write-back, returning the cleaned
  configuration, for the reason above.
- ItemLists.ItemList.CreateFolder: returns the create-folder task the code
  builds. The code then hands it to `self.explorer.perform_task(...)`
  (package/ui/widgets/explorers/base/item_list.py:132), a method no explorer
  defines, so the code raises `AttributeError` there. The failing hand-off
  is not modelled.
- DbxExplorer.Upload: returns the upload task the code builds. The code then
  emits it on `self.perform_task`
  (package/ui/widgets/explorers/dbx_explorer.py:71 and 76), a signal that
  neither `DropboxItemList` nor `ItemList` declares, so the code raises
  `AttributeError` there (as does the connection at line 20). The failing
  hand-off is not modelled. Neither is the menu: `DropboxItemList` adds the
  two upload entries in `create_right_click_menu` (line 59), but the base
  class builds its menu with `_create_right_click_menu`
  (package/ui/widgets/explorers/base/item_list.py:26 and 45), so the entries
  are never added and the actions cannot be chosen.
- Utils.Value: has four shapes (string, list of strings, set of strings, map
  of strings). JSON numbers, booleans, null and nested values are not
  modelled, so timestamps are strings.
- Sorting.Lower: lower-cases ASCII letters only; Python's `str.lower` also
  folds other Unicode letters.
- Sorting.SortBy: an insertion sort standing in for Timsort.
  `Sorting.SortedStableUnique` shows that any sorted, stable permutation is
  this one, so the result is the same.
- RemoteListing.FetchAllEntries: requires that the chain of `has_more` ends.
  It carries a ghost index of the last page. A service that always reports
  more makes the source loop forever, and this is not modelled.
- LocalModel.GetListOfPaths: takes each child's resolved path and file flag
  as given. Symlink resolution is not modelled. Its key lower-cases ASCII
  letters only (see `Sorting.Lower`). So names that differ only in the case
  of a non-ASCII letter get different keys here, and may be ordered
  differently than `str.lower` would order them.
- DbxExplorer.Upload: takes the chosen entry's name as the text after its
  last "/". `pathlib`'s `.name` also drops trailing slashes and "." parts,
  and that normalisation is not modelled.
- The "Open Containing Folder" and "Refresh" actions are not modelled. They
  pass a path unchanged into a task, or reload the list.
- The "Open", "Open Folder" and "Sync" actions are not modelled, and as
  written each of them fails before any task is handed on.
  - "Open" (package/ui/widgets/explorers/base/explorer_item.py:116) emits
    keyword arguments on a signal declared as `(str, dict)`, which raises
    `TypeError`.
  - "Open Folder" (package/ui/widgets/explorers/base/item_list.py:136) calls
    `self.explorer.perform_task(...)`, which no explorer defines, so it raises
    `AttributeError`, as "Create Folder" does.
  - "Sync" (package/ui/widgets/explorers/dbx_explorer.py:102) calls
    `self.model.read_config()`, which neither `DropboxModel` nor
    `InterfaceModel` defines, so it raises `AttributeError`.
- Rectangle selection, `select_all`/`deselect_all`, labels, style sheets,
  painting and event filters are not modelled; they are Qt widget code.
- Threads and task status popups are not modelled; each task runs on a thread
  of its own.
- The model classes' `delete`, `move` and `open_path` are not modelled, nor
  is `local_utils.delete`; they only call the file system, the SDK or the
  browser.
