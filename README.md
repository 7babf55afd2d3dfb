# Simplify Admin Menus — a verified model of its hiding engines

The WordPress plugin *Simplify Admin Menus* lets an administrator hide, per
role, entries of the admin toolbar (the "admin bar") and of the admin side
menu. It has two engines that decide what is hidden and a settings page that
feeds them:

- **Toolbar engine** (`AdminBarSettings`). Before the toolbar renders, it
  takes the host's flat list of toolbar nodes (each with an id, a title and a
  parent id or `false`), sorts it with a depth comparator, and rebuilds it
  into a nested structure keyed by id (`buildNodeStructure`). The
  `menu-toggle` node is never placed. A title-less node is not placed either,
  but its children are lifted into the enclosing level with their parent
  rewritten. Titles are stripped of markup and relabelled through a fixed
  table. It then looks up the exclusion map of the current user (their own
  map, or else their first role's) and walks the cached structure top-down,
  removing from the live toolbar every excluded node and skipping everything
  below a removed node.
- **Menu engine** (`AdminMenuSettings`). It snapshots the global `$menu` and
  `$submenu` arrays, lists them for the settings page in ascending numeric
  key order (skipping non-array and slug-less entries) with ids built from
  the slug (`slug` for a top-level entry, `slug(parent)-slug` for a submenu
  entry), and, for each id the first role's settings mark as hidden,
  deletes the first matching top-level entry and the first matching entry of
  each submenu group.
- **Settings page** (`AdminSettings`). The form handler turns the posted
  checkbox names into a `{key: true}` map (deleting every `admin_bar_` on the
  toolbar tab) and stores it under an option chosen by tab and role; the
  AJAX loader and the page itself both read the option for a role and tab,
  taking `menu-items` when no tab is given, and the page also falls back to
  the first role when none is given.

## Layout

| file | module | contents |
|---|---|---|
| `php_array.dfy` | `PhpArray` | PHP's ordered arrays as `seq<(K, V)>` (`$a[$k] = $v`, `isset`, `unset`), `empty()` on strings, `get_option` over a map |
| `admin_bar_tree.dfy` | `AdminBarTree` | toolbar nodes, `getMappedTitle`, `buildNodeStructure` and the proof of the shape of its result |
| `admin_bar_placement.dfy` | `AdminBarPlacement` | the converse: which nodes `buildNodeStructure` places, and that lifted children land in the enclosing level |
| `admin_bar_search.dfy` | `AdminBarSearch` | `findNodeInStructure`, and the set of ids the prune walk removes, characterised as the topmost excluded keys |
| `admin_bar_settings.dfy` | `AdminBarSettings` | the title table, the depth comparator and `uasort`, the live toolbar (`class Toolbar`), `class AdminBarSettings` with `storeOriginalAdminBar`, `getAdminBarItems`, `hideNodeAndChildren`, `hideAdminBarItems` |
| `admin_menu.dfy` | `AdminMenu` | menu entries, `sort(SORT_NUMERIC)`, the listings, the removal, the globals `$menu`/`$submenu` (`class MenuGlobals`) and `class AdminMenuSettings` |
| `admin_settings.dfy` | `AdminSettings` | tab and option-key choice, `str_replace('admin_bar_', '', …)`, the settings loop of `handleFormSubmission`, `ajaxLoadRoleSettings`, `getCurrentRole`, `renderSettingsPage` up to the template |

The WordPress and PHP helpers `sanitize_title`, `strip_tags`,
`wp_strip_all_tags`, `sanitize_text_field` and `__` are parameters of type
`string -> string`: nothing proved depends on what they do. `get_option`,
`get_user_meta`, `wp_get_current_user`, `current_user_can` and the nonce
checks become inputs (an option store `map<string, Settings>`, the user's
stored map, a `User` value, booleans). PHP `empty()` on a string is
mirrored: both `""` and `"0"` are empty.

### Where the code does less than its own comments say

- The comment above the `uasort` call in `storeOriginalAdminBar`
  (app/AdminBarSettings.php:106) says the sort puts parent nodes first. The
  comparator's closure reads `$nodes` without `use ($nodes)`, so both
  lookups fail and every depth is 0 (falsy parent) or 1 (any other
  parent); the model follows the code. `SortMayPlaceChildFirst` exhibits
  three nodes, three levels deep, that the sort leaves with a child before
  its parent. This does not lose nodes: `buildNodeStructure` rescans the
  whole list for every parent, so which ids the cached structure holds does
  not depend on the order (`BuildTreeKeys` characterises them from the
  parent links alone). The order of keys within a level does follow the
  list, but only through the relative order of nodes that share a parent,
  and those share a depth key, so the stable sort keeps them as listed;
  this last point is not proved (see "Left out").
- The comment in `handleFormSubmission` (app/AdminSettings.php:204) speaks
  of removing an `admin_bar_` prefix; the code deletes every occurrence in
  one pass (`str_replace`), which the model follows (`RemoveAllInside`,
  `RemoveAllSinglePass`).
- The toolbar reads its role settings from `simpad_adminbar_settings_<role>`
  while the form writes `sa_adminbar_settings_<role>`
  (`FormNeverWritesToolbarOption`); the menu keys agree (`PlainVisit`).

## Model

| member | source | states |
|---|---|---|
| `AdminBarSettings.MappedTitleTable` | app/AdminBarSettings.php:36-55 | after `setTitleMap` the four known ids get their translated labels and every other id keeps its title; with the initial empty table every id keeps its title |
| `AdminBarSettings.AdminBarSettings.SetTitleMap` | app/AdminBarSettings.php:36-44 | the table becomes the translated four-entry table; the cache is untouched |
| `AdminBarSettings.AdminBarSettings.constructor` | app/AdminBarSettings.php:22-27 | the title table starts empty and no structure is cached yet |
| `AdminBarTree.BuildNodeStructure` | app/AdminBarSettings.php:60-93 | at every level keys equal record ids and parents equal the level's parent id; every key occurs once in the whole tree; no key is `menu-toggle`, below `menu-toggle` or title-less; titles are the mapped stripped titles; every titled non-toggle node hanging off the parent is a key of the level |
| `AdminBarTree.ScanNodes` | app/AdminBarSettings.php:64-90 | the loop keeps the level invariant, never loses a key placed earlier, and places every titled node from the current one on |
| `AdminBarTree.StructurePut` | app/AdminBarSettings.php:83-88 | `$structure[$id] = …` adds exactly the new key, appending it when fresh |
| `AdminBarTree.SpliceAppends` | app/AdminBarSettings.php:76-79 | the `$structure[$childId] = $child` loop over a title-less node's children appends exactly the lifted children, keys and records kept, parents rewritten to the level's parent |
| `AdminBarTree.BuildTree` | app/AdminBarSettings.php:126 | the cached structure satisfies the level invariant for the top level (`false` parent) |
| `AdminBarPlacement.BuildTreeKeys` | app/AdminBarSettings.php:60-93 | an id is a key somewhere in the cached structure exactly when it is a listed, titled node other than `menu-toggle` whose parent walk reaches `false` without passing `menu-toggle` |
| `AdminBarPlacement.BuildComplete` | app/AdminBarSettings.php:60-93 | every titled non-toggle node below the level's parent, at any depth and with no `menu-toggle` on its path, is a key somewhere in the level's structure |
| `AdminBarPlacement.ScanComplete` | app/AdminBarSettings.php:64-90 | the loop keeps every key placed earlier and places, at some depth, every such node that lies below a sibling from the current one on |
| `AdminBarPlacement.ContributionComplete` | app/AdminBarSettings.php:69-88 | what one sibling contributes (its record, or its lifted children) holds every such node at or below it |
| `AdminBarPlacement.ScanStep` | app/AdminBarSettings.php:64-90 | one turn of the loop appends the node's contribution and keeps the level invariant |
| `AdminBarPlacement.TopSibling` | app/AdminBarSettings.php:64-69 | a node below the level's parent lies below one of the nodes whose parent is that parent |
| `AdminBarPlacement.LiftedChildren` | app/AdminBarSettings.php:76-79 | every key of the structure built for a title-less sibling is a key of the enclosing level itself |
| `AdminBarPlacement.ScanLifted` | app/AdminBarSettings.php:64-90 | once the loop has passed a title-less sibling its children's keys stay keys of the level to the end |
| `AdminBarSearch.LevelLookup` | app/AdminBarSettings.php:145-146 | a record is found at a level exactly when its key is there, and it is the record stored under that key |
| `AdminBarSearch.FindNodeInStructure` | app/AdminBarSettings.php:140-160 | the search succeeds exactly when the id is a key at some depth, returns a record stored under that id, and prefers the current level |
| `AdminBarSearch.FindInChildren` | app/AdminBarSettings.php:150-157 | searching the children of the remaining entries succeeds exactly when one of their subtrees holds the id |
| `AdminBarSearch.OccursUnique` | app/AdminBarSettings.php:140-160 | in a structure with unique keys an id is stored with at most one record |
| `AdminBarSearch.FindUnique` | app/AdminBarSettings.php:140-160 | in such a structure the search returns the record stored under the id wherever it is |
| `AdminBarSearch.PrunedIsTopmost` | app/AdminBarSettings.php:165-182 | the ids the walk removes are exactly the excluded keys with no excluded ancestor |
| `AdminBarSearch.PrunedIsAntichain` | app/AdminBarSettings.php:168-171 | every removed id is an excluded key, and no removed id lies below another |
| `AdminBarSearch.PrunedExtremes` | app/AdminBarSettings.php:206-213 | no exclusions remove nothing; excluding every key removes exactly the top level |
| `AdminBarSearch.PrunedSuperset` | app/AdminBarSettings.php:168 | adding to the exclusions ids that are not keys anywhere in the structure (stale entries of a user's or role's map) changes nothing the walk removes |
| `AdminBarSearch.PrunedFromEntry` | app/AdminBarSettings.php:165-182 | the walk from a stored entry removes the entry if excluded, else what the walks from its children remove |
| `AdminBarSearch.FoundSizeChild` | app/AdminBarSettings.php:174-180 | a child of a found node is found again by its key, in a strictly smaller subtree (the walk terminates) |
| `AdminBarSettings.ComparatorDepth` | app/AdminBarSettings.php:108-121 | the depth loop, with the closure's empty `$nodes`, ends at 0 for a falsy parent and 1 otherwise |
| `AdminBarSettings.Compare` | app/AdminBarSettings.php:107-124 | the comparator orders a node with a falsy parent first against one with a truthy parent, and ties every other pair |
| `AdminBarSettings.UaSort` | app/AdminBarSettings.php:107-124 | the sort puts every falsy-parent node before every truthy-parent node, keeps each group's order, permutes the list and keeps ids unique |
| `AdminBarSettings.StableSortIsUnique` | app/AdminBarSettings.php:107-124 | any list grouped by the comparator with each group in its original order is the sorted list |
| `AdminBarSettings.SortPutsTopLevelFirst` | app/AdminBarSettings.php:107-124 | after the sort a falsy-parent node is never after a truthy-parent node |
| `AdminBarSettings.SortMayPlaceChildFirst` | app/AdminBarSettings.php:106-124 | for a root, its child and its grandchild listed bottom-up, the sort leaves the grandchild before its parent |
| `AdminBarSettings.FilterConcat` | app/AdminBarSettings.php:107-124 | grouping by depth distributes over concatenation |
| `AdminBarSettings.SortedIsSplit` | app/AdminBarSettings.php:107-124 | a list sorted by depth is its falsy-parent group followed by its truthy-parent group |
| `AdminBarSettings.RemoveIds` | app/AdminBarSettings.php:169 | the live toolbar keeps exactly the nodes whose ids were not removed |
| `AdminBarSettings.RemoveIdsTwice` | app/AdminBarSettings.php:177-181 | removing one set of ids and then another equals removing their union |
| `AdminBarSettings.RemoveNothing` | app/AdminBarSettings.php:206-208 | removing no ids leaves the toolbar as it was |
| `AdminBarSettings.RemoveKeepsUnique` | app/AdminBarSettings.php:169 | removing nodes keeps the toolbar's ids unique |
| `AdminBarSettings.Toolbar.RemoveNode` | app/AdminBarSettings.php:169 | `remove_node` takes out the node with that id and nothing else |
| `AdminBarSettings.AdminBarSettings.StoreOriginalAdminBar` | app/AdminBarSettings.php:95-130 | without a toolbar nothing changes; otherwise the cache becomes the structure built from the sorted nodes (empty for no nodes) and keeps the shape invariant |
| `AdminBarSettings.AdminBarSettings.GetAdminBarItems` | app/AdminBarSettings.php:132-135 | the cached structure is available exactly once stored, and then has unique keys and consistent parents |
| `AdminBarSettings.AdminBarSettings.HideNodeAndChildren` | app/AdminBarSettings.php:165-182 | the live toolbar loses exactly the ids of the walk from the given id: the id itself if excluded, else what the walks from its cached children remove |
| `AdminBarSettings.AdminBarSettings.HideTopLevel` | app/AdminBarSettings.php:210-213 | walking every top-level key removes exactly the excluded cached nodes that have no excluded ancestor |
| `AdminBarSettings.AdminBarSettings.HideAdminBarItems` | app/AdminBarSettings.php:184-214 | without a toolbar nothing happens; otherwise it removes exactly the topmost excluded nodes for the user's own map, or the first role's when that is empty, and nothing without a user, roles or exclusions |
| `AdminBarSettings.NothingExcluded` | app/AdminBarSettings.php:206-208 | with no exclusions no node is removed |
| `AdminMenu.SortNumeric` | app/AdminMenuSettings.php:57-58 | `sort($keys, SORT_NUMERIC)` yields the keys in ascending order, as a permutation |
| `AdminMenu.InsertSpec` | app/AdminMenuSettings.php:58 | inserting a key into an ascending list keeps it ascending and adds exactly that key |
| `AdminMenu.ListedKeysMembers` | app/AdminMenuSettings.php:60-65 | a key is listed exactly when it is among the keys and its entry is an array with a non-empty slug |
| `AdminMenu.ListedKeysAscending` | app/AdminMenuSettings.php:60-65 | skipping entries keeps the ascending order |
| `AdminMenu.ListingOrderSpec` | app/AdminMenuSettings.php:57-65 | the listing visits, in ascending numeric order, exactly the keys whose entries are kept, and is no longer than the array |
| `AdminMenu.ListingBounds` | app/AdminMenuSettings.php:48-77 | an empty snapshot lists nothing; the menu listing is no longer than the menu, and each submenu listing no longer than its group |
| `AdminMenu.RowsComeFromEntries` | app/AdminMenuSettings.php:67-73 | each menu row comes from a kept entry, with id `slug(item[2])`, the title verbatim, and the submenu listing of the group stored under the raw slug, or none |
| `AdminMenu.SubRowsComeFromEntries` | app/AdminMenuSettings.php:97-100 | each submenu row comes from a kept entry of the group, with id `parentId-slug(item[2])` and the tag-stripped title |
| `AdminMenu.FirstMatchFrom` | app/AdminMenuSettings.php:133-138 | the position found is the first matching one, and none is found only when nothing matches |
| `AdminMenu.WithoutFirstSpec` | app/AdminMenuSettings.php:132-139 | removal deletes at most one entry, the first whose id matches, keeps every other entry and key in order, and changes nothing when none matches |
| `AdminMenu.WithoutFirstInGroups` | app/AdminMenuSettings.php:142-154 | every submenu group keeps its key and place, even when it becomes empty |
| `AdminMenu.HiddenIds` | app/AdminMenuSettings.php:120-124 | exactly the ids whose setting is true are passed on for removal |
| `AdminMenu.ListedIdRemoves` | app/AdminMenuSettings.php:132-139 | the id of every listed top-level row matches an entry of the menu |
| `AdminMenu.ListedSubIdRemoves` | app/AdminMenuSettings.php:142-154 | the id of every listed submenu row matches an entry of its group |
| `AdminMenu.ListedSubmenuRowRemoves` | app/AdminMenuSettings.php:143-148 | a submenu row listed under a top-level row lies in the group stored under that row's raw slug, and its id removes an entry of that group |
| `AdminMenu.RemovalsOnlyDrop` | app/AdminMenuSettings.php:120-124 | any run of removals only deletes entries: arrays stay arrays, keys stay distinct, at most one menu entry per id goes, and submenu group keys survive |
| `AdminMenu.RemoveFirst` | app/AdminMenuSettings.php:133-138 | the loop with `break` computes the removal of the first match |
| `AdminMenu.RemoveFirstInGroups` | app/AdminMenuSettings.php:143-153 | the by-reference loop over the groups computes the removal in every group |
| `AdminMenu.MenuGlobals.constructor` | app/AdminMenuSettings.php:129 | the globals hold the given menu and submenu |
| `AdminMenu.MenuGlobals.RemoveMenuItem` | app/AdminMenuSettings.php:127-155 | the globals become the state with the first matching top-level entry and the first matching entry of each group removed |
| `AdminMenu.AdminMenuSettings.constructor` | app/AdminMenuSettings.php:21-28 | no snapshot is stored yet |
| `AdminMenu.AdminMenuSettings.StoreOriginalMenu` | app/AdminMenuSettings.php:30-46 | the snapshot is a copy of the globals, or empty where a global is not an array |
| `AdminMenu.AdminMenuSettings.GetMenuItems` | app/AdminMenuSettings.php:48-77 | the loop computes the menu listing of the snapshot |
| `AdminMenu.AdminMenuSettings.GetSubmenuItems` | app/AdminMenuSettings.php:79-103 | the loop computes the submenu listing of a group |
| `AdminMenu.AdminMenuSettings.HideMenuItems` | app/AdminMenuSettings.php:105-125 | without roles nothing changes; otherwise every id the first role's settings mark true is removed, in order, and nothing else happens |
| `AdminMenu.AdminMenuSettings.RemoveHidden` | app/AdminMenuSettings.php:120-124 | the loop removes the ids marked true, in settings order |
| `AdminSettings.OptionKeyByTab` | app/AdminSettings.php:174-178 | the menu option is used exactly for the `menu-items` tab, the toolbar option for every other tab, and a missing tab means the menu option |
| `AdminSettings.OptionKeyPerRole` | app/AdminSettings.php:211-215 | different roles never share an option |
| `AdminSettings.FormNeverWritesToolbarOption` | app/AdminSettings.php:211-215 | no tab makes the form write the option the toolbar reads for a role |
| `AdminSettings.RemoveAllAbsent` | app/AdminSettings.php:205 | a key without `admin_bar_` in it is kept as it is |
| `AdminSettings.RemoveAllLength` | app/AdminSettings.php:205 | deleting shortens the key by whole occurrences |
| `AdminSettings.RemoveAllLeading` | app/AdminSettings.php:205 | a leading `admin_bar_` is deleted |
| `AdminSettings.RemoveAllInside` | app/AdminSettings.php:205 | an `admin_bar_` after the first character is deleted too: it is not a prefix strip |
| `AdminSettings.RemoveAllSinglePass` | app/AdminSettings.php:205 | the deletion is one pass: `admin_badmin_bar_ar_` becomes `admin_bar_` |
| `AdminSettings.CleanKeyStripsPrefix` | app/AdminSettings.php:202-207 | on the toolbar tab a field `admin_bar_<id>` is stored as `<id>` when `<id>` has no `admin_bar_` inside it (otherwise every occurrence is deleted, see `RemoveAllInside`); on other tabs the sanitised name is kept |
| `AdminSettings.BuildSettings` | app/AdminSettings.php:198-209 | the stored map has exactly the cleaned posted keys, each once, every value `true`, and is empty without posted settings |
| `AdminSettings.HandleFormSubmission` | app/AdminSettings.php:183-227 | the permission check comes first, then the nonce; an empty role stores nothing; otherwise the settings map is saved under the option for the tab and role |
| `AdminSettings.SavedSettingsLoadBack` | app/AdminSettings.php:163-181 | after a save the AJAX loader returns the saved map for the same role and tab |
| `AdminSettings.PlainVisit` | app/AdminSettings.php:229-259 | a plain visit shows the menu tab for the user's first role, or `administrator`, reading the option the menu engine applies; without permission nothing is shown |
| `AdminSettings.PageAgreesWithAjax` | app/AdminSettings.php:247-259 | the page and the AJAX loader show the same settings for a posted role and tab |

## Left out

- Hooks and their priorities (`add_action`, 9999 before 99999, `admin_menu`
  before `admin_head`): the model requires instead that the toolbar cache was
  stored (`initialized`) before the walk reads it; `hideMenuItems` reads only
  the globals and needs no snapshot.
- The typed property `$originalAdminBar` being unset until stored is the
  `initialized` flag; reading it before (a PHP error) is `None` in
  `GetAdminBarItems` and excluded by the requires of the walks.
- `is_object($wp_admin_bar)` is `bar == null`; the toolbar object's other
  methods and its node objects' other fields are not modelled.
- PHP's array-key coercion (numeric strings becoming integer keys) and
  non-integer menu positions: menu keys are `int`, settings keys `string`.
- `sort(SORT_NUMERIC)` is modelled by its result (an ascending permutation)
  computed by insertion, not PHP's own algorithm; with integer keys ties are
  equal keys, so the result is the same.
- `uasort` is modelled as PHP 8's stable sort, by its result; PHP 7's
  unstable sort is not modelled.
- A submenu group that is not an array (the `is_array` in `getSubmenuItems`
  can never fail for its typed parameter, and the one in `removeMenuItem` is
  modelled by every group being an array); a non-array `$menu` or `$submenu`
  is `None`.
- `get_user_meta` returning a non-array: the user's stored map is a
  `Settings` value, empty when absent.
- Menu entries are either arrays with a title and a slug (WordPress
  separators among them, with their `separatorN` slugs, and so listed) or
  non-array values, which are skipped; other offsets of the entry arrays are
  not modelled.
- The order of keys within a level of the cached structure is not proved to
  be the order the nodes sharing that parent had before the sort; only which
  keys each level holds, and where, is proved.
- Nonce and capability checks, `update_option`, `get_option`, redirects,
  notices, `wp_send_json_*` and `wp_die` are inputs or outcomes, not I/O.
- `renderSettingsPage` is modelled up to choosing the role, tab and
  settings; the listings it passes to the template and the template itself
  are not part of this model, nor are `resources/views`, the JavaScript,
  `ViteManifest.php` and the plugin bootstrap.
- `setAdminProfileColors` (CSS string building) is not modelled.
- The link from the form's stored toolbar option to the option the toolbar
  reads: the two keys are shown to differ, and nothing is proved about
  user meta, which nothing in the plugin writes.
- `AdminBarSettings.AdminBarSettings.HideAdminBarItems`: the choice between the user's map and the role's map is stated through `ToolbarExclusions`, a function without a contract of its own.
- `AdminSettings.CleanKeyStripsPrefix`: stated only for ids with no `admin_bar_` inside them; for other ids every occurrence is deleted in one pass, which `RemoveAllInside` and `RemoveAllSinglePass` state.
