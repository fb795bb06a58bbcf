# modV active-list logic in Dafny

modV is a live visual-effects mixer. Users drag effect modules from a gallery
into an active list, and each active module has a control panel. This project
models the logic inside the user-interface file `src/modV-ui.js` that runs when
a module is dropped, reordered or focused:

- **Names.** The `replaceAll` helper is a split/join substitution. A module has
  a *display name* with spaces and a *safe name* with hyphens. A module dropped
  while copies of it are already active gets the suffix ` (n)`. The number n
  comes from a CSS `|=` attribute query over the active items.
- **Registry.** `registeredMods` maps display names to modules. A repeated drop
  registers a clone under the new name. The clone gets rebuilt controls, runs
  its `init` hook, and is then renamed and inserted. The placed module is then
  enabled, and `setModOrder` is told its name and index.
- **Panels.** Focusing an active item hides every control panel and then shows
  that item's panel. Blur changes nothing.

Files:

- `names.dfy` (module `Names`): JavaScript's `split`, `join` and `replace`
  with a string pattern. Also a reference definition of substitution, and the
  lemmas that tie `replaceAll` to it.
- `decimal.dfy` (module `Decimal`): the decimal text of a count, with its
  read-back function.
- `naming.dfy` (module `Naming`): display and safe names, the `|=` match, the
  duplicate count and the suffixed display name.
- `ui.dfy` (module `ModVUi`): controls, module records and the `ModV` class. Its
  fields are the registry, the recorded `setModOrder` calls and the panel map.
  Its methods are the drop, reorder, focus and blur handlers.

How the page is abstracted:

- The dragged item's `data-module-name` is a parameter. So is the list of
  `data-module-name` values of the items already in the active list.
- The drop index and the outcome of the clone's `init` hook are parameters too.
- The control panels are a map from name to their `show` flag.
- A module is a record with the fields the handler touches.
- A control is an object whose kind and settings never change after it is built.

Behaviours of the code a reader might not expect (the model follows the code):

- Focusing an item that has no control panel does not leave the panels as they
  were. The code clears every panel first and only then fails on the missing
  panel, so all panels end up hidden (`ModVUi.ModV.ActiveElementHandler`).
- The duplicate count is not "the number of existing instances". It is the
  number of active items whose name equals the base or starts with the base and
  a hyphen. So the count can produce a name that is already in use
  (`Naming.CountCanReuseActiveName`). The base replaces only the first space
  of the gallery item's name. That name is set outside this file, and lines 30
  and 37-38 treat it as the hyphenated safe name, which has no spaces. Only a
  gallery name with two or more spaces makes the count miss a duplicate
  (`Naming.FirstSpaceOnlyMissesDuplicate`). The query
  also selects other modules whose name extends the dragged one after a space:
  dropping "Foo" while "Foo Bar" is active names the new instance "Foo (1)"
  (`Naming.LongerNameCountsAsDuplicate`). Reusing a name needs an earlier
  instance to leave the active list. That is done outside this file: the
  gallery list does not accept drops (`put: false`, lines 105-110).
- With no duplicate, the registry keeps the same keys. But its entry for the
  module is the very object the handler enables, so that entry's `disabled`
  becomes false (`ModVUi.ModV.OnAdd`).

## Model

| member | source | states |
|---|---|---|
| `Names.Split` | src/modV-ui.js:6 | a non-empty separator gives at least one piece; an empty separator gives one piece per character (the pieces themselves are described by `Names.SplitJoinIsSubstitute` and `Names.SplitJoinInverse`) |
| `Names.Join` | src/modV-ui.js:6 | the joined string is as long as the pieces together plus one separator between each neighbouring pair, and starts with the first piece |
| `Names.ReplaceAll` | src/modV-ui.js:5-7 | for a non-empty operator, `replaceAll` equals the reference substitution `Substitute`; see `Names.SplitJoinIsSubstitute` |
| `Names.SplitJoinIsSubstitute` | src/modV-ui.js:5-7 | for a non-empty operator, split-then-join replaces every occurrence of the operator that does not overlap an earlier one, scanning left to right (equals the reference definition `Substitute`) |
| `Names.ReplaceAllWithoutOperator` | src/modV-ui.js:5-7 | for a non-empty operator that does not occur in `s`, `replaceAll` returns `s` unchanged |
| `Names.ReplaceAllRemovesOperator` | src/modV-ui.js:5-7 | for a one-character operator, every character of the result is from the replacement or is a character of `s` other than the operator; so if the replacement does not contain the operator, neither does the result |
| `Names.LongOperatorCanSurvive` | src/modV-ui.js:5-7 | the previous property needs a one-character operator: `replaceAll("aaa", "aa", "a")` is `"aa"` |
| `Names.SplitJoinInverse` | src/modV-ui.js:6 | joining the pieces of a split with the same non-empty separator gives the original string |
| `Names.ReplaceAllChar` | src/modV-ui.js:5-7 | replacing one character by another keeps the length, turns each occurrence into the replacement and leaves every other character in place |
| `Names.ReplaceFirst` | src/modV-ui.js:35 | a pattern and replacement of equal length keep the length; a string shorter than a non-empty pattern is unchanged (the position of the change is given by `Names.ReplaceFirstChar`) |
| `Names.ReplaceFirstChar` | src/modV-ui.js:35 | `replace` with a one-character pattern changes only the first occurrence, or nothing when the pattern does not occur |
| `Decimal.FromNat` | src/modV-ui.js:42 | the text of a count is a non-empty string of digits without a leading zero (except for 0 itself) |
| `Decimal.ValueOfFromNat` | src/modV-ui.js:42 | the text of a count reads back as that count |
| `Decimal.FromNatInjective` | src/modV-ui.js:42 | different counts have different texts (used by `Naming.DisplayNameInjective`) |
| `Naming.ToDisplayName` | src/modV-ui.js:30 | (the same conversion is applied at lines 38 and 101) the display name has the same length as the safe name, each hyphen becomes a space and every other character stays in place (from `Names.ReplaceAllChar`) |
| `Naming.ToSafeName` | src/modV-ui.js:46 | the safe name has the same length as the display name, each space becomes a hyphen and every other character stays in place (from `Names.ReplaceAllChar`) |
| `Naming.SafeNameRoundTrip` | src/modV-ui.js:38-46 | a display name without hyphens survives the trip to a safe name and back |
| `Naming.DisplayNameRoundTrip` | src/modV-ui.js:101 | a safe name without spaces survives the trip to a display name and back |
| `Naming.DashMatch` | src/modV-ui.js:35 | the definition of the `|=` match, written out by position: an item matches the `|=` selector exactly when its name equals the base, or is longer, starts with the base and has `-` right after it |
| `Naming.DupeBase` | src/modV-ui.js:35 | the base of the duplicate query has the dragged name's length and differs from it only at its first space, which becomes `-` (from `Names.ReplaceFirstChar`) |
| `Naming.DupeCount` | src/modV-ui.js:35 | the duplicate count is at most the number of active items, and it is zero exactly when no active item matches the `|=` selector |
| `Naming.DupeCountIsMatchingItems` | src/modV-ui.js:35 | the duplicate count equals the number of positions whose name equals the base or starts with the base followed by `-` |
| `Naming.FirstSpaceOnlyMissesDuplicate` | src/modV-ui.js:35 | so the dragged name "My Mod Name" gives the base "My-Mod Name", which does not match an active "My-Mod-Name" |
| `Naming.DisplayName` | src/modV-ui.js:38-43 | the display name starts with the dragged name converted to a display name, is longer than the dragged name exactly when there are duplicates, and contains no hyphen; its parts are given by `Naming.DisplayNameParts` |
| `Naming.DisplayNameParts` | src/modV-ui.js:38-43 | with no duplicates the display name is the dragged name with hyphens turned into spaces; with n duplicates it is that name, then " (", then the decimal text of n (no leading zero, reading back as n), then ")" |
| `Naming.DisplayNameInjective` | src/modV-ui.js:41-43 | different duplicate counts give different display names, so a clone never takes the registry key of its original |
| `Naming.SafeNameOfDisplayName` | src/modV-ui.js:46 | the safe name is the full display name (suffix included) with spaces turned into hyphens: it has no spaces, it is as long as the display name, and it converts back to the display name |
| `Naming.RepeatedDrops` | src/modV-ui.js:35-43 | for a name without spaces or hyphens, the first three drops give the name itself, then "name (1)", then "name (2)" |
| `Naming.LongerNameCountsAsDuplicate` | src/modV-ui.js:35-43 | for a name without spaces or hyphens, an active item "name-rest" counts as one duplicate, so the drop is named "name (1)" |
| `Naming.CloneIsCounted` | src/modV-ui.js:35-46 | for a name without spaces (hyphens allowed, as in the safe names lines 30 and 37-38 expect), the safe name of any suffixed clone matches the duplicate query of that name, so later drops count every clone |
| `Naming.CountCanReuseActiveName` | src/modV-ui.js:35-46 | if "name-(1)" is the only active item, the next drop of "name" is named "name (1)" again, and its safe name equals that active item's name |
| `ModVUi.RebuildControls` | src/modV-ui.js:54-65 | the clone's control list has the same length and order as the original's; each entry is a newly built control of the same kind with the same settings; no entry is one of the original's controls |
| `ModVUi.ModV.OnAdd` | src/modV-ui.js:22-99 | an unknown module changes nothing; with no duplicates, the registered module is placed and enabled and no key is added; with duplicates, a failing `init` changes nothing; otherwise exactly one key (the new display name) is added or overwritten, mapping to an enabled clone with the computed name and safe name and rebuilt controls, and all other entries are untouched; `setModOrder` gets the display name and the index |
| `ModVUi.ModV.OnEnd` | src/modV-ui.js:100-102 | a reorder records the item's name with hyphens turned back into spaces, plus the new index |
| `ModVUi.ModV.ClearPanels` | src/modV-ui.js:118-126 | afterwards no panel is shown, and the set of panels is unchanged |
| `ModVUi.ModV.ActiveElementHandler` | src/modV-ui.js:128-135 | focusing an item with a panel leaves exactly that panel shown; focusing an item without a panel leaves every panel hidden; focus outside an active item changes nothing |
| `ModVUi.ModV.ClearActiveElement` | src/modV-ui.js:137-139 | blur changes no state |
| `ModVUi.FocusTwice` | src/modV-ui.js:128-135 | focusing one item and then another leaves only the second item's panel shown, keeps the set of panels, and changes neither the registry nor the order log |

## Left out

- The drag-and-drop library's configuration and events (`Sortable.create`). The event's item name, drop index and the list of active names are parameters.
- DOM querying and node manipulation: `querySelector`, `swapElements`, `createActiveListItem`, `replaceChild`, `createControls` and `focus()`. The model assumes an active item carries its module's safe name as `data-module-name`. It also ignores the focus event that `focus()` at line 98 triggers.
- The model assumes `createActiveListItem` and `cloneModule` throw when no module is registered under the converted name, so that drop changes nothing. Neither function is part of this model.
- `cloneModule` is modelled as returning an independent copy of the module record. `setModOrder` is recorded as the list of its `(name, index)` arguments; how it reorders is not modelled.
- `getSettings`, a control's constructor and `init(canvas, context)` are foreign calls. A control is modelled by its kind and an opaque settings map. `init` is modelled only as succeeding or throwing, and does not change the modelled fields.
- Several control panels with one name: the page may hold them, but the panel map holds one per name, and focus shows the first match only in the page.
- The selector texts (lines 27, 35 and 131) are built by concatenation into a double-quoted CSS string. In a name, a `"` or a line break would end the string or make the selector invalid. A `\` starts a CSS escape, so a name `a\62 c` selects items named `abc`. The model treats every name as a plain attribute value.
- `replace` with a string pattern: `$` replacement patterns are not interpreted. The only call passes `'-'`, which has none.
- `split` with an empty separator works on UTF-16 code units in JavaScript; the model splits into Dafny characters (Unicode scalar values). No call passes an empty separator.
- `split`'s optional limit argument is not modelled; `replaceAll` never passes one.
- The global control panel, the media-source options, the `clearing` and `muted` toggles and `factoryReset` (lines 141-187) are user-interface wiring and device I/O.
- `console.log` calls.
