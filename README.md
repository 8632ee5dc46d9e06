# Sublime settings import: pick-list preparation and import

This project models the core of the preview controller (`HTMLPreviewEditor`)
of a VS Code extension that imports Sublime Text settings. Given the list of
mapped settings that the importer produced, each a Sublime setting paired with
the VS Code setting it maps to, the controller:

1. drops the settings that have no VS Code match;
2. sorts the rest so that the settings that would overwrite an existing VS Code
   value (the "duplicates") come first, each group ordered by Sublime name;
3. shows a browse prompt when nothing is left, otherwise a multi-select
   pick-list with one item per setting: the label is `sublime $(arrow-right) vscode`,
   duplicates show the value they overwrite, and non-duplicates start checked;
4. maps the items the user confirmed back to settings by their label;
5. hands the VS Code halves of the selection to the importer, but only when
   the selection is not empty.

Files:

- `settings.dfy` (module `Settings`): `Setting`, `MappedSetting`, `Option`.
- `locale_order.dfy` (module `LocaleOrder`): the string comparison used for
  names, with its order laws.
- `setting_order.dfy` (module `SettingOrder`): the sort comparator, the
  stable insertion sort `StableSort` that defines the sorted result, and the
  lemmas that it is sorted, a permutation and stable.
- `html_preview.dfy` (module `HtmlPreview`): the filter, the in-place sort on
  an array and `GetSettings`, pick items, the label lookup, the import guard
  and the end-to-end lemmas.

`hasNoMatch`, the filter's test, comes from the settings module, which is not
part of this model. It is a parameter `hasNoMatch: MappedSetting -> bool` of
`Filter` and `GetSettings`. The importer is represented by what is handed to it:
`ImportSelectedSettings` returns the list passed to `updateSettingsAsync`, or
says that nothing was passed or that the call failed.

## Model

| member | source | states |
|---|---|---|
| `LocaleOrder.LocaleCompare` | src/htmlPreview.ts:80 | the name comparison returns -1, 0 or 1. It returns 0 exactly when the strings are equal, and a proper prefix sorts first |
| `LocaleOrder.LocaleCompareAntisymmetric` | src/htmlPreview.ts:86 | swapping the two names flips the sign of the comparison |
| `LocaleOrder.LocaleCompareTransitive` | src/htmlPreview.ts:86 | "sorts no later than" on names is transitive |
| `SettingOrder.Compare` | src/htmlPreview.ts:78-87 | a duplicate against a non-duplicate gives a negative result, and the reverse a positive one. With equal flags, the sign follows the name comparison. The result is 0 exactly for equal flags and equal Sublime names |
| `SettingOrder.CompareAntisymmetric` | src/htmlPreview.ts:78-87 | the comparator is antisymmetric in sign: `Compare(b, a) == -Compare(a, b)` |
| `SettingOrder.CompareTransitive` | src/htmlPreview.ts:78-87 | the comparator is transitive, so it is a consistent total preorder for the sort |
| `SettingOrder.SortedIffGrouped` | src/htmlPreview.ts:79-86 | a list is sorted by the comparator iff every duplicate precedes every non-duplicate and names are non-decreasing within each group |
| `SettingOrder.Insert` | src/htmlPreview.ts:78-88 | one step of the sort: `x` is placed right after the last element that sorts no later than it, and the result is one longer. What it keeps is stated by `InsertSorted`, `InsertPermutes` and `InsertKeepsTies` |
| `SettingOrder.StableSort` | src/htmlPreview.ts:78-88 | the sorted list the settings come out as: insertion sort from the left with the comparator. It has the input's length; sortedness, permutation and stability are the lemmas below |
| `SettingOrder.InsertPermutes` | src/htmlPreview.ts:78-88 | an insertion step adds `x` and loses nothing (multisets) |
| `SettingOrder.InsertKeepsTies` | src/htmlPreview.ts:78-88 | an insertion step puts `x` after every element that ties with it and keeps the order of the other ties |
| `SettingOrder.StableSortKeepsTies` | src/htmlPreview.ts:78-88 | stability: for every `e`, the settings that tie with `e` (same duplicate flag and same Sublime name) come out in their input order |
| `SettingOrder.InsertSorted` | src/htmlPreview.ts:78-88 | one insertion step into a sorted list keeps it sorted |
| `SettingOrder.StableSortPermutes` | src/htmlPreview.ts:78-88 | sorting is a permutation: the multiset of settings is unchanged |
| `SettingOrder.StableSortSorted` | src/htmlPreview.ts:78-88 | the sorted list is ordered by the comparator |
| `SettingOrder.StableSortOfSorted` | src/htmlPreview.ts:78-88 | a list already in order is returned unchanged, ties included |
| `SettingOrder.StableSortIdempotent` | src/htmlPreview.ts:78-88 | sorting twice is the same as sorting once |
| `HtmlPreview.Filter` | src/htmlPreview.ts:77 | every setting kept has a match, and the result is no longer than the input |
| `HtmlPreview.FilterCounts` | src/htmlPreview.ts:77 | each setting occurs in the result as often as in the input if it has a match, and not at all otherwise |
| `HtmlPreview.FilterAppend` | src/htmlPreview.ts:77 | filtering works element by element and keeps relative order: `Filter(a + b) == Filter(a) + Filter(b)` |
| `HtmlPreview.InsertAt` | src/htmlPreview.ts:78-87 | moving one element left by swaps leaves the array as `Insert` of the sorted prefix and that element, followed by the untouched rest |
| `HtmlPreview.SortInPlace` | src/htmlPreview.ts:78-87 | sorting the array in place leaves exactly `StableSort` of its old contents |
| `HtmlPreview.GetSettings` | src/htmlPreview.ts:77-88 | the result holds exactly the matched input settings with their multiplicities. Duplicates come first, names are ordered within each group, and the result equals the stable sort of the filtered list |
| `HtmlPreview.Label` | src/htmlPreview.ts:56 | the label is the Sublime name, then the ` $(arrow-right) ` marker, then the VS Code name: its prefix, middle and suffix are each fixed, and its length is the sum of theirs |
| `HtmlPreview.ExistingValueText` | src/htmlPreview.ts:54 | the interpolated existing value: the value of the existing setting when there is one, the text `undefined` otherwise |
| `HtmlPreview.ToQuickPickItem` | src/htmlPreview.ts:51-59 | `picked` holds exactly for non-duplicates. The detail is empty exactly for non-duplicates; for a duplicate it is the "Overwrites existing value" text with the existing value, or `undefined` when that is absent |
| `HtmlPreview.ToQuickPickItems` | src/htmlPreview.ts:30-31 | one pick item per setting, in list order, each the item `ToQuickPickItem` builds for it |
| `HtmlPreview.Present` | src/htmlPreview.ts:22-31 | the browse prompt with the "No new settings to import from" title and the folder as detail is shown exactly when no settings are left. Otherwise the pick-list holds exactly the items of the settings in order (labels, detail lines and pre-selection as `ToQuickPickItem` states), so exactly the non-duplicates are pre-selected |
| `HtmlPreview.FindByLabel` | src/htmlPreview.ts:33 | finds nothing exactly when no setting carries the label. Otherwise it returns the first setting whose label it is |
| `HtmlPreview.FirstWithLabelShift` | src/htmlPreview.ts:33 | a first match in the tail is the first match of the list when the head does not match |
| `HtmlPreview.SelectSettings` | src/htmlPreview.ts:33 | one lookup result per picked item, in the order picked, each the lookup of that item's label |
| `HtmlPreview.SelectFromShownList` | src/htmlPreview.ts:30-33 | for items picked from the list that was shown, every lookup succeeds and returns a setting with the picked label |
| `HtmlPreview.FindOwnLabel` | src/htmlPreview.ts:33 | when labels are distinct, looking up a setting's own label returns that setting |
| `HtmlPreview.VscodeHalves` | src/htmlPreview.ts:69 | the VS Code halves of the selection, in order. The result is absent exactly when an entry is undefined |
| `HtmlPreview.ImportSelectedSettings` | src/htmlPreview.ts:67-72 | nothing is imported exactly when the selection is empty. The call fails exactly when an entry is undefined. Otherwise the importer receives the `vscode` component of each selected setting, in order |
| `HtmlPreview.OnPicked` | src/htmlPreview.ts:30-35 | a dismissed pick-list imports nothing. A confirmed one imports the lookup of the picked items |
| `HtmlPreview.PickFromShownListImports` | src/htmlPreview.ts:30-35 | confirming items from the shown list never fails. An empty selection imports nothing; otherwise one VS Code setting is imported per picked item, taken from a setting with that item's label |
| `HtmlPreview.PickSettingsImportsTheirVscodeHalves` | src/htmlPreview.ts:33-34 | with distinct labels, confirming the items of some listed settings imports exactly their VS Code halves, in order |
| `HtmlPreview.FontSizeScenario` | src/htmlPreview.ts:22-31 | worked example: a duplicate `font_size` sorts before `word_wrap`, is not pre-selected, and its detail shows the existing value 10 |

## Left out

- `LocaleOrder.LocaleCompare`: the host's `localeCompare` depends on the locale and on the ICU collation tables. It is replaced by code-point lexicographic order, which is one total order of the kind the comparator needs. Under it, two names compare equal only when they are identical. The real collation can also tie distinct strings and can order them differently.
- `HtmlPreview.SortInPlace`: `Array.prototype.sort` is a library routine, and its algorithm and number of comparisons are not modelled. It is replaced by an in-place insertion sort whose result is `StableSort`. ECMAScript requires the sort to be stable, and its result to be a permutation ordered by a consistent comparator. `StableSortKeepsTies`, `StableSortPermutes`, `StableSortSorted` and `CompareTransitive` prove these of `StableSort`. Such a list is unique, so it is the host's result, but the model does not prove that uniqueness.
- `MappedSetting.hasNoMatch` is defined in the settings module, which is not part of this model. It is a parameter.
- Setting values are modelled as the text the detail template shows. JavaScript's rendering of arbitrary values (numbers, booleans, objects) in the template literal is not modelled.
- The command registration in the constructor (line 10), both `showQuickPick` dialogs (lines 30 and 41), and `executeCommand('workbench.action.openGlobalSettings')` (line 70) are host UI and are not modelled. The user's answer to the pick-list is a parameter of `OnPicked`.
- Folder discovery and browsing are filesystem and UI work in a module that is not part of this model: lines 14-19, `showBrowseButtonAsync` and `pickFolder`. So is reading the settings file (line 76). The retry loop `open` → `showBrowseButtonAsync` → `pickFolder` → `open` is left out with them.
- `Importer.getMappedSettingsAsync` and `updateSettingsAsync` are foreign collaborators. The mapped list is an input, and the import is the returned `ImportOutcome`.
- Promises, `await`, and the fact that line 34 does not await the import are left out. A failure shows up only as the `Failed` outcome.
- `HTMLPreviewEditor` is not a class here: its only field is the injected importer, which it never updates.
