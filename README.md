# Dropdown filter: a Dafny model

This project models `DropdownFilterComponent`, an Angular widget that lets a
user pick one option (single mode) or several options (multiple mode) from a
list. The list may be split into groups. The widget shows a summary label
and emits `confirm` and `cancel` events.

The model has six modules:

- `FilterOptions` (`filter_option.dfy`) holds the `FilterOption` record and
  the `Selection` value, which is `null`, one option or an array of options.
  An option is a class with constant fields. Dafny's `==` on it therefore
  compares references, as JavaScript's `===` and `Set` do.
- `Toggle` (`toggle.dfy`) models the multiple-mode click. It builds a
  `Set` from the current array, deletes or adds the clicked option, and turns
  the set back into an array.
- `SummaryLabel` (`summary_label.dfy`) models `displayLabel`: the prefix
  rule, the `", "` join and the `labelInput` override.
- `SelectionQueries` (`selection_queries.dfy`) models `isSelected`,
  `hasSelection` and `selectedColor`.
- `Grouping` (`grouping.dfy`) models `groupedOptions`.
- `DropdownFilterComponent` (`dropdown_filter.dfy`) holds the component as a
  class. Its one mutable field is `selected`. The `confirm` and `cancel`
  emitters are ghost logs: every confirm payload is appended to `confirmLog`,
  and every cancel increments `cancelCount`. The translation service is a
  `string -> string` constant, and the model does not interpret it.

In the model, `displayLabel`, `isSelected`, `hasSelection` and
`selectedColor` are pure functions of the current state. The class's
functions delegate to them. `groupedOptions` is a method with the source's
loop, and it is proved equal to the specification function
`Grouping.Grouped`.

Some behaviours of the code that a reader may not expect:

- Building a `Set` from the current array removes duplicate references,
  keeping each first occurrence. So a click in multiple mode also compacts a
  duplicated array that was stored through `value`.
- Clicking an option that was not selected twice restores the selection,
  except that a `null` selection comes back as `[]` and a duplicated array
  comes back compacted.
  Toggling a selected option off and on again moves it to the end of the
  selection, so the order comes back only when it was already last.
- `isSelected` decides by the shape of the selection (an array or not), not
  by the `multiple` flag.
- In single mode, an array stored through `value` has no `id` and no
  `group`. So `selectedColor` returns the color of the first listed option
  that has no `id`.
- `isSelected` compares labels, while the toggle compares references. The
  model keeps both behaviours and proves where they agree and where they
  differ.

## Model

| member | source | states |
|---|---|---|
| `FilterOptions.FilterOption.constructor` | src/lib/dropdown-filter.component.ts:11-18 | an option carries exactly the given label, id, group, icon, color and override label |
| `Toggle.Dedup` | src/lib/dropdown-filter.component.ts:103 | `new Set(array)` contains no duplicate references, holds exactly the array's objects, and is no longer than the array; `DedupOrder` states its order |
| `Toggle.DedupOrder` | src/lib/dropdown-filter.component.ts:103-105 | `Array.from(new Set(array))` lists the objects in the order of their first occurrence in the array |
| `Toggle.DedupOfSet` | src/lib/dropdown-filter.component.ts:103 | an array without duplicates passes through `new Set` unchanged |
| `Toggle.Without` | src/lib/dropdown-filter.component.ts:104 | `Set.delete` keeps every other object and drops the given one; an absent object leaves the sequence unchanged |
| `Toggle.WithoutOfSet` | src/lib/dropdown-filter.component.ts:104 | on a sequence without duplicates, `delete` keeps it free of duplicates and shortens it by one exactly when the object was present |
| `Toggle.WithoutAt` | src/lib/dropdown-filter.component.ts:104 | deleting the entry at index i leaves the entries before and after it in their order |
| `Toggle.WithoutAppended` | src/lib/dropdown-filter.component.ts:104 | deleting an object that was just appended undoes the append |
| `Toggle.ToggleIn` | src/lib/dropdown-filter.component.ts:104 | after `has ? delete : add`, the clicked object is present exactly when it was absent before; every other object keeps its membership; no duplicates are created |
| `Toggle.ToggleTwiceRestores` | src/lib/dropdown-filter.component.ts:104 | toggling an absent object twice gives back the same sequence |
| `Toggle.ToggleTwiceMovesToEnd` | src/lib/dropdown-filter.component.ts:104-105 | toggling a present object twice moves it to the end, so the sequence comes back exactly when the object was already last |
| `Toggle.Reselect` | src/lib/dropdown-filter.component.ts:101-105 | the array stored by a multiple-mode click has no duplicates and holds the clicked option exactly when the current selection (`null` read as `[]`) did not; every other option keeps its membership |
| `Toggle.ReselectTwice` | src/lib/dropdown-filter.component.ts:101-106 | clicking an unselected option twice restores the selection, with its duplicates removed (a `null` selection comes back as `[]`) |
| `Toggle.CurrentArray` | src/lib/dropdown-filter.component.ts:103 | a `null` selection reads as the empty array and an array as itself; characterized through `Reselect`, `ReselectTwice` and `ReselectOrder` |
| `Toggle.ReselectOrder` | src/lib/dropdown-filter.component.ts:101-106 | for any selection, duplicates included, a click appends an unselected option after the deduplicated entries, or removes a selected one and keeps the others in the order of their first occurrence |
| `Toggle.ReselectEmpties` | src/lib/dropdown-filter.component.ts:101-106 | a click leaves the selection empty exactly when the clicked option was the only one selected |
| `SummaryLabel.Join` | src/lib/dropdown-filter.component.ts:62 | `join` of no parts is empty; of one part, that part; otherwise the result starts with the first part |
| `SummaryLabel.JoinAppend` | src/lib/dropdown-filter.component.ts:62 | joining one more part appends the separator and that part |
| `SummaryLabel.JoinLength` | src/lib/dropdown-filter.component.ts:62 | the joined length is the sum of the part lengths plus one separator per gap |
| `SummaryLabel.TranslatedLabels` | src/lib/dropdown-filter.component.ts:62 | the labels are translated one for one, in selection order |
| `SummaryLabel.Prefixed` | src/lib/dropdown-filter.component.ts:55-69 | the text always ends the label; the label differs from the text exactly when `showPrefix` is on and `prefix` is non-empty; in that case it starts with `prefix + ": "` |
| `SummaryLabel.Display` | src/lib/dropdown-filter.component.ts:51-70 | `null` and `[]` show the translated `TODOS`; a non-empty array shows its translated labels joined by `", "`; a single option shows its translated `labelInput` when that is non-empty, and its translated label otherwise; every case uses the same prefix rule |
| `SummaryLabel.DisplayAppend` | src/lib/dropdown-filter.component.ts:62-69 | adding an option to a non-empty array selection extends the label by `", "` and the option's translated label, with or without the prefix |
| `SelectionQueries.Labels` | src/lib/dropdown-filter.component.ts:96 | the labels of the selected options, one for one |
| `SelectionQueries.IsSelected` | src/lib/dropdown-filter.component.ts:94-99 | for an array selection, true exactly when some selected option has the same label; otherwise true exactly when the selection is that very object |
| `SelectionQueries.HasSelection` | src/lib/dropdown-filter.component.ts:112-115 | true exactly when the selection is neither `null` nor `[]` |
| `SelectionQueries.IsSelectedImpliesHasSelection` | src/lib/dropdown-filter.component.ts:94-115 | an option reported as selected implies that there is a selection |
| `SelectionQueries.IsSelectedByIdentity` | src/lib/dropdown-filter.component.ts:94-104 | when no other selected option shares the label, label membership and reference membership agree |
| `SelectionQueries.IsSelectedDivergesFromToggle` | src/lib/dropdown-filter.component.ts:94-105 | after selecting `a`, a different object `b` with the same label is reported as selected, although it is not in the array; clicking `b` adds it and keeps `a` |
| `SelectionQueries.Matches` | src/lib/dropdown-filter.component.ts:128-137 | the `find` predicate: the same id, and also the same group when both groups are non-empty; characterized through `FirstMatch`, `IsFirstMatch` and `SelectedColorOfListedOption` |
| `SelectionQueries.FirstMatch` | src/lib/dropdown-filter.component.ts:128-137 | `find` returns the first index whose option has the same id, and the same group when both groups are non-empty; it returns nothing when no option matches |
| `SelectionQueries.SelectedColor` | src/lib/dropdown-filter.component.ts:123-140 | nothing for a `null` selection or in multiple mode; otherwise (an empty array in single mode included) the color of the first matching option, and nothing when no option matches |
| `SelectionQueries.SelectedColorOfListedOption` | src/lib/dropdown-filter.component.ts:123-140 | in single mode, a listed option that no other listed option matches shows its own color |
| `SelectionQueries.SelectedColorOfUnlistedId` | src/lib/dropdown-filter.component.ts:128-139 | an option whose id no listed option has gets no color |
| `SelectionQueries.SelectedColorOfArrayInSingleMode` | src/lib/dropdown-filter.component.ts:124-136 | an array left in the selection in single mode gets the color of the first listed option without an id |
| `Grouping.GroupKey` | src/lib/dropdown-filter.component.ts:76 | the key is the option's group when that is a non-empty string, `__ungrouped__` otherwise, and never the empty string |
| `Grouping.Grouped` | src/lib/dropdown-filter.component.ts:72-84 | the intended grouping, one bucket per key present; characterized by `GroupedSnoc`, `GroupedPartition`, `GroupedBuckets`, `BucketPosition` and `GroupedSizes` |
| `Grouping.Bucket` | src/lib/dropdown-filter.component.ts:75-81 | a bucket is never longer than the option list; `BucketSnoc` and `BucketMembers` characterize its contents |
| `Grouping.BucketSnoc` | src/lib/dropdown-filter.component.ts:77-80 | one more option is appended to its own bucket and to no other |
| `Grouping.BucketMembers` | src/lib/dropdown-filter.component.ts:76-80 | a bucket holds listed options of its key only, and it holds every listed option of that key |
| `Grouping.BucketOfAbsentKey` | src/lib/dropdown-filter.component.ts:76-80 | a key that no option has gets an empty bucket |
| `Grouping.KeysSnoc` | src/lib/dropdown-filter.component.ts:76 | one more option adds its key to the keys present |
| `Grouping.GroupedSnoc` | src/lib/dropdown-filter.component.ts:75-81 | one loop step extends the option's own bucket, creating it if needed, and leaves every other bucket as it was |
| `Grouping.BucketConcat` | src/lib/dropdown-filter.component.ts:75-81 | the bucket of a concatenation is the concatenation of the buckets |
| `Grouping.GroupedPartition` | src/lib/dropdown-filter.component.ts:72-84 | every option lands in the bucket of its `group`, or of `__ungrouped__` when the group is absent or empty, and in no other bucket |
| `Grouping.GroupedBuckets` | src/lib/dropdown-filter.component.ts:72-84 | no bucket is empty; each bucket holds only listed options of its own key |
| `Grouping.BucketPosition` | src/lib/dropdown-filter.component.ts:75-81 | the option at index i sits in its bucket at the position given by the size of its bucket within `opts[..i]` |
| `Grouping.BucketPositionMonotone` | src/lib/dropdown-filter.component.ts:75-81 | that position strictly grows with the index, so options keep their relative order within a bucket |
| `Grouping.KeyOrder` | src/lib/dropdown-filter.component.ts:75-79 | a list of the keys present, each once and no other |
| `Grouping.SizeSumAgree` | src/lib/dropdown-filter.component.ts:72-84 | two groupings that agree on the named buckets have the same size sum |
| `Grouping.SizeSumBump` | src/lib/dropdown-filter.component.ts:80 | growing one named bucket by one option grows the size sum by one |
| `Grouping.GroupedSizesSnoc` | src/lib/dropdown-filter.component.ts:75-81 | one loop step adds one to the sum of the bucket sizes |
| `Grouping.GroupedSizes` | src/lib/dropdown-filter.component.ts:72-84 | the bucket sizes sum to the number of options |
| `Grouping.GroupedAsWritten` | src/lib/dropdown-filter.component.ts:73-81 | the loop as written over a `{}` dictionary, with a thrown TypeError as `None`; characterized by `GroupedAsWrittenThrows` |
| `Grouping.GroupedAsWrittenThrows` | src/lib/dropdown-filter.component.ts:73-81 | the loop over a `{}` dictionary throws exactly when some key names an `Object.prototype` member; otherwise it builds `Grouped` |
| `Grouping.ConstructorGroupThrows` | src/lib/dropdown-filter.component.ts:73-80 | an option in group `"constructor"` makes the loop as written throw, while the intended grouping has a `"constructor"` bucket holding it |
| `DropdownFilterComponent.DropdownFilter.constructor` | src/lib/dropdown-filter.component.ts:27-46 | a new component has no options, single mode, no prefix shown, a `null` selection and empty event logs |
| `DropdownFilterComponent.DropdownFilter.SetValue` | src/lib/dropdown-filter.component.ts:33-40 | `null` or `[]` becomes the mode's empty shape (`[]` or `null`); any other value is stored unchanged; `hasSelection` then answers as for the given value; a value of the mode's shape keeps the shape |
| `DropdownFilterComponent.DropdownFilter.DisplayLabel` | src/lib/dropdown-filter.component.ts:51-70 | on the component's state: the translated `TODOS` for `null` and `[]`, the translated labels joined by `", "` for a non-empty array, the translated `labelInput` or label for a single option, each under the prefix rule |
| `DropdownFilterComponent.DropdownFilter.GroupedOptions` | src/lib/dropdown-filter.component.ts:72-84 | the loop builds exactly `Grouping.Grouped(options)` |
| `DropdownFilterComponent.DropdownFilter.OnConfirm` | src/lib/dropdown-filter.component.ts:86-88 | emits the current selection unchanged and changes nothing else |
| `DropdownFilterComponent.DropdownFilter.OnCancel` | src/lib/dropdown-filter.component.ts:90-92 | emits one cancel and leaves the selection untouched |
| `DropdownFilterComponent.DropdownFilter.IsSelected` | src/lib/dropdown-filter.component.ts:94-99 | on the component's state: for an array selection, some selected option has the same label; otherwise the selection is that very object; a selected option implies `HasSelection` |
| `DropdownFilterComponent.DropdownFilter.OnSelection` | src/lib/dropdown-filter.component.ts:101-110 | multiple mode stores `Toggle.Reselect` of the old selection and emits nothing; the result has no duplicates and holds the option exactly when it was absent before; single mode stores the option and emits exactly one confirm carrying it |
| `DropdownFilterComponent.DropdownFilter.HasSelection` | src/lib/dropdown-filter.component.ts:112-115 | on the component's state: true exactly when the selection is neither `null` nor `[]` |
| `DropdownFilterComponent.DropdownFilter.ClearSelection` | src/lib/dropdown-filter.component.ts:117-121 | resets to the mode's empty shape, emits that same shape, leaves no selection, and the label shows the translated `TODOS` |
| `DropdownFilterComponent.DropdownFilter.SelectedColor` | src/lib/dropdown-filter.component.ts:123-140 | on the component's state: nothing for a `null` selection or in multiple mode; otherwise (an empty array in single mode included) the color of the first option matching the selection, and nothing when no option matches |
| `DropdownFilterComponent.SelectTwiceInSingleMode` | src/lib/dropdown-filter.component.ts:106-109 | in single mode, choosing `a` and then `b` leaves exactly `b` selected and emits `a` and then `b` |
| `DropdownFilterComponent.ToggleTwiceInMultipleMode` | src/lib/dropdown-filter.component.ts:102-105 | in multiple mode, clicking an unselected option twice restores a selection without duplicates (a `null` selection comes back as `[]`) and emits nothing |

## Left out

- Angular plumbing is not modelled: decorators, `inject`, the template, the styles, the Material and `KeyValuePipe` imports, and `compareByNone` (line 48), which only affects rendering order.
- The `label` input (line 29) and the `icon` field are not read by any modelled operation. They only matter to the template.
- Signals and `computed` caching are not modelled. The views are recomputed from the current state on every read. In the source, `groupedOptions` (lines 72-84) reads no signal, so it is computed once and a later change of `options` does not show. `displayLabel` (lines 51-70) tracks only `selected`, so a change of `prefix` or `showPrefix` shows only after the next change of the selection. The model does not capture these stale views.
- The translation lookup is a parameter. Its behaviour is not modelled.
- `clearSelection` drops its mouse event. `stopPropagation` is a DOM side effect.
- `DropdownFilterComponent.DropdownFilter.OnSelection`: in multiple mode it requires that the selection is not a single option. There the source throws a TypeError, because `new Set(option)` needs an iterable. The model does not capture that exception.
- The order of the keys in the object that `groupedOptions` returns is not modelled. JavaScript enumerates integer-like keys first. The grouping is a map, and order is stated only within buckets.
- Option ids are JavaScript numbers. The model uses integers, so fractional ids and `NaN` (which is not equal to itself) are not modelled.
- Arrays are modelled as values, not as objects. In the source, `setValue` stores the caller's array object and `onConfirm` emits that same object, while `clearSelection` stores one `[]` and emits a different `[]` (lines 119-120). The component never changes an array in place, so no modelled behaviour depends on this identity.
- Emitted events are appends to ghost logs. Subscribers and `EventEmitter` delivery are not modelled.
- `DropdownFilterComponent.DropdownFilter.GroupedOptions` builds the intended grouping. For group names inherited from `Object.prototype`, the source code throws instead (see Findings).

## Findings

| source | as written | input that shows it | evidently intended | confidence | as-written member | corrected member |
|---|---|---|---|---|---|---|
| src/lib/dropdown-filter.component.ts:73-80 | `groups` is the plain object `{}`. For a key such as `constructor` or `toString`, `groups[groupKey]` finds the inherited member, so `!groups[groupKey]` is false. No array is created, and `groups[groupKey].push` throws a TypeError. | options `[{label: "x", group: "constructor"}]` | a bucket `"constructor"` holding that option | high, not executed | `Grouping.ConstructorGroupThrows` | `Grouping.GroupedPartition` |
