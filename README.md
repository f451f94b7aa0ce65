# genericrecyclerview core, modelled in Dafny

This project models the stateful core of genericrecyclerview, an Android library of RecyclerView adapters. The core has three kinds of component.

- **Delegate registries.** A registry is a sparse table from integer view type to delegate, plus an optional fallback delegate.
  - The `library` module has one version, its `ViewHolderDelegateManager`. It can assign view types itself and reserves `Integer.MAX_VALUE - 1` for the fallback.
  - The `lib` module has two versions, `RecyclerDelegateManager` and `ViewHolderDelegateManager`. Their delegates report their own view type.
- **Selection state machines.** Each keeps a sparse `position -> selected` table under a NONE, SINGLE or MULTI choice mode. They are `DefaultSelectionManager` and the selection logic of `RecyclerAdapter` and `GenericRecyclerAdapter`, which also keep a `selected` flag on each item.
- **Item stores.** The two `DefaultItemProvider`s and the item lists of the two adapters. Each changes a list in place and tells the attached adapter what changed.

How the model represents the source:

- **Components as classes.** Each component is a Dafny class whose methods change its fields, as the Java object does.
- **Exceptions.** A Java exception is a `Fail`/`Err` result.
- **Sparse tables.** A `SparseArrayCompat` or `SparseBooleanArray` is a `map` from Java `int` (`Int32`). It is iterated in ascending key order (`SparseKeys.SortedKeys`), which is the order of `keyAt(i)`.
- **Delegates.** A delegate is an object with its `isForViewType` predicate (and, in `lib`, its fixed `getItemViewType()`). Removal by reference therefore compares object identity.
- **Notifications.** The attached adapter is a flag, and the `notify...` calls are appended to a log. `Lists.Describes` says what each notification claims about how the list changed. Each insert, move, replace and remove is proved to make exactly the change its notification describes. There are three exceptions. The `lib` store's `addItems` is proved to report a change it does not make (see "## Findings"). The two `setItems` send `notifyDataSetChanged` or the updates of a computed diff, and `Describes` claims nothing for either.
- **Selection calls as functions.** The selection calls of the adapters are specified by pure functions (`SetSelectionRun`, `SelectItemRun`). Each returns the outcome, the list and the table after the call, and the positions reported. That includes the partial updates left behind when the call throws halfway.
- **Accessors.** `getItemCount`, `getItem` and `getItemId` of the stores and adapters read the modelled list. The adapters' `getItem` gives null outside the list.

## Model

| member | source | states |
|---|---|---|
| SparseKeys.SortedKeys | library/src/main/java/com/alapshin/genericrecyclerview/ViewHolderDelegateManager.java:170-175 | the keys in `keyAt` order: strictly ascending, exactly the table's keys, one per entry |
| Lists.InsertAt | library/src/main/java/com/alapshin/genericrecyclerview/DefaultItemProvider.java:38-43 | `add(i, x)`: earlier elements kept, `x` at `i`, later elements shifted up by one |
| Lists.InsertAllAt | library/src/main/java/com/alapshin/genericrecyclerview/DefaultItemProvider.java:57-63 | `addAll(i, t)`: earlier elements kept, `t` at `i..i+|t|`, later elements shifted up by `|t|` |
| Lists.RemoveAt | library/src/main/java/com/alapshin/genericrecyclerview/DefaultItemProvider.java:118-123 | `remove(i)`: one shorter, earlier elements kept, later ones shifted down |
| Lists.Move | library/src/main/java/com/alapshin/genericrecyclerview/DefaultItemProvider.java:107-112 | `add(to, remove(from))` keeps the length and puts the moved element at `to` |
| Lists.RemoveInserted | library/src/main/java/com/alapshin/genericrecyclerview/DefaultItemProvider.java:38-43 | removing the element just inserted at `i` gives the list back |
| Lists.InsertRemoved | library/src/main/java/com/alapshin/genericrecyclerview/DefaultItemProvider.java:118-123 | re-inserting a removed element where it was gives the list back |
| Lists.InsertAtMultiset | library/src/main/java/com/alapshin/genericrecyclerview/DefaultItemProvider.java:38-43 | an insertion adds exactly that element to the multiset of items |
| Lists.RemoveAtMultiset | library/src/main/java/com/alapshin/genericrecyclerview/DefaultItemProvider.java:118-123 | a removal takes exactly that element out of the multiset of items |
| Lists.MovePermutes | library/src/main/java/com/alapshin/genericrecyclerview/DefaultItemProvider.java:107-112 | `moveItem` permutes the list (same multiset) |
| Lists.MoveBack | library/src/main/java/com/alapshin/genericrecyclerview/DefaultItemProvider.java:107-112 | moving from `to` back to `from` undoes a move |
| Lists.InsertDescribed | library/src/main/java/com/alapshin/genericrecyclerview/DefaultItemProvider.java:38-43 | `add(i, x)` is exactly the change `notifyItemInserted(i)` describes |
| Lists.InsertAllDescribed | library/src/main/java/com/alapshin/genericrecyclerview/DefaultItemProvider.java:57-63 | `addAll(i, t)` is exactly the change `notifyItemRangeInserted(i, |t|)` describes |
| LibraryDelegates.ItemViewType | library/src/main/java/com/alapshin/genericrecyclerview/ViewHolderDelegateManager.java:168-184 | the smallest registered view type whose delegate accepts the item; else the reserved type when a fallback is set; else IllegalArgumentException |
| LibraryDelegates.ScanStopsAtFirst | library/src/main/java/com/alapshin/genericrecyclerview/ViewHolderDelegateManager.java:170-175 | a key-order scan that stops at the first accepting delegate returns what `ItemViewType` answers |
| LibraryDelegates.ScanFindsNone | library/src/main/java/com/alapshin/genericrecyclerview/ViewHolderDelegateManager.java:170-184 | a key-order scan that finds no accepting delegate means no registered delegate accepts the item |
| LibraryDelegates.DispatchAfterItemViewType | library/src/main/java/com/alapshin/genericrecyclerview/ViewHolderDelegateManager.java:168-204 | when the reserved type is not a key, dispatching on the answer of `getItemViewType` reaches the accepting delegate, or the fallback exactly when none accepts |
| LibraryDelegates.IndexOfValue | library/src/main/java/com/alapshin/genericrecyclerview/ViewHolderDelegateManager.java:138-142 | the smallest key holding that very delegate object; none exactly when no entry holds it |
| LibraryDelegates.NextProbeDistance | library/src/main/java/com/alapshin/genericrecyclerview/ViewHolderDelegateManager.java:67-75 | each `viewType++` (with Java wrap-around) probes one step further until the reserved type |
| LibraryDelegates.TakenThrough | library/src/main/java/com/alapshin/genericrecyclerview/ViewHolderDelegateManager.java:68-69 | a probe passing an occupied view type keeps "every probed type is taken" |
| LibraryDelegates.FirstFreeAtOrAboveSize | library/src/main/java/com/alapshin/genericrecyclerview/ViewHolderDelegateManager.java:64-77 | the automatically chosen type is at or above the registry size and below the reserved type, and every type from the size up to it is taken |
| LibraryDelegates.ViewHolderDelegateManager.AddDelegate | library/src/main/java/com/alapshin/genericrecyclerview/ViewHolderDelegateManager.java:64-77 | IllegalArgumentException exactly when the probe from the size reaches the reserved type (a null delegate then gives NullPointerException only when the size is the reserved type itself); NullPointerException for null otherwise; on success the first free type, unused before, now maps to the delegate and nothing else changes; the reserved type is never a key |
| LibraryDelegates.ViewHolderDelegateManager.AddDelegateAt | library/src/main/java/com/alapshin/genericrecyclerview/ViewHolderDelegateManager.java:93-96 | as `AddDelegateAtAllowing` without replacing |
| LibraryDelegates.ViewHolderDelegateManager.AddDelegateAtAllowing | library/src/main/java/com/alapshin/genericrecyclerview/ViewHolderDelegateManager.java:98-122 | null: NullPointerException; reserved type, or an occupied type when replacing is not allowed: IllegalArgumentException with the registry unchanged; otherwise only that key changes |
| LibraryDelegates.ViewHolderDelegateManager.RemoveDelegate | library/src/main/java/com/alapshin/genericrecyclerview/ViewHolderDelegateManager.java:132-144 | null: NullPointerException; otherwise removes exactly the first entry in key order holding that object, or nothing when there is none |
| LibraryDelegates.ViewHolderDelegateManager.RemoveDelegateAt | library/src/main/java/com/alapshin/genericrecyclerview/ViewHolderDelegateManager.java:152-155 | removes only that key; an absent key changes nothing |
| LibraryDelegates.ScanItemViewType | library/src/main/java/com/alapshin/genericrecyclerview/ViewHolderDelegateManager.java:168-184 | the key-order scan loop, then the fallback test, answers exactly `ItemViewType` |
| LibraryDelegates.ViewHolderDelegateManager.GetItemViewType | library/src/main/java/com/alapshin/genericrecyclerview/ViewHolderDelegateManager.java:168-184 | answers `ItemViewType` for the registry's current table and fallback, by running that scan |
| LibraryDelegates.ViewHolderDelegateManager.OnCreateViewHolder | library/src/main/java/com/alapshin/genericrecyclerview/ViewHolderDelegateManager.java:196-215 | the holder made by the registered delegate, else by the fallback; NullPointerException when there is neither or the holder is null |
| LibraryDelegates.ViewHolderDelegateManager.OnBindViewHolder | library/src/main/java/com/alapshin/genericrecyclerview/ViewHolderDelegateManager.java:225-238 | binds with the delegate registered at the holder's view type, else the fallback, else NullPointerException |
| LibraryDelegates.ViewHolderDelegateManager.SetFallbackDelegate | library/src/main/java/com/alapshin/genericrecyclerview/ViewHolderDelegateManager.java:250-254 | only the fallback changes; null clears it |
| TypedDelegates.FirstAccepting | lib/src/main/java/com/alapshin/genericrecyclerview/RecyclerDelegateManager.java:161-170 | the smallest key whose delegate accepts the item; none exactly when no delegate accepts it |
| TypedDelegates.ScanFirstAccepting | lib/src/main/java/com/alapshin/genericrecyclerview/RecyclerDelegateManager.java:163-169 | the loop of `getItemViewType`, shared by both `lib` registries: it returns exactly `FirstAccepting`, the smallest accepting key, or none |
| TypedDelegates.ScanStopsAtFirst | lib/src/main/java/com/alapshin/genericrecyclerview/RecyclerDelegateManager.java:164-170 | a key-order scan stopping at the first accepting delegate finds `FirstAccepting` |
| TypedDelegates.ScanFindsNone | lib/src/main/java/com/alapshin/genericrecyclerview/RecyclerDelegateManager.java:164-177 | a key-order scan that finds none means none accepts |
| TypedDelegates.DispatchAfterItemViewType | lib/src/main/java/com/alapshin/genericrecyclerview/RecyclerDelegateManager.java:161-205 | when delegates are keyed by their own type and none shares the fallback's type, dispatching on the answer of `getItemViewType` reaches the first accepting delegate, or the fallback when none accepts |
| TypedDelegates.ConflictIsKey | lib/src/main/java/com/alapshin/genericrecyclerview/RecyclerDelegateManager.java:243-253 | with delegates keyed by their own type, the fallback conflict scan fails exactly when the fallback's type is a key |
| RecyclerDelegates.RecyclerDelegateManager.AddDelegate | lib/src/main/java/com/alapshin/genericrecyclerview/RecyclerDelegateManager.java:73-75 | as `AddDelegateAllowing` without replacing |
| RecyclerDelegates.RecyclerDelegateManager.AddDelegateAllowing | lib/src/main/java/com/alapshin/genericrecyclerview/RecyclerDelegateManager.java:93-116 | null: NullPointerException; the fallback's type, even when replacing is allowed, or an occupied type when it is not: IllegalArgumentException with the registry unchanged; otherwise only the delegate's own type changes; the invariant is kept |
| RecyclerDelegates.RecyclerDelegateManager.RemoveDelegate | lib/src/main/java/com/alapshin/genericrecyclerview/RecyclerDelegateManager.java:126-137 | null: NullPointerException; otherwise the delegate's own key is cleared only when it holds that very object |
| RecyclerDelegates.RecyclerDelegateManager.RemoveDelegateAt | lib/src/main/java/com/alapshin/genericrecyclerview/RecyclerDelegateManager.java:145-148 | removes only that key |
| RecyclerDelegates.RecyclerDelegateManager.GetItemViewType | lib/src/main/java/com/alapshin/genericrecyclerview/RecyclerDelegateManager.java:161-177 | the first accepting delegate's own type, else the fallback's type, else IllegalArgumentException |
| RecyclerDelegates.RecyclerDelegateManager.OnCreateViewHolder | lib/src/main/java/com/alapshin/genericrecyclerview/RecyclerDelegateManager.java:188-205 | the holder of the registered delegate, else of the fallback; NullPointerException when there is neither or the holder is null |
| RecyclerDelegates.RecyclerDelegateManager.OnBindViewHolder | lib/src/main/java/com/alapshin/genericrecyclerview/RecyclerDelegateManager.java:215-228 | the registered delegate for the holder's type, else the fallback, else NullPointerException |
| RecyclerDelegates.RecyclerDelegateManager.SetFallbackDelegate | lib/src/main/java/com/alapshin/genericrecyclerview/RecyclerDelegateManager.java:240-260 | IllegalArgumentException exactly when a registered delegate has the new fallback's type; null is always accepted; on success only the fallback changes; the invariant is kept |
| LibViewHolderDelegates.ViewHolderDelegateManager.AddDelegate | lib/src/main/java/com/alapshin/genericrecyclerview/ViewHolderDelegateManager.java:73-75 | as `AddDelegateAllowing` without replacing |
| LibViewHolderDelegates.ViewHolderDelegateManager.AddDelegateAllowing | lib/src/main/java/com/alapshin/genericrecyclerview/ViewHolderDelegateManager.java:93-112 | as in `RecyclerDelegateManager`; a null delegate throws NullPointerException on its first dereference |
| LibViewHolderDelegates.ViewHolderDelegateManager.RemoveDelegate | lib/src/main/java/com/alapshin/genericrecyclerview/ViewHolderDelegateManager.java:122-129 | the delegate's own key is cleared only when it holds that very object; a null delegate throws NullPointerException |
| LibViewHolderDelegates.ViewHolderDelegateManager.RemoveDelegateAt | lib/src/main/java/com/alapshin/genericrecyclerview/ViewHolderDelegateManager.java:137-140 | removes only that key |
| LibViewHolderDelegates.ViewHolderDelegateManager.GetItemViewType | lib/src/main/java/com/alapshin/genericrecyclerview/ViewHolderDelegateManager.java:153-169 | the first accepting delegate's own type, else the fallback's type, else IllegalArgumentException |
| LibViewHolderDelegates.ViewHolderDelegateManager.OnCreateViewHolder | lib/src/main/java/com/alapshin/genericrecyclerview/ViewHolderDelegateManager.java:181-192 | the registered delegate's holder, else the fallback's, passed on even when null; NullPointerException when there is neither delegate |
| LibViewHolderDelegates.ViewHolderDelegateManager.OnBindViewHolder | lib/src/main/java/com/alapshin/genericrecyclerview/ViewHolderDelegateManager.java:202-215 | the registered delegate for the holder's type, else the fallback, else NullPointerException |
| LibViewHolderDelegates.ViewHolderDelegateManager.SetFallbackDelegate | lib/src/main/java/com/alapshin/genericrecyclerview/ViewHolderDelegateManager.java:227-247 | IllegalArgumentException exactly when a registered delegate has the new fallback's type; null clears the fallback |
| Selection.PreviousPosition | lib/src/main/java/com/alapshin/genericrecyclerview/DefaultSelectionManager.java:36-39 | the only key when the table holds exactly one entry, else -1 |
| Selection.Selected | lib/src/main/java/com/alapshin/genericrecyclerview/DefaultSelectionManager.java:58-72 | `isSelected`: never in NONE; in SINGLE exactly when the table is `{position: true}`; in MULTI the stored value |
| Selection.AfterSetSelection | lib/src/main/java/com/alapshin/genericrecyclerview/DefaultSelectionManager.java:29-56 | `setSelection`: NONE mode changes nothing; otherwise `get(position, false)` ends equal to `selected`; no entry other than `position` is added or changed (SINGLE mode may drop them); MULTI mode keeps every other entry; at most the previous position and `position` are reported |
| Selection.WriteEntry | lib/src/main/java/com/alapshin/genericrecyclerview/DefaultSelectionManager.java:49-55 | the stored value ends equal to `selected`, no other entry changes, and the position is reported exactly when its stored value differed |
| Selection.NoChoiceIgnoresSelection | lib/src/main/java/com/alapshin/genericrecyclerview/DefaultSelectionManager.java:29-32 | in NONE mode `setSelection` changes and reports nothing |
| Selection.SingleKeepsAtMostOne | lib/src/main/java/com/alapshin/genericrecyclerview/DefaultSelectionManager.java:34-56 | in SINGLE mode the table keeps at most one entry |
| Selection.SingleSelectsOnlyPosition | lib/src/main/java/com/alapshin/genericrecyclerview/DefaultSelectionManager.java:34-66 | in SINGLE mode, after `setSelection(p, true)` the table is `{p: true}`: `p` is selected and no other position is |
| Selection.SingleLeftoverSelectsNothing | lib/src/main/java/com/alapshin/genericrecyclerview/DefaultSelectionManager.java:34-66 | the case `SingleSelectsOnlyPosition` excludes: with several entries left from MULTI mode, `setSelection(-1, true)` clears nothing and adds -1, and afterwards no position is selected, -1 included |
| Selection.SingleDeselects | lib/src/main/java/com/alapshin/genericrecyclerview/DefaultSelectionManager.java:34-66 | in SINGLE mode `setSelection(p, false)` leaves `p` unselected |
| Selection.MultiSetsOnlyPosition | lib/src/main/java/com/alapshin/genericrecyclerview/DefaultSelectionManager.java:49-68 | in MULTI mode `isSelected(p) == s` afterwards and every other entry is unchanged |
| Selection.ToggleFlips | lib/src/main/java/com/alapshin/genericrecyclerview/DefaultSelectionManager.java:75-77 | `toggleSelection(p)` flips `isSelected(p)` in SINGLE and MULTI modes |
| Selection.ReportsChangedEntries | lib/src/main/java/com/alapshin/genericrecyclerview/DefaultSelectionManager.java:36-55 | every reported position had its entry changed, and every changed entry is reported, with the SINGLE-mode exceptions listed under Left out |
| Selection.ReportsSelectionChanges | lib/src/main/java/com/alapshin/genericrecyclerview/DefaultSelectionManager.java:28-72 | every position whose `isSelected` answer changes is reported, whatever the table held |
| Selection.DefaultSelectionManager.Clear | lib/src/main/java/com/alapshin/genericrecyclerview/DefaultSelectionManager.java:13-18 | empties the table and reports a data set change when an adapter is set |
| Selection.DefaultSelectionManager.SetChoiceMode | lib/src/main/java/com/alapshin/genericrecyclerview/DefaultSelectionManager.java:21-26 | changes only the mode; stored entries survive |
| Selection.DefaultSelectionManager.SetSelection | lib/src/main/java/com/alapshin/genericrecyclerview/DefaultSelectionManager.java:29-56 | the new table and the reported positions are those of `AfterSetSelection` |
| Selection.DefaultSelectionManager.IsSelected | lib/src/main/java/com/alapshin/genericrecyclerview/DefaultSelectionManager.java:58-72 | never in NONE; in SINGLE exactly when the table is `{position: true}`; in MULTI the stored value |
| Selection.DefaultSelectionManager.ToggleSelection | lib/src/main/java/com/alapshin/genericrecyclerview/DefaultSelectionManager.java:75-77 | `setSelection(p, !isSelected(p))` |
| Selection.DefaultSelectionManager.SetAdapter | lib/src/main/java/com/alapshin/genericrecyclerview/DefaultSelectionManager.java:80-82 | changes only whether an adapter is set |
| LibraryItems.DefaultItemProvider.AddItem | library/src/main/java/com/alapshin/genericrecyclerview/DefaultItemProvider.java:30-35 | appends and reports an insertion at the new last index, which describes the change |
| LibraryItems.DefaultItemProvider.GetItemCount | library/src/main/java/com/alapshin/genericrecyclerview/DefaultItemProvider.java:17-19 | the number of stored items |
| LibraryItems.DefaultItemProvider.GetItemId | library/src/main/java/com/alapshin/genericrecyclerview/DefaultItemProvider.java:22-24 | the id of the item `getItem(position)` returns |
| LibraryItems.DefaultItemProvider.GetItem | library/src/main/java/com/alapshin/genericrecyclerview/DefaultItemProvider.java:69-71 | the item stored at `position` |
| LibraryItems.DefaultItemProvider.AddItemAt | library/src/main/java/com/alapshin/genericrecyclerview/DefaultItemProvider.java:38-43 | inserts at the position and reports that insertion |
| LibraryItems.DefaultItemProvider.AddItems | library/src/main/java/com/alapshin/genericrecyclerview/DefaultItemProvider.java:49-55 | appends the list in order and reports the range (old count, list size) |
| LibraryItems.DefaultItemProvider.AddItemsAt | library/src/main/java/com/alapshin/genericrecyclerview/DefaultItemProvider.java:58-63 | splices the list in at the position and reports that range |
| LibraryItems.DefaultItemProvider.SetItem | library/src/main/java/com/alapshin/genericrecyclerview/DefaultItemProvider.java:85-90 | replaces only that slot, same length, reports that item changed |
| LibraryItems.DefaultItemProvider.SetItems | library/src/main/java/com/alapshin/genericrecyclerview/DefaultItemProvider.java:96-101 | the argument becomes the list; a computed diff is dispatched when an adapter is set |
| LibraryItems.DefaultItemProvider.MoveItem | library/src/main/java/com/alapshin/genericrecyclerview/DefaultItemProvider.java:107-112 | same length and multiset, the moved item at `to`, reported as that move |
| LibraryItems.DefaultItemProvider.RemoveItem | library/src/main/java/com/alapshin/genericrecyclerview/DefaultItemProvider.java:118-123 | removes that position and reports its removal |
| LibraryItems.DefaultItemProvider.RemoveItems | library/src/main/java/com/alapshin/genericrecyclerview/DefaultItemProvider.java:129-135 | empties the list and reports the range (0, old count) removed |
| LibraryItems.DefaultItemProvider.SetAdapter | library/src/main/java/com/alapshin/genericrecyclerview/DefaultItemProvider.java:137-139 | changes only whether an adapter is set |
| LibItems.DefaultItemProvider.AddItem | lib/src/main/java/com/alapshin/genericrecyclerview/DefaultItemProvider.java:18-23 | appends and reports an insertion at count - 1 |
| LibItems.DefaultItemProvider.GetItemCount | lib/src/main/java/com/alapshin/genericrecyclerview/DefaultItemProvider.java:12-15 | the number of stored items |
| LibItems.DefaultItemProvider.GetItem | lib/src/main/java/com/alapshin/genericrecyclerview/DefaultItemProvider.java:35-38 | the item stored at `position` |
| LibItems.DefaultItemProvider.AddItems | lib/src/main/java/com/alapshin/genericrecyclerview/DefaultItemProvider.java:26-33 | as written: the stored list is unchanged, the caller's list is appended to itself, and an insertion of the range (old count, n) is still reported; for a non-empty argument that report does not describe the change |
| LibItems.AddItemsMisreports | lib/src/main/java/com/alapshin/genericrecyclerview/DefaultItemProvider.java:26-33 | for a non-empty argument that report does not describe what happened to the stored list |
| LibItems.DefaultItemProvider.AppendItems | lib/src/main/java/com/alapshin/genericrecyclerview/DefaultItemProvider.java:26-33 | the evident intent: appends the argument and reports exactly that range |
| LibItems.DefaultItemProvider.SetItem | lib/src/main/java/com/alapshin/genericrecyclerview/DefaultItemProvider.java:46-51 | replaces only that slot and reports it |
| LibItems.DefaultItemProvider.SetItems | lib/src/main/java/com/alapshin/genericrecyclerview/DefaultItemProvider.java:54-59 | the argument becomes the list; a data set change is reported |
| LibItems.DefaultItemProvider.MoveItem | lib/src/main/java/com/alapshin/genericrecyclerview/DefaultItemProvider.java:62-67 | a permutation placing the moved item at `to`, reported as that move |
| LibItems.DefaultItemProvider.RemoveItem | lib/src/main/java/com/alapshin/genericrecyclerview/DefaultItemProvider.java:70-75 | one shorter, that position removed and reported |
| LibItems.DefaultItemProvider.RemoveItems | lib/src/main/java/com/alapshin/genericrecyclerview/DefaultItemProvider.java:78-83 | empties the list and reports the range (0, old count) removed |
| LibItems.DefaultItemProvider.SetAdapter | lib/src/main/java/com/alapshin/genericrecyclerview/DefaultItemProvider.java:86-88 | changes only whether an adapter is set |
| AdapterItems.ItemAt | lib/src/main/java/com/alapshin/genericrecyclerview/RecyclerAdapter.java:59-61 | `getItem`: the item inside `[0, size)`, null outside |
| AdapterItems.WithSelected | lib/src/main/java/com/alapshin/genericrecyclerview/RecyclerItem.java:29-31 | `setSelected` changes that item's flag and nothing else |
| RecyclerAdapters.SetSelectionRun | lib/src/main/java/com/alapshin/genericrecyclerview/RecyclerAdapter.java:87-118 | IllegalArgumentException with nothing changed for `position < 0` or `position > size`; nothing changes in NONE mode |
| RecyclerAdapters.SetSelectionChecked | lib/src/main/java/com/alapshin/genericrecyclerview/RecyclerAdapter.java:88-90 | with the bounds check `position >= size`, IllegalArgumentException exactly for positions outside the list, with nothing changed |
| RecyclerAdapters.SelectInRange | lib/src/main/java/com/alapshin/genericrecyclerview/RecyclerAdapter.java:92-117 | after the bounds check: NONE changes nothing; only NullPointerException can be thrown; a call in SINGLE mode that returns leaves `get(position, false) == selected`; no entry other than `position` is added or changed |
| RecyclerAdapters.WriteSelection | lib/src/main/java/com/alapshin/genericrecyclerview/RecyclerAdapter.java:112-117 | the stored value ends equal to `selected`, even when the call throws; NullPointerException exactly when the value differed and `position` is outside the list; on success the item's flag is written and the position reported; other entries and items are untouched |
| RecyclerAdapters.SingleMovesSelection | lib/src/main/java/com/alapshin/genericrecyclerview/RecyclerAdapter.java:96-110 | in SINGLE mode, moving the selection to an item in the list while the old position (if any) is in the list: no throw, every key is `position`, the old item's flag is reset, the stored value is `selected` and so is the new flag when `selected`, and the old position is reported first |
| RecyclerAdapters.WritesEntryAndFlag | lib/src/main/java/com/alapshin/genericrecyclerview/RecyclerAdapter.java:112-117 | when the stored value differs from `selected`, both the table entry and the item's flag become `selected`, and the position is reported |
| RecyclerAdapters.KeepsAtMostOne | lib/src/main/java/com/alapshin/genericrecyclerview/RecyclerAdapter.java:96-117 | a table of at most one entry keeps at most one, whether or not the call throws |
| RecyclerAdapters.CheckedKeepsFlagsMatching | lib/src/main/java/com/alapshin/genericrecyclerview/RecyclerAdapter.java:87-118 | with the corrected check, no NullPointerException, and table keys stay in the list with matching flags |
| RecyclerAdapters.SelectPastEndThrowsLate | lib/src/main/java/com/alapshin/genericrecyclerview/RecyclerAdapter.java:88-90 | as written, `setSelection(1, true)` on a one-item list in SINGLE mode passes the check, stores key 1, reports -1 and then throws NullPointerException |
| RecyclerAdapters.RemoveLeavesStaleKey | lib/src/main/java/com/alapshin/genericrecyclerview/RecyclerAdapter.java:78-81 | `removeItem` does not shift table keys: a key can end up past the end, and a later selection throws |
| RecyclerAdapters.RecyclerAdapter.SetItem | lib/src/main/java/com/alapshin/genericrecyclerview/RecyclerAdapter.java:63-66 | replaces only one slot and reports it |
| RecyclerAdapters.RecyclerAdapter.GetItemCount | lib/src/main/java/com/alapshin/genericrecyclerview/RecyclerAdapter.java:32-35 | the length of the item list |
| RecyclerAdapters.RecyclerAdapter.GetItem | lib/src/main/java/com/alapshin/genericrecyclerview/RecyclerAdapter.java:59-61 | the item at `position`, and null exactly outside the list |
| RecyclerAdapters.RecyclerAdapter.SetItems | lib/src/main/java/com/alapshin/genericrecyclerview/RecyclerAdapter.java:72-76 | replaces the list, clears the selection table, reports a data set change |
| RecyclerAdapters.RecyclerAdapter.RemoveItem | lib/src/main/java/com/alapshin/genericrecyclerview/RecyclerAdapter.java:78-81 | removes the element and reports it; selection keys are neither shifted nor cleared |
| RecyclerAdapters.RecyclerAdapter.SetChoiceMode | lib/src/main/java/com/alapshin/genericrecyclerview/RecyclerAdapter.java:83-85 | changes only the mode |
| RecyclerAdapters.RecyclerAdapter.SetSelection | lib/src/main/java/com/alapshin/genericrecyclerview/RecyclerAdapter.java:87-118 | outcome, list, table and reports are those of `SetSelectionRun` |
| GenericAdapters.ReselectIsNoOp | lib/src/main/java/com/alapshin/genericrecyclerview/GenericRecyclerAdapter.java:70-83 | NONE mode, and SINGLE mode on the only selected position, change nothing |
| GenericAdapters.SelectItemRun | lib/src/main/java/com/alapshin/genericrecyclerview/GenericRecyclerAdapter.java:70-95 | NONE changes nothing; only NullPointerException can be thrown; the list keeps its length |
| GenericAdapters.MarkSelected | lib/src/main/java/com/alapshin/genericrecyclerview/GenericRecyclerAdapter.java:91-94 | succeeds exactly for a position in the list: its flag is set, it is added as selected and reported last, and nothing else changes; outside it throws NullPointerException with nothing changed |
| GenericAdapters.SelectMarksPosition | lib/src/main/java/com/alapshin/genericrecyclerview/GenericRecyclerAdapter.java:75-94 | unless SINGLE mode meets the previous position again, for every table: success exactly when the position and the previous position (if any) lie in the list; then the flag and the entry are true and the position is reported last; no other entry is added or changed |
| GenericAdapters.SingleMovesSelection | lib/src/main/java/com/alapshin/genericrecyclerview/GenericRecyclerAdapter.java:84-94 | in SINGLE mode a new position in the list, with the previous position (if any) in the list too: no throw, the previous item's flag is reset, the new one set, `{position: true}` is the table, and previous then new position are reported |
| GenericAdapters.MultiAddsPosition | lib/src/main/java/com/alapshin/genericrecyclerview/GenericRecyclerAdapter.java:91-94 | in MULTI mode the position is added and no other entry changes |
| GenericAdapters.SelectKeepsFlagsMatching | lib/src/main/java/com/alapshin/genericrecyclerview/GenericRecyclerAdapter.java:70-95 | invariant: a table of `true` entries whose keys lie in the list with matching flags stays so after a select in the list in SINGLE or MULTI mode, which then does not throw and leaves the flag and the entry true |
| GenericAdapters.SelectOutsideThrows | lib/src/main/java/com/alapshin/genericrecyclerview/GenericRecyclerAdapter.java:75-94 | outside the list, for every table, the call throws NullPointerException exactly unless SINGLE mode meets the previous position again. With keys in the list that exception is -1 without exactly one entry. A SINGLE-mode throw clears the table exactly when the previous position is -1 or in the list |
| GenericAdapters.GenericRecyclerAdapter.GetItemCount | lib/src/main/java/com/alapshin/genericrecyclerview/GenericRecyclerAdapter.java:34-37 | the length of the item list |
| GenericAdapters.GenericRecyclerAdapter.GetItem | lib/src/main/java/com/alapshin/genericrecyclerview/GenericRecyclerAdapter.java:51-53 | the item at `position`, and null exactly outside the list |
| GenericAdapters.GenericRecyclerAdapter.RemoveItem | lib/src/main/java/com/alapshin/genericrecyclerview/GenericRecyclerAdapter.java:55-58 | removes the element; the selection table is untouched |
| GenericAdapters.GenericRecyclerAdapter.SetItems | lib/src/main/java/com/alapshin/genericrecyclerview/GenericRecyclerAdapter.java:60-64 | replaces the list and clears the selection |
| GenericAdapters.GenericRecyclerAdapter.SetChoiceMode | lib/src/main/java/com/alapshin/genericrecyclerview/GenericRecyclerAdapter.java:66-68 | changes only the mode |
| GenericAdapters.GenericRecyclerAdapter.SelectItem | lib/src/main/java/com/alapshin/genericrecyclerview/GenericRecyclerAdapter.java:70-95 | outcome, list, table and reports are those of `SelectItemRun` |

## Left out

- View creation and binding inside delegates. So is the class cast in `onBindViewHolderImpl`. They touch Android views; `create` is a parameter, and `OnBindViewHolder` returns the delegate that binds.
- What RecyclerView does with the notifications. They are only logged.
- `DiffUtil.calculateDiff` and `DiffUtilCallback`. The dispatched updates are one `DiffDispatched` entry, and `Describes` claims nothing for it.
- The internal arrays of `SparseArrayCompat` and `SparseBooleanArray`. They are maps iterated in ascending key order; `append` is modelled as `put`.
- View-holder classes and click listeners: `RecyclerViewHolder`, `GenericViewHolder`, `DefaultViewHolder` and `setOnItemClickListener`. So are the adapter callbacks that only forward to the delegate manager.
- `DefaultAdapter`, `GenericRecyclerView`, `BindableViewHolder`, the interfaces and the sample app. They are glue, declarations or demo code.
- RecyclerDelegate.java is not part of this model. Its shape (a fixed view type and an `isForViewType` predicate) comes from how the registry uses it.
- Aliasing is not modelled. Lists and items are values, so these effects are missing:
  - `getItems()` hands out the live list;
  - `setItems` keeps the caller's list;
  - one item object may sit at several positions.
- Item flags are folded into the `Item` record.
- List elements are never null. The Java lists may hold nulls: `onBindViewHolder` tests for one at GenericRecyclerAdapter.java:43. A null element at a position in the list makes `selectItem` and `setSelection` throw NullPointerException at `setSelected`, which the model does not capture. `AdapterItems.ItemAt` gives an item at every position in the list. So the success claims of `SelectMarksPosition`, `SingleMovesSelection`, `WritesEntryAndFlag` and `CheckedKeepsFlagsMatching` hold for lists without null elements.
- Delegates' `isForViewType` and `getItemViewType()` are taken as fixed functions.
- Java `IndexOutOfBoundsException` on list access is a precondition (`requires 0 <= position < |items|` and the like). It is not an error result.
- LibraryDelegates.ViewHolderDelegateManager.AddDelegate: requires at most `Integer.MAX_VALUE` delegates, because `size()` is an `int`.
- Selection.SingleKeepsAtMostOne: requires a table of at most one entry or a position other than -1. With several entries left from MULTI mode, `setSelection(-1, s)` does not clear the table, because -1 matches the "no previous position" sentinel.
- Selection.ToggleFlips: in SINGLE mode it has the same requirement as `SingleKeepsAtMostOne`.
- Selection.SingleSelectsOnlyPosition: it has the same requirement as `SingleKeepsAtMostOne`. `SingleLeftoverSelectsNothing` states the excluded case: nothing is cleared and nothing ends up selected.
- Selection.ReportsChangedEntries: in SINGLE mode the forward claim is proved only from exactly one entry. From an empty table it holds except for the reported -1. From several entries left by MULTI mode, positions may be reported with their entry unchanged, and cleared entries go unreported. They were not selected in SINGLE mode anyway; `ReportsSelectionChanges` covers that case.
- RecyclerAdapters.WritesEntryAndFlag and RecyclerAdapters.SingleMovesSelection need the previous position to be -1 or in the list; otherwise `getItem(oldPosition)` is null and the call throws (see `RemoveLeavesStaleKey`). `WritesEntryAndFlag` also needs at most one entry: with several, the cleared table may already hold `selected`.
- GenericAdapters.SingleMovesSelection needs the previous position to be -1 or in the list; otherwise the call throws, as `SelectMarksPosition` states.
- GenericAdapters.SelectKeepsFlagsMatching assumes the adapter's table holds only `true` entries at positions in the list with matching flags (`FlagsMatch`, `OnlySelected`). `setItems` and `selectItem` keep that; `removeItem` does not, because it leaves the table unshifted. `SelectMarksPosition` and `SelectOutsideThrows` state what holds without it.
- RecyclerAdapters.RecyclerAdapter.SetSelection follows the source as written. The corrected bounds check is the separate `SetSelectionChecked`.

## Findings

| source | as written | input that shows it | evidently intended | confidence | as-written member | corrected member |
|---|---|---|---|---|---|---|
| lib/src/main/java/com/alapshin/genericrecyclerview/DefaultItemProvider.java:26-33 | `items.addAll(items)` resolves to the parameter, so the argument is appended to itself and the stored list is unchanged, yet `notifyItemRangeInserted(size, sizeToInsert)` is sent | any non-empty argument | append the argument to the stored list, as the library module's `addItems` does and the notification claims | high, not executed | LibItems.AddItemsMisreports | LibItems.DefaultItemProvider.AppendItems |
| lib/src/main/java/com/alapshin/genericrecyclerview/RecyclerAdapter.java:88-90 | the check rejects `position > items.size()`, so `position == size` gets through | SINGLE mode, one item, `setSelection(1, true)`: the table is cleared, -1 is reported, key 1 is stored, then `getItem(1)` is null and NullPointerException is thrown | reject `position >= items.size()` with IllegalArgumentException before any change | medium, not executed | RecyclerAdapters.SelectPastEndThrowsLate | RecyclerAdapters.SetSelectionChecked |
