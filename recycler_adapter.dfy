/** RecyclerAdapter of the `lib` module: its item list, and single selection
    kept both in a sparse table and in the items' `selected` flags. */
module RecyclerAdapters {
  import opened Common
  import opened Lists
  import opened AdapterItems
  import Selection

  datatype ChoiceMode = NoChoice | SingleChoice

  /** `setSelection(position, selected)` as written: the bounds check lets
      `position == size` through. */
  function SetSelectionRun(mode: ChoiceMode, items: seq<Item>, table: map<Int32, bool>, position: Int32, selected: bool): (r: Run)
    ensures position < 0 || position > |items| ==> r == Run(Fail(IllegalArgument), items, table, [])
    ensures 0 <= position <= |items| && mode == NoChoice ==> r == Run(Pass, items, table, [])
  {
    if position < 0 || position > |items| then Run(Fail(IllegalArgument), items, table, [])
    else SelectInRange(mode, items, table, position, selected)
  }

  /** `setSelection` with the bounds check it evidently means, `position >= size`. */
  function SetSelectionChecked(mode: ChoiceMode, items: seq<Item>, table: map<Int32, bool>, position: Int32, selected: bool): (r: Run)
    ensures r.outcome == Fail(IllegalArgument) <==> position < 0 || position >= |items|
    ensures r.outcome == Fail(IllegalArgument) ==> r == Run(Fail(IllegalArgument), items, table, [])
  {
    if position < 0 || position >= |items| then Run(Fail(IllegalArgument), items, table, [])
    else SelectInRange(mode, items, table, position, selected)
  }

  /** What `setSelection` does once the position passed the bounds check. In
      SINGLE mode a previous position other than `position` clears the table and,
      unless it is -1, has its item's flag reset (null, hence a
      NullPointerException, when it is outside the list); it is reported either
      way. The entry and the flag are then written if the stored value differs. */
  function SelectInRange(mode: ChoiceMode, items: seq<Item>, table: map<Int32, bool>, position: Int32, selected: bool): (r: Run)
    ensures mode == NoChoice ==> r == Run(Pass, items, table, [])
    ensures r.outcome == Pass || r.outcome == Fail(NullPointer)
    ensures |r.items| == |items|
    ensures mode == SingleChoice && r.outcome == Pass ==> Selection.Stored(r.table, position) == selected
    ensures forall k :: k in r.table && k != position ==> k in table && r.table[k] == table[k]
  {
    if mode == NoChoice then Run(Pass, items, table, [])
    else
      var oldPosition := Selection.PreviousPosition(table);
      if oldPosition != position then
        if oldPosition != -1 && ItemAt(items, oldPosition).None? then
          Run(Fail(NullPointer), items, map[], [])
        else
          var reset := if oldPosition != -1 then WithSelected(items, oldPosition, false) else items;
          WriteSelection(reset, map[], [oldPosition], position, selected)
      else
        WriteSelection(items, table, [], position, selected)
  }

  /** The tail of `setSelection`: when the stored value differs, store it, then
      set the item's flag (null, hence a NullPointerException, past the end) and
      report the position. */
  function WriteSelection(items: seq<Item>, table: map<Int32, bool>, changed: seq<int>, position: Int32, selected: bool): (r: Run)
    ensures Selection.Stored(r.table, position) == selected
    ensures forall k :: k != position ==> Selection.Entry(r.table, k) == Selection.Entry(table, k)
    ensures r.outcome == Fail(NullPointer) <==> Selection.Stored(table, position) != selected && !(0 <= position < |items|)
    ensures r.outcome.Fail? ==> r.outcome == Fail(NullPointer) && r.items == items && r.changed == changed
    ensures |r.items| == |items| && forall j :: 0 <= j < |items| && j != position ==> r.items[j] == items[j]
    ensures r.outcome == Pass && Selection.Stored(table, position) != selected ==>
      r.items[position].selected == selected && r.changed == changed + [position]
    ensures Selection.Stored(table, position) == selected ==> r == Run(Pass, items, table, changed)
  {
    if Selection.Stored(table, position) != selected then
      if ItemAt(items, position).Some? then
        Run(Pass, WithSelected(items, position, selected), table[position := selected], changed + [position])
      else
        Run(Fail(NullPointer), items, table[position := selected], changed)
    else Run(Pass, items, table, changed)
  }

  /** In SINGLE mode, moving the selection to an item in the list, while the
      previous position (if any) is in the list too, clears the table and resets
      the flag of the previously selected item. */
  lemma {:induction false} SingleMovesSelection(items: seq<Item>, table: map<Int32, bool>, position: Int32, selected: bool)
    requires 0 <= position < |items|
    requires Selection.PreviousPosition(table) != position
    requires Selection.PreviousPosition(table) == -1 || 0 <= Selection.PreviousPosition(table) < |items|
    ensures var r := SetSelectionRun(SingleChoice, items, table, position, selected);
      var oldPosition := Selection.PreviousPosition(table);
      r.outcome == Pass &&
      (forall k :: k in r.table ==> k == position) &&
      (oldPosition != -1 ==> !r.items[oldPosition].selected) &&
      Selection.Stored(r.table, position) == selected && (selected ==> r.items[position].selected) &&
      r.changed[0] == oldPosition
  {
    var oldPosition := Selection.PreviousPosition(table);
    if oldPosition != -1 {
      assert oldPosition in table;
    }
  }

  /** In SINGLE mode, from a table of at most one entry, a stored value that
      differs from `selected` is overwritten in both the table and the item's flag. */
  lemma {:induction false} WritesEntryAndFlag(mode: ChoiceMode, items: seq<Item>, table: map<Int32, bool>, position: Int32, selected: bool)
    requires mode == SingleChoice && 0 <= position < |items| && |table| <= 1
    requires Selection.PreviousPosition(table) == -1 || 0 <= Selection.PreviousPosition(table) < |items|
    requires Selection.Stored(table, position) != selected
    ensures var r := SetSelectionRun(mode, items, table, position, selected);
      r.outcome == Pass && position in r.table && r.table[position] == selected && r.items[position].selected == selected &&
      r.changed[|r.changed| - 1] == position
  {
    var oldPosition := Selection.PreviousPosition(table);
    if oldPosition != position && oldPosition != -1 {
      assert oldPosition in table;
    }
  }

  /** A table with at most one entry keeps at most one entry, whatever the call throws. */
  lemma {:induction false} KeepsAtMostOne(mode: ChoiceMode, items: seq<Item>, table: map<Int32, bool>, position: Int32, selected: bool)
    requires |table| <= 1
    ensures |SetSelectionRun(mode, items, table, position, selected).table| <= 1
  {
    var oldPosition := Selection.PreviousPosition(table);
    if |table| == 1 && oldPosition == position {
      assert table[position := selected] == map[position := selected];
    }
  }

  /** With the corrected bounds check a selection call never throws a
      NullPointerException and keeps every table key a position whose flag
      holds the stored value. */
  lemma {:induction false} CheckedKeepsFlagsMatching(mode: ChoiceMode, items: seq<Item>, table: map<Int32, bool>, position: Int32, selected: bool)
    requires FlagsMatch(items, table)
    ensures var r := SetSelectionChecked(mode, items, table, position, selected);
      r.outcome == (if 0 <= position < |items| then Pass else Fail(IllegalArgument)) &&
      FlagsMatch(r.items, r.table) && |r.items| == |items|
  {
    if 0 <= position < |items| && mode == SingleChoice {
      var oldPosition := Selection.PreviousPosition(table);
      if oldPosition != position {
        var reset := if oldPosition != -1 then WithSelected(items, oldPosition, false) else items;
        if oldPosition != -1 {
          assert oldPosition in table;
        }
        assert FlagsMatch(reset, map[]);
      }
    }
  }

  /** As written, selecting the position just past the end of a one-item list in
      SINGLE mode passes the bounds check, clears the table, reports -1, stores
      the entry and then throws a NullPointerException, leaving a table key
      outside the list. */
  lemma SelectPastEndThrowsLate(x: Item)
    ensures SetSelectionRun(SingleChoice, [x], map[], 1, true) == Run(Fail(NullPointer), [x], map[1 := true], [-1])
    ensures !FlagsMatch([x], map[1 := true])
  {
    assert Selection.PreviousPosition(map[]) == -1;
  }

  /** `removeItem` does not shift the table: removing the first of two items
      while the second is selected leaves a key past the end, and the next
      selection of another item throws a NullPointerException. */
  lemma RemoveLeavesStaleKey(x: Item, y: Item)
    requires y.selected
    ensures FlagsMatch([x, y], map[1 := true])
    ensures !FlagsMatch(RemoveAt([x, y], 0), map[1 := true])
    ensures SetSelectionRun(SingleChoice, RemoveAt([x, y], 0), map[1 := true], 0, true).outcome == Fail(NullPointer)
  {
    var table: map<Int32, bool> := map[1 := true];
    assert table.Keys == {1};
    assert Selection.PreviousPosition(table) == 1;
  }

  class RecyclerAdapter {
    var items: seq<Item>
    var choiceMode: ChoiceMode
    var selectedItems: map<Int32, bool>
    /** The notifications the adapter has sent to its observers. */
    var notifications: seq<Notification>

    constructor ()
      ensures items == [] && choiceMode == NoChoice && selectedItems == map[] && notifications == []
    {
      items := [];
      choiceMode := NoChoice;
      selectedItems := map[];
      notifications := [];
    }

    /** `getItemCount()`. */
    function GetItemCount(): (n: int)
      reads this
      ensures n == |items|
    {
      |items|
    }

    /** `getItem(position)`: null outside the list. */
    function GetItem(position: int): (r: Option<Item>)
      reads this
      ensures r.Some? <==> 0 <= position < |items|
      ensures r.Some? ==> r.value == items[position]
    {
      ItemAt(items, position)
    }

    /** `setItem(position, item)`: replaces that slot only. */
    method SetItem(position: int, item: Item)
      requires 0 <= position < |items|
      modifies this
      ensures items == old(items)[position := item]
      ensures choiceMode == old(choiceMode) && selectedItems == old(selectedItems)
      ensures notifications == old(notifications) + [ItemChanged(position)]
      ensures Describes(ItemChanged(position), old(items), items)
    {
      items := items[position := item];
      notifications := notifications + [ItemChanged(position)];
    }

    /** `setItems(list)`: replaces the list and clears the selection table. */
    method SetItems(list: seq<Item>)
      modifies this
      ensures items == list && selectedItems == map[] && choiceMode == old(choiceMode)
      ensures notifications == old(notifications) + [DataSetChanged]
    {
      items := list;
      selectedItems := map[];
      notifications := notifications + [DataSetChanged];
    }

    /** `removeItem(position)`: the selection table keeps its keys unshifted. */
    method RemoveItem(position: int)
      requires 0 <= position < |items|
      modifies this
      ensures items == RemoveAt(old(items), position)
      ensures selectedItems == old(selectedItems) && choiceMode == old(choiceMode)
      ensures notifications == old(notifications) + [ItemRemoved(position)]
      ensures Describes(ItemRemoved(position), old(items), items)
    {
      items := RemoveAt(items, position);
      notifications := notifications + [ItemRemoved(position)];
    }

    /** `setChoiceMode(mode)`: only the mode changes, and nothing is reported. */
    method SetChoiceMode(mode: ChoiceMode)
      modifies this
      ensures choiceMode == mode
      ensures items == old(items) && selectedItems == old(selectedItems) && notifications == old(notifications)
    {
      choiceMode := mode;
    }

    /** `setSelection(position, selected)`. */
    method SetSelection(position: Int32, selected: bool) returns (r: Outcome)
      modifies this
      ensures var run := SetSelectionRun(old(choiceMode), old(items), old(selectedItems), position, selected);
        r == run.outcome && items == run.items && selectedItems == run.table &&
        notifications == old(notifications) + ItemsChanged(run.changed)
      ensures choiceMode == old(choiceMode)
    {
      if position < 0 || position > |items| {
        return Fail(IllegalArgument);
      }
      if choiceMode == NoChoice {
        return Pass;
      }
      ghost var run := SetSelectionRun(choiceMode, items, selectedItems, position, selected);
      ghost var changed: seq<int> := [];
      if choiceMode == SingleChoice {
        var oldPosition: Int32 := -1;
        if |selectedItems| == 1 {
          oldPosition := Selection.PreviousPosition(selectedItems);
        }
        if oldPosition != position {
          selectedItems := map[];
          if oldPosition != -1 {
            var previous := ItemAt(items, oldPosition);
            if previous.None? {
              assert run.changed == [];
              return Fail(NullPointer);
            }
            items := items[oldPosition := previous.value.(selected := false)];
          }
          notifications := notifications + [ItemChanged(oldPosition)];
          changed := [oldPosition];
          assert run == WriteSelection(items, selectedItems, changed, position, selected);
        } else {
          assert run == WriteSelection(items, selectedItems, [], position, selected);
        }
      }
      assert notifications == old(notifications) + ItemsChanged(changed);
      var oldSelected := Selection.Stored(selectedItems, position);
      if oldSelected != selected {
        selectedItems := selectedItems[position := selected];
        var item := ItemAt(items, position);
        if item.None? {
          assert run.changed == changed;
          return Fail(NullPointer);
        }
        items := items[position := item.value.(selected := selected)];
        ItemsChangedSnoc(changed, position);
        notifications := notifications + [ItemChanged(position)];
        assert run.changed == changed + [position];
      } else {
        assert run.changed == changed;
      }
      return Pass;
    }
  }
}
