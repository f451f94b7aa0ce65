/** GenericRecyclerAdapter of the `lib` module: its item list, and NONE, SINGLE
    or MULTI selection kept both in a sparse table and in the items' flags. */
module GenericAdapters {
  import opened Common
  import opened Lists
  import opened AdapterItems
  import opened Selection

  /** `selectItem(position)`. In SINGLE mode reselecting the only selected
      position does nothing; otherwise a previous position other than -1 has its
      item's flag reset and is reported (null, hence a NullPointerException, when
      it is outside the list) before the table is cleared. The item at `position`
      is then flagged, stored as selected and reported (null, hence a
      NullPointerException, outside the list). */
  function SelectItemRun(mode: ChoiceMode, items: seq<Item>, table: map<Int32, bool>, position: Int32): (r: Run)
    ensures mode == NoChoice ==> r == Run(Pass, items, table, [])
    ensures r.outcome == Pass || r.outcome == Fail(NullPointer)
    ensures |r.items| == |items|
  {
    if mode == NoChoice then Run(Pass, items, table, [])
    else if mode == SingleChoice then
      var previousPosition := PreviousPosition(table);
      if previousPosition == position then Run(Pass, items, table, [])
      else if previousPosition != -1 && ItemAt(items, previousPosition).None? then
        Run(Fail(NullPointer), items, table, [])
      else
        var reset := if previousPosition != -1 then WithSelected(items, previousPosition, false) else items;
        var changed := if previousPosition != -1 then [previousPosition as int] else [];
        MarkSelected(reset, map[], changed, position)
    else MarkSelected(items, table, [], position)
  }

  /** Unless SINGLE mode meets the previous position again, `selectItem` succeeds
      exactly when the position and the previous position (if any) lie in the
      list; then the item is flagged, stored as selected and reported last.
      Every other entry the table holds afterwards was there before, unchanged. */
  lemma {:induction false} SelectMarksPosition(mode: ChoiceMode, items: seq<Item>, table: map<Int32, bool>, position: Int32)
    requires mode != NoChoice && (mode == MultiChoice || PreviousPosition(table) != position)
    ensures var r := SelectItemRun(mode, items, table, position);
      (r.outcome == Pass <==>
        0 <= position < |items| &&
        (mode == MultiChoice || PreviousPosition(table) == -1 || 0 <= PreviousPosition(table) < |items|)) &&
      (r.outcome == Pass ==>
        r.items[position].selected && position in r.table && r.table[position] &&
        |r.changed| > 0 && r.changed[|r.changed| - 1] == position) &&
      forall k :: k in r.table && k != position ==> k in table && r.table[k] == table[k]
  {
    if mode == SingleChoice {
      var previousPosition := PreviousPosition(table);
      if previousPosition != -1 && ItemAt(items, previousPosition).Some? {
        var reset := WithSelected(items, previousPosition, false);
        assert SelectItemRun(mode, items, table, position) == MarkSelected(reset, map[], [previousPosition as int], position);
      }
    }
  }

  /** Every stored entry says selected: `selectItem` is the only writer and puts `true`. */
  ghost predicate OnlySelected(table: map<Int32, bool>) {
    forall k :: k in table ==> table[k]
  }

  /** The tail of `selectItem`. */
  function MarkSelected(items: seq<Item>, table: map<Int32, bool>, changed: seq<int>, position: Int32): (r: Run)
    ensures r.outcome == Pass <==> 0 <= position < |items|
    ensures r.outcome != Pass ==> r == Run(Fail(NullPointer), items, table, changed)
    ensures |r.items| == |items| && forall j :: 0 <= j < |items| && j != position ==> r.items[j] == items[j]
    ensures r.outcome == Pass ==>
      r.items[position].selected && r.table.Keys == table.Keys + {position} && r.table[position] &&
      r.changed == changed + [position]
    ensures forall k :: k in table && k != position ==> r.table[k] == table[k]
  {
    if ItemAt(items, position).Some? then
      Run(Pass, WithSelected(items, position, true), table[position := true], changed + [position])
    else Run(Fail(NullPointer), items, table, changed)
  }

  /** In NONE mode, and in SINGLE mode on the only selected position, nothing changes. */
  lemma {:induction false} ReselectIsNoOp(mode: ChoiceMode, items: seq<Item>, table: map<Int32, bool>, position: Int32)
    requires mode == NoChoice || (mode == SingleChoice && table.Keys == {position})
    ensures SelectItemRun(mode, items, table, position) == Run(Pass, items, table, [])
  {
    if mode == SingleChoice {
      assert position in table;
      assert |table| == |table.Keys| == 1;
      assert table == map[PreviousPosition(table) := table[PreviousPosition(table)]];
    }
  }

  /** In SINGLE mode, selecting a new position in the list, while the previous
      position (if any) is in the list too, resets the previous item's flag,
      flags the new one and leaves the new position the only key. */
  lemma {:induction false} SingleMovesSelection(items: seq<Item>, table: map<Int32, bool>, position: Int32)
    requires 0 <= position < |items|
    requires PreviousPosition(table) != position
    requires PreviousPosition(table) == -1 || 0 <= PreviousPosition(table) < |items|
    ensures var r := SelectItemRun(SingleChoice, items, table, position);
      var previousPosition := PreviousPosition(table);
      r.outcome == Pass && r.table == map[position := true] && r.items[position].selected &&
      (previousPosition != -1 ==> !r.items[previousPosition].selected) &&
      r.changed == (if previousPosition != -1 then [previousPosition as int, position as int] else [position as int])
  {
    var previousPosition := PreviousPosition(table);
    if previousPosition != -1 {
      assert previousPosition in table;
    }
  }

  /** In MULTI mode `selectItem` adds the position and keeps every other entry. */
  lemma {:induction false} MultiAddsPosition(items: seq<Item>, table: map<Int32, bool>, position: Int32)
    requires 0 <= position < |items|
    ensures var r := SelectItemRun(MultiChoice, items, table, position);
      r.outcome == Pass && r.table.Keys == table.Keys + {position} && r.table[position] &&
      forall k :: k in table && k != position ==> r.table[k] == table[k]
  {
  }

  /** From a table of selected entries whose keys all lie in the list and match
      their items' flags, `selectItem` on a position in the list in SINGLE or
      MULTI mode does not throw, flags the item, stores the position as selected,
      and leaves a table of the same kind. */
  lemma {:induction false} SelectKeepsFlagsMatching(mode: ChoiceMode, items: seq<Item>, table: map<Int32, bool>, position: Int32)
    requires mode != NoChoice && 0 <= position < |items| && FlagsMatch(items, table) && OnlySelected(table)
    ensures var r := SelectItemRun(mode, items, table, position);
      r.outcome == Pass && r.items[position].selected && position in r.table && r.table[position] &&
      FlagsMatch(r.items, r.table) && OnlySelected(r.table) && |r.items| == |items|
  {
    if mode == SingleChoice {
      var previousPosition := PreviousPosition(table);
      if previousPosition == position {
        assert position in table && table == map[position := table[position]];
      } else if previousPosition != -1 {
        assert previousPosition in table;
      }
    }
  }

  /** Selecting a position outside the list in SINGLE or MULTI mode throws a
      NullPointerException, unless SINGLE mode finds it equal to the previous
      position and returns quietly. When every key lies in the list, that is -1
      without exactly one entry, the sentinel for "no previous position". A throw
      in SINGLE mode forgets the previous selection exactly when that position
      is -1 or in the list; a previous position outside the list throws first. */
  lemma {:induction false} SelectOutsideThrows(mode: ChoiceMode, items: seq<Item>, table: map<Int32, bool>, position: Int32)
    requires mode != NoChoice && (position < 0 || position >= |items|)
    ensures var r := SelectItemRun(mode, items, table, position);
      (r.outcome == Fail(NullPointer) <==> !(mode == SingleChoice && PreviousPosition(table) == position)) &&
      (FlagsMatch(items, table) ==>
        (r.outcome == Fail(NullPointer) <==> !(mode == SingleChoice && position == -1 && |table| != 1)) &&
        FlagsMatch(r.items, r.table)) &&
      (mode == SingleChoice && r.outcome.Fail? ==>
        (r.table == map[] <==> PreviousPosition(table) == -1 || 0 <= PreviousPosition(table) < |items|))
  {
    if mode == SingleChoice {
      var previousPosition := PreviousPosition(table);
      if previousPosition != -1 {
        assert previousPosition in table;
      }
    }
  }

  class GenericRecyclerAdapter {
    var items: seq<Item>
    var choiceMode: ChoiceMode
    var selectedItems: map<Int32, bool>
    /** The notifications the adapter has sent to its observers. */
    var notifications: seq<Notification>

    constructor ()
      ensures items == [] && choiceMode == NoChoice && selectedItems == map[] && notifications == []
    {
      items := [];
      choiceMode := NoChoice;
      selectedItems := map[];
      notifications := [];
    }

    /** `getItemCount()`. */
    function GetItemCount(): (n: int)
      reads this
      ensures n == |items|
    {
      |items|
    }

    /** `getItem(position)`: null outside the list. */
    function GetItem(position: int): (r: Option<Item>)
      reads this
      ensures r.Some? <==> 0 <= position < |items|
      ensures r.Some? ==> r.value == items[position]
    {
      ItemAt(items, position)
    }

    /** `removeItem(position)`: the selection table is left as it was. */
    method RemoveItem(position: int)
      requires 0 <= position < |items|
      modifies this
      ensures items == RemoveAt(old(items), position)
      ensures selectedItems == old(selectedItems) && choiceMode == old(choiceMode)
      ensures notifications == old(notifications) + [ItemRemoved(position)]
      ensures Describes(ItemRemoved(position), old(items), items)
    {
      items := RemoveAt(items, position);
      notifications := notifications + [ItemRemoved(position)];
    }

    /** `setItems(list)`: replaces the list and clears the selection table. */
    method SetItems(list: seq<Item>)
      modifies this
      ensures items == list && selectedItems == map[] && choiceMode == old(choiceMode)
      ensures notifications == old(notifications) + [DataSetChanged]
    {
      items := list;
      selectedItems := map[];
      notifications := notifications + [DataSetChanged];
    }

    /** `setChoiceMode(mode)`: only the mode changes, and nothing is reported. */
    method SetChoiceMode(mode: ChoiceMode)
      modifies this
      ensures choiceMode == mode
      ensures items == old(items) && selectedItems == old(selectedItems) && notifications == old(notifications)
    {
      choiceMode := mode;
    }

    /** `selectItem(position)`. */
    method SelectItem(position: Int32) returns (r: Outcome)
      modifies this
      ensures var run := SelectItemRun(old(choiceMode), old(items), old(selectedItems), position);
        r == run.outcome && items == run.items && selectedItems == run.table &&
        notifications == old(notifications) + ItemsChanged(run.changed)
      ensures choiceMode == old(choiceMode)
    {
      if choiceMode == NoChoice {
        return Pass;
      }
      ghost var run := SelectItemRun(choiceMode, items, selectedItems, position);
      ghost var changed: seq<int> := [];
      if choiceMode == SingleChoice {
        var previousPosition: Int32 := -1;
        if |selectedItems| == 1 {
          previousPosition := PreviousPosition(selectedItems);
        }
        if previousPosition == position {
          assert run.changed == [];
          return Pass;
        }
        if previousPosition != -1 {
          var prevItem := ItemAt(items, previousPosition);
          if prevItem.None? {
            assert run.changed == [];
            return Fail(NullPointer);
          }
          items := items[previousPosition := prevItem.value.(selected := false)];
          notifications := notifications + [ItemChanged(previousPosition)];
          changed := [previousPosition];
        }
        selectedItems := map[];
        assert run == MarkSelected(items, selectedItems, changed, position);
      } else {
        assert run == MarkSelected(items, selectedItems, [], position);
      }
      assert notifications == old(notifications) + ItemsChanged(changed);
      var item := ItemAt(items, position);
      if item.None? {
        assert run.changed == changed;
        return Fail(NullPointer);
      }
      items := items[position := item.value.(selected := true)];
      selectedItems := selectedItems[position := true];
      ItemsChangedSnoc(changed, position);
      notifications := notifications + [ItemChanged(position)];
      assert run.changed == changed + [position];
      return Pass;
    }
  }
}
