/** DefaultSelectionManager of the `lib` module: a sparse `position -> selected`
    table (a SparseBooleanArray) read under a NONE, SINGLE or MULTI choice mode,
    with a `notifyItemChanged` call for each position whose entry it changes. */
module Selection {
  import opened Common
  import opened SparseKeys

  datatype ChoiceMode = NoChoice | SingleChoice | MultiChoice

  /** `selectedItems.get(position, false)`. */
  function Stored(table: map<Int32, bool>, position: Int32): bool {
    if position in table then table[position] else false
  }

  /** The entry the table holds for `position`, if any. */
  function Entry(table: map<Int32, bool>, position: Int32): Option<bool> {
    if position in table then Some(table[position]) else None
  }

  lemma SingletonKeys(table: map<Int32, bool>, k: Int32)
    requires |table| == 1 && k in table
    ensures table == map[k := table[k]]
  {
    var rest := table.Keys - {k};
    assert |rest| == 0;
    assert table.Keys == {k};
  }

  /** The previously selected position single mode looks up: the one key when
      the table holds exactly one entry, else -1. */
  function PreviousPosition(table: map<Int32, bool>): (p: Int32)
    ensures |table| == 1 ==> p in table && table == map[p := table[p]]
    ensures |table| != 1 ==> p == -1
  {
    if |table| == 1 then
      var k: Int32 := MinOf(table.Keys);
      SingletonKeys(table, k);
      k
    else -1
  }

  /** `isSelected(position)`: never in NONE mode; in SINGLE mode only when the
      table is exactly `position -> true`; in MULTI mode the stored value. */
  function Selected(mode: ChoiceMode, table: map<Int32, bool>, position: Int32): (r: bool)
    ensures mode == NoChoice ==> !r
    ensures mode == SingleChoice ==> (r <==> table == map[position := true])
    ensures mode == MultiChoice ==> r == Stored(table, position)
  {
    match mode
    case NoChoice => false
    case SingleChoice => |table| == 1 && PreviousPosition(table) == position && table[position]
    case MultiChoice => Stored(table, position)
  }

  /** A table after `setSelection`, with the positions passed to
      `notifyItemChanged`, in call order. */
  datatype Step = Step(table: map<Int32, bool>, changed: seq<Int32>)

  /** `setSelection(position, selected)` as written: in SINGLE mode a previous
      position other than `position` (-1 when the table does not hold exactly one
      entry) clears the table; then the entry is written if it differs. */
  function AfterSetSelection(mode: ChoiceMode, table: map<Int32, bool>, position: Int32, selected: bool): (r: Step)
    ensures mode == NoChoice ==> r == Step(table, [])
    ensures mode != NoChoice ==> Stored(r.table, position) == selected
    ensures forall q :: q in r.table && q != position ==> q in table && r.table[q] == table[q]
    ensures mode == MultiChoice ==> forall q :: q != position ==> Entry(r.table, q) == Entry(table, q)
    ensures |r.changed| <= 2 && forall i :: 0 <= i < |r.changed| ==> r.changed[i] == position || r.changed[i] == PreviousPosition(table)
  {
    if mode == NoChoice then Step(table, [])
    else
      var cleared :=
        if mode == SingleChoice && PreviousPosition(table) != position
        then Step(map[], [PreviousPosition(table)])
        else Step(table, []);
      WriteEntry(cleared, position, selected)
  }

  /** The common tail of `setSelection`: write and report the entry only when the
      stored value differs. */
  function WriteEntry(step: Step, position: Int32, selected: bool): (r: Step)
    ensures Stored(r.table, position) == selected
    ensures forall q :: q != position ==> Entry(r.table, q) == Entry(step.table, q)
    ensures r.changed == step.changed + (if Stored(step.table, position) != selected then [position] else [])
  {
    if Stored(step.table, position) != selected
    then Step(step.table[position := selected], step.changed + [position])
    else step
  }

  /** In NONE mode `setSelection` changes and reports nothing. */
  lemma NoChoiceIgnoresSelection(table: map<Int32, bool>, position: Int32, selected: bool)
    ensures AfterSetSelection(NoChoice, table, position, selected) == Step(table, [])
  {
  }

  /** In SINGLE mode the table keeps at most one entry, unless it held several
      (left over from MULTI mode) and the position is -1. */
  lemma SingleKeepsAtMostOne(table: map<Int32, bool>, position: Int32, selected: bool)
    requires |table| <= 1 || position != -1
    ensures |AfterSetSelection(SingleChoice, table, position, selected).table| <= 1
  {
    if |table| == 1 {
      var p := PreviousPosition(table);
      if p == position {
        assert table[position := selected] == map[position := selected];
      }
    }
  }

  /** In SINGLE mode selecting a position leaves it the only selected one. */
  lemma SingleSelectsOnlyPosition(table: map<Int32, bool>, position: Int32)
    requires |table| <= 1 || position != -1
    ensures AfterSetSelection(SingleChoice, table, position, true).table == map[position := true]
    ensures Selected(SingleChoice, AfterSetSelection(SingleChoice, table, position, true).table, position)
    ensures forall q :: q != position ==> !Selected(SingleChoice, AfterSetSelection(SingleChoice, table, position, true).table, q)
  {
    if |table| == 1 && PreviousPosition(table) == position {
      assert table[position := true] == map[position := true];
    }
  }

  /** The case `SingleSelectsOnlyPosition` leaves out: with several entries
      left over from MULTI mode, selecting -1 matches the "no previous position"
      sentinel, so nothing is cleared, -1 is added, and afterwards no position
      counts as selected, -1 included. */
  lemma SingleLeftoverSelectsNothing(table: map<Int32, bool>)
    requires |table| >= 2
    ensures var after := AfterSetSelection(SingleChoice, table, -1, true).table;
      after == table[-1 := true] && forall q :: !Selected(SingleChoice, after, q)
  {
    var after := AfterSetSelection(SingleChoice, table, -1, true).table;
    assert after == table[-1 := true];
    forall q: Int32 ensures !Selected(SingleChoice, after, q) {
      assert table.Keys <= after.Keys;
    }
  }

  /** In SINGLE mode deselecting a position leaves it unselected. */
  lemma SingleDeselects(table: map<Int32, bool>, position: Int32)
    ensures !Selected(SingleChoice, AfterSetSelection(SingleChoice, table, position, false).table, position)
  {
  }

  /** In MULTI mode `setSelection` writes that one position and keeps every other entry. */
  lemma MultiSetsOnlyPosition(table: map<Int32, bool>, position: Int32, selected: bool)
    ensures var after := AfterSetSelection(MultiChoice, table, position, selected).table;
      Selected(MultiChoice, after, position) == selected &&
      forall q :: q != position ==> Entry(after, q) == Entry(table, q)
  {
  }

  /** `toggleSelection` flips `isSelected` in SINGLE and MULTI mode (in SINGLE
      mode under the same condition as `SingleKeepsAtMostOne`). */
  lemma ToggleFlips(mode: ChoiceMode, table: map<Int32, bool>, position: Int32)
    requires mode != NoChoice
    requires mode == SingleChoice ==> |table| <= 1 || position != -1
    ensures var was := Selected(mode, table, position);
      Selected(mode, AfterSetSelection(mode, table, position, !was).table, position) == !was
  {
    if mode == SingleChoice {
      if Selected(mode, table, position) {
        SingleDeselects(table, position);
      } else {
        SingleSelectsOnlyPosition(table, position);
      }
    } else {
      MultiSetsOnlyPosition(table, position, !Selected(mode, table, position));
    }
  }

  /** Every reported position had its entry changed, unless single mode starts
      from a table that does not hold exactly one entry: from an empty table it
      also reports -1, from several entries left by MULTI mode it may report
      positions whose entry is unchanged. Conversely, unless single mode starts
      from several entries, every changed entry is reported. */
  lemma ReportsChangedEntries(mode: ChoiceMode, table: map<Int32, bool>, position: Int32, selected: bool)
    ensures mode != SingleChoice || |table| == 1 ==>
      var step := AfterSetSelection(mode, table, position, selected);
      forall i :: 0 <= i < |step.changed| ==> Entry(table, step.changed[i]) != Entry(step.table, step.changed[i])
    ensures mode == SingleChoice && |table| == 0 ==>
      var step := AfterSetSelection(mode, table, position, selected);
      forall i :: 0 <= i < |step.changed| && step.changed[i] != -1 ==>
        Entry(table, step.changed[i]) != Entry(step.table, step.changed[i])
    ensures mode != SingleChoice || |table| <= 1 ==>
      var step := AfterSetSelection(mode, table, position, selected);
      forall q :: Entry(table, q) != Entry(step.table, q) ==> q in step.changed
  {
    var step := AfterSetSelection(mode, table, position, selected);
    if mode == SingleChoice && PreviousPosition(table) != position {
      var p := PreviousPosition(table);
      var cleared := Step(map[], [p]);
      assert step == WriteEntry(cleared, position, selected);
      if |table| == 1 {
        assert Entry(table, p) == Some(table[p]);
      } else {
        assert p == -1;
      }
      if Stored(cleared.table, position) != selected {
        assert step.changed == [p, position];
        assert Entry(step.table, position) == Some(selected);
        if |table| <= 1 {
          assert Entry(table, position) != Some(selected);
        }
      }
    }
  }

  /** Every position whose `isSelected` answer changes is reported, whatever
      the table held before. */
  lemma ReportsSelectionChanges(mode: ChoiceMode, table: map<Int32, bool>, position: Int32, selected: bool)
    ensures var step := AfterSetSelection(mode, table, position, selected);
      forall q :: Selected(mode, table, q) != Selected(mode, step.table, q) ==> q in step.changed
  {
    var step := AfterSetSelection(mode, table, position, selected);
    forall q: Int32 | Selected(mode, table, q) != Selected(mode, step.table, q)
      ensures q in step.changed
    {
      if mode == MultiChoice {
        assert q == position;
      } else if mode == SingleChoice {
        var p := PreviousPosition(table);
        if Selected(mode, table, q) {
          assert table == map[q := true];
          assert p == q;
        } else if p != position {
          assert step.table == WriteEntry(Step(map[], [p]), position, selected).table;
        }
      }
    }
  }

  class DefaultSelectionManager {
    var choiceMode: ChoiceMode
    var selectedItems: map<Int32, bool>
    /** Whether an adapter is set; without one nothing is notified. */
    var adapterAttached: bool
    /** The notifications sent to the adapter so far. */
    var notifications: seq<Notification>

    constructor ()
      ensures choiceMode == NoChoice && selectedItems == map[]
      ensures !adapterAttached && notifications == []
    {
      choiceMode := NoChoice;
      selectedItems := map[];
      adapterAttached := false;
      notifications := [];
    }

    /** `clear()`: empties the table and reports a data set change. */
    method Clear()
      modifies this
      ensures selectedItems == map[]
      ensures choiceMode == old(choiceMode) && adapterAttached == old(adapterAttached)
      ensures notifications == old(notifications) + if adapterAttached then [DataSetChanged] else []
    {
      selectedItems := map[];
      if adapterAttached {
        notifications := notifications + [DataSetChanged];
      }
    }

    /** `setChoiceMode(mode)`: the stored entries survive a mode change. */
    method SetChoiceMode(mode: ChoiceMode)
      modifies this
      ensures choiceMode == mode
      ensures selectedItems == old(selectedItems) && adapterAttached == old(adapterAttached)
      ensures notifications == old(notifications) + if adapterAttached then [DataSetChanged] else []
    {
      choiceMode := mode;
      if adapterAttached {
        notifications := notifications + [DataSetChanged];
      }
    }

    /** `setSelection(position, selected)`. */
    method SetSelection(position: Int32, selected: bool)
      modifies this
      ensures choiceMode == old(choiceMode) && adapterAttached == old(adapterAttached)
      ensures selectedItems == AfterSetSelection(choiceMode, old(selectedItems), position, selected).table
      ensures notifications == old(notifications) +
        if adapterAttached then ItemsChanged(AfterSetSelection(choiceMode, old(selectedItems), position, selected).changed) else []
    {
      if choiceMode == NoChoice {
        return;
      }
      ghost var cleared :=
        if choiceMode == SingleChoice && PreviousPosition(selectedItems) != position
        then Step(map[], [PreviousPosition(selectedItems)])
        else Step(selectedItems, []);
      assert AfterSetSelection(choiceMode, selectedItems, position, selected) == WriteEntry(cleared, position, selected);
      if choiceMode == SingleChoice {
        var oldPosition: Int32 := -1;
        if |selectedItems| == 1 {
          oldPosition := PreviousPosition(selectedItems);
        }
        if oldPosition != position {
          selectedItems := map[];
          if adapterAttached {
            notifications := notifications + [ItemChanged(oldPosition)];
          }
        }
      }
      assert selectedItems == cleared.table;
      assert notifications == old(notifications) + if adapterAttached then ItemsChanged(cleared.changed) else [];
      var oldSelected := if position in selectedItems then selectedItems[position] else false;
      if oldSelected != selected {
        selectedItems := selectedItems[position := selected];
        if adapterAttached {
          ItemsChangedSnoc(cleared.changed, position);
          notifications := notifications + [ItemChanged(position)];
        }
      }
    }

    /** `isSelected(position)`. */
    function IsSelected(position: Int32): (r: bool)
      reads this
      ensures choiceMode == NoChoice ==> !r
      ensures choiceMode == SingleChoice ==> (r <==> selectedItems == map[position := true])
      ensures choiceMode == MultiChoice ==> r == Stored(selectedItems, position)
    {
      Selected(choiceMode, selectedItems, position)
    }

    /** `toggleSelection(position)`. */
    method ToggleSelection(position: Int32)
      modifies this
      ensures choiceMode == old(choiceMode) && adapterAttached == old(adapterAttached)
      ensures var step := AfterSetSelection(choiceMode, old(selectedItems), position, !Selected(choiceMode, old(selectedItems), position));
        selectedItems == step.table &&
        notifications == old(notifications) + if adapterAttached then ItemsChanged(step.changed) else []
    {
      SetSelection(position, !IsSelected(position));
    }

    /** `setAdapter(adapter)`, reduced to whether an adapter is set. */
    method SetAdapter(attached: bool)
      modifies this
      ensures adapterAttached == attached
      ensures choiceMode == old(choiceMode) && selectedItems == old(selectedItems) && notifications == old(notifications)
    {
      adapterAttached := attached;
    }
  }
}
