/** What the two adapters share: getting an item by position (null outside the
    list), an item's `selected` flag, and the end state of a selection call. */
module AdapterItems {
  import opened Common

  /** `getItem(position)`: the item, or null outside `[0, size)`. */
  function ItemAt(items: seq<Item>, position: int): (r: Option<Item>)
    ensures r.Some? <==> 0 <= position < |items|
    ensures r.Some? ==> r.value == items[position]
  {
    if 0 <= position < |items| then Some(items[position]) else None
  }

  /** `getItem(position).setSelected(selected)` on an item in the list: only that
      item's flag changes. */
  function WithSelected(items: seq<Item>, position: int, selected: bool): (r: seq<Item>)
    requires 0 <= position < |items|
    ensures |r| == |items| && r[position].selected == selected
    ensures r[position].id == items[position].id && r[position].itemType == items[position].itemType
    ensures forall j :: 0 <= j < |r| && j != position ==> r[j] == items[j]
  {
    items[position := items[position].(selected := selected)]
  }

  /** Every key of the selection table is a position in the list whose item's
      flag holds the stored value. */
  ghost predicate FlagsMatch(items: seq<Item>, table: map<Int32, bool>) {
    forall k :: k in table ==> 0 <= k < |items| && items[k].selected == table[k]
  }

  /** How a selection call ends, what the list and the table hold afterwards
      (partial updates included when it throws), and the positions it passed to
      `notifyItemChanged`, in call order. */
  datatype Run = Run(outcome: Outcome, items: seq<Item>, table: map<Int32, bool>, changed: seq<int>)
}
