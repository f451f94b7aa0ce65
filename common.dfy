/** Values shared by every component of the library: the range of a Java `int`,
    the outcome of a call that may throw, adapter items, view holders and the
    notifications a RecyclerView adapter receives. */
module Common {
  const INT_MIN: int := -0x8000_0000
  const INT_MAX: int := 0x7fff_ffff

  /** A Java `int`. */
  type Int32 = x: int | INT_MIN <= x <= INT_MAX

  datatype Option<T> = None | Some(value: T)

  /** The Java exceptions the components throw on misuse. */
  datatype Exception = IllegalArgument | NullPointer

  /** How a `void` Java method ends: it returns, or it throws. */
  datatype Outcome = Pass | Fail(error: Exception)

  /** How a value-returning Java method ends. */
  datatype Result<T> = Ok(value: T) | Err(error: Exception)

  /** An adapter item: its `id()`, its `type()` and its `selected` flag. */
  datatype Item = Item(id: Int32, itemType: Int32, selected: bool)

  /** A view holder created by a delegate; RecyclerView remembers the view type
      it was created for, which `getItemViewType()` of the holder returns. */
  datatype ViewHolder = ViewHolder(id: nat, itemViewType: Int32)

  /** The `notify...` calls a component makes on its RecyclerView adapter.
      `DiffDispatched` stands for the updates a computed DiffUtil result dispatches. */
  datatype Notification =
    | DataSetChanged
    | ItemChanged(position: int)
    | ItemInserted(position: int)
    | ItemRangeInserted(positionStart: int, itemCount: int)
    | ItemMoved(fromPosition: int, toPosition: int)
    | ItemRemoved(position: int)
    | ItemRangeRemoved(positionStart: int, itemCount: int)
    | DiffDispatched

  /** One `notifyItemChanged` per reported position. */
  function ItemsChanged(positions: seq<int>): (r: seq<Notification>)
    ensures |r| == |positions| && forall i :: 0 <= i < |r| ==> r[i] == ItemChanged(positions[i])
  {
    if positions == [] then [] else [ItemChanged(positions[0])] + ItemsChanged(positions[1..])
  }

  /** Reporting one more position appends one notification. */
  lemma ItemsChangedSnoc(positions: seq<int>, p: int)
    ensures ItemsChanged(positions + [p]) == ItemsChanged(positions) + [ItemChanged(p)]
  {
    assert |ItemsChanged(positions + [p])| == |ItemsChanged(positions) + [ItemChanged(p)]|;
  }
}
