/** DefaultItemProvider of the `lib` module, generic in its item type: the same
    list store, except that `addItems` appends the argument to itself. */
module LibItems {
  import opened Common
  import opened Lists

  class DefaultItemProvider<T> {
    var items: seq<T>
    /** Whether an adapter is set; without one nothing is notified. */
    var adapterAttached: bool
    /** The notifications sent to the adapter so far. */
    var notifications: seq<Notification>

    constructor ()
      ensures items == [] && !adapterAttached && notifications == []
    {
      items := [];
      adapterAttached := false;
      notifications := [];
    }

    /** `getItemCount()`. */
    function GetItemCount(): (n: int)
      reads this
      ensures n == |items|
    {
      |items|
    }

    /** `getItem(position)`. */
    function GetItem(position: int): (r: T)
      requires 0 <= position < |items|
      reads this
      ensures r == items[position]
    {
      items[position]
    }

    /** `addItem(item)`: appends, and reports an insertion at the new last index. */
    method AddItem(item: T)
      modifies this
      ensures items == old(items) + [item] && adapterAttached == old(adapterAttached)
      ensures notifications == old(notifications) + if adapterAttached then [ItemInserted(|items| - 1)] else []
      ensures Describes(ItemInserted(|items| - 1), old(items), items)
    {
      InsertDescribed(items, |items|, item);
      assert InsertAt(items, |items|, item) == items + [item];
      items := items + [item];
      if adapterAttached {
        notifications := notifications + [ItemInserted(GetItemCount() - 1)];
      }
    }

    /** `addItems(items)` as written: the parameter hides the field, so the
        argument list is appended to itself (returned here as `callerList`), the
        stored list stays as it was, and an insertion of `|list|` items at the
        old count is still reported. */
    method AddItems(list: seq<T>) returns (callerList: seq<T>)
      modifies this
      ensures callerList == list + list
      ensures items == old(items) && adapterAttached == old(adapterAttached)
      ensures notifications == old(notifications) + if adapterAttached then [ItemRangeInserted(|items|, |list|)] else []
      ensures adapterAttached && |list| > 0 ==> !Describes(notifications[|old(notifications)|], old(items), items)
    {
      var size := GetItemCount();
      var sizeToInsert := |list|;
      callerList := list + list;
      if |list| > 0 {
        AddItemsMisreports(items, list);
      }
      if adapterAttached {
        notifications := notifications + [ItemRangeInserted(size, sizeToInsert)];
      }
    }

    /** `addItems` as evidently intended, the way the `library` store does it:
        the argument is appended to the stored list, as the report says. */
    method AppendItems(list: seq<T>)
      modifies this
      ensures items == old(items) + list && adapterAttached == old(adapterAttached)
      ensures notifications == old(notifications) + if adapterAttached then [ItemRangeInserted(|old(items)|, |list|)] else []
      ensures Describes(ItemRangeInserted(|old(items)|, |list|), old(items), items)
    {
      var size := GetItemCount();
      InsertAllDescribed(items, size, list);
      assert InsertAllAt(items, size, list) == items + list;
      items := items + list;
      if adapterAttached {
        notifications := notifications + [ItemRangeInserted(size, |list|)];
      }
    }

    /** `setItem(position, item)`: replaces that slot only. */
    method SetItem(position: int, item: T)
      requires 0 <= position < |items|
      modifies this
      ensures items == old(items)[position := item] && adapterAttached == old(adapterAttached)
      ensures notifications == old(notifications) + if adapterAttached then [ItemChanged(position)] else []
      ensures Describes(ItemChanged(position), old(items), items)
    {
      items := items[position := item];
      if adapterAttached {
        notifications := notifications + [ItemChanged(position)];
      }
    }

    /** `setItems(list)`: the argument becomes the list, and a data set change is reported. */
    method SetItems(list: seq<T>)
      modifies this
      ensures items == list && adapterAttached == old(adapterAttached)
      ensures notifications == old(notifications) + if adapterAttached then [DataSetChanged] else []
    {
      items := list;
      if adapterAttached {
        notifications := notifications + [DataSetChanged];
      }
    }

    /** `moveItem(fromPosition, toPosition)`: the list is permuted and the moved
        item lands at `toPosition`. */
    method MoveItem(fromPosition: int, toPosition: int)
      requires 0 <= fromPosition < |items| && 0 <= toPosition < |items|
      modifies this
      ensures items == Move(old(items), fromPosition, toPosition) && adapterAttached == old(adapterAttached)
      ensures |items| == |old(items)| && items[toPosition] == old(items)[fromPosition]
      ensures multiset(items) == multiset(old(items))
      ensures notifications == old(notifications) + if adapterAttached then [ItemMoved(fromPosition, toPosition)] else []
      ensures Describes(ItemMoved(fromPosition, toPosition), old(items), items)
    {
      MovePermutes(items, fromPosition, toPosition);
      var moved := items[fromPosition];
      items := RemoveAt(items, fromPosition);
      items := InsertAt(items, toPosition, moved);
      if adapterAttached {
        notifications := notifications + [ItemMoved(fromPosition, toPosition)];
      }
    }

    /** `removeItem(position)`. */
    method RemoveItem(position: int)
      requires 0 <= position < |items|
      modifies this
      ensures items == RemoveAt(old(items), position) && adapterAttached == old(adapterAttached)
      ensures notifications == old(notifications) + if adapterAttached then [ItemRemoved(position)] else []
      ensures Describes(ItemRemoved(position), old(items), items)
    {
      items := RemoveAt(items, position);
      if adapterAttached {
        notifications := notifications + [ItemRemoved(position)];
      }
    }

    /** `removeItems()`: empties the list and reports the whole old range removed. */
    method RemoveItems()
      modifies this
      ensures items == [] && adapterAttached == old(adapterAttached)
      ensures notifications == old(notifications) + if adapterAttached then [ItemRangeRemoved(0, |old(items)|)] else []
      ensures Describes(ItemRangeRemoved(0, |old(items)|), old(items), items)
    {
      var size := GetItemCount();
      items := [];
      if adapterAttached {
        notifications := notifications + [ItemRangeRemoved(0, size)];
      }
    }

    /** `setAdapter(adapter)`, reduced to whether an adapter is set. */
    method SetAdapter(attached: bool)
      modifies this
      ensures adapterAttached == attached
      ensures items == old(items) && notifications == old(notifications)
    {
      adapterAttached := attached;
    }
  }

  /** The range `addItems` reports for a non-empty argument does not describe
      what it did to the stored list, which it left as it was. */
  lemma AddItemsMisreports<T>(items: seq<T>, list: seq<T>)
    requires |list| > 0
    ensures !Describes(ItemRangeInserted(|items|, |list|), items, items)
  {
  }
}
