/** DefaultItemProvider of the `library` module: an item list changed in place,
    each change announced to the attached adapter. */
module LibraryItems {
  import opened Common
  import opened Lists

  class DefaultItemProvider {
    var items: seq<Item>
    /** Whether an adapter is set; without one nothing is notified. */
    var adapterAttached: bool
    /** The notifications sent to the adapter so far. */
    var notifications: seq<Notification>

    constructor ()
      ensures items == [] && !adapterAttached && notifications == []
    {
      items := [];
      adapterAttached := false;
      notifications := [];
    }

    /** `getItemCount()`. */
    function GetItemCount(): (n: int)
      reads this
      ensures n == |items|
    {
      |items|
    }

    /** `getItemId(position)`. */
    function GetItemId(position: int): (id: Int32)
      requires 0 <= position < |items|
      reads this
      ensures id == GetItem(position).id
    {
      items[position].id
    }

    /** `getItem(position)`. */
    function GetItem(position: int): (r: Item)
      requires 0 <= position < |items|
      reads this
      ensures r == items[position]
    {
      items[position]
    }

    /** `addItem(item)`: appends, and reports an insertion at the new last index. */
    method AddItem(item: Item)
      modifies this
      ensures items == old(items) + [item] && adapterAttached == old(adapterAttached)
      ensures notifications == old(notifications) + if adapterAttached then [ItemInserted(|items| - 1)] else []
      ensures Describes(ItemInserted(|items| - 1), old(items), items)
    {
      InsertDescribed(items, |items|, item);
      assert InsertAt(items, |items|, item) == items + [item];
      items := items + [item];
      if adapterAttached {
        notifications := notifications + [ItemInserted(GetItemCount() - 1)];
      }
    }

    /** `addItem(position, item)`. */
    method AddItemAt(position: int, item: Item)
      requires 0 <= position <= |items|
      modifies this
      ensures items == InsertAt(old(items), position, item) && adapterAttached == old(adapterAttached)
      ensures notifications == old(notifications) + if adapterAttached then [ItemInserted(position)] else []
      ensures Describes(ItemInserted(position), old(items), items)
    {
      InsertDescribed(items, position, item);
      items := InsertAt(items, position, item);
      if adapterAttached {
        notifications := notifications + [ItemInserted(position)];
      }
    }

    /** `addItems(list)`: appends in order, and reports the inserted range. */
    method AddItems(list: seq<Item>)
      modifies this
      ensures items == old(items) + list && adapterAttached == old(adapterAttached)
      ensures notifications == old(notifications) + if adapterAttached then [ItemRangeInserted(|old(items)|, |list|)] else []
      ensures Describes(ItemRangeInserted(|old(items)|, |list|), old(items), items)
    {
      var size := GetItemCount();
      InsertAllDescribed(items, size, list);
      assert InsertAllAt(items, size, list) == items + list;
      items := items + list;
      if adapterAttached {
        notifications := notifications + [ItemRangeInserted(size, |list|)];
      }
    }

    /** `addItems(position, list)`. */
    method AddItemsAt(position: int, list: seq<Item>)
      requires 0 <= position <= |items|
      modifies this
      ensures items == InsertAllAt(old(items), position, list) && adapterAttached == old(adapterAttached)
      ensures notifications == old(notifications) + if adapterAttached then [ItemRangeInserted(position, |list|)] else []
      ensures Describes(ItemRangeInserted(position, |list|), old(items), items)
    {
      InsertAllDescribed(items, position, list);
      items := InsertAllAt(items, position, list);
      if adapterAttached {
        notifications := notifications + [ItemRangeInserted(position, |list|)];
      }
    }

    /** `setItem(position, item)`: replaces that slot only. */
    method SetItem(position: int, item: Item)
      requires 0 <= position < |items|
      modifies this
      ensures items == old(items)[position := item] && adapterAttached == old(adapterAttached)
      ensures notifications == old(notifications) + if adapterAttached then [ItemChanged(position)] else []
      ensures Describes(ItemChanged(position), old(items), items)
    {
      items := items[position := item];
      if adapterAttached {
        notifications := notifications + [ItemChanged(position)];
      }
    }

    /** `setItems(list)`: the adapter receives the updates of a computed diff
        between the old and the new list, then the argument becomes the list. */
    method SetItems(list: seq<Item>)
      modifies this
      ensures items == list && adapterAttached == old(adapterAttached)
      ensures notifications == old(notifications) + if adapterAttached then [DiffDispatched] else []
    {
      if adapterAttached {
        notifications := notifications + [DiffDispatched];
      }
      items := list;
    }

    /** `moveItem(fromPosition, toPosition)`: the list is permuted and the moved
        item lands at `toPosition`. */
    method MoveItem(fromPosition: int, toPosition: int)
      requires 0 <= fromPosition < |items| && 0 <= toPosition < |items|
      modifies this
      ensures items == Move(old(items), fromPosition, toPosition) && adapterAttached == old(adapterAttached)
      ensures |items| == |old(items)| && items[toPosition] == old(items)[fromPosition]
      ensures multiset(items) == multiset(old(items))
      ensures notifications == old(notifications) + if adapterAttached then [ItemMoved(fromPosition, toPosition)] else []
      ensures Describes(ItemMoved(fromPosition, toPosition), old(items), items)
    {
      MovePermutes(items, fromPosition, toPosition);
      var moved := items[fromPosition];
      items := RemoveAt(items, fromPosition);
      items := InsertAt(items, toPosition, moved);
      if adapterAttached {
        notifications := notifications + [ItemMoved(fromPosition, toPosition)];
      }
    }

    /** `removeItem(position)`. */
    method RemoveItem(position: int)
      requires 0 <= position < |items|
      modifies this
      ensures items == RemoveAt(old(items), position) && adapterAttached == old(adapterAttached)
      ensures notifications == old(notifications) + if adapterAttached then [ItemRemoved(position)] else []
      ensures Describes(ItemRemoved(position), old(items), items)
    {
      items := RemoveAt(items, position);
      if adapterAttached {
        notifications := notifications + [ItemRemoved(position)];
      }
    }

    /** `removeItems()`: empties the list and reports the whole old range removed. */
    method RemoveItems()
      modifies this
      ensures items == [] && adapterAttached == old(adapterAttached)
      ensures notifications == old(notifications) + if adapterAttached then [ItemRangeRemoved(0, |old(items)|)] else []
      ensures Describes(ItemRangeRemoved(0, |old(items)|), old(items), items)
    {
      var size := GetItemCount();
      items := [];
      if adapterAttached {
        notifications := notifications + [ItemRangeRemoved(0, size)];
      }
    }

    /** `setAdapter(adapter)`, reduced to whether an adapter is set. */
    method SetAdapter(attached: bool)
      modifies this
      ensures adapterAttached == attached
      ensures items == old(items) && notifications == old(notifications)
    {
      adapterAttached := attached;
    }
  }
}
