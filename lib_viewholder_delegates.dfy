/** ViewHolderDelegateManager of the `lib` module: the same registry as
    RecyclerDelegateManager without explicit null checks. A null delegate still
    ends in NullPointerException, thrown by the first call made on it, and the
    holder a delegate creates is passed on without a null check. Apart from
    that, the source duplicates RecyclerDelegateManager, and this module mirrors
    RecyclerDelegates in the same way. */
module LibViewHolderDelegates {
  import opened Common
  import opened SparseKeys
  import opened TypedDelegates

  class ViewHolderDelegateManager {
    var fallbackDelegate: TypedDelegate?
    var delegates: map<Int32, TypedDelegate>

    ghost predicate Valid()
      reads this
    {
      KeyedByOwnType(delegates) && NoFallbackConflict(delegates, fallbackDelegate)
    }

    constructor ()
      ensures Valid() && delegates == map[] && fallbackDelegate == null
    {
      fallbackDelegate := null;
      delegates := map[];
    }

    /** `addDelegate(delegate)`: registers without replacing. */
    method AddDelegate(delegate: TypedDelegate?) returns (r: Outcome)
      requires Valid()
      modifies this
      ensures Valid() && fallbackDelegate == old(fallbackDelegate)
      ensures r == if delegate == null then Fail(NullPointer)
                   else if fallbackDelegate != null && fallbackDelegate.viewType == delegate.viewType then Fail(IllegalArgument)
                   else if delegate.viewType in old(delegates) then Fail(IllegalArgument)
                   else Pass
      ensures r.Pass? ==> delegates == old(delegates)[delegate.viewType := delegate]
      ensures r.Fail? ==> delegates == old(delegates)
    {
      r := AddDelegateAllowing(delegate, false);
    }

    /** `addDelegate(delegate, allowReplacingDelegate)`: the fallback conflict is
        checked before, and regardless of, the replacement flag. */
    method AddDelegateAllowing(delegate: TypedDelegate?, allowReplacingDelegate: bool) returns (r: Outcome)
      requires Valid()
      modifies this
      ensures Valid() && fallbackDelegate == old(fallbackDelegate)
      ensures r == if delegate == null then Fail(NullPointer)
                   else if fallbackDelegate != null && fallbackDelegate.viewType == delegate.viewType then Fail(IllegalArgument)
                   else if !allowReplacingDelegate && delegate.viewType in old(delegates) then Fail(IllegalArgument)
                   else Pass
      ensures r.Pass? ==> delegates == old(delegates)[delegate.viewType := delegate]
      ensures r.Fail? ==> delegates == old(delegates)
    {
      if delegate == null {
        return Fail(NullPointer);
      }
      var viewType := delegate.viewType;
      if fallbackDelegate != null && fallbackDelegate.viewType == viewType {
        return Fail(IllegalArgument);
      }
      if !allowReplacingDelegate && viewType in delegates {
        return Fail(IllegalArgument);
      }
      delegates := delegates[viewType := delegate];
      r := Pass;
    }

    /** `removeDelegate(delegate)`: clears the delegate's own view type only when
        that very object is stored there, so exactly the entries holding it go. */
    method RemoveDelegate(delegate: TypedDelegate?) returns (r: Outcome)
      requires Valid()
      modifies this
      ensures Valid() && fallbackDelegate == old(fallbackDelegate)
      ensures r == if delegate == null then Fail(NullPointer) else Pass
      ensures delegate == null ==> delegates == old(delegates)
      ensures delegate != null ==>
        delegates == map k | k in old(delegates) && old(delegates)[k] != delegate :: old(delegates)[k]
    {
      if delegate == null {
        return Fail(NullPointer);
      }
      if delegate.viewType in delegates && delegates[delegate.viewType] == delegate {
        delegates := delegates - {delegate.viewType};
      }
      r := Pass;
    }

    /** `removeDelegate(viewType)`. */
    method RemoveDelegateAt(viewType: Int32)
      requires Valid()
      modifies this
      ensures Valid() && fallbackDelegate == old(fallbackDelegate)
      ensures delegates == old(delegates) - {viewType}
    {
      delegates := delegates - {viewType};
    }

    /** `getItemViewType(item)`: scans the delegates in ascending key order. */
    method GetItemViewType(item: Item) returns (r: Result<Int32>)
      ensures r == ItemViewType(delegates, fallbackDelegate, item)
    {
      var first := ScanFirstAccepting(delegates, item);
      if first.Some? {
        return Ok(delegates[first.value].viewType);
      }
      if fallbackDelegate != null {
        return Ok(fallbackDelegate.viewType);
      }
      return Err(IllegalArgument);
    }

    /** `onCreateViewHolder(parent, viewType)`; `create` stands for what each
        delegate's own `onCreateViewHolder` returns, None for null, which is
        passed on as it is. */
    function OnCreateViewHolder(viewType: Int32, create: TypedDelegate -> Option<ViewHolder>): (r: Result<Option<ViewHolder>>)
      reads this
      ensures viewType in delegates ==> r == Ok(create(delegates[viewType]))
      ensures viewType !in delegates && fallbackDelegate != null ==> r == Ok(create(fallbackDelegate))
      ensures viewType !in delegates && fallbackDelegate == null ==> r == Err(NullPointer)
    {
      match DelegateFor(delegates, fallbackDelegate, viewType)
      case Err(e) => Err(e)
      case Ok(delegate) => Ok(create(delegate))
    }

    /** `onBindViewHolder(viewHolder, item)`: the delegate that binds the holder,
        chosen by the view type the holder was created for. */
    function OnBindViewHolder(viewHolder: ViewHolder): (r: Result<TypedDelegate>)
      reads this
      ensures viewHolder.itemViewType in delegates ==> r == Ok(delegates[viewHolder.itemViewType])
      ensures viewHolder.itemViewType !in delegates ==>
        r == if fallbackDelegate != null then Ok(fallbackDelegate as TypedDelegate) else Err(NullPointer)
    {
      DelegateFor(delegates, fallbackDelegate, viewHolder.itemViewType)
    }

    /** `setFallbackDelegate(fallbackDelegate)`: a new fallback is refused when a
        registered delegate has its view type; null is always accepted. */
    method SetFallbackDelegate(fallback: TypedDelegate?) returns (r: Outcome)
      requires Valid()
      modifies this
      ensures Valid() && delegates == old(delegates)
      ensures r == if fallback != null && exists k :: k in old(delegates) && old(delegates)[k].viewType == fallback.viewType
                   then Fail(IllegalArgument) else Pass
      ensures fallbackDelegate == if r.Pass? then fallback else old(fallbackDelegate)
    {
      if fallback != null {
        var keys: seq<Int32> := SortedKeys(delegates.Keys);
        var fallbackViewType := fallback.viewType;
        var i := 0;
        while i < |keys|
          invariant 0 <= i <= |keys|
          invariant forall j :: 0 <= j < i ==> keys[j] in delegates && delegates[keys[j]].viewType != fallbackViewType
          invariant unchanged(this)
        {
          assert keys[i] in delegates;
          var delegate := delegates[keys[i]];
          if delegate.viewType == fallbackViewType {
            return Fail(IllegalArgument);
          }
          i := i + 1;
        }
        assert forall k :: k in delegates ==> delegates[k].viewType != fallbackViewType by {
          forall k | k in delegates ensures delegates[k].viewType != fallbackViewType {
            assert k in keys;
          }
        }
      }
      fallbackDelegate := fallback;
      r := Pass;
    }
  }
}
