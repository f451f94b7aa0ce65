/** The delegate registry of the `library` module (its ViewHolderDelegateManager):
    a sparse table from view type to delegate plus an optional fallback delegate.
    View types are chosen by the caller or assigned by the registry itself, and
    Integer.MAX_VALUE - 1 is reserved for the fallback. */
module LibraryDelegates {
  import opened Common
  import opened SparseKeys

  const FALLBACK_DELEGATE_VIEW_TYPE: Int32 := INT_MAX - 1

  /** A delegate: an object identity with its `isForViewType` predicate.
      Creating and binding views is the delegate's own business. */
  class ViewHolderDelegate {
    const isForViewType: Item -> bool

    constructor (isForViewType: Item -> bool)
      ensures this.isForViewType == isForViewType
    {
      this.isForViewType := isForViewType;
    }
  }

  /** `viewType` is registered and its delegate accepts `item`. */
  predicate Accepts(delegates: map<Int32, ViewHolderDelegate>, viewType: Int32, item: Item) {
    viewType in delegates && delegates[viewType].isForViewType(item)
  }

  /** The answer of `getItemViewType(item)`: the smallest registered view type
      whose delegate accepts the item, else the reserved type when a fallback is
      set, else IllegalArgumentException. */
  function ItemViewType(delegates: map<Int32, ViewHolderDelegate>, fallback: ViewHolderDelegate?, item: Item): (r: Result<Int32>)
    ensures (exists k :: Accepts(delegates, k, item)) ==>
      r.Ok? && Accepts(delegates, r.value, item) &&
      forall k :: Accepts(delegates, k, item) ==> r.value <= k
    ensures (forall k :: !Accepts(delegates, k, item)) ==>
      r == if fallback != null then Ok(FALLBACK_DELEGATE_VIEW_TYPE) else Err(IllegalArgument)
  {
    var accepting := set k | k in delegates && delegates[k].isForViewType(item);
    assert forall k :: k in accepting <==> Accepts(delegates, k, item);
    if accepting != {} then
      var first: Int32 := MinOf(accepting);
      Ok(first)
    else
      assert forall k :: !Accepts(delegates, k, item);
      if fallback != null then Ok(FALLBACK_DELEGATE_VIEW_TYPE) else Err(IllegalArgument)
  }

  /** A scan in key order that stops at the first accepting key finds what
      `ItemViewType` answers. */
  lemma ScanStopsAtFirst(delegates: map<Int32, ViewHolderDelegate>, fallback: ViewHolderDelegate?, keys: seq<Int32>, i: int, item: Item)
    requires Ascending(keys) && (forall k :: k in delegates ==> k in keys) && 0 <= i < |keys|
    requires forall j :: 0 <= j < i ==> keys[j] in delegates && !delegates[keys[j]].isForViewType(item)
    requires keys[i] in delegates && delegates[keys[i]].isForViewType(item)
    ensures ItemViewType(delegates, fallback, item) == Ok(keys[i])
  {
    var viewType: Int32 := keys[i];
    assert Accepts(delegates, viewType, item);
    forall k: Int32 | Accepts(delegates, k, item) ensures viewType <= k {
      if k < viewType { SmallerKeyEarlier(keys, i, k); }
    }
  }

  /** A scan in key order that finds no accepting key means there is none. */
  lemma ScanFindsNone(delegates: map<Int32, ViewHolderDelegate>, keys: seq<Int32>, item: Item)
    requires forall k :: k in delegates ==> k in keys
    requires forall j :: 0 <= j < |keys| ==> keys[j] in delegates && !delegates[keys[j]].isForViewType(item)
    ensures forall k :: !Accepts(delegates, k, item)
  {
    forall k | k in delegates ensures !Accepts(delegates, k, item) {
      assert k in keys;
    }
  }

  /** The delegate that creation and binding use for `viewType`: the registered
      one, else the fallback, else NullPointerException. */
  function DelegateFor(delegates: map<Int32, ViewHolderDelegate>, fallback: ViewHolderDelegate?, viewType: Int32): Result<ViewHolderDelegate> {
    if viewType in delegates then Ok(delegates[viewType])
    else if fallback != null then Ok(fallback as ViewHolderDelegate)
    else Err(NullPointer)
  }

  /** Dispatching on the view type `getItemViewType` returned reaches the delegate
      that accepted the item, or the fallback when none did; this relies on the
      reserved type never being registered. */
  lemma DispatchAfterItemViewType(delegates: map<Int32, ViewHolderDelegate>, fallback: ViewHolderDelegate?, item: Item)
    requires FALLBACK_DELEGATE_VIEW_TYPE !in delegates
    requires ItemViewType(delegates, fallback, item).Ok?
    ensures var t := ItemViewType(delegates, fallback, item).value;
      var d := DelegateFor(delegates, fallback, t);
      d.Ok? &&
      (t != FALLBACK_DELEGATE_VIEW_TYPE ==> d.value == delegates[t] && d.value.isForViewType(item)) &&
      (t == FALLBACK_DELEGATE_VIEW_TYPE ==> d.value == fallback && forall k :: !Accepts(delegates, k, item))
  {
    var t := ItemViewType(delegates, fallback, item).value;
    if exists k :: Accepts(delegates, k, item) {
      assert Accepts(delegates, t, item);
    }
  }

  /** `delegates.indexOfValue(delegate)`, given as the key at that index: the
      smallest view type registered to that very object. */
  function IndexOfValue(delegates: map<Int32, ViewHolderDelegate>, delegate: ViewHolderDelegate): (r: Option<Int32>)
    ensures r.Some? ==> (r.value in delegates && delegates[r.value] == delegate &&
                         forall k :: k in delegates && delegates[k] == delegate ==> r.value <= k)
    ensures r.None? <==> forall k :: k in delegates ==> delegates[k] != delegate
  {
    var keys := set k | k in delegates && delegates[k] == delegate;
    assert forall k :: k in delegates && delegates[k] == delegate ==> k in keys;
    if keys == {} then
      None
    else
      var first: Int32 := MinOf(keys);
      Some(first)
  }

  /** Java's `viewType++`, which wraps from Integer.MAX_VALUE to Integer.MIN_VALUE. */
  function NextProbe(v: Int32): Int32 {
    if v == INT_MAX then INT_MIN else v + 1
  }

  /** How many increments the automatic assignment makes from `start` before it
      probes `viewType`. */
  function ProbeDistance(start: Int32, viewType: Int32): nat {
    if viewType >= start then viewType - start
    else (viewType - INT_MIN) + (INT_MAX - start) + 1
  }

  /** Every view type probed before `viewType`, starting from `start`, is taken. */
  ghost predicate TakenBefore(delegates: map<Int32, ViewHolderDelegate>, start: Int32, viewType: Int32) {
    forall j: Int32 :: ProbeDistance(start, j) < ProbeDistance(start, viewType) ==> j in delegates
  }

  /** The automatic assignment from `start` reaches the reserved type: no view
      type is left for it. */
  ghost predicate Exhausted(delegates: map<Int32, ViewHolderDelegate>, start: Int32) {
    TakenBefore(delegates, start, FALLBACK_DELEGATE_VIEW_TYPE)
  }

  /** `viewType` is the view type the automatic assignment from `start` picks. */
  ghost predicate FirstFree(delegates: map<Int32, ViewHolderDelegate>, start: Int32, viewType: Int32) {
    viewType !in delegates && viewType != FALLBACK_DELEGATE_VIEW_TYPE && TakenBefore(delegates, start, viewType)
  }

  /** One more increment probes one step further, as long as the reserved type
      has not been reached. */
  lemma NextProbeDistance(start: Int32, v: Int32)
    requires 0 <= start
    requires ProbeDistance(start, v) < ProbeDistance(start, FALLBACK_DELEGATE_VIEW_TYPE)
    ensures ProbeDistance(start, NextProbe(v)) == ProbeDistance(start, v) + 1
  {
  }

  lemma TakenThrough(delegates: map<Int32, ViewHolderDelegate>, start: Int32, v: Int32)
    requires 0 <= start
    requires ProbeDistance(start, v) < ProbeDistance(start, FALLBACK_DELEGATE_VIEW_TYPE)
    requires TakenBefore(delegates, start, v) && v in delegates
    ensures TakenBefore(delegates, start, NextProbe(v))
  {
    NextProbeDistance(start, v);
    forall j: Int32 | ProbeDistance(start, j) < ProbeDistance(start, NextProbe(v))
      ensures j in delegates
    {
      if ProbeDistance(start, j) == ProbeDistance(start, v) {
        assert j == v;
      }
    }
  }

  /** When the registry holds at most Integer.MAX_VALUE - 1 delegates, the view
      type picked automatically is at or above the registry size, below the
      reserved type, and every view type from the size up to it was taken. */
  lemma {:induction false} FirstFreeAtOrAboveSize(delegates: map<Int32, ViewHolderDelegate>, start: Int32, viewType: Int32)
    requires 0 <= start <= FALLBACK_DELEGATE_VIEW_TYPE
    requires FALLBACK_DELEGATE_VIEW_TYPE !in delegates
    requires FirstFree(delegates, start, viewType)
    ensures start <= viewType < FALLBACK_DELEGATE_VIEW_TYPE
    ensures forall j: Int32 :: start <= j < viewType ==> j in delegates
  {
    forall j: Int32 | start <= j < viewType ensures j in delegates {
      assert ProbeDistance(start, j) < ProbeDistance(start, viewType);
    }
  }

  /** The loop of `getItemViewType(item)`: walk the keys in `keyAt` order and
      stop at the first delegate that accepts the item; without one, the
      reserved type when a fallback is set, else IllegalArgumentException. */
  method ScanItemViewType(delegates: map<Int32, ViewHolderDelegate>, fallback: ViewHolderDelegate?, item: Item) returns (r: Result<Int32>)
    ensures r == ItemViewType(delegates, fallback, item)
  {
    var keys := SortedKeys(delegates.Keys);
    var i := 0;
    while i < |keys|
      invariant 0 <= i <= |keys|
      invariant forall j :: 0 <= j < i ==> keys[j] in delegates && !delegates[keys[j]].isForViewType(item)
    {
      var viewType := keys[i];
      if delegates[viewType].isForViewType(item) {
        ScanStopsAtFirst(delegates, fallback, keys, i, item);
        return Ok(viewType);
      }
      i := i + 1;
    }
    ScanFindsNone(delegates, keys, item);
    if fallback != null {
      return Ok(FALLBACK_DELEGATE_VIEW_TYPE);
    }
    return Err(IllegalArgument);
  }

  class ViewHolderDelegateManager {
    var fallbackDelegate: ViewHolderDelegate?
    var delegates: map<Int32, ViewHolderDelegate>

    /** The reserved fallback view type is never a registry key. */
    ghost predicate Valid()
      reads this
    {
      FALLBACK_DELEGATE_VIEW_TYPE !in delegates
    }

    constructor ()
      ensures Valid() && delegates == map[] && fallbackDelegate == null
    {
      fallbackDelegate := null;
      delegates := map[];
    }

    /** `addDelegate(delegate)`: probes upwards from the registry size for a free
        view type and registers the delegate there without replacing. */
    method AddDelegate(delegate: ViewHolderDelegate?) returns (r: Outcome)
      requires Valid() && |delegates| <= INT_MAX
      modifies this
      ensures Valid() && fallbackDelegate == old(fallbackDelegate)
      ensures r == Fail(IllegalArgument) <==>
        Exhausted(old(delegates), |old(delegates)|) && (delegate != null || |old(delegates)| != FALLBACK_DELEGATE_VIEW_TYPE)
      ensures r == Fail(NullPointer) <==>
        delegate == null && (!Exhausted(old(delegates), |old(delegates)|) || |old(delegates)| == FALLBACK_DELEGATE_VIEW_TYPE)
      ensures r.Fail? ==> delegates == old(delegates)
      ensures r.Pass? ==> (delegate != null &&
                           exists k :: FirstFree(old(delegates), |old(delegates)|, k) && delegates == old(delegates)[k := delegate])
    {
      var start: Int32 := |delegates|;
      var viewType := start;
      while viewType in delegates
        invariant ProbeDistance(start, viewType) <= ProbeDistance(start, FALLBACK_DELEGATE_VIEW_TYPE)
        invariant TakenBefore(delegates, start, viewType)
        invariant viewType == FALLBACK_DELEGATE_VIEW_TYPE ==> start == FALLBACK_DELEGATE_VIEW_TYPE
        invariant unchanged(this)
        decreases ProbeDistance(start, FALLBACK_DELEGATE_VIEW_TYPE) - ProbeDistance(start, viewType)
      {
        TakenThrough(delegates, start, viewType);
        viewType := NextProbe(viewType);
        if viewType == FALLBACK_DELEGATE_VIEW_TYPE {
          return Fail(IllegalArgument);
        }
      }
      if viewType != FALLBACK_DELEGATE_VIEW_TYPE {
        assert FirstFree(delegates, start, viewType);
        assert !Exhausted(delegates, start);
      }
      r := AddDelegateAtAllowing(delegate, viewType, false);
    }

    /** `addDelegate(delegate, viewType)`: registers without replacing. */
    method AddDelegateAt(delegate: ViewHolderDelegate?, viewType: Int32) returns (r: Outcome)
      requires Valid()
      modifies this
      ensures Valid() && fallbackDelegate == old(fallbackDelegate)
      ensures r == if delegate == null then Fail(NullPointer)
                   else if viewType == FALLBACK_DELEGATE_VIEW_TYPE || viewType in old(delegates) then Fail(IllegalArgument)
                   else Pass
      ensures r.Pass? ==> delegates == old(delegates)[viewType := delegate]
      ensures r.Fail? ==> delegates == old(delegates)
    {
      r := AddDelegateAtAllowing(delegate, viewType, false);
    }

    /** `addDelegate(delegate, viewType, allowReplacingDelegate)`. */
    method AddDelegateAtAllowing(delegate: ViewHolderDelegate?, viewType: Int32, allowReplacingDelegate: bool) returns (r: Outcome)
      requires Valid()
      modifies this
      ensures Valid() && fallbackDelegate == old(fallbackDelegate)
      ensures r == if delegate == null then Fail(NullPointer)
                   else if viewType == FALLBACK_DELEGATE_VIEW_TYPE then Fail(IllegalArgument)
                   else if !allowReplacingDelegate && viewType in old(delegates) then Fail(IllegalArgument)
                   else Pass
      ensures r.Pass? ==> delegates == old(delegates)[viewType := delegate]
      ensures r.Fail? ==> delegates == old(delegates)
    {
      if delegate == null {
        return Fail(NullPointer);
      }
      if viewType == FALLBACK_DELEGATE_VIEW_TYPE {
        return Fail(IllegalArgument);
      }
      if !allowReplacingDelegate && viewType in delegates {
        return Fail(IllegalArgument);
      }
      delegates := delegates[viewType := delegate];
      r := Pass;
    }

    /** `removeDelegate(delegate)`: removes the first entry, in key order, that
        holds this very object; nothing when there is none. */
    method RemoveDelegate(delegate: ViewHolderDelegate?) returns (r: Outcome)
      requires Valid()
      modifies this
      ensures Valid() && fallbackDelegate == old(fallbackDelegate)
      ensures r == if delegate == null then Fail(NullPointer) else Pass
      ensures delegate == null ==> delegates == old(delegates)
      ensures delegate != null ==> (delegates ==
                                      match IndexOfValue(old(delegates), delegate)
                                      case Some(k) => old(delegates) - {k}
                                      case None => old(delegates))
    {
      if delegate == null {
        return Fail(NullPointer);
      }
      var index := IndexOfValue(delegates, delegate);
      if index.Some? {
        delegates := delegates - {index.value};
      }
      r := Pass;
    }

    /** `removeDelegate(viewType)`. */
    method RemoveDelegateAt(viewType: Int32)
      requires Valid()
      modifies this
      ensures Valid() && fallbackDelegate == old(fallbackDelegate)
      ensures delegates == old(delegates) - {viewType}
    {
      delegates := delegates - {viewType};
    }

    /** `getItemViewType(item)`: scans the delegates in ascending key order. */
    method GetItemViewType(item: Item) returns (r: Result<Int32>)
      ensures r == ItemViewType(delegates, fallbackDelegate, item)
    {
      r := ScanItemViewType(delegates, fallbackDelegate, item);
    }

    /** `onCreateViewHolder(parent, viewType)`; `create` stands for what each
        delegate's own `onCreateViewHolder` returns, None for null. */
    function OnCreateViewHolder(viewType: Int32, create: ViewHolderDelegate -> Option<ViewHolder>): (r: Result<ViewHolder>)
      reads this
      ensures r.Ok? <==> (viewType in delegates && create(delegates[viewType]).Some?) ||
                         (viewType !in delegates && fallbackDelegate != null && create(fallbackDelegate).Some?)
      ensures r.Ok? && viewType in delegates ==> create(delegates[viewType]) == Some(r.value)
      ensures r.Ok? && viewType !in delegates ==> create(fallbackDelegate) == Some(r.value)
      ensures r.Err? ==> r.error == NullPointer
    {
      match DelegateFor(delegates, fallbackDelegate, viewType)
      case Err(e) => Err(e)
      case Ok(delegate) =>
        match create(delegate)
        case None => Err(NullPointer)
        case Some(vh) => Ok(vh)
    }

    /** `onBindViewHolder(viewHolder, item)`: the delegate that binds the holder,
        chosen by the view type the holder was created for. */
    function OnBindViewHolder(viewHolder: ViewHolder): (r: Result<ViewHolderDelegate>)
      reads this
      ensures viewHolder.itemViewType in delegates ==> r == Ok(delegates[viewHolder.itemViewType])
      ensures viewHolder.itemViewType !in delegates ==>
        r == if fallbackDelegate != null then Ok(fallbackDelegate as ViewHolderDelegate) else Err(NullPointer)
    {
      DelegateFor(delegates, fallbackDelegate, viewHolder.itemViewType)
    }

    /** `setFallbackDelegate(fallbackDelegate)`; null clears it. */
    method SetFallbackDelegate(fallback: ViewHolderDelegate?)
      requires Valid()
      modifies this
      ensures Valid()
      ensures fallbackDelegate == fallback && delegates == old(delegates)
    {
      fallbackDelegate := fallback;
    }
  }
}
