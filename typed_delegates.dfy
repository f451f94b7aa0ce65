/** What the two delegate registries of the `lib` module share: delegates that
    report their own view type, the registry invariant, and the lookups that
    `getItemViewType`, `onCreateViewHolder` and `onBindViewHolder` make. */
module TypedDelegates {
  import opened Common
  import opened SparseKeys

  /** A `lib` delegate (a RecyclerDelegate or a ViewHolderDelegate): an object
      identity with a fixed `getItemViewType()` and its `isForViewType` predicate. */
  class TypedDelegate {
    const viewType: Int32
    const isForViewType: Item -> bool

    constructor (viewType: Int32, isForViewType: Item -> bool)
      ensures this.viewType == viewType && this.isForViewType == isForViewType
    {
      this.viewType := viewType;
      this.isForViewType := isForViewType;
    }
  }

  /** Every delegate is registered under its own view type. */
  ghost predicate KeyedByOwnType(delegates: map<Int32, TypedDelegate>) {
    forall k :: k in delegates ==> delegates[k].viewType == k
  }

  /** No registered delegate has the fallback's view type. */
  ghost predicate NoFallbackConflict(delegates: map<Int32, TypedDelegate>, fallback: TypedDelegate?) {
    fallback != null ==> forall k :: k in delegates ==> delegates[k].viewType != fallback.viewType
  }

  /** `viewType` is registered and its delegate accepts `item`. */
  predicate Accepts(delegates: map<Int32, TypedDelegate>, viewType: Int32, item: Item) {
    viewType in delegates && delegates[viewType].isForViewType(item)
  }

  /** The key of the first delegate, in key order, that accepts `item`. */
  function FirstAccepting(delegates: map<Int32, TypedDelegate>, item: Item): (r: Option<Int32>)
    ensures r.Some? ==> (Accepts(delegates, r.value, item) &&
                         forall k :: Accepts(delegates, k, item) ==> r.value <= k)
    ensures r.None? <==> forall k :: !Accepts(delegates, k, item)
  {
    var accepting := set k | k in delegates && delegates[k].isForViewType(item);
    assert forall k :: Accepts(delegates, k, item) ==> k in accepting;
    if accepting == {} then None
    else
      var first: Int32 := MinOf(accepting);
      assert Accepts(delegates, first, item);
      Some(first)
  }

  /** A scan in key order that stops at the first accepting key finds `FirstAccepting`. */
  lemma ScanStopsAtFirst(delegates: map<Int32, TypedDelegate>, keys: seq<Int32>, i: int, item: Item)
    requires Ascending(keys) && (forall k :: k in delegates ==> k in keys) && 0 <= i < |keys|
    requires forall j :: 0 <= j < i ==> keys[j] in delegates && !delegates[keys[j]].isForViewType(item)
    requires keys[i] in delegates && delegates[keys[i]].isForViewType(item)
    ensures FirstAccepting(delegates, item) == Some(keys[i])
  {
    var viewType: Int32 := keys[i];
    assert Accepts(delegates, viewType, item);
    forall k: Int32 | Accepts(delegates, k, item) ensures viewType <= k {
      if k < viewType { SmallerKeyEarlier(keys, i, k); }
    }
  }

  /** A scan in key order that finds no accepting key means there is none. */
  lemma ScanFindsNone(delegates: map<Int32, TypedDelegate>, keys: seq<Int32>, item: Item)
    requires forall k :: k in delegates ==> k in keys
    requires forall j :: 0 <= j < |keys| ==> keys[j] in delegates && !delegates[keys[j]].isForViewType(item)
    ensures FirstAccepting(delegates, item).None?
  {
    forall k | k in delegates ensures !Accepts(delegates, k, item) {
      assert k in keys;
    }
  }

  /** The loop of `getItemViewType(item)`: walk the keys in `keyAt` order and
      stop at the first delegate that accepts the item. */
  method ScanFirstAccepting(delegates: map<Int32, TypedDelegate>, item: Item) returns (r: Option<Int32>)
    ensures r == FirstAccepting(delegates, item)
  {
    var keys := SortedKeys(delegates.Keys);
    var i := 0;
    while i < |keys|
      invariant 0 <= i <= |keys|
      invariant forall j :: 0 <= j < i ==> keys[j] in delegates && !delegates[keys[j]].isForViewType(item)
    {
      if delegates[keys[i]].isForViewType(item) {
        ScanStopsAtFirst(delegates, keys, i, item);
        return Some(keys[i]);
      }
      i := i + 1;
    }
    ScanFindsNone(delegates, keys, item);
    return None;
  }

  /** The answer of `getItemViewType(item)`: the own view type of the first
      accepting delegate, else the fallback's view type, else IllegalArgumentException. */
  function ItemViewType(delegates: map<Int32, TypedDelegate>, fallback: TypedDelegate?, item: Item): Result<Int32> {
    match FirstAccepting(delegates, item)
    case Some(k) => Ok(delegates[k].viewType)
    case None => if fallback != null then Ok(fallback.viewType) else Err(IllegalArgument)
  }

  /** The delegate that creation and binding use for `viewType`: the registered
      one, else the fallback, else NullPointerException. */
  function DelegateFor(delegates: map<Int32, TypedDelegate>, fallback: TypedDelegate?, viewType: Int32): Result<TypedDelegate> {
    if viewType in delegates then Ok(delegates[viewType])
    else if fallback != null then Ok(fallback as TypedDelegate)
    else Err(NullPointer)
  }

  /** Under the registry invariant, dispatching on the view type
      `getItemViewType` returned reaches the delegate that accepted the item, or
      the fallback when none did. */
  lemma DispatchAfterItemViewType(delegates: map<Int32, TypedDelegate>, fallback: TypedDelegate?, item: Item)
    requires KeyedByOwnType(delegates) && NoFallbackConflict(delegates, fallback)
    requires ItemViewType(delegates, fallback, item).Ok?
    ensures var d := DelegateFor(delegates, fallback, ItemViewType(delegates, fallback, item).value);
      d.Ok? &&
      (FirstAccepting(delegates, item).Some? ==> d.value == delegates[FirstAccepting(delegates, item).value] && d.value.isForViewType(item)) &&
      (FirstAccepting(delegates, item).None? ==> d.value == fallback)
  {
  }

  /** Under the invariant, a fallback conflicts with the registry exactly when
      its view type is a key. */
  lemma ConflictIsKey(delegates: map<Int32, TypedDelegate>, viewType: Int32)
    requires KeyedByOwnType(delegates)
    ensures (exists k :: k in delegates && delegates[k].viewType == viewType) <==> viewType in delegates
  {
    if viewType in delegates {
      assert delegates[viewType].viewType == viewType;
    }
  }
}
