/** The `java.util.List` operations the item stores and adapters use, as
    functions on sequences, and what each RecyclerView notification says about
    how a list changed. */
module Lists {
  import opened Common

  /** `list.add(i, x)`: `x` lands at index `i`, later elements shift up by one. */
  function InsertAt<T>(s: seq<T>, i: int, x: T): (r: seq<T>)
    requires 0 <= i <= |s|
    ensures |r| == |s| + 1
    ensures forall j :: 0 <= j < |r| ==> r[j] == if j < i then s[j] else if j == i then x else s[j - 1]
  {
    s[..i] + [x] + s[i..]
  }

  /** `list.addAll(i, t)`: `t` lands at indices `i .. i+|t|`, later elements shift up by `|t|`. */
  function InsertAllAt<T>(s: seq<T>, i: int, t: seq<T>): (r: seq<T>)
    requires 0 <= i <= |s|
    ensures |r| == |s| + |t|
    ensures forall j :: 0 <= j < |r| ==>
      r[j] == if j < i then s[j] else if j < i + |t| then t[j - i] else s[j - |t|]
  {
    s[..i] + t + s[i..]
  }

  /** `list.remove(i)`: the element at `i` leaves, later elements shift down by one. */
  function RemoveAt<T>(s: seq<T>, i: int): (r: seq<T>)
    requires 0 <= i < |s|
    ensures |r| == |s| - 1
    ensures forall j :: 0 <= j < |r| ==> r[j] == if j < i then s[j] else s[j + 1]
  {
    s[..i] + s[i + 1..]
  }

  /** `list.add(to, list.remove(from))`. */
  function Move<T>(s: seq<T>, from: int, to: int): (r: seq<T>)
    requires 0 <= from < |s| && 0 <= to < |s|
    ensures |r| == |s| && r[to] == s[from]
  {
    InsertAt(RemoveAt(s, from), to, s[from])
  }

  /** Removing what was just inserted gives the list back. */
  lemma {:induction false} RemoveInserted<T>(s: seq<T>, i: int, x: T)
    requires 0 <= i <= |s|
    ensures RemoveAt(InsertAt(s, i, x), i) == s
  {
    var r := RemoveAt(InsertAt(s, i, x), i);
    assert |r| == |s|;
    forall j | 0 <= j < |s| ensures r[j] == s[j] { }
  }

  /** Putting a removed element back where it was gives the list back. */
  lemma {:induction false} InsertRemoved<T>(s: seq<T>, i: int)
    requires 0 <= i < |s|
    ensures InsertAt(RemoveAt(s, i), i, s[i]) == s
  {
    var r := InsertAt(RemoveAt(s, i), i, s[i]);
    assert |r| == |s|;
    forall j | 0 <= j < |s| ensures r[j] == s[j] { }
  }

  lemma {:induction false} InsertAtMultiset<T>(s: seq<T>, i: int, x: T)
    requires 0 <= i <= |s|
    ensures multiset(InsertAt(s, i, x)) == multiset(s) + multiset{x}
  {
    assert s == s[..i] + s[i..];
  }

  lemma {:induction false} RemoveAtMultiset<T>(s: seq<T>, i: int)
    requires 0 <= i < |s|
    ensures multiset(RemoveAt(s, i)) == multiset(s) - multiset{s[i]}
  {
    assert s == s[..i] + [s[i]] + s[i + 1..];
  }

  /** Moving an element permutes the list. */
  lemma {:induction false} MovePermutes<T>(s: seq<T>, from: int, to: int)
    requires 0 <= from < |s| && 0 <= to < |s|
    ensures multiset(Move(s, from, to)) == multiset(s)
  {
    RemoveAtMultiset(s, from);
    InsertAtMultiset(RemoveAt(s, from), to, s[from]);
  }

  /** Moving the element back undoes a move. */
  lemma {:induction false} MoveBack<T>(s: seq<T>, from: int, to: int)
    requires 0 <= from < |s| && 0 <= to < |s|
    ensures Move(Move(s, from, to), to, from) == s
  {
    var u := Move(s, from, to);
    RemoveInserted(RemoveAt(s, from), to, s[from]);
    assert RemoveAt(u, to) == RemoveAt(s, from);
    InsertRemoved(s, from);
  }

  /** What a notification tells the adapter about how its list went from
      `before` to `after`; a data-set change or a dispatched diff may mean anything. */
  ghost predicate Describes<T>(n: Notification, before: seq<T>, after: seq<T>) {
    match n
    case DataSetChanged => true
    case DiffDispatched => true
    case ItemChanged(p) =>
      0 <= p < |before| && |after| == |before| &&
      forall j :: 0 <= j < |before| && j != p ==> after[j] == before[j]
    case ItemInserted(p) =>
      0 <= p < |after| && before == RemoveAt(after, p)
    case ItemRangeInserted(p, n) =>
      0 <= p && 0 <= n && p + n <= |after| && before == after[..p] + after[p + n..]
    case ItemMoved(from, to) =>
      0 <= from < |before| && 0 <= to < |before| && after == Move(before, from, to)
    case ItemRemoved(p) =>
      0 <= p < |before| && after == RemoveAt(before, p)
    case ItemRangeRemoved(p, n) =>
      0 <= p && 0 <= n && p + n <= |before| && after == before[..p] + before[p + n..]
  }

  /** `add(i, x)` is what `notifyItemInserted(i)` describes. */
  lemma InsertDescribed<T>(s: seq<T>, i: int, x: T)
    requires 0 <= i <= |s|
    ensures Describes(ItemInserted(i), s, InsertAt(s, i, x))
  {
    RemoveInserted(s, i, x);
  }

  /** `addAll(i, t)` is what `notifyItemRangeInserted(i, |t|)` describes. */
  lemma InsertAllDescribed<T>(s: seq<T>, i: int, t: seq<T>)
    requires 0 <= i <= |s|
    ensures Describes(ItemRangeInserted(i, |t|), s, InsertAllAt(s, i, t))
  {
    var r := InsertAllAt(s, i, t);
    assert r[..i] + r[i + |t|..] == s;
  }
}
