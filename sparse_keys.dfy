/** Iteration over the keys of a sparse array (`SparseArrayCompat`,
    `SparseBooleanArray`): such an array keeps its keys sorted, so `keyAt(i)`
    is the i-th smallest key. */
module SparseKeys {
  import opened Common

  /** Strictly ascending. */
  predicate Ascending(s: seq<int>) {
    forall i, j :: 0 <= i < j < |s| ==> s[i] < s[j]
  }

  /** `m` is the smallest element of `s`. */
  predicate IsMin(m: int, s: set<int>) {
    m in s && forall x :: x in s ==> m <= x
  }

  lemma {:induction false} MinExists(s: set<int>)
    requires s != {}
    ensures exists m :: IsMin(m, s)
    decreases |s|
  {
    if forall z :: z !in s { assert false; }
    var y :| y in s;
    if s == {y} {
      assert IsMin(y, s);
    } else {
      var rest := s - {y};
      MinExists(rest);
      var m :| IsMin(m, rest);
      var w := if y < m then y else m;
      forall x | x in s ensures w <= x {
        if x != y { assert x in rest; }
      }
      assert IsMin(w, s);
    }
  }

  /** The smallest element of a non-empty set of keys. */
  function MinOf(s: set<Int32>): (m: Int32)
    requires s != {}
    ensures m in s && forall x :: x in s ==> m <= x
  {
    MinExists(s);
    var m: Int32 :| IsMin(m, s);
    m
  }

  /** The keys in the order a sparse array stores them: `r[i]` is `keyAt(i)`. */
  function SortedKeys(s: set<Int32>): (r: seq<Int32>)
    ensures Ascending(r) && |r| == |s|
    ensures forall x :: x in r <==> x in s
    decreases |s|
  {
    if s == {} then []
    else
      var m := MinOf(s);
      var rest := SortedKeys(s - {m});
      assert forall x :: x in rest ==> m < x;
      [m] + rest
  }

  /** In key order, a key smaller than the key at index `i` comes before index `i`. */
  lemma SmallerKeyEarlier(keys: seq<Int32>, i: int, k: Int32)
    requires Ascending(keys) && 0 <= i < |keys|
    requires k in keys && k < keys[i]
    ensures exists j :: 0 <= j < i && keys[j] == k
  {
    var j :| 0 <= j < |keys| && keys[j] == k;
    assert j < i;
  }
}
