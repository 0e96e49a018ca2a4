/**
 * An ordered key/value table: the `StableBTreeMap` every store keeps, seen
 * as its entries in ascending key order. The key order is passed in as a
 * function, so the same operations serve every key type.
 */
module Table {
  import W = Wrappers

  /** `less` is irreflexive, transitive and total. */
  ghost predicate StrictTotalOrder<K(!new)>(less: (K, K) -> bool) {
    && (forall a :: !less(a, a))
    && (forall a, b, c :: less(a, b) && less(b, c) ==> less(a, c))
    && (forall a, b :: a == b || less(a, b) || less(b, a))
  }

  /** Entries are in strictly ascending key order, so no key occurs twice. */
  ghost predicate Sorted<K, V>(t: seq<(K, V)>, less: (K, K) -> bool) {
    forall i, j :: 0 <= i < j < |t| ==> less(t[i].0, t[j].0)
  }

  function Keys<K, V>(t: seq<(K, V)>): (ks: seq<K>)
    ensures |ks| == |t| && forall i :: 0 <= i < |t| ==> ks[i] == t[i].0
  {
    seq(|t|, i requires 0 <= i < |t| => t[i].0)
  }

  /** `iter().map(|(_, v)| v.clone())`: the values in key order. */
  function Values<K, V>(t: seq<(K, V)>): (vs: seq<V>)
    ensures |vs| == |t| && forall i :: 0 <= i < |t| ==> vs[i] == t[i].1
  {
    seq(|t|, i requires 0 <= i < |t| => t[i].1)
  }

  /** `get`: the value stored under `k`. */
  function Get<K(==), V>(t: seq<(K, V)>, k: K): (r: W.Option<V>)
    ensures r.None? <==> k !in Keys(t)
    ensures r.Some? ==> (k, r.value) in t
  {
    if t == [] then W.None
    else if t[0].0 == k then W.Some(t[0].1)
    else
      assert Keys(t) == [t[0].0] + Keys(t[1..]);
      Get(t[1..], k)
  }

  /** `insert`: stores `v` under `k`, replacing the value already there. */
  function Put<K(==), V>(t: seq<(K, V)>, k: K, v: V, less: (K, K) -> bool): seq<(K, V)> {
    if t == [] then [(k, v)]
    else if t[0].0 == k then [(k, v)] + t[1..]
    else if less(k, t[0].0) then [(k, v)] + t
    else [t[0]] + Put(t[1..], k, v, less)
  }

  /** `remove`: drops the entry under `k`. */
  function Remove<K(==), V>(t: seq<(K, V)>, k: K): seq<(K, V)> {
    if t == [] then []
    else if t[0].0 == k then Remove(t[1..], k)
    else [t[0]] + Remove(t[1..], k)
  }

  /** `iter().filter(p)`: the entries satisfying `p`, in key order. */
  function Where<K, V>(t: seq<(K, V)>, p: (K, V) -> bool): seq<(K, V)> {
    if t == [] then []
    else if p(t[0].0, t[0].1) then [t[0]] + Where(t[1..], p)
    else Where(t[1..], p)
  }

  /** `last_key_value`: the entry with the largest key. */
  function Last<K, V>(t: seq<(K, V)>): (r: W.Option<(K, V)>)
    ensures r.Some? <==> t != []
  {
    if t == [] then W.None else W.Some(t[|t| - 1])
  }

  /** `a` and `b` store the same thing under every key except `key`. */
  ghost predicate AgreeExcept<K(!new), V>(a: seq<(K, V)>, b: seq<(K, V)>, key: K) {
    forall k :: k != key ==> Get(a, k) == Get(b, k)
  }

  // ---------------------------------------------------------------------------
  // Lookups after updates: these hold for any table.

  /** `get` after `Put`: the new value under `k`, every other key unchanged. */
  lemma {:induction false} PutGet<K, V>(t: seq<(K, V)>, k: K, v: V, less: (K, K) -> bool, x: K)
    ensures Get(Put(t, k, v, less), x) == if x == k then W.Some(v) else Get(t, x)
  {
    if t != [] && t[0].0 != k && !less(k, t[0].0) {
      PutGet(t[1..], k, v, less, x);
    }
  }

  /** `get` after `Remove`: nothing under `k`, every other key unchanged. */
  lemma {:induction false} RemoveGet<K, V>(t: seq<(K, V)>, k: K, x: K)
    ensures Get(Remove(t, k), x) == if x == k then W.None else Get(t, x)
  {
    if t != [] {
      RemoveGet(t[1..], k, x);
    }
  }

  /** Every entry after `Put` is the new one or an entry that was there before. */
  lemma {:induction false} PutMembers<K, V>(t: seq<(K, V)>, k: K, v: V, less: (K, K) -> bool)
    ensures forall e :: e in Put(t, k, v, less) ==> e == (k, v) || e in t
  {
    if t != [] && t[0].0 != k && !less(k, t[0].0) {
      PutMembers(t[1..], k, v, less);
      assert t == [t[0]] + t[1..];
    }
  }

  /** `Remove` keeps exactly the entries under other keys. */
  lemma {:induction false} RemoveMembers<K, V>(t: seq<(K, V)>, k: K)
    ensures forall e :: e in Remove(t, k) <==> e in t && e.0 != k
  {
    if t != [] {
      RemoveMembers(t[1..], k);
      assert t == [t[0]] + t[1..];
    }
  }

  /** Writing the same key twice keeps only the second value. */
  lemma {:induction false} PutPut<K, V>(t: seq<(K, V)>, k: K, v1: V, v2: V, less: (K, K) -> bool)
    ensures Put(Put(t, k, v1, less), k, v2, less) == Put(t, k, v2, less)
  {
    if t != [] && t[0].0 != k && !less(k, t[0].0) {
      PutPut(t[1..], k, v1, v2, less);
    }
  }

  /** `Where` keeps exactly the entries satisfying `p`, in their original order. */
  lemma {:induction false} WhereMembers<K, V>(t: seq<(K, V)>, p: (K, V) -> bool)
    ensures forall e :: e in Where(t, p) <==> e in t && p(e.0, e.1)
  {
    if t != [] {
      WhereMembers(t[1..], p);
      assert t == [t[0]] + t[1..];
    }
  }

  /** Nothing is kept when no entry matches. */
  lemma {:induction false} WhereNone<K, V>(t: seq<(K, V)>, p: (K, V) -> bool)
    requires forall i :: 0 <= i < |t| ==> !p(t[i].0, t[i].1)
    ensures Where(t, p) == []
  {
    if t != [] {
      WhereNone(t[1..], p);
    }
  }

  /** Every entry is kept when every entry matches. */
  lemma {:induction false} WhereAll<K, V>(t: seq<(K, V)>, p: (K, V) -> bool)
    requires forall i :: 0 <= i < |t| ==> p(t[i].0, t[i].1)
    ensures Where(t, p) == t
  {
    if t != [] {
      WhereAll(t[1..], p);
    }
  }

  // ---------------------------------------------------------------------------
  // Order: updates keep a sorted table sorted.

  /** All keys of `t` lie strictly above `b`. */
  ghost predicate Above<K, V>(b: K, t: seq<(K, V)>, less: (K, K) -> bool) {
    forall i :: 0 <= i < |t| ==> less(b, t[i].0)
  }

  lemma SortedTail<K, V>(t: seq<(K, V)>, less: (K, K) -> bool)
    requires Sorted(t, less) && t != []
    ensures Sorted(t[1..], less) && Above(t[0].0, t[1..], less)
  {
  }

  lemma SortedCons<K, V>(e: (K, V), t: seq<(K, V)>, less: (K, K) -> bool)
    requires Sorted(t, less) && Above(e.0, t, less)
    ensures Sorted([e] + t, less)
  {
    var s := [e] + t;
    forall i, j | 0 <= i < j < |s| ensures less(s[i].0, s[j].0) {
      if i == 0 {
        assert s[j] == t[j - 1];
      } else {
        assert s[i] == t[i - 1] && s[j] == t[j - 1];
      }
    }
  }

  /** A key below every key of the table is not in it. */
  lemma {:induction false} GetBelow<K(!new), V>(t: seq<(K, V)>, x: K, less: (K, K) -> bool)
    requires StrictTotalOrder(less) && Above(x, t, less)
    ensures Get(t, x).None?
  {
    if t != [] {
      GetBelow(t[1..], x, less);
    }
  }

  lemma {:induction false} PutAbove<K, V>(t: seq<(K, V)>, k: K, v: V, less: (K, K) -> bool, b: K)
    requires Above(b, t, less) && less(b, k)
    ensures Above(b, Put(t, k, v, less), less)
  {
    if t != [] && t[0].0 != k && !less(k, t[0].0) {
      PutAbove(t[1..], k, v, less, b);
    }
  }

  /** `Put` keeps the table sorted. */
  lemma {:induction false} PutSorted<K(!new), V>(t: seq<(K, V)>, k: K, v: V, less: (K, K) -> bool)
    requires StrictTotalOrder(less) && Sorted(t, less)
    ensures Sorted(Put(t, k, v, less), less)
  {
    if t == [] {
    } else if t[0].0 == k {
      SortedTail(t, less);
      SortedCons((k, v), t[1..], less);
    } else if less(k, t[0].0) {
      SortedCons((k, v), t, less);
    } else {
      SortedTail(t, less);
      PutSorted(t[1..], k, v, less);
      PutAbove(t[1..], k, v, less, t[0].0);
      SortedCons(t[0], Put(t[1..], k, v, less), less);
    }
  }

  /** `Put` adds one entry exactly when the key is new. */
  lemma {:induction false} PutLength<K(!new), V>(t: seq<(K, V)>, k: K, v: V, less: (K, K) -> bool)
    requires StrictTotalOrder(less) && Sorted(t, less)
    ensures |Put(t, k, v, less)| == if Get(t, k).Some? then |t| else |t| + 1
  {
    if t == [] {
    } else if t[0].0 == k {
    } else if less(k, t[0].0) {
      GetBelow(t, k, less);
    } else {
      SortedTail(t, less);
      PutLength(t[1..], k, v, less);
    }
  }

  lemma {:induction false} RemoveAbove<K, V>(t: seq<(K, V)>, k: K, less: (K, K) -> bool, b: K)
    requires Above(b, t, less)
    ensures Above(b, Remove(t, k), less)
  {
    if t != [] {
      RemoveAbove(t[1..], k, less, b);
    }
  }

  /** `Remove` keeps the table sorted. */
  lemma {:induction false} RemoveSorted<K, V>(t: seq<(K, V)>, k: K, less: (K, K) -> bool)
    requires Sorted(t, less)
    ensures Sorted(Remove(t, k), less)
  {
    if t != [] {
      SortedTail(t, less);
      RemoveSorted(t[1..], k, less);
      if t[0].0 != k {
        RemoveAbove(t[1..], k, less, t[0].0);
        SortedCons(t[0], Remove(t[1..], k), less);
      }
    }
  }

  /** `Remove` drops one entry exactly when the key is present. */
  lemma {:induction false} RemoveLength<K(!new), V>(t: seq<(K, V)>, k: K, less: (K, K) -> bool)
    requires StrictTotalOrder(less) && Sorted(t, less)
    ensures |Remove(t, k)| == if Get(t, k).Some? then |t| - 1 else |t|
  {
    if t != [] {
      SortedTail(t, less);
      RemoveLength(t[1..], k, less);
      if t[0].0 == k {
        GetBelow(t[1..], k, less);
        RemoveGet(t[1..], k, k);
        RemoveNothing(t[1..], k);
      }
    }
  }

  /** Removing an absent key changes nothing. */
  lemma {:induction false} RemoveNothing<K, V>(t: seq<(K, V)>, k: K)
    requires Get(t, k).None?
    ensures Remove(t, k) == t
  {
    if t != [] {
      RemoveNothing(t[1..], k);
    }
  }

  lemma {:induction false} WhereAbove<K, V>(t: seq<(K, V)>, p: (K, V) -> bool, less: (K, K) -> bool, b: K)
    requires Above(b, t, less)
    ensures Above(b, Where(t, p), less)
  {
    if t != [] {
      WhereAbove(t[1..], p, less, b);
    }
  }

  /** `Where` keeps the table sorted. */
  lemma {:induction false} WhereSorted<K, V>(t: seq<(K, V)>, p: (K, V) -> bool, less: (K, K) -> bool)
    requires Sorted(t, less)
    ensures Sorted(Where(t, p), less)
  {
    if t != [] {
      SortedTail(t, less);
      WhereSorted(t[1..], p, less);
      if p(t[0].0, t[0].1) {
        WhereAbove(t[1..], p, less, t[0].0);
        SortedCons(t[0], Where(t[1..], p), less);
      }
    }
  }

  /** `Where` on a sorted table gives a sorted table. */
  lemma WhereKeepsOrder<K, V>(t: seq<(K, V)>, p: (K, V) -> bool, less: (K, K) -> bool)
    ensures Sorted(t, less) ==> Sorted(Where(t, p), less)
  {
    if Sorted(t, less) {
      WhereSorted(t, p, less);
    }
  }

  /** The last entry of a sorted table holds its largest key. */
  lemma LastIsLargest<K, V>(t: seq<(K, V)>, less: (K, K) -> bool, i: int)
    requires Sorted(t, less) && 0 <= i < |t| - 1
    ensures less(t[i].0, Last(t).value.0)
  {
  }
}
