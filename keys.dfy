/**
 * The keys of the stores' tables and the orders in which a `StableBTreeMap`
 * keeps them. Every key struct derives `Ord`, which compares the fields
 * lexicographically in declaration order; `String` compares by UTF-8 bytes,
 * which is the same as comparing code points one by one.
 */
module Keys {
  import T = Types
  import Table

  /** The order on `u32` keys. */
  function U32Less(a: T.u32, b: T.u32): bool { a < b }

  /** `String`'s `Ord`: a proper prefix comes first, else the first differing character decides. */
  function StrLess(a: string, b: string): (r: bool)
    ensures r ==> a != b
  {
    if a == [] then b != []
    else if b == [] then false
    else if a[0] != b[0] then a[0] < b[0]
    else StrLess(a[1..], b[1..])
  }

  lemma {:induction false} StrLessTransitive(a: string, b: string, c: string)
    requires StrLess(a, b) && StrLess(b, c)
    ensures StrLess(a, c)
  {
    if a != [] && b != [] && c != [] && a[0] == b[0] && b[0] == c[0] {
      StrLessTransitive(a[1..], b[1..], c[1..]);
    }
  }

  lemma {:induction false} StrLessTotal(a: string, b: string)
    ensures a == b || StrLess(a, b) || StrLess(b, a)
  {
    if a != [] && b != [] && a[0] == b[0] {
      StrLessTotal(a[1..], b[1..]);
      if a[1..] == b[1..] {
        assert a == [a[0]] + a[1..] && b == [b[0]] + b[1..];
      }
    }
  }

  /** `(CircuitKey | ConnectorKey) { id, owner }` and the legacy tuple key `(u32, String)`. */
  datatype CircuitKey = CircuitKey(id: T.u32, owner: string)
  datatype ConnectorKey = ConnectorKey(id: T.u32, owner: string)
  /** `TraceKey { id, circuit_id, node_id, owner }`. */
  datatype TraceKey = TraceKey(id: T.u32, circuitId: T.u32, nodeId: T.u32, owner: string)

  /** Lexicographic order on an id followed by an owner string. */
  function IdOwnerLess(id1: T.u32, owner1: string, id2: T.u32, owner2: string): bool {
    id1 < id2 || (id1 == id2 && StrLess(owner1, owner2))
  }

  function CircuitKeyLess(a: CircuitKey, b: CircuitKey): bool {
    IdOwnerLess(a.id, a.owner, b.id, b.owner)
  }

  function ConnectorKeyLess(a: ConnectorKey, b: ConnectorKey): bool {
    IdOwnerLess(a.id, a.owner, b.id, b.owner)
  }

  function PairLess(a: (T.u32, string), b: (T.u32, string)): bool {
    IdOwnerLess(a.0, a.1, b.0, b.1)
  }

  function TraceKeyLess(a: TraceKey, b: TraceKey): bool {
    || a.id < b.id
    || (a.id == b.id && a.circuitId < b.circuitId)
    || (a.id == b.id && a.circuitId == b.circuitId && a.nodeId < b.nodeId)
    || (a.id == b.id && a.circuitId == b.circuitId && a.nodeId == b.nodeId && StrLess(a.owner, b.owner))
  }

  // ---------------------------------------------------------------------------
  // Each key order is a strict total order, so the tables can rely on it.

  lemma U32Order()
    ensures Table.StrictTotalOrder(U32Less)
  {
  }

  lemma StringOrder()
    ensures Table.StrictTotalOrder(StrLess)
  {
    forall a, b, c | StrLess(a, b) && StrLess(b, c) ensures StrLess(a, c) {
      StrLessTransitive(a, b, c);
    }
    forall a, b ensures a == b || StrLess(a, b) || StrLess(b, a) {
      StrLessTotal(a, b);
    }
  }

  lemma IdOwnerTransitive(i1: T.u32, o1: string, i2: T.u32, o2: string, i3: T.u32, o3: string)
    requires IdOwnerLess(i1, o1, i2, o2) && IdOwnerLess(i2, o2, i3, o3)
    ensures IdOwnerLess(i1, o1, i3, o3)
  {
    if i1 == i2 && i2 == i3 {
      StrLessTransitive(o1, o2, o3);
    }
  }

  lemma CircuitKeyOrder()
    ensures Table.StrictTotalOrder(CircuitKeyLess)
  {
    forall a, b, c | CircuitKeyLess(a, b) && CircuitKeyLess(b, c) ensures CircuitKeyLess(a, c) {
      IdOwnerTransitive(a.id, a.owner, b.id, b.owner, c.id, c.owner);
    }
    forall a, b ensures a == b || CircuitKeyLess(a, b) || CircuitKeyLess(b, a) {
      StrLessTotal(a.owner, b.owner);
    }
  }

  lemma ConnectorKeyOrder()
    ensures Table.StrictTotalOrder(ConnectorKeyLess)
  {
    forall a, b, c | ConnectorKeyLess(a, b) && ConnectorKeyLess(b, c) ensures ConnectorKeyLess(a, c) {
      IdOwnerTransitive(a.id, a.owner, b.id, b.owner, c.id, c.owner);
    }
    forall a, b ensures a == b || ConnectorKeyLess(a, b) || ConnectorKeyLess(b, a) {
      StrLessTotal(a.owner, b.owner);
    }
  }

  lemma PairOrder()
    ensures Table.StrictTotalOrder(PairLess)
  {
    forall a, b, c | PairLess(a, b) && PairLess(b, c) ensures PairLess(a, c) {
      IdOwnerTransitive(a.0, a.1, b.0, b.1, c.0, c.1);
    }
    forall a, b ensures a == b || PairLess(a, b) || PairLess(b, a) {
      StrLessTotal(a.1, b.1);
    }
  }

  lemma TraceKeyOrder()
    ensures Table.StrictTotalOrder(TraceKeyLess)
  {
    forall a, b, c | TraceKeyLess(a, b) && TraceKeyLess(b, c) ensures TraceKeyLess(a, c) {
      if a.id == b.id == c.id && a.circuitId == b.circuitId == c.circuitId && a.nodeId == b.nodeId == c.nodeId {
        StrLessTransitive(a.owner, b.owner, c.owner);
      }
    }
    forall a, b ensures a == b || TraceKeyLess(a, b) || TraceKeyLess(b, a) {
      StrLessTotal(a.owner, b.owner);
    }
  }

  /**
   * Keys that order by id first: a key whose id exceeds the id of every key
   * in a table is not in it. This is why "largest id + 1" gives a fresh key.
   */
  lemma {:induction false} AboveLargestIdIsFresh<K, V>(t: seq<(K, V)>, k: K, idOf: K -> T.u32)
    requires forall i :: 0 <= i < |t| ==> idOf(t[i].0) < idOf(k)
    ensures Table.Get(t, k).None?
  {
    if t != [] {
      AboveLargestIdIsFresh(t[1..], k, idOf);
    }
  }

  /** `last_key_value().map(|(key, _)| key.id).unwrap_or(0) + 1`, wrapping at 2^32. */
  function NextId<K, V>(t: seq<(K, V)>, idOf: K -> T.u32): (id: T.u32)
    ensures t == [] ==> id == 1
    ensures t != [] && idOf(Table.Last(t).value.0) < T.U32_MAX ==> id == idOf(Table.Last(t).value.0) + 1
  {
    T.WrappingIncrement(match Table.Last(t) case None => 0 case Some(e) => idOf(e.0))
  }

  /** Whether an id is left above the largest key's id. */
  predicate IdsLeft<K, V>(t: seq<(K, V)>, idOf: K -> T.u32) {
    t == [] || idOf(Table.Last(t).value.0) < T.U32_MAX
  }

  /** `less` compares `idOf` first: a smaller key never has a larger id. */
  ghost predicate OrdersByIdFirst<K(!new)>(less: (K, K) -> bool, idOf: K -> T.u32) {
    forall a, b :: less(a, b) ==> idOf(a) <= idOf(b)
  }

  /** While ids are left, "largest key id + 1" names no stored key, whatever the rest of the key. */
  lemma NextIdFresh<K(!new), V>(t: seq<(K, V)>, less: (K, K) -> bool, idOf: K -> T.u32, k: K)
    requires Table.Sorted(t, less) && OrdersByIdFirst(less, idOf) && IdsLeft(t, idOf)
    requires idOf(k) == NextId(t, idOf)
    ensures Table.Get(t, k).None?
  {
    if t != [] {
      forall i | 0 <= i < |t| ensures idOf(t[i].0) < idOf(k) {
        if i < |t| - 1 {
          Table.LastIsLargest(t, less, i);
        }
      }
      AboveLargestIdIsFresh(t, k, idOf);
    }
  }

  function U32Id(k: T.u32): T.u32 { k }
  function CircuitKeyId(k: CircuitKey): T.u32 { k.id }
  function ConnectorKeyId(k: ConnectorKey): T.u32 { k.id }

  lemma U32KeysByIdFirst()
    ensures OrdersByIdFirst(U32Less, U32Id)
  {
  }

  lemma CircuitKeysByIdFirst()
    ensures OrdersByIdFirst(CircuitKeyLess, CircuitKeyId)
  {
  }

  lemma ConnectorKeysByIdFirst()
    ensures OrdersByIdFirst(ConnectorKeyLess, ConnectorKeyId)
  {
  }
}
