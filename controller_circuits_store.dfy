/**
 * The controllers canister's circuit store: circuits keyed by the tuple
 * `(id, principal text)` and a stable cell `CIRCUIT_ID` meant to number them.
 * `add_circuit` reads the cell and increments a local copy only, so the cell
 * keeps its value and every circuit of one caller lands on the same key.
 */
module ControllerCircuits {
  import W = Wrappers
  import T = Types
  import Table
  import opened Keys
  import opened Entities

  type CircuitTable = seq<((T.u32, string), ControllerCircuit)>

  /** `filter(|((_, principal), _)| caller.to_string() == *principal)` as a predicate on entries. */
  function OwnedBy(owner: string): ((T.u32, string), ControllerCircuit) -> bool {
    (k: (T.u32, string), c: ControllerCircuit) => k.1 == owner
  }

  /** Each circuit sits under its own id and its owner's principal text. */
  ghost predicate KeyedByIdAndOwner(t: CircuitTable) {
    forall i :: 0 <= i < |t| ==> t[i].1.id == t[i].0.0 && t[i].1.userId.text == t[i].0.1
  }

  /** Every stored id is at most the counter: the counter is ahead of the table. */
  ghost predicate CounterAhead(t: CircuitTable, counter: T.u32) {
    forall i :: 0 <= i < |t| ==> t[i].0.0 <= counter
  }

  /** A new circuit, disabled and not a favourite, created now. */
  function NewCircuit(id: T.u32, caller: T.Principal, data: PostCircuit, now: T.u64): (c: ControllerCircuit)
    ensures c.id == id && c.userId == caller && c.name == data.name && c.description == data.description
    ensures !c.isFavorite && !c.isEnabled && c.runAt == W.None && c.createdAt == now && c.updatedAt == now
  {
    ControllerCircuit(id, caller, data.name, data.description, false, false, W.None, now, now)
  }

  class CircuitsStore {
    /** `CIRCUIT_ID`, initialised to 0. */
    var circuitId: T.u32
    /** `CIRCUITS`, in key order. */
    var circuits: CircuitTable

    ghost predicate Valid()
      reads this
    {
      Table.Sorted(circuits, PairLess) && KeyedByIdAndOwner(circuits)
    }

    constructor ()
      ensures Valid() && circuitId == 0 && circuits == []
    {
      circuitId := 0;
      circuits := [];
    }

    /** `get_user_circuits`: exactly the circuits whose key names the caller, in ascending id order. */
    function GetUserCircuits(caller: T.Principal): (r: seq<ControllerCircuit>)
      reads this
      requires Valid()
      ensures forall c :: c in r <==> c in Table.Values(circuits) && c.userId.text == caller.text
      ensures forall i, j :: 0 <= i < j < |r| ==> r[i].id < r[j].id
    {
      var mine := Table.Where(circuits, OwnedBy(caller.text));
      Table.WhereMembers(circuits, OwnedBy(caller.text));
      Table.WhereSorted(circuits, OwnedBy(caller.text), PairLess);
      assert forall i :: 0 <= i < |mine| ==> mine[i].0.1 == caller.text && mine[i].1.id == mine[i].0.0 by {
        forall i | 0 <= i < |mine| ensures mine[i].0.1 == caller.text && mine[i].1.id == mine[i].0.0 {
          assert mine[i] in mine;
        }
      }
      forall c | c in Table.Values(circuits) && c.userId.text == caller.text ensures c in Table.Values(mine) {
        var i :| 0 <= i < |circuits| && circuits[i].1 == c;
        assert circuits[i] in mine;
        var j :| 0 <= j < |mine| && mine[j] == circuits[i];
      }
      Table.Values(mine)
    }

    /** `circuits.insert(key, circuit)` for a circuit stored under its own id and owner. */
    method Insert(key: (T.u32, string), circuit: ControllerCircuit)
      requires Valid() && circuit.id == key.0 && circuit.userId.text == key.1
      modifies this`circuits
      ensures Valid()
      ensures circuits == Table.Put(old(circuits), key, circuit, PairLess)
      ensures Table.Get(circuits, key) == W.Some(circuit) && Table.AgreeExcept(old(circuits), circuits, key)
    {
      PairOrder();
      forall k {
        Table.PutGet(circuits, key, circuit, PairLess, k);
      }
      Table.PutSorted(circuits, key, circuit, PairLess);
      Table.PutMembers(circuits, key, circuit, PairLess);
      var updated := Table.Put(circuits, key, circuit, PairLess);
      forall i | 0 <= i < |updated| ensures updated[i].1.id == updated[i].0.0 && updated[i].1.userId.text == updated[i].0.1 {
        assert updated[i] in updated;
        if updated[i] != (key, circuit) {
          var j :| 0 <= j < |circuits| && circuits[j] == updated[i];
        }
      }
      circuits := updated;
    }

    /**
     * `add_circuit` as written: the id is the cell's value plus one, the cell
     * itself is left as it was, and the circuit is written at `(id, caller)`.
     */
    method AddCircuit(data: PostCircuit, caller: T.Principal, now: T.u64) returns (c: ControllerCircuit)
      requires Valid()
      modifies this
      ensures Valid()
      ensures circuitId == old(circuitId)
      ensures c == NewCircuit(T.WrappingIncrement(old(circuitId)), caller, data, now)
      ensures circuits == Table.Put(old(circuits), (c.id, caller.text), c, PairLess)
      ensures Table.Get(circuits, (c.id, caller.text)) == W.Some(c)
      ensures Table.AgreeExcept(old(circuits), circuits, (c.id, caller.text))
    {
      var id := T.WrappingIncrement(circuitId);
      c := NewCircuit(id, caller, data, now);
      Insert((id, caller.text), c);
    }

    /**
     * `add_circuit` with the incremented id written back to the cell. While
     * the counter is ahead of the table and below the maximum, the key is new
     * and the table grows by one.
     */
    method AddCircuitAdvancing(data: PostCircuit, caller: T.Principal, now: T.u64) returns (c: ControllerCircuit)
      requires Valid()
      modifies this
      ensures Valid()
      ensures circuitId == T.WrappingIncrement(old(circuitId))
      ensures c == NewCircuit(circuitId, caller, data, now)
      ensures circuits == Table.Put(old(circuits), (c.id, caller.text), c, PairLess)
      ensures Table.AgreeExcept(old(circuits), circuits, (c.id, caller.text))
      ensures CounterAhead(old(circuits), old(circuitId)) && old(circuitId) < T.U32_MAX ==>
        && Table.Get(old(circuits), (c.id, caller.text)).None?
        && |circuits| == |old(circuits)| + 1
        && CounterAhead(circuits, circuitId)
    {
      var id := T.WrappingIncrement(circuitId);
      c := NewCircuit(id, caller, data, now);
      PairOrder();
      Table.PutMembers(circuits, (id, caller.text), c, PairLess);
      if CounterAhead(circuits, circuitId) && circuitId < T.U32_MAX {
        CounterKeyFresh(circuits, circuitId, caller.text);
        Table.PutLength(circuits, (id, caller.text), c, PairLess);
        var updated := Table.Put(circuits, (id, caller.text), c, PairLess);
        forall i | 0 <= i < |updated| ensures updated[i].0.0 <= id {
          assert updated[i] in updated;
          if updated[i] != ((id, caller.text), c) {
            var j :| 0 <= j < |circuits| && circuits[j] == updated[i];
          }
        }
      }
      Insert((id, caller.text), c);
      circuitId := id;
    }
  }

  // ---------------------------------------------------------------------------

  /**
   * With the cell never written, two `add_circuit` calls by one caller use the
   * same key: the second circuit replaces the first, and the table holds the
   * same number of entries as after the first call.
   */
  lemma SecondAddOverwritesFirst(t: CircuitTable, counter: T.u32, caller: T.Principal,
                                 first: PostCircuit, second: PostCircuit, now1: T.u64, now2: T.u64)
    requires Table.Sorted(t, PairLess)
    ensures var key := (T.WrappingIncrement(counter), caller.text);
      var c1 := NewCircuit(key.0, caller, first, now1);
      var c2 := NewCircuit(key.0, caller, second, now2);
      var afterFirst := Table.Put(t, key, c1, PairLess);
      var afterSecond := Table.Put(afterFirst, key, c2, PairLess);
      && afterSecond == Table.Put(t, key, c2, PairLess)
      && Table.Get(afterSecond, key) == W.Some(c2)
      && |afterSecond| == |afterFirst|
  {
    var key := (T.WrappingIncrement(counter), caller.text);
    var c1 := NewCircuit(key.0, caller, first, now1);
    var c2 := NewCircuit(key.0, caller, second, now2);
    PairOrder();
    var afterFirst := Table.Put(t, key, c1, PairLess);
    Table.PutPut(t, key, c1, c2, PairLess);
    Table.PutGet(afterFirst, key, c2, PairLess, key);
    Table.PutGet(t, key, c1, PairLess, key);
    Table.PutSorted(t, key, c1, PairLess);
    Table.PutLength(afterFirst, key, c2, PairLess);
  }

  /** While the counter is ahead of the table, the key one past it is not stored. */
  lemma CounterKeyFresh(t: CircuitTable, counter: T.u32, owner: string)
    requires CounterAhead(t, counter) && counter < T.U32_MAX
    ensures Table.Get(t, (counter + 1, owner)).None?
  {
    AboveLargestIdIsFresh(t, (counter + 1, owner), (k: (T.u32, string)) => k.0);
  }
}
