/**
 * The main canister's circuit store: circuits keyed by `(id, owner)`, where
 * the owner is the caller's principal text. A caller only ever reaches keys
 * carrying their own principal.
 */
module Circuits {
  import W = Wrappers
  import T = Types
  import Table
  import opened Keys
  import opened Entities

  type CircuitTable = seq<(CircuitKey, Circuit)>

  /** Each circuit sits under its own id and its owner's principal text. */
  ghost predicate KeyedByIdAndOwner(t: CircuitTable) {
    forall i :: 0 <= i < |t| ==> t[i].1.id == t[i].0.id && t[i].1.userId.text == t[i].0.owner
  }

  /** `filter(|(key, _)| caller.to_string() == key.owner)` as a predicate on entries. */
  function OwnedBy(owner: string): (CircuitKey, Circuit) -> bool {
    (k: CircuitKey, c: Circuit) => k.owner == owner
  }

  class CircuitsStore {
    /** `CIRCUITS`, in key order. */
    var circuits: CircuitTable

    ghost predicate Valid()
      reads this
    {
      Table.Sorted(circuits, CircuitKeyLess) && KeyedByIdAndOwner(circuits)
    }

    constructor ()
      ensures Valid() && circuits == []
    {
      circuits := [];
    }

    /** `get_circuits`: every circuit, in key order. */
    function GetCircuits(): (r: seq<Circuit>)
      reads this
      ensures |r| == |circuits| && forall i :: 0 <= i < |r| ==> r[i] == circuits[i].1
    {
      Table.Values(circuits)
    }

    /** `get_circuit`: the caller's circuit with this id, or `NotFound("NOT FOUND")`. */
    function GetCircuit(circuitId: T.u32, caller: T.Principal): (r: T.ApiResult<Circuit>)
      reads this
      requires Valid()
      ensures r.Ok? <==> Table.Get(circuits, CircuitKey(circuitId, caller.text)).Some?
      ensures r.Ok? ==> (CircuitKey(circuitId, caller.text), r.value) in circuits
      ensures r.Ok? ==> r.value.id == circuitId && r.value.userId.text == caller.text
      ensures r.Err? ==> r.error == T.NotFound("NOT FOUND")
    {
      var key := CircuitKey(circuitId, caller.text);
      match Table.Get(circuits, key)
      case None => W.Err(T.NotFound("NOT FOUND"))
      case Some(c) =>
        var i :| 0 <= i < |circuits| && circuits[i] == (key, c);
        W.Ok(c)
    }

    /** `get_user_circuits`: exactly the caller's circuits, in ascending id order. */
    function GetUserCircuits(caller: T.Principal): (r: seq<Circuit>)
      reads this
      requires Valid()
      ensures forall c :: c in r <==> c in Table.Values(circuits) && c.userId.text == caller.text
      ensures forall i, j :: 0 <= i < j < |r| ==> r[i].id < r[j].id
    {
      var mine := Table.Where(circuits, OwnedBy(caller.text));
      Table.WhereMembers(circuits, OwnedBy(caller.text));
      Table.WhereSorted(circuits, OwnedBy(caller.text), CircuitKeyLess);
      assert forall i :: 0 <= i < |mine| ==> mine[i].0.owner == caller.text && mine[i].1.id == mine[i].0.id by {
        forall i | 0 <= i < |mine| ensures mine[i].0.owner == caller.text && mine[i].1.id == mine[i].0.id {
          assert mine[i] in mine;
        }
      }
      forall c | c in Table.Values(circuits) && c.userId.text == caller.text ensures c in Table.Values(mine) {
        var i :| 0 <= i < |circuits| && circuits[i].1 == c;
        assert circuits[i] in mine;
        var j :| 0 <= j < |mine| && mine[j] == circuits[i];
      }
      Table.Values(mine)
    }

    /** `get_node_canister_id`: the node canister of the caller's circuit; a lookup failure passes through. */
    function GetNodeCanisterId(circuitId: T.u32, caller: T.Principal): (r: T.ApiResult<T.Principal>)
      reads this
      requires Valid()
      ensures r.Ok? <==> GetCircuit(circuitId, caller).Ok?
      ensures r.Ok? ==> r.value == GetCircuit(circuitId, caller).value.nodeCanisterId
      ensures r.Err? ==> r.error == GetCircuit(circuitId, caller).error
    {
      match GetCircuit(circuitId, caller)
      case Err(e) => W.Err(e)
      case Ok(c) => W.Ok(c.nodeCanisterId)
    }

    /** `circuits.insert(key, circuit)` for a circuit stored under its own id and owner. */
    method Insert(key: CircuitKey, circuit: Circuit)
      requires Valid() && circuit.id == key.id && circuit.userId.text == key.owner
      modifies this
      ensures Valid()
      ensures circuits == Table.Put(old(circuits), key, circuit, CircuitKeyLess)
      ensures Table.Get(circuits, key) == W.Some(circuit) && Table.AgreeExcept(old(circuits), circuits, key)
    {
      CircuitKeyOrder();
      forall k {
        Table.PutGet(circuits, key, circuit, CircuitKeyLess, k);
      }
      Table.PutSorted(circuits, key, circuit, CircuitKeyLess);
      Table.PutMembers(circuits, key, circuit, CircuitKeyLess);
      var updated := Table.Put(circuits, key, circuit, CircuitKeyLess);
      forall i | 0 <= i < |updated| ensures updated[i].1.id == updated[i].0.id && updated[i].1.userId.text == updated[i].0.owner {
        assert updated[i] in updated;
        if updated[i] != (key, circuit) {
          var j :| 0 <= j < |circuits| && circuits[j] == updated[i];
        }
      }
      circuits := updated;
    }

    /**
     * `add_circuit`: a disabled, idle circuit with no node canister yet, under
     * id "largest key id + 1"; while ids are left that key is new.
     */
    method AddCircuit(data: PostCircuit, caller: T.Principal, now: T.u64) returns (c: Circuit)
      requires Valid()
      modifies this
      ensures Valid()
      ensures c.id == NextId(old(circuits), CircuitKeyId) && c.userId == caller
      ensures c.nodeCanisterId == T.Anonymous && c.name == data.name && c.description == data.description
      ensures !c.isFavorite && !c.isRunning && !c.isEnabled && c.runAt == W.None
      ensures c.createdAt == now && c.updatedAt == now
      ensures circuits == Table.Put(old(circuits), CircuitKey(c.id, caller.text), c, CircuitKeyLess)
      ensures Table.Get(circuits, CircuitKey(c.id, caller.text)) == W.Some(c)
      ensures Table.AgreeExcept(old(circuits), circuits, CircuitKey(c.id, caller.text))
      ensures IdsLeft(old(circuits), CircuitKeyId) ==>
        Table.Get(old(circuits), CircuitKey(c.id, caller.text)).None? && |circuits| == |old(circuits)| + 1
    {
      var circuitId := NextId(circuits, CircuitKeyId);
      c := Circuit(circuitId, caller, T.Anonymous, data.name, data.description, false, false, false, W.None, now, now);
      var key := CircuitKey(circuitId, caller.text);
      if IdsLeft(circuits, CircuitKeyId) {
        CircuitKeysByIdFirst();
        NextIdFresh(circuits, CircuitKeyLess, CircuitKeyId, key);
        CircuitKeyOrder();
        Table.PutLength(circuits, key, c, CircuitKeyLess);
      }
      Insert(key, c);
    }

    /** `edit_circuit`: replaces name and description of the caller's circuit and stamps `updated_at`. */
    method EditCircuit(circuitId: T.u32, data: PostCircuit, caller: T.Principal, now: T.u64) returns (r: T.ApiResult<Circuit>)
      requires Valid()
      modifies this
      ensures Valid()
      ensures var key := CircuitKey(circuitId, caller.text);
        && (r.Err? <==> Table.Get(old(circuits), key).None?)
        && (r.Err? ==> r.error == T.NotFound("NOT FOUND") && circuits == old(circuits))
        && (r.Ok? ==> r.value == Table.Get(old(circuits), key).value.(name := data.name, description := data.description, updatedAt := now))
        && (r.Ok? ==> circuits == Table.Put(old(circuits), key, r.value, CircuitKeyLess))
        && Table.AgreeExcept(old(circuits), circuits, key)
    {
      var key := CircuitKey(circuitId, caller.text);
      var found := Table.Get(circuits, key);
      if found.None? {
        return W.Err(T.NotFound("NOT FOUND"));
      }
      var i :| 0 <= i < |circuits| && circuits[i] == (key, found.value);
      var circuit := found.value.(name := data.name, description := data.description, updatedAt := now);
      Insert(key, circuit);
      return W.Ok(circuit);
    }

    /** `toggle_circuit`: sets `is_enabled` of the caller's circuit and stamps `updated_at`. */
    method ToggleCircuit(circuitId: T.u32, enabled: bool, caller: T.Principal, now: T.u64) returns (r: T.ApiResult<Circuit>)
      requires Valid()
      modifies this
      ensures Valid()
      ensures var key := CircuitKey(circuitId, caller.text);
        && (r.Err? <==> Table.Get(old(circuits), key).None?)
        && (r.Err? ==> r.error == T.NotFound("NOT FOUND") && circuits == old(circuits))
        && (r.Ok? ==> r.value == Table.Get(old(circuits), key).value.(isEnabled := enabled, updatedAt := now))
        && (r.Ok? ==> circuits == Table.Put(old(circuits), key, r.value, CircuitKeyLess))
        && Table.AgreeExcept(old(circuits), circuits, key)
    {
      var key := CircuitKey(circuitId, caller.text);
      var found := Table.Get(circuits, key);
      if found.None? {
        return W.Err(T.NotFound("NOT FOUND"));
      }
      var i :| 0 <= i < |circuits| && circuits[i] == (key, found.value);
      var circuit := found.value.(isEnabled := enabled, updatedAt := now);
      Insert(key, circuit);
      return W.Ok(circuit);
    }
  }

  /** Another owner's circuit is never returned, whatever its id. */
  lemma OtherOwnersInvisible(store: CircuitsStore, circuitId: T.u32, caller: T.Principal, other: T.Principal)
    requires store.Valid() && other.text != caller.text
    ensures forall c :: c in store.GetUserCircuits(caller) ==> c.userId.text != other.text
    ensures store.GetCircuit(circuitId, caller).Ok? ==> store.GetCircuit(circuitId, caller).value.userId.text != other.text
  {
  }
}
