/**
 * The node canister's store: a table from node id to node, and on every node
 * a list of pins. Nodes are read, added, edited field by field and deleted;
 * pins are added, replaced and deleted by kind.
 */
module Nodes {
  import W = Wrappers
  import T = Types
  import Table
  import Keys
  import opened Entities

  type NodeTable = seq<(T.u32, Node)>

  // ---------------------------------------------------------------------------
  // Pins

  /** Two pin types of the same kind; the payloads are not compared. */
  predicate SameKind(a: PinType, b: PinType) {
    || (a.PrePin? && b.PrePin?)
    || (a.PostPin? && b.PostPin?)
    || (a.MapperPin? && b.MapperPin?)
    || (a.FilterPin? && b.FilterPin?)
    || (a.LookupTransformPin? && b.LookupTransformPin?)
    || (a.LookupFilterPin? && b.LookupFilterPin?)
  }

  /** `position(|pin| pin.pin_type == pin_type)`: whether a pin of exactly this type exists. */
  function HasPinType(pins: seq<Pin>, pinType: PinType): (r: bool)
    ensures r <==> exists i :: 0 <= i < |pins| && pins[i].pinType == pinType
  {
    if pins == [] then false
    else pins[0].pinType == pinType || HasPinType(pins[1..], pinType)
  }

  /** `position` with the kind match: the index of the first pin of the same kind. */
  function FirstOfKind(pins: seq<Pin>, pinType: PinType): (r: W.Option<nat>)
    ensures r.Some? ==> r.value < |pins| && SameKind(pins[r.value].pinType, pinType)
    ensures r.Some? ==> forall j :: 0 <= j < r.value ==> !SameKind(pins[j].pinType, pinType)
    ensures r.None? <==> forall j :: 0 <= j < |pins| ==> !SameKind(pins[j].pinType, pinType)
  {
    if pins == [] then W.None
    else if SameKind(pins[0].pinType, pinType) then W.Some(0)
    else match FirstOfKind(pins[1..], pinType)
      case None => W.None
      case Some(i) => W.Some(i + 1)
  }

  /** `Vec::remove(i)`: the element at `i` goes, the rest keep their order. */
  function RemoveAt<X>(s: seq<X>, i: nat): (r: seq<X>)
    requires i < |s|
    ensures |r| == |s| - 1
    ensures forall j :: 0 <= j < i ==> r[j] == s[j]
    ensures forall j :: i <= j < |r| ==> r[j] == s[j + 1]
  {
    s[..i] + s[i + 1..]
  }

  // ---------------------------------------------------------------------------
  // Node ids

  /** `(nodes.len() as u32) + 1`: the table size truncated to 32 bits, plus one with wrap-around. */
  function NextNodeId(t: NodeTable): (id: T.u32)
    ensures |t| < T.U32_MAX ==> id == |t| + 1
  {
    T.WrappingIncrement(|t| % 0x1_0000_0000)
  }

  /** Every node is stored under its own id. */
  ghost predicate IdsMatchKeys(t: NodeTable) {
    forall i :: 0 <= i < |t| ==> t[i].1.id == t[i].0
  }

  /** `iter().filter(node.circuit_id == circuit_id)` as a predicate on entries. */
  function InCircuit(circuitId: T.u32): (T.u32, Node) -> bool {
    (k: T.u32, n: Node) => n.circuitId == circuitId
  }

  /**
   * `get_circuit_nodes`: the nodes of one circuit in key order, paired with
   * the canister's own id. It never fails and changes nothing.
   */
  function CircuitNodes(t: NodeTable, circuitId: T.u32, canisterId: T.Principal): (r: T.ApiResult<(T.Principal, seq<Node>)>)
    ensures r.Ok? && r.value.0 == canisterId
    ensures forall n :: n in r.value.1 <==> n in Table.Values(t) && n.circuitId == circuitId
  {
    var matching := Table.Where(t, InCircuit(circuitId));
    Table.WhereMembers(t, InCircuit(circuitId));
    W.Ok((canisterId, Table.Values(matching)))
  }

  /** The circuit's nodes come in ascending id order, as the table iterates. */
  lemma CircuitNodesInIdOrder(t: NodeTable, circuitId: T.u32, canisterId: T.Principal)
    requires Table.Sorted(t, Keys.U32Less) && IdsMatchKeys(t)
    ensures var ns := CircuitNodes(t, circuitId, canisterId).value.1;
      forall i, j :: 0 <= i < j < |ns| ==> ns[i].id < ns[j].id
  {
    var w := Table.Where(t, InCircuit(circuitId));
    Table.WhereSorted(t, InCircuit(circuitId), Keys.U32Less);
    Table.WhereMembers(t, InCircuit(circuitId));
    assert forall i :: 0 <= i < |w| ==> w[i].1.id == w[i].0 by {
      forall i | 0 <= i < |w| ensures w[i].1.id == w[i].0 {
        assert w[i] in w;
      }
    }
  }

  /** In a table kept by id, the node found under a key carries that key as its id. */
  lemma StoredUnderOwnId(t: NodeTable, key: T.u32)
    requires IdsMatchKeys(t) && Table.Get(t, key).Some?
    ensures Table.Get(t, key).value.id == key
  {
    var e := (key, Table.Get(t, key).value);
    var i :| 0 <= i < |t| && t[i] == e;
  }

  // ---------------------------------------------------------------------------

  class NodesStore {
    /** `NODES`, in key order. */
    var nodes: NodeTable

    ghost predicate Valid()
      reads this
    {
      Table.Sorted(nodes, Keys.U32Less) && IdsMatchKeys(nodes)
    }

    constructor ()
      ensures Valid() && nodes == []
    {
      nodes := [];
    }

    /** `get_circuit_node`: the node under `nodeId`, or `NotFound("NOT FOUND")`. */
    function GetCircuitNode(nodeId: T.u32): (r: T.ApiResult<Node>)
      reads this
      requires Valid()
      ensures r.Ok? <==> Table.Get(nodes, nodeId).Some?
      ensures r.Ok? ==> (nodeId, r.value) in nodes && r.value.id == nodeId
      ensures r.Err? ==> r.error == T.NotFound("NOT FOUND")
    {
      match Table.Get(nodes, nodeId)
      case None => W.Err(T.NotFound("NOT FOUND"))
      case Some(node) =>
        StoredUnderOwnId(nodes, nodeId);
        W.Ok(node)
    }

    /** `nodes.insert(key, node)` for a node stored under its own id. */
    method Insert(key: T.u32, node: Node)
      requires Valid() && node.id == key
      modifies this
      ensures Valid()
      ensures nodes == Table.Put(old(nodes), key, node, Keys.U32Less)
      ensures Table.Get(nodes, key) == W.Some(node) && Table.AgreeExcept(old(nodes), nodes, key)
    {
      Keys.U32Order();
      forall k {
        Table.PutGet(nodes, key, node, Keys.U32Less, k);
      }
      Table.PutSorted(nodes, key, node, Keys.U32Less);
      Table.PutMembers(nodes, key, node, Keys.U32Less);
      var updated := Table.Put(nodes, key, node, Keys.U32Less);
      forall i | 0 <= i < |updated| ensures updated[i].1.id == updated[i].0 {
        assert updated[i] in updated;
        if updated[i] != (key, node) {
          var j :| 0 <= j < |nodes| && nodes[j] == updated[i];
        }
      }
      nodes := updated;
    }

    /** `add_node`: a fresh enabled node with no pins, id and order `len + 1`, written at that id. */
    method AddNode(circuitId: T.u32, data: NodeType, caller: T.Principal, now: T.u64) returns (r: T.ApiResult<Node>)
      requires Valid()
      modifies this
      ensures Valid() && r.Ok?
      ensures r.value.id == NextNodeId(old(nodes)) && r.value.order == r.value.id
      ensures r.value.circuitId == circuitId && r.value.userId == caller && r.value.nodeType == data
      ensures r.value.isEnabled && !r.value.isError && !r.value.isRunning && r.value.pins == []
      ensures r.value.createdAt == now && r.value.updatedAt == now
      ensures nodes == Table.Put(old(nodes), r.value.id, r.value, Keys.U32Less)
      ensures Table.Get(nodes, r.value.id) == W.Some(r.value) && Table.AgreeExcept(old(nodes), nodes, r.value.id)
    {
      var nodeId := NextNodeId(nodes);
      var node := Node(nodeId, circuitId, caller, true, false, false, data, nodeId, [], now, now);
      Insert(nodeId, node);
      return W.Ok(node);
    }

    /** `delete_node`: removes the node under `nodeId` and returns it. */
    method DeleteNode(nodeId: T.u32) returns (r: T.ApiResult<Node>)
      requires Valid()
      modifies this
      ensures Valid()
      ensures r.Err? <==> Table.Get(old(nodes), nodeId).None?
      ensures r.Err? ==> r.error == T.NotFound("NOT FOUND") && nodes == old(nodes)
      ensures r.Ok? ==> Table.Get(old(nodes), nodeId) == W.Some(r.value)
      ensures r.Ok? ==> nodes == Table.Remove(old(nodes), nodeId)
      ensures Table.Get(nodes, nodeId).None? && Table.AgreeExcept(old(nodes), nodes, nodeId)
    {
      var found := Table.Get(nodes, nodeId);
      if found.None? {
        return W.Err(T.NotFound("NOT FOUND"));
      }
      var node := found.value;
      StoredUnderOwnId(nodes, nodeId);
      Table.RemoveSorted(nodes, node.id, Keys.U32Less);
      Table.RemoveMembers(nodes, node.id);
      forall k {
        Table.RemoveGet(nodes, node.id, k);
      }
      nodes := Table.Remove(nodes, node.id);
      return W.Ok(node);
    }

    /** `edit_node`: replaces the node type and stamps `updated_at`. */
    method EditNode(nodeId: T.u32, data: NodeType, now: T.u64) returns (r: T.ApiResult<Node>)
      requires Valid()
      modifies this
      ensures Valid()
      ensures r.Err? <==> Table.Get(old(nodes), nodeId).None?
      ensures r.Err? ==> r.error == T.NotFound("NOT FOUND") && nodes == old(nodes)
      ensures r.Ok? ==> r.value == Table.Get(old(nodes), nodeId).value.(nodeType := data, updatedAt := now)
      ensures r.Ok? ==> nodes == Table.Put(old(nodes), nodeId, r.value, Keys.U32Less)
      ensures Table.AgreeExcept(old(nodes), nodes, nodeId)
    {
      var found := Table.Get(nodes, nodeId);
      if found.None? {
        return W.Err(T.NotFound("NOT FOUND"));
      }
      StoredUnderOwnId(nodes, nodeId);
      var node := found.value.(nodeType := data, updatedAt := now);
      Insert(nodeId, node);
      return W.Ok(node);
    }

    /** `edit_order`: replaces the order and stamps `updated_at`. */
    method EditOrder(nodeId: T.u32, order: T.u32, now: T.u64) returns (r: T.ApiResult<Node>)
      requires Valid()
      modifies this
      ensures Valid()
      ensures r.Err? <==> Table.Get(old(nodes), nodeId).None?
      ensures r.Err? ==> r.error == T.NotFound("NOT FOUND") && nodes == old(nodes)
      ensures r.Ok? ==> r.value == Table.Get(old(nodes), nodeId).value.(order := order, updatedAt := now)
      ensures r.Ok? ==> nodes == Table.Put(old(nodes), nodeId, r.value, Keys.U32Less)
      ensures Table.AgreeExcept(old(nodes), nodes, nodeId)
    {
      var found := Table.Get(nodes, nodeId);
      if found.None? {
        return W.Err(T.NotFound("NOT FOUND"));
      }
      StoredUnderOwnId(nodes, nodeId);
      var node := found.value.(order := order, updatedAt := now);
      Insert(nodeId, node);
      return W.Ok(node);
    }

    /** `toggle_node`: sets `is_enabled` and stamps `updated_at`. */
    method ToggleNode(nodeId: T.u32, enabled: bool, now: T.u64) returns (r: T.ApiResult<Node>)
      requires Valid()
      modifies this
      ensures Valid()
      ensures r.Err? <==> Table.Get(old(nodes), nodeId).None?
      ensures r.Err? ==> r.error == T.NotFound("NOT FOUND") && nodes == old(nodes)
      ensures r.Ok? ==> r.value == Table.Get(old(nodes), nodeId).value.(isEnabled := enabled, updatedAt := now)
      ensures r.Ok? ==> nodes == Table.Put(old(nodes), nodeId, r.value, Keys.U32Less)
      ensures Table.AgreeExcept(old(nodes), nodes, nodeId)
    {
      var found := Table.Get(nodes, nodeId);
      if found.None? {
        return W.Err(T.NotFound("NOT FOUND"));
      }
      StoredUnderOwnId(nodes, nodeId);
      var node := found.value.(isEnabled := enabled, updatedAt := now);
      Insert(nodeId, node);
      return W.Ok(node);
    }

    /**
     * `add_pin`: appends the pin unless a pin of exactly the same type (payload
     * included) is already there, which fails with `NotFound("ALREADY EXISTS")`.
     */
    method AddPin(nodeId: T.u32, data: Pin) returns (r: T.ApiResult<Node>)
      requires Valid()
      modifies this
      ensures Valid()
      ensures r.Err? ==> nodes == old(nodes)
      ensures Table.Get(old(nodes), nodeId).None? ==> r == W.Err(T.NotFound("NOT FOUND"))
      ensures Table.Get(old(nodes), nodeId).Some? ==>
        var node := Table.Get(old(nodes), nodeId).value;
        if HasPinType(node.pins, data.pinType) then r == W.Err(T.NotFound("ALREADY EXISTS"))
        else r == W.Ok(node.(pins := node.pins + [data]))
      ensures r.Ok? ==> nodes == Table.Put(old(nodes), nodeId, r.value, Keys.U32Less)
      ensures Table.AgreeExcept(old(nodes), nodes, nodeId)
    {
      var found := Table.Get(nodes, nodeId);
      if found.None? {
        return W.Err(T.NotFound("NOT FOUND"));
      }
      var node := found.value;
      if HasPinType(node.pins, data.pinType) {
        return W.Err(T.NotFound("ALREADY EXISTS"));
      }
      StoredUnderOwnId(nodes, nodeId);
      node := node.(pins := node.pins + [data]);
      Insert(nodeId, node);
      return W.Ok(node);
    }

    /**
     * `edit_pin`: replaces, in place, the first pin of the same kind as `data`;
     * `NotFound("NODE INDEX NOT FOUND")` when the node has no pin of that kind.
     */
    method EditPin(nodeId: T.u32, data: Pin) returns (r: T.ApiResult<Node>)
      requires Valid()
      modifies this
      ensures Valid()
      ensures r.Err? ==> nodes == old(nodes)
      ensures Table.Get(old(nodes), nodeId).None? ==> r == W.Err(T.NotFound("NOT FOUND"))
      ensures Table.Get(old(nodes), nodeId).Some? ==>
        var node := Table.Get(old(nodes), nodeId).value;
        match FirstOfKind(node.pins, data.pinType)
        case None => r == W.Err(T.NotFound("NODE INDEX NOT FOUND"))
        case Some(i) => r == W.Ok(node.(pins := node.pins[i := data]))
      ensures r.Ok? ==> nodes == Table.Put(old(nodes), nodeId, r.value, Keys.U32Less)
      ensures Table.AgreeExcept(old(nodes), nodes, nodeId)
    {
      var found := Table.Get(nodes, nodeId);
      if found.None? {
        return W.Err(T.NotFound("NOT FOUND"));
      }
      var node := found.value;
      var index := FirstOfKind(node.pins, data.pinType);
      if index.None? {
        return W.Err(T.NotFound("NODE INDEX NOT FOUND"));
      }
      StoredUnderOwnId(nodes, nodeId);
      node := node.(pins := node.pins[index.value := data]);
      Insert(nodeId, node);
      return W.Ok(node);
    }

    /**
     * `delete_pin`: removes the first pin of the same kind as `data`, keeping
     * the order of the others; the same errors as `EditPin`.
     */
    method DeletePin(nodeId: T.u32, data: Pin) returns (r: T.ApiResult<Node>)
      requires Valid()
      modifies this
      ensures Valid()
      ensures r.Err? ==> nodes == old(nodes)
      ensures Table.Get(old(nodes), nodeId).None? ==> r == W.Err(T.NotFound("NOT FOUND"))
      ensures Table.Get(old(nodes), nodeId).Some? ==>
        var node := Table.Get(old(nodes), nodeId).value;
        match FirstOfKind(node.pins, data.pinType)
        case None => r == W.Err(T.NotFound("NODE INDEX NOT FOUND"))
        case Some(i) => r == W.Ok(node.(pins := RemoveAt(node.pins, i)))
      ensures r.Ok? ==> nodes == Table.Put(old(nodes), nodeId, r.value, Keys.U32Less)
      ensures Table.AgreeExcept(old(nodes), nodes, nodeId)
    {
      var found := Table.Get(nodes, nodeId);
      if found.None? {
        return W.Err(T.NotFound("NOT FOUND"));
      }
      var node := found.value;
      var index := FirstOfKind(node.pins, data.pinType);
      if index.None? {
        return W.Err(T.NotFound("NODE INDEX NOT FOUND"));
      }
      StoredUnderOwnId(nodes, nodeId);
      node := node.(pins := RemoveAt(node.pins, index.value));
      Insert(nodeId, node);
      return W.Ok(node);
    }

    /** `add_node` with the id taken past the largest stored id, so it never overwrites while ids are left. */
    method AddNodeFresh(circuitId: T.u32, data: NodeType, caller: T.Principal, now: T.u64) returns (r: T.ApiResult<Node>)
      requires Valid()
      modifies this
      ensures Valid() && r.Ok?
      ensures r.value.id == Keys.NextId(old(nodes), Keys.U32Id) && r.value.order == r.value.id
      ensures r.value.circuitId == circuitId && r.value.userId == caller && r.value.nodeType == data
      ensures r.value.isEnabled && !r.value.isError && !r.value.isRunning && r.value.pins == []
      ensures r.value.createdAt == now && r.value.updatedAt == now
      ensures nodes == Table.Put(old(nodes), r.value.id, r.value, Keys.U32Less)
      ensures Keys.IdsLeft(old(nodes), Keys.U32Id) ==> Table.Get(old(nodes), r.value.id).None? && |nodes| == |old(nodes)| + 1
      ensures Table.Get(nodes, r.value.id) == W.Some(r.value) && Table.AgreeExcept(old(nodes), nodes, r.value.id)
    {
      var nodeId := Keys.NextId(nodes, Keys.U32Id);
      var node := Node(nodeId, circuitId, caller, true, false, false, data, nodeId, [], now, now);
      if Keys.IdsLeft(nodes, Keys.U32Id) {
        Keys.U32KeysByIdFirst();
        Keys.NextIdFresh(nodes, Keys.U32Less, Keys.U32Id, nodeId);
        Keys.U32Order();
        Table.PutLength(nodes, nodeId, node, Keys.U32Less);
      }
      Insert(nodeId, node);
      return W.Ok(node);
    }
  }

  // ---------------------------------------------------------------------------
  // The id rule of `add_node` reuses an id once a node has been deleted.

  /** A node for the examples below. */
  function SampleNode(id: T.u32): Node {
    Node(id, 1, T.Anonymous, true, false, false, NodeType(""), id, [], 0, 0)
  }

  /**
   * Nodes 1 and 2 exist, node 1 is deleted: the next id is `len + 1 = 2`,
   * which is taken, so `add_node` replaces node 2 and the table does not grow.
   */
  lemma AddNodeAfterDeleteOverwrites()
    ensures var t := Table.Remove([(1, SampleNode(1)), (2, SampleNode(2))], 1);
      && Table.Sorted(t, Keys.U32Less) && IdsMatchKeys(t)
      && NextNodeId(t) == 2
      && Table.Get(t, NextNodeId(t)) == W.Some(SampleNode(2))
      && |Table.Put(t, NextNodeId(t), SampleNode(NextNodeId(t)).(circuitId := 7), Keys.U32Less)| == |t|
  {
    var t0: NodeTable := [(1, SampleNode(1)), (2, SampleNode(2))];
    assert t0[1..] == [(2, SampleNode(2))];
    assert Table.Remove(t0, 1) == [(2, SampleNode(2))];
  }
}
