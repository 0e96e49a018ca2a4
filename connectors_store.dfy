/**
 * The main canister's connector store: connectors keyed by `(id, owner)`,
 * where the owner is the caller's principal text.
 */
module Connectors {
  import W = Wrappers
  import T = Types
  import Table
  import opened Keys
  import opened Entities

  type ConnectorTable = seq<(ConnectorKey, Connector)>

  /** Each connector sits under its own id and its owner's principal text. */
  ghost predicate KeyedByIdAndOwner(t: ConnectorTable) {
    forall i :: 0 <= i < |t| ==> t[i].1.id == t[i].0.id && t[i].1.userId.text == t[i].0.owner
  }

  /** `filter(|(key, _)| caller.to_string() == key.owner)` as a predicate on entries. */
  function OwnedBy(owner: string): (ConnectorKey, Connector) -> bool {
    (k: ConnectorKey, c: Connector) => k.owner == owner
  }

  class ConnectorsStore {
    /** `CONNECTORS`, in key order. */
    var connectors: ConnectorTable

    ghost predicate Valid()
      reads this
    {
      Table.Sorted(connectors, ConnectorKeyLess) && KeyedByIdAndOwner(connectors)
    }

    constructor ()
      ensures Valid() && connectors == []
    {
      connectors := [];
    }

    /** `get_user_connectors`: exactly the caller's connectors, in ascending id order. */
    function GetUserConnectors(caller: T.Principal): (r: seq<Connector>)
      reads this
      requires Valid()
      ensures forall c :: c in r <==> c in Table.Values(connectors) && c.userId.text == caller.text
      ensures forall i, j :: 0 <= i < j < |r| ==> r[i].id < r[j].id
    {
      var mine := Table.Where(connectors, OwnedBy(caller.text));
      Table.WhereMembers(connectors, OwnedBy(caller.text));
      Table.WhereSorted(connectors, OwnedBy(caller.text), ConnectorKeyLess);
      assert forall i :: 0 <= i < |mine| ==> mine[i].0.owner == caller.text && mine[i].1.id == mine[i].0.id by {
        forall i | 0 <= i < |mine| ensures mine[i].0.owner == caller.text && mine[i].1.id == mine[i].0.id {
          assert mine[i] in mine;
        }
      }
      forall c | c in Table.Values(connectors) && c.userId.text == caller.text ensures c in Table.Values(mine) {
        var i :| 0 <= i < |connectors| && connectors[i].1 == c;
        assert connectors[i] in mine;
        var j :| 0 <= j < |mine| && mine[j] == connectors[i];
      }
      Table.Values(mine)
    }

    /** `connectors.insert(key, connector)` for a connector stored under its own id and owner. */
    method Insert(key: ConnectorKey, connector: Connector)
      requires Valid() && connector.id == key.id && connector.userId.text == key.owner
      modifies this
      ensures Valid()
      ensures connectors == Table.Put(old(connectors), key, connector, ConnectorKeyLess)
      ensures Table.Get(connectors, key) == W.Some(connector) && Table.AgreeExcept(old(connectors), connectors, key)
    {
      ConnectorKeyOrder();
      forall k {
        Table.PutGet(connectors, key, connector, ConnectorKeyLess, k);
      }
      Table.PutSorted(connectors, key, connector, ConnectorKeyLess);
      Table.PutMembers(connectors, key, connector, ConnectorKeyLess);
      var updated := Table.Put(connectors, key, connector, ConnectorKeyLess);
      forall i | 0 <= i < |updated| ensures updated[i].1.id == updated[i].0.id && updated[i].1.userId.text == updated[i].0.owner {
        assert updated[i] in updated;
        if updated[i] != (key, connector) {
          var j :| 0 <= j < |connectors| && connectors[j] == updated[i];
        }
      }
      connectors := updated;
    }

    /** `add_connector`: the caller's new connector under id "largest key id + 1"; while ids are left that key is new. */
    method AddConnector(data: PostConnector, caller: T.Principal, now: T.u64) returns (c: Connector)
      requires Valid()
      modifies this
      ensures Valid()
      ensures c.id == NextId(old(connectors), ConnectorKeyId) && c.userId == caller
      ensures c.name == data.name && c.connectorType == data.connectorType
      ensures c.createdAt == now && c.updatedAt == now
      ensures connectors == Table.Put(old(connectors), ConnectorKey(c.id, caller.text), c, ConnectorKeyLess)
      ensures Table.Get(connectors, ConnectorKey(c.id, caller.text)) == W.Some(c)
      ensures Table.AgreeExcept(old(connectors), connectors, ConnectorKey(c.id, caller.text))
      ensures IdsLeft(old(connectors), ConnectorKeyId) ==>
        Table.Get(old(connectors), ConnectorKey(c.id, caller.text)).None? && |connectors| == |old(connectors)| + 1
    {
      var connectorId := NextId(connectors, ConnectorKeyId);
      c := Connector(connectorId, caller, data.name, data.connectorType, now, now);
      var key := ConnectorKey(connectorId, caller.text);
      if IdsLeft(connectors, ConnectorKeyId) {
        ConnectorKeysByIdFirst();
        NextIdFresh(connectors, ConnectorKeyLess, ConnectorKeyId, key);
        ConnectorKeyOrder();
        Table.PutLength(connectors, key, c, ConnectorKeyLess);
      }
      Insert(key, c);
    }

    /** `edit_connector`: replaces name and type of the caller's connector and stamps `updated_at`. */
    method EditConnector(connectorId: T.u32, data: PostConnector, caller: T.Principal, now: T.u64) returns (r: T.ApiResult<Connector>)
      requires Valid()
      modifies this
      ensures Valid()
      ensures var key := ConnectorKey(connectorId, caller.text);
        && (r.Err? <==> Table.Get(old(connectors), key).None?)
        && (r.Err? ==> r.error == T.NotFound("NOT FOUND") && connectors == old(connectors))
        && (r.Ok? ==> r.value == Table.Get(old(connectors), key).value.(name := data.name, connectorType := data.connectorType, updatedAt := now))
        && (r.Ok? ==> connectors == Table.Put(old(connectors), key, r.value, ConnectorKeyLess))
        && Table.AgreeExcept(old(connectors), connectors, key)
    {
      var key := ConnectorKey(connectorId, caller.text);
      var found := Table.Get(connectors, key);
      if found.None? {
        return W.Err(T.NotFound("NOT FOUND"));
      }
      var i :| 0 <= i < |connectors| && connectors[i] == (key, found.value);
      var connector := found.value.(name := data.name, connectorType := data.connectorType, updatedAt := now);
      Insert(key, connector);
      return W.Ok(connector);
    }
  }
}
