/**
 * The trace queries of the main canister and of the controllers canister:
 * both read the trace table and keep the traces of one circuit that belong
 * to the caller. Neither changes the table or fails.
 */
module Traces {
  import T = Types
  import Table
  import opened Keys
  import opened Entities

  type TraceTable = seq<(TraceKey, Trace)>

  /** `key.circuit_id == circuit_id && key.owner == caller.to_string()`. */
  function OfCircuitAndOwner(circuitId: T.u32, owner: string): (TraceKey, Trace) -> bool {
    (k: TraceKey, tr: Trace) => k.circuitId == circuitId && k.owner == owner
  }

  /** The matching entries; the table's key order carries over. */
  function CircuitTraceEntries(t: TraceTable, circuitId: T.u32, caller: T.Principal): (r: TraceTable)
    ensures forall e :: e in r <==> e in t && e.0.circuitId == circuitId && e.0.owner == caller.text
    ensures Table.Sorted(t, TraceKeyLess) ==> Table.Sorted(r, TraceKeyLess)
  {
    MatchingEntries(t, circuitId, caller.text);
    Table.WhereKeepsOrder(t, OfCircuitAndOwner(circuitId, caller.text), TraceKeyLess);
    Table.Where(t, OfCircuitAndOwner(circuitId, caller.text))
  }

  /** An entry passes the filter iff its key names this circuit and owner. */
  lemma MatchingEntries(t: TraceTable, circuitId: T.u32, owner: string)
    ensures forall e :: e in Table.Where(t, OfCircuitAndOwner(circuitId, owner)) <==>
      e in t && e.0.circuitId == circuitId && e.0.owner == owner
  {
    var p := OfCircuitAndOwner(circuitId, owner);
    Table.WhereMembers(t, p);
    forall e: (TraceKey, Trace)
      ensures e in Table.Where(t, p) <==> e in t && e.0.circuitId == circuitId && e.0.owner == owner
    {
      assert p(e.0, e.1) == (e.0.circuitId == circuitId && e.0.owner == owner);
    }
  }

  /**
   * `get_circuit_traces`: a stored trace is returned iff its key has this
   * circuit id and the caller as owner; the traces follow key order.
   */
  function GetCircuitTraces(t: TraceTable, circuitId: T.u32, caller: T.Principal): (r: seq<Trace>)
    ensures forall i :: 0 <= i < |t| && t[i].0.circuitId == circuitId && t[i].0.owner == caller.text ==> t[i].1 in r
    ensures forall tr :: tr in r ==>
      exists i :: 0 <= i < |t| && t[i].0.circuitId == circuitId && t[i].0.owner == caller.text && t[i].1 == tr
  {
    var entries := CircuitTraceEntries(t, circuitId, caller);
    forall i | 0 <= i < |t| && t[i].0.circuitId == circuitId && t[i].0.owner == caller.text
      ensures t[i].1 in Table.Values(entries)
    {
      assert t[i] in entries;
      var j :| 0 <= j < |entries| && entries[j] == t[i];
    }
    forall tr | tr in Table.Values(entries)
      ensures exists i :: 0 <= i < |t| && t[i].0.circuitId == circuitId && t[i].0.owner == caller.text && t[i].1 == tr
    {
      var j :| 0 <= j < |entries| && entries[j].1 == tr;
      assert entries[j] in entries;
      var i :| 0 <= i < |t| && t[i] == entries[j];
    }
    Table.Values(entries)
  }

  /** The traces are those of the matching entries, taken in key order. */
  lemma CircuitTracesInKeyOrder(t: TraceTable, circuitId: T.u32, caller: T.Principal)
    requires Table.Sorted(t, TraceKeyLess)
    ensures var entries := CircuitTraceEntries(t, circuitId, caller);
      && Table.Sorted(entries, TraceKeyLess)
      && GetCircuitTraces(t, circuitId, caller) == Table.Values(entries)
  {
  }

  /** With no matching key (an empty table included) the result is empty. */
  lemma NoMatchNoTraces(t: TraceTable, circuitId: T.u32, caller: T.Principal)
    requires forall i :: 0 <= i < |t| ==> t[i].0.circuitId != circuitId || t[i].0.owner != caller.text
    ensures GetCircuitTraces(t, circuitId, caller) == []
  {
    Table.WhereNone(t, OfCircuitAndOwner(circuitId, caller.text));
  }
}
