# circuitz-backend core, modelled in Dafny

This project models the core of the circuitz backend, a set of Internet
Computer canisters. Users build *circuits* of *nodes*; each node carries
*pins* (pre/post logic, mappers, filters, lookup transforms). Everything here
is a model stated in Dafny's terms, not the canisters themselves.

The model covers four parts. For each part, the Dafny files are given in
brackets.

- **The Candid → JSON projector** of `src/lib/conversion.rs` (`wrappers.dfy`,
  `types.dfy`, `decimal.dfy`, `json.dfy`, `candid.dfy`, `conversion.dfy`,
  `conversion_lemmas.dfy`). Candid values, types and programs, and JSON
  trees, are datatypes.
  - `idl2json` is the untyped path.
  - `convert_bytes`, `format_bytes` and `nybble2hex` are the byte-blob
    renderer. The `Hex` branch takes the form of a loop method (`FormatHex`)
    that is proved equal to the specification function `FormatBytes`.
  - `idl2json_with_weak_names`, `convert_idl_field`, `get_type_from_any`,
    `idl_prog::get_type` and `get_init_arg_type` are the schema-directed
    path. It falls back to the untyped path whenever the data does not fit
    the schema.
- **The keyed tables** of the node, circuit, connector, user, legacy
  controller-circuit and trace stores. Each is a class whose table field is
  a sorted association sequence (`table.dfy`), ordered by the key order that
  the key struct's derived `Ord` gives (`keys.dfy`). The stores are:
  - `nodes_store.dfy`;
  - `circuits_store.dfy`;
  - `connectors_store.dfy`;
  - `users_store.dfy`, which is shared by the main canister and the
    controllers canister, whose code is identical;
  - `controller_circuits_store.dfy`;
  - `traces_store.dfy`.

  Every mutator states its whole new table as `Table.Put` or `Table.Remove`
  of the old one. It also states that every other key reads as before
  (`Table.AgreeExcept`) and that the store invariant holds: the table is
  sorted, and each record sits under its own key.
- **`validate_anonymous`** and the way the controllers guard every store
  call with it (`utils.dfy`).
- **The idempotency key**: `"UUID-"` followed by the `{:02x}` rendering of
  the random bytes (`idempotency.dfy`). It is proved equal to the projector's
  hex rendering.

The clock (`time()`) is the parameter `now`. The canister's own id (`id()`)
is the parameter `canisterId`. The answer of the `raw_rand` call is the
argument of `IdempotencyKey`.

Rust's `u32` arithmetic is written out. `len as u32` truncates modulo 2^32,
and `+ 1` wraps (`Types.WrappingIncrement`), as in a release build.

## Model

| member | source | states |
|---|---|---|
| Conversion.Idl2Json | src/lib/conversion.rs:40-96 | a record gives one object member per field, in field order, keyed by the field label's text; a variant gives exactly one member; an option gives a one-element array; a vector gives either one array item per element or a hex string of two characters per element |
| ConversionLemmas.UntypedOptions | src/lib/conversion.rs:51-78 | `Opt(x)` becomes `[idl2json(x)]` and `None` becomes `[]` |
| ConversionLemmas.WideIntegersAsDecimalStrings | src/lib/conversion.rs:79-88 | `Int`, `Nat`, `Nat64` and `Int64` become a JSON string that parses back to exactly the integer carried |
| ConversionLemmas.NarrowIntegersAsNumbers | src/lib/conversion.rs:81-87 | `Nat8/16/32` and `Int8/16/32` become the JSON number of the same integer |
| ConversionLemmas.NumberTextAndFloats | src/lib/conversion.rs:45-50 | `Number(s)` becomes the string `s` verbatim; a finite float becomes a JSON number with the same bits and a non-finite one the string `"NaN"`, for `f64` and `f32` alike |
| ConversionLemmas.UntypedRecordsAndVariants | src/lib/conversion.rs:54-66 | member `i` of a record is `(label text of field i, idl2json of its value)`, one per field; a variant is the object of exactly its one field |
| ConversionLemmas.UntypedFunc | src/lib/conversion.rs:69-77 | `Func(p, m)` becomes the object with exactly the keys `principal` and `code`, in that order |
| ConversionLemmas.UntypedVec | src/lib/conversion.rs:52-53 | a vector of bytes takes the byte rendering; any other vector is rendered element by element |
| ConversionLemmas.UntypedSingleByteAsHex | src/lib/conversion.rs:52-53 | with `bytes_as = Hex` a one-byte vector becomes the string `"0a"` |
| Conversion.ConvertNonBytesArray | src/lib/conversion.rs:99-106 | an array of the same length whose item `i` is `idl2json` of element `i` |
| Conversion.IdlArgs2Json | src/lib/conversion.rs:111-113 | the array of the untyped renderings of the arguments, in order |
| Conversion.ConvertBytes | src/lib/conversion.rs:116-123 | succeeds iff every element is a `Nat8`; uses the long-bytes format when one is set and the length reaches its threshold, else `bytes_as`, else `Numbers` |
| Conversion.FormatBytes | src/lib/conversion.rs:125-153 | `Err` iff some element is not a `Nat8`; `Numbers` gives the byte values in order; `Hex` gives a string of length `2·len` with the high then the low nybble digit of byte `i` at positions `2i` and `2i+1` |
| Conversion.FormatHex | src/lib/conversion.rs:142-153 | the `for` loop that appends two digits per byte and returns `Err` at the first non-byte computes exactly `FormatBytes(xs, Hex)` |
| Conversion.Nybble2Hex | src/lib/conversion.rs:170-190 | a value below 16 gives one character whose hex digit value is that nybble; anything larger gives `"?"` |
| Conversion.Nybble2HexInjective | src/lib/conversion.rs:170-190 | distinct nybbles give distinct digits |
| Conversion.HexStringLayout | src/lib/conversion.rs:143-152 | the hex rendering has two characters per byte, high nybble first, in byte order |
| Conversion.HexRoundTrip | src/lib/conversion.rs:142-153 | reading the hex rendering back recovers the bytes exactly |
| Conversion.HexStringInjective | src/lib/conversion.rs:142-153 | distinct byte sequences never share a hex rendering |
| ConversionLemmas.NumbersBlobIsElementwise | src/lib/conversion.rs:127-141 | without any hex setting, the blob rendering of a vector equals its element-wise rendering |
| ConversionLemmas.HexBlobDecodes | src/lib/conversion.rs:116-153 | a byte vector is rendered as a string exactly when the format chosen for its length is hex, through `bytes_as` or `long_bytes_as`, and that string decodes back to its bytes |
| ConversionLemmas.HexBlobsInjective | src/lib/conversion.rs:142-153 | two byte vectors with the same hex rendering hold the same bytes |
| Decimal.NatToStringCorrect | src/lib/conversion.rs:79-80 | the decimal text of `n` is a non-empty string of digits with no leading zero, whose value is `n` |
| Decimal.IntToStringRoundTrip | src/lib/conversion.rs:79-80 | parsing the decimal text of an integer, sign included, gives the integer back |
| Decimal.IntToStringInjective | src/lib/conversion.rs:79-80 | distinct integers have distinct decimal texts |
| Conversion.FirstDeclaration | src/lib/conversion.rs:317-326 | the index of the first type declaration with that name, or none iff no type declaration has it |
| Conversion.GetTypeNone | src/lib/conversion.rs:317-326 | `get_type` finds nothing iff no `TypD` declaration has the name |
| Conversion.GetTypeFirst | src/lib/conversion.rs:317-326 | `get_type` returns the type of the first `TypD` with the name, whatever follows it |
| Conversion.GetTypeFromAnyNone | src/lib/conversion.rs:288-290 | a name is unresolved iff no program declares it |
| Conversion.GetTypeFromAnyFirst | src/lib/conversion.rs:288-290 | a name resolves to its declaration in the first program that declares it |
| Conversion.GetInitArgType | src/lib/conversion.rs:331-333 | `Some` iff the actor is a `ClassT`, and then exactly its argument types |
| Conversion.AliasStep | src/lib/conversion.rs:206-209 | when declarations hold no alias cycle, resolving a name strictly lowers the alias depth, so the recursion ends |
| Conversion.FindTypeField | src/lib/conversion.rs:297-298 | the index of the first type field whose label id equals the field's id, or none iff no type field has that id |
| Conversion.Idl2JsonWithWeakNames | src/lib/conversion.rs:204-283 | the same shapes as the untyped path: one member per record field, one member per variant, one-element array per option, one item per vector element or two characters per byte |
| Conversion.WeakNamesByShape | src/lib/conversion.rs:215-282 | for a type that is not an alias, the same shape guarantees as `Idl2JsonWithWeakNames` |
| ConversionLemmas.WeakNamesUnresolved | src/lib/conversion.rs:206-213 | an unresolved `VarT` name gives exactly the untyped rendering |
| ConversionLemmas.WeakNamesFollowsAlias | src/lib/conversion.rs:206-208 | a resolved `VarT` name gives the rendering under the type it resolves to |
| ConversionLemmas.WeakNamesMismatch | src/lib/conversion.rs:224-251 | an option, vector, record or variant paired with a type of another constructor gives exactly the untyped rendering |
| ConversionLemmas.WeakNamesScalar | src/lib/conversion.rs:215-281 | a value that holds no other value renders as in the untyped path, whatever the type |
| ConversionLemmas.WeakNamesBlob | src/lib/conversion.rs:228-231 | a vector typed `vec nat8` renders exactly as the untyped byte path |
| ConversionLemmas.WeakNamesTypedItems | src/lib/conversion.rs:232-238 | a vector with any other item type renders element by element with that item type |
| ConversionLemmas.WeakNamesFields | src/lib/conversion.rs:241-250 | a typed record gives one `convert_idl_field` pair per data field, in order; a typed variant gives the object of its one converted field |
| ConversionLemmas.ConvertIdlFieldTyped | src/lib/conversion.rs:296-302 | a field matched by the first type field with its label id is keyed by that type label and converted with that type |
| ConversionLemmas.ConvertIdlFieldUntyped | src/lib/conversion.rs:303 | a field with no matching type field keeps its own label and is converted untyped |
| ConversionLemmas.WeakNamesPreservesData | src/lib/conversion.rs:194-199 | without hex settings, the schema only renames: erasing object keys, the typed and the untyped renderings are the same tree |
| ConversionLemmas.ShapePreservesData | src/lib/conversion.rs:215-282 | the same data preservation for a type that is not an alias |
| ConversionLemmas.ItemsPreserveData | src/lib/conversion.rs:232-238 | the same data preservation for vectors converted element by element |
| ConversionLemmas.FieldsPreserveData | src/lib/conversion.rs:241-247 | the same data preservation for typed records |
| ConversionLemmas.FieldPreservesData | src/lib/conversion.rs:296-304 | a converted field's value is the untyped value up to object keys |
| ConversionLemmas.ScenarioBool | src/lib/conversion.rs:42 | `true` becomes the JSON `true` |
| ConversionLemmas.ScenarioBytesDefault | src/lib/conversion.rs:127-141 | by default the bytes `0a ff` become the array `[10, 255]` |
| ConversionLemmas.ScenarioBytesHex | src/lib/conversion.rs:142-153 | with hex the bytes `0a ff` become the string `"0aff"` |
| ConversionLemmas.ScenarioRecord | src/lib/conversion.rs:296-304 | a record field takes the schema's name only when its id is the hash of that name |
| ConversionLemmas.NameHash | src/lib/conversion.rs:297-298 | the label id that `get_id` gives the field name `name` is 1224700491, so it does not match the field id 1 |
| ConversionLemmas.ByteAliasResolves | src/lib/conversion.rs:288-290 | in a program declaring `type byte = nat8`, `byte` resolves to `nat8` and no alias cycle exists |
| ConversionLemmas.AliasedByteItemsStayNumbers | src/lib/conversion.rs:228-238 | with hex set, a vector typed `vec byte` stays an array of numbers while the untyped path renders it as hex |
| Types.WrappingIncrement | src/nodes/modules/nodes/nodes_store.rs:141 | `u32` plus one: one more below the maximum, zero at the maximum |
| Keys.CircuitKeyOrder | src/canister/lib/types/circuit_key.rs:6-10 | the derived order on `CircuitKey` (id, then owner) is a strict total order |
| Keys.ConnectorKeyOrder | src/lib/types/connector_key.rs:6-10 | the derived order on `ConnectorKey` is a strict total order |
| Keys.PairOrder | src/controllers/circuits/circuits_store.rs:29 | the tuple order on `(u32, String)` is a strict total order |
| Keys.TraceKeyOrder | src/canister/lib/types/trace_key.rs:6-12 | the derived order on `TraceKey` (id, circuit id, node id, owner) is a strict total order |
| Keys.StringOrder | src/canister/canister_storage.rs:39-41 | `String`'s order on user keys is a strict total order |
| Keys.NextId | src/canister/modules/circuits/circuits_store.rs:94-98 | 1 in an empty table, else the largest key's id plus one |
| Keys.NextIdFresh | src/canister/modules/circuits/circuits_store.rs:94-98 | in a table ordered by id first, the key with "largest id + 1" is not stored, whatever its other fields, while that id does not wrap |
| Nodes.NodesStore.constructor | src/nodes/canister_storage.rs:20-22 | the store starts empty and valid |
| Nodes.NodesStore.GetCircuitNode | src/nodes/modules/nodes/nodes_store.rs:53-68 | the node stored under the id, which carries that id, or `NotFound("NOT FOUND")` iff the id is absent |
| Nodes.CircuitNodes | src/nodes/modules/nodes/nodes_store.rs:78-96 | always `Ok`, paired with the canister id; a node is returned iff it is stored and has the circuit id |
| Nodes.CircuitNodesInIdOrder | src/controllers/nodes/nodes_store.rs:55-59 | the returned nodes come in ascending id order |
| Nodes.NodesStore.DeleteNode | src/nodes/modules/nodes/nodes_store.rs:106-124 | `NotFound("NOT FOUND")` iff the id is absent, with the table unchanged; otherwise returns the stored node and removes exactly that key |
| Nodes.NextNodeId | src/nodes/modules/nodes/nodes_store.rs:141 | the table size plus one, for tables below the `u32` maximum |
| Nodes.NodesStore.AddNode | src/nodes/modules/nodes/nodes_store.rs:135-162 | id and order are `len + 1`; enabled, not in error, not running, no pins, created and updated now; written at that id with every other key untouched |
| Nodes.NodesStore.EditNode | src/nodes/modules/nodes/nodes_store.rs:173-195 | only `node_type` and `updated_at` change; a missing id gives `NotFound("NOT FOUND")` and changes nothing |
| Nodes.NodesStore.EditOrder | src/nodes/modules/nodes/nodes_store.rs:206-228 | only `order` and `updated_at` change; a missing id gives `NotFound("NOT FOUND")` and changes nothing |
| Nodes.NodesStore.ToggleNode | src/nodes/modules/nodes/nodes_store.rs:239-261 | only `is_enabled` and `updated_at` change; a missing id gives `NotFound("NOT FOUND")` and changes nothing |
| Nodes.HasPinType | src/nodes/modules/nodes/nodes_store.rs:286 | true iff some pin's type equals the given one, payload included |
| Nodes.NodesStore.AddPin | src/nodes/modules/nodes/nodes_store.rs:272-302 | `NotFound("ALREADY EXISTS")` iff a pin of exactly that type exists; otherwise the pin is appended after the existing pins |
| Nodes.FirstOfKind | src/nodes/modules/nodes/nodes_store.rs:329-339 | the index of the first pin of the same kind, payload ignored, or none iff no pin has that kind |
| Nodes.NodesStore.EditPin | src/nodes/modules/nodes/nodes_store.rs:313-354 | replaces the first pin of the same kind in place; `NotFound("NODE INDEX NOT FOUND")` when none exists |
| Nodes.RemoveAt | src/nodes/modules/nodes/nodes_store.rs:401 | `Vec::remove`: one element fewer, the others in their order |
| Nodes.NodesStore.DeletePin | src/nodes/modules/nodes/nodes_store.rs:365-406 | removes the first pin of the same kind and keeps the others in order; `NotFound("NODE INDEX NOT FOUND")` when none exists |
| Nodes.StoredUnderOwnId | src/nodes/modules/nodes/nodes_store.rs:158 | in a table the store keeps, the node found under a key has that key as its id |
| Nodes.AddNodeAfterDeleteOverwrites | src/nodes/modules/nodes/nodes_store.rs:141 | after nodes 1 and 2 are added and node 1 is deleted, the next id is 2, which is taken, so `add_node` does not grow the table |
| Nodes.NodesStore.AddNodeFresh | src/nodes/modules/nodes/nodes_store.rs:135-162 | `add_node` with id "largest id + 1": while ids are left, the key is new and the table grows by one |
| Circuits.CircuitsStore.constructor | src/canister/canister_storage.rs:31-33 | the store starts empty and valid |
| Circuits.CircuitsStore.GetCircuits | src/canister/modules/circuits/circuits_store.rs:14-23 | every stored circuit, in key order |
| Circuits.CircuitsStore.GetCircuit | src/canister/modules/circuits/circuits_store.rs:33-47 | the circuit under `(id, caller)`, which has that id and owner, or `NotFound("NOT FOUND")` iff that key is absent |
| Circuits.CircuitsStore.GetUserCircuits | src/canister/modules/circuits/circuits_store.rs:56-66 | a circuit is returned iff it is stored and owned by the caller; ids ascend |
| Circuits.OtherOwnersInvisible | src/canister/modules/circuits/circuits_store.rs:38-45 | neither query ever returns another owner's circuit |
| Circuits.CircuitsStore.GetNodeCanisterId | src/canister/modules/circuits/circuits_store.rs:76-80 | the node canister of `get_circuit`'s result, with its error passed through |
| Circuits.CircuitsStore.AddCircuit | src/canister/modules/circuits/circuits_store.rs:90-121 | id "largest key id + 1", anonymous node canister, not favourite, running or enabled, no run time, created and updated now; while ids are left the key is new and the table grows by one |
| Circuits.CircuitsStore.EditCircuit | src/canister/modules/circuits/circuits_store.rs:132-156 | only name, description and `updated_at` of the caller's circuit change; a missing key gives `NotFound("NOT FOUND")` and changes nothing |
| Circuits.CircuitsStore.ToggleCircuit | src/canister/modules/circuits/circuits_store.rs:166-189 | only `is_enabled` and `updated_at` change; a missing key gives `NotFound("NOT FOUND")` and changes nothing |
| Connectors.ConnectorsStore.constructor | src/canister/canister_storage.rs:43-45 | the store starts empty and valid |
| Connectors.ConnectorsStore.GetUserConnectors | src/canister/modules/connectors/connectors_store.rs:16-26 | a connector is returned iff it is stored and owned by the caller; ids ascend |
| Connectors.ConnectorsStore.AddConnector | src/canister/modules/connectors/connectors_store.rs:36-63 | id "largest key id + 1", the caller, the given name and type, created and updated now, at `(id, caller)`; while ids are left the key is new |
| Connectors.ConnectorsStore.EditConnector | src/canister/modules/connectors/connectors_store.rs:74-102 | only name, connector type and `updated_at` change; a missing key gives `NotFound("NOT FOUND")` and changes nothing |
| Users.UsersStore.constructor | src/canister/canister_storage.rs:39-41 | the store starts empty and valid |
| Users.UsersStore.GetUsers | src/canister/modules/users/users_store.rs:12-21 | every user, in key order |
| Users.UsersStore.GetUser | src/controllers/users/users_store.rs:48-55 | the user keyed by the caller, or `NotFound("USER_NOT_FOUND")` iff absent |
| Users.UsersStore.CreateUser | src/canister/modules/users/users_store.rs:47-73 | `AlreadyExists("USER_EXISTS")` iff the caller has a user, with the table unchanged; otherwise stores the caller's user with the username, no circuits and `created_at = now`, grows the table by one and `get_user` then returns it |
| ControllerCircuits.NewCircuit | src/controllers/circuits/circuits_store.rs:75-85 | the new circuit: the given id, the caller, name and description, not favourite or enabled, no run time, created and updated now |
| ControllerCircuits.CircuitsStore.constructor | src/controllers/circuits/circuits_store.rs:21-26 | the counter starts at 0 and the table empty |
| ControllerCircuits.CircuitsStore.GetUserCircuits | src/controllers/circuits/circuits_store.rs:42-52 | a circuit is returned iff it is stored and its key names the caller; ids ascend |
| ControllerCircuits.CircuitsStore.AddCircuit | src/controllers/circuits/circuits_store.rs:62-92 | id is the counter plus one, the counter is left as it was, and the circuit is written at `(id, caller)` |
| ControllerCircuits.SecondAddOverwritesFirst | src/controllers/circuits/circuits_store.rs:88 | two calls by one caller against the unchanged counter write the same key: the second circuit replaces the first and the table does not grow |
| ControllerCircuits.CounterKeyFresh | src/controllers/circuits/circuits_store.rs:63-70 | while every stored id is at most the counter, the key with the counter plus one is not stored |
| ControllerCircuits.CircuitsStore.AddCircuitAdvancing | src/controllers/circuits/circuits_store.rs:62-92 | `add_circuit` with the counter written back: while the counter is ahead of the table, the key is new, the table grows by one and the counter stays ahead |
| Traces.CircuitTraceEntries | src/canister/modules/traces/traces_store.rs:20-24 | an entry is kept iff its key has the circuit id and the caller as owner; key order is kept |
| Traces.MatchingEntries | src/controllers/traces/traces_store.rs:34 | the filter keeps an entry iff its key names this circuit and owner |
| Traces.GetCircuitTraces | src/canister/modules/traces/traces_store.rs:15-28 | a stored trace is returned iff its key has the circuit id and the caller as owner |
| Traces.CircuitTracesInKeyOrder | src/controllers/traces/traces_store.rs:32-36 | the traces are those of the matching entries, in key order |
| Traces.NoMatchNoTraces | src/canister/modules/traces/traces_store.rs:20-26 | with no matching key, an empty table included, the result is empty |
| Utils.ValidateAnonymous | src/lib/utils.rs:11-22 | `Unauthorized("UNAUTHORIZED")` iff the principal is `2vxsx-fae`; otherwise `Ok` of the same principal |
| Utils.ValidateIdempotent | src/lib/utils.rs:11-22 | a validated principal is not anonymous and validates to itself again |
| Utils.Guarded | src/nodes/modules/nodes/nodes_controller.rs:16-19 | the anonymous caller gets the guard's error; any other caller gets the store's answer |
| Utils.GuardIgnoresStoreForAnonymous | src/nodes/modules/nodes/nodes_controller.rs:16-19 | the anonymous caller gets the same error whatever the endpoint |
| Idempotency.Hex02 | src/canister/lib/utils/idempotency.rs:12 | `{:02x}` of a byte has exactly two characters |
| Idempotency.IdempotencyKey | src/canister/lib/utils/idempotency.rs:4-21 | a failed call gives `InterCanister("Failed to generate random number")`; otherwise the key starts with `UUID-` and has length `5 + 2·len` |
| Idempotency.Hex02IsByteHex | src/canister/lib/utils/idempotency.rs:12 | `{:02x}` of a byte is the high and then the low digit of the projector's byte rendering |
| Idempotency.HexOfBytesIsHexString | src/canister/lib/utils/idempotency.rs:10-14 | the key's hex part is the projector's `Hex` rendering of the same bytes |
| Idempotency.KeyLayout | src/canister/lib/utils/idempotency.rs:9-15 | byte `k` sits at positions `5+2k` (high nybble) and `6+2k` (low nybble) as lowercase hex digits |
| Idempotency.KeysInjective | src/canister/lib/utils/idempotency.rs:9-15 | different random bytes give different keys |

## Left out

- HTTP outcalls are not modelled, because they are network I/O and asynchronous. This covers `preview_lookup_canister`, `preview_lookup_http_request`, `http_request_call` and the `transform` header rewriter.
- The `raw_rand` call is not modelled: it is a foreign asynchronous call. Its bytes, or its failure, are the input of `IdempotencyKey`.
- Float formatting is not modelled. A float is modelled by its bit pattern. Only the split "finite → number, otherwise `"NaN"`" is kept. Widening an `f32` to `f64` is exact, so an `f32` number is identified by its own bits.
- The text renderings of principals, labels and `Reserved` are foreign code, so they are inputs: `Display.labelText` and `Display.reservedText`. A principal is identified by its textual form, so `to_string()` is its `text`. The projector's Label hash (`idl_hash`) is computed over UTF-8, modulo 2^32.
- JSON objects are the sequence of pairs that `collect()` receives. How serde_json's map then orders the keys, or drops a duplicate key, depends on a crate feature that is not visible here.
- The feature-gated `Sha256` bytes format is left out; it is hashing outside the shown enum. The whitespace-only `compact` flag is left out too.
- Storage plumbing is left out: the memory managers, `StableBTreeMap` set-up and `Storable` encoding. Each table is an ordered association sequence instead.
- The controller endpoints are not each modelled: they only run `validate_anonymous` and delegate. `Utils.Guarded` models that pattern once. Candid export, `save_candid` and the `lib.rs` files are left out as glue.
- `TupleVariant` is left out: only its datatype appears, and no operation on it.
- The failure branch of `Principal::from_text("2vxsx-fae")` in `validate_anonymous` is not modelled. That text is a valid principal, so the branch cannot be taken.
- Idl2JsonWithWeakNames requires that alias declarations hold no cycle (`AcyclicAliases`). A declaration such as `type A = A` makes the source recurse without end. `AcyclicAliases` ranges over every declared name, so a list of programs with an alias cycle anywhere is outside the model, even for a conversion that never reaches the cycle.
- ConversionLemmas.WeakNamesPreservesData, ConversionLemmas.ShapePreservesData, ConversionLemmas.ItemsPreserveData, ConversionLemmas.FieldsPreserveData and ConversionLemmas.FieldPreservesData are proved only for options that never choose hex (`NumbersOnly`). With hex chosen, the source renders a vector whose declared item type is anything but `nat8` (an alias of `nat8` included) element by element, as numbers, while the untyped path spells the same bytes as a hex string (src/lib/conversion.rs:228-238; ConversionLemmas.AliasedByteItemsStayNumbers). The two renderings then differ in form, though neither drops a byte. The model follows the code here: only an item type written as `nat8` takes the blob path.
- Idl2JsonWithWeakNames: its own contract states only the shape of the result. ConversionLemmas state what it equals on each branch.
- The `Connector` and `ControllerCircuit` records follow the values the stores build: the literal in `add_connector` (src/canister/modules/connectors/connectors_store.rs:46-53) and the one in `add_circuit` (src/controllers/circuits/circuits_store.rs:75-85). They do not follow the differing structs in src/lib/types/connector.rs:7-11 and src/lib/types/circuit.rs:5-11.
- `NodeType`, the connector's authentication and the trace payload fields are opaque values. The stores only store and replace them.
- The `LookupFilterPin` payload is modelled as a list of condition groups. The nodes store matches on this variant, but the shown `src/lib/types/node_pin.rs` does not declare it.
- The controllers canister's nodes store uses the same `Node` shape as the node canister. Its declaring file is not part of this model.
- The controllers' `TraceKey` comes from a types file that is not part of this model. It is taken to have the same fields as the main canister's `TraceKey`.
- Nodes.NodesStore.AddPin, Nodes.NodesStore.EditPin and Nodes.NodesStore.DeletePin leave `updated_at` as it was, as the source does.

## Findings

| source | as written | input that shows it | evidently intended | confidence | as-written member | corrected member |
|---|---|---|---|---|---|---|
| src/nodes/modules/nodes/nodes_store.rs:141 | a new node's id is `len + 1` | add nodes 1 and 2, then delete node 1: the next id is 2, so `add_node` overwrites node 2 | a new node gets an id no stored node has, for example the largest id plus one, as the circuit and connector stores do | not executed | Nodes.AddNodeAfterDeleteOverwrites | Nodes.NodesStore.AddNodeFresh |
| src/controllers/circuits/circuits_store.rs:63-70 | `CIRCUIT_ID` is read, and only a local copy is incremented | two `add_circuit` calls by one caller both get id `CIRCUIT_ID + 1`, so the second overwrites the first | the incremented id is written back to the cell, so each call gets a fresh key | not executed | ControllerCircuits.SecondAddOverwritesFirst | ControllerCircuits.CircuitsStore.AddCircuitAdvancing |
