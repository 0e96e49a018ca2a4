/**
 * The records the stores keep. Fields the stores only carry around (node
 * configurations, connector settings, trace payloads) are kept as values the
 * model never looks into.
 */
module Entities {
  import W = Wrappers
  import T = Types

  // ---------------------------------------------------------------------------
  // Nodes and their pins

  /** The node configuration; the nodes store only stores and replaces it. */
  datatype NodeType = NodeType(config: string)

  datatype CustomPinLogic = CustomPinLogic(functionName: W.Option<string>, script: W.Option<string>)
  datatype Mapper = Mapper(input: string, output: string, interface: string)
  datatype Condition = Not | Is
  datatype ConditionGroupType = And | Or
  datatype Operator = Equal | NotEqual | GreaterThan | LessThan | GreaterThanOrEqual | LessThanOrEqual | In | NotIn
  datatype ConditionGroup = ConditionGroup(
    condition: Condition,
    conditionGroupType: W.Option<ConditionGroupType>,
    field: string,
    operator: Operator,
    value: string)
  datatype LookupTransform = LookupTransform(input: string, output: string)

  /** The six pin kinds the nodes store distinguishes. */
  datatype PinType =
    | PrePin(preLogic: CustomPinLogic)
    | PostPin(postLogic: CustomPinLogic)
    | MapperPin(mapper: Mapper)
    | FilterPin(filter: seq<ConditionGroup>)
    | LookupTransformPin(transform: LookupTransform)
    | LookupFilterPin(lookupFilter: seq<ConditionGroup>)

  datatype Pin = Pin(pinType: PinType, order: T.u32)

  /** A node as the nodes store builds it. */
  datatype Node = Node(
    id: T.u32,
    circuitId: T.u32,
    userId: T.Principal,
    isEnabled: bool,
    isError: bool,
    isRunning: bool,
    nodeType: NodeType,
    order: T.u32,
    pins: seq<Pin>,
    createdAt: T.u64,
    updatedAt: T.u64)

  // ---------------------------------------------------------------------------
  // Circuits

  datatype Circuit = Circuit(
    id: T.u32,
    userId: T.Principal,
    nodeCanisterId: T.Principal,
    name: string,
    description: W.Option<string>,
    isFavorite: bool,
    isEnabled: bool,
    isRunning: bool,
    runAt: W.Option<T.u64>,
    createdAt: T.u64,
    updatedAt: T.u64)

  /** The editable part of a circuit, as a caller submits it. */
  datatype PostCircuit = PostCircuit(name: string, description: W.Option<string>)

  /** A circuit as the controllers' circuit store builds it. */
  datatype ControllerCircuit = ControllerCircuit(
    id: T.u32,
    userId: T.Principal,
    name: string,
    description: W.Option<string>,
    isFavorite: bool,
    isEnabled: bool,
    runAt: W.Option<T.u64>,
    createdAt: T.u64,
    updatedAt: T.u64)

  // ---------------------------------------------------------------------------
  // Connectors

  /** Headers and authentication of an HTTP connector are carried as opaque text. */
  datatype HttpConnector = HttpConnector(baseUrl: string, headers: seq<(string, string)>, authentication: string)
  datatype ConnectorType = Http(http: HttpConnector) | Canister(canisterId: string)

  datatype Connector = Connector(
    id: T.u32,
    userId: T.Principal,
    name: string,
    connectorType: ConnectorType,
    createdAt: T.u64,
    updatedAt: T.u64)

  datatype PostConnector = PostConnector(name: string, connectorType: ConnectorType)

  // ---------------------------------------------------------------------------
  // Users and traces

  datatype User = User(userId: T.Principal, username: W.Option<string>, createdAt: T.u64, circuits: seq<T.u32>)

  datatype TraceStatus = Success | Failed | Cancelled | InProgress
  datatype TraceError = TraceError(
    code: string,
    message: string,
    source: string,
    resolvedAt: W.Option<T.u64>,
    createdAt: T.u64,
    updatedAt: T.u64)

  datatype Trace = Trace(
    id: T.u32,
    userId: T.Principal,
    nodeId: T.u32,
    circuitId: T.u32,
    status: TraceStatus,
    errors: seq<TraceError>,
    data: string,
    duration: T.u32,
    startedAt: T.u64,
    completedAt: T.u64,
    createdAt: T.u64,
    updatedAt: T.u64)
}
