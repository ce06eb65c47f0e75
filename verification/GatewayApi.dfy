/** The Gateway API v1 and core Kubernetes objects the program reads, cut down to
    the fields it reads. Optional fields are options; timestamps are left out. */
module GatewayApi {
  import opened Common

  datatype NamespacedName = NamespacedName(namespace: string, name: string)

  datatype ConditionStatus = ConditionTrue | ConditionFalse | ConditionUnknown

  datatype Condition = Condition(
    kind: string, status: ConditionStatus, observedGeneration: int, reason: string, message: string)

  datatype Protocol = HTTP | HTTPS | OtherProtocol(name: string)

  datatype Listener = Listener(name: string, protocol: Protocol, hostname: Option<string>)

  datatype GatewayAddress = GatewayAddress(addressType: Option<string>, value: string)

  datatype ListenerStatus = ListenerStatus(name: string, attachedRoutes: nat, conditions: seq<Condition>)

  datatype GatewayStatus = GatewayStatus(
    conditions: seq<Condition>, addresses: seq<GatewayAddress>, listeners: seq<ListenerStatus>)

  datatype Gateway = Gateway(
    namespace: string, name: string, generation: int, listeners: seq<Listener>, status: GatewayStatus)

  datatype ParentReference = ParentReference(
    group: Option<string>, kind: Option<string>, namespace: Option<string>, name: string,
    sectionName: Option<string>, port: Option<int>)

  datatype RouteParentStatus = RouteParentStatus(
    parentRef: ParentReference, controllerName: string, conditions: seq<Condition>)

  /** The API's closed enumeration; NoPathType is Go's empty string. */
  datatype PathMatchType = NoPathType | Exact | PathPrefix | RegularExpression

  /** The API's closed enumeration; NoHeaderType is Go's empty string. */
  datatype HeaderMatchType = NoHeaderType | HeaderExact | HeaderRegularExpression

  datatype HTTPPathMatch = HTTPPathMatch(kind: Option<PathMatchType>, value: Option<string>)

  datatype HTTPHeaderMatch = HTTPHeaderMatch(kind: Option<HeaderMatchType>, name: string, value: string)

  datatype HTTPRouteMatch = HTTPRouteMatch(path: Option<HTTPPathMatch>, headers: seq<HTTPHeaderMatch>)

  datatype PathModifierType = FullPath | PrefixMatch | OtherPathModifier(name: string)

  datatype HTTPPathModifier = HTTPPathModifier(
    kind: PathModifierType, replaceFullPath: Option<string>, replacePrefixMatch: Option<string>)

  datatype HTTPRequestRedirect = HTTPRequestRedirect(
    scheme: Option<string>, hostname: Option<string>, path: Option<HTTPPathModifier>, port: Option<int>,
    statusCode: Option<int>)

  datatype HTTPRouteFilter = RequestRedirect(redirect: HTTPRequestRedirect) | OtherFilter(name: string)

  datatype HTTPBackendRef = HTTPBackendRef(
    kind: Option<string>, namespace: Option<string>, name: string, port: Option<int>)

  datatype HTTPRouteRule = HTTPRouteRule(
    matches: seq<HTTPRouteMatch>, filters: seq<HTTPRouteFilter>, backendRefs: seq<HTTPBackendRef>)

  datatype HTTPRoute = HTTPRoute(
    namespace: string, name: string, generation: int, parentRefs: seq<ParentReference>,
    hostnames: seq<string>, rules: seq<HTTPRouteRule>, parents: seq<RouteParentStatus>)

  datatype ServicePort = ServicePort(port: int, appProtocol: Option<string>)

  datatype Service = Service(namespace: string, name: string, ports: seq<ServicePort>)

  datatype ObjectRef = ObjectRef(group: string, kind: string, name: string)

  /** An ancestor status has the shape of a parent status; its parentRef field is the
      API's ancestorRef. */
  type PolicyAncestorStatus = RouteParentStatus

  datatype BackendTLSPolicy = BackendTLSPolicy(
    namespace: string, name: string, generation: int, targetRefs: seq<ObjectRef>,
    caCertificateRefs: seq<ObjectRef>, hostname: string, ancestors: seq<PolicyAncestorStatus>)

  datatype ConfigMap = ConfigMap(
    namespace: string, name: string, data: map<string, string>, binaryData: map<string, string>)

  /** What backend compilation looks up besides gateways and routes. */
  datatype Cluster = Cluster(
    services: map<NamespacedName, Service>, policies: seq<BackendTLSPolicy>,
    configMaps: map<NamespacedName, ConfigMap>)

  datatype Request = Request(host: string, path: string, header: map<string, seq<string>>)

  /** The API server's answer to a get. */
  datatype GetResult<T> = Found(value: T) | IsNotFound | OtherError

  /** Go library calls whose internals are not modelled: each is an arbitrary total
      function. `compileError` is None exactly when regexp.Compile succeeds;
      `isCertificate` says whether pem.Decode finds a CERTIFICATE block; `printNames` is
      the printed form of a list. */
  datatype Lib = Lib(
    compileError: string -> Option<string>,
    matchString: (string, string) -> bool,
    canonicalHeaderKey: string -> string,
    splitHost: string -> Option<string>,
    isCertificate: string -> bool,
    printNames: seq<string> -> string)

  const CONTROLLER_NAME := "github.com/gke-labs/gateway-api-reference-implementation"
  const SERVICE := "Service"
  const ACCEPTED := "Accepted"
  const RESOLVED_REFS := "ResolvedRefs"
  const PROGRAMMED := "Programmed"
}
