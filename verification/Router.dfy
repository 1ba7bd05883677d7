/** The route table: built from a list of route specs and the table it replaces, and resolved per
    connection. Certificate and verifier builds are outcomes that may fail on any reload. */
module Router {
  import opened Wrappers
  import opened Health

  // ---- Specs ----

  datatype Mtls = Mtls(ca: int, required: bool)

  datatype SourceMode = NoHeader | ProxyV1 | ProxyV2 | XForwardedFor

  /** An upstream as configured. `addr` is what its host and port parse to, if they are the literal
      address of a socket. */
  datatype UpstreamSpec = TcpUpstream(addr: Option<int>) | UdsUpstream(paths: seq<string>, h2: bool)

  datatype SourcesSpec = Anyone | Only(networks: seq<int>) | BadCidr

  datatype FailoverSpec = NoFailover | BadPolicy | Policy(policy: int)

  /** One route as configured. `certificateBuilds` is whether its TLS configuration can be built by
      this reload; everything else is the configuration itself. */
  datatype RouteSpec = RouteSpec(
    sni: string, terminate: bool, certificateBuilds: bool, mtls: Option<Mtls>, suspended: bool,
    upstreams: seq<UpstreamSpec>, mode: SourceMode, fingerprint: bool, http2: bool, http: bool,
    sources: SourcesSpec, failover: FailoverSpec)

  /** The listener's fallback mutual-TLS settings. */
  datatype ListenerTls = ListenerTls(mtls: Option<Mtls>)

  predicate IsWildcard(sni: string) { |sni| >= 2 && sni[0] == '*' && sni[1] == '.' }

  /** The client-certificate policy of a spec; the digest stands in for the CA, as in the table. */
  datatype ClientAuth = Passthrough | NoClientCert | ClientCert(caDigest: int, required: bool)

  function EffectiveMtls(spec: RouteSpec, listener: ListenerTls): Option<Mtls> {
    if spec.mtls.Some? then spec.mtls else listener.mtls
  }

  function AuthOf(terminates: bool, mtls: Option<Mtls>, digest: int -> int): ClientAuth {
    if !terminates then Passthrough
    else if mtls.None? then NoClientCert
    else ClientCert(digest(mtls.value.ca), mtls.value.required)
  }

  function RequestedAuth(spec: RouteSpec, listener: ListenerTls, digest: int -> int): ClientAuth {
    AuthOf(spec.terminate, EffectiveMtls(spec, listener), digest)
  }

  // ---- Routes ----

  datatype Failover = Failover(policy: int, tcpHealth: Option<HealthId>)

  /** An installed route. `verifier` is the client verifier inside its TLS configuration. */
  datatype Route = Route(
    terminates: bool, verifier: Option<Mtls>, destination: Destination, destinationH2: Option<Destination>,
    allowedSources: Option<seq<int>>, failover: Option<Failover>)

  /** The client-certificate policy a route in fact enforces. */
  function EnforcedAuth(route: Route, digest: int -> int): ClientAuth {
    AuthOf(route.terminates, route.verifier, digest)
  }

  predicate DestinationDown(heap: Heap, failover: Failover, dest: Destination) {
    match dest
    case Uds(slots) => AllRefusing(heap, slots)
    case Tcp(_) => failover.tcpHealth.Some? && heap.Refusing(failover.tcpHealth.value)
  }

  /** `locally_down`: every slot of either destination is refusing. */
  predicate Down(heap: Heap, route: Route) {
    route.failover.Some? &&
    (DestinationDown(heap, route.failover.value, route.destination) ||
     (route.destinationH2.Some? && DestinationDown(heap, route.failover.value, route.destinationH2.value)))
  }

  // ---- build_route ----

  const PLACEHOLDER: int := -1

  predicate IsH2(u: UpstreamSpec) { u.UdsUpstream? && u.h2 }

  function WithH2(upstreams: seq<UpstreamSpec>, h2: bool): (r: seq<UpstreamSpec>)
    ensures r != [] ==> IsH2(r[0]) == h2
  {
    if upstreams == [] then []
    else if IsH2(upstreams[0]) == h2 then [upstreams[0]] + WithH2(upstreams[1..], h2)
    else WithH2(upstreams[1..], h2)
  }

  function UdsPaths(upstreams: seq<UpstreamSpec>): seq<string> {
    if upstreams == [] then []
    else (if upstreams[0].UdsUpstream? then upstreams[0].paths else []) + UdsPaths(upstreams[1..])
  }

  /** What a rebuilt destination carries over: the slots it replaces, whether health is tracked, and
      whether an endpoint nothing has tested starts out refusing. */
  datatype Inherit = Inherit(previous: Option<Route>, track: bool, refuseNew: bool)

  function SlotsOf(dest: Option<Destination>): seq<Slot> {
    if dest.Some? && dest.value.Uds? then dest.value.slots else []
  }

  /** The first of a destination's upstreams decides what it is, and must name an address if it is TCP. */
  predicate Addressed(upstreams: seq<UpstreamSpec>) {
    upstreams != [] && (upstreams[0].TcpUpstream? ==> upstreams[0].addr.Some?)
  }

  function BuildDestination(upstreams: seq<UpstreamSpec>, previous: seq<Slot>, inherit: Inherit, heap: Heap,
                            now: nat): (Destination, Heap)
    requires Addressed(upstreams)
  {
    if upstreams[0].TcpUpstream? then (Tcp(upstreams[0].addr.value), heap)
    else if inherit.track then
      var (slots, heap') := WithHealth(UdsPaths(upstreams), previous, inherit.refuseNew, heap, now);
      (Uds(slots), heap')
    else (Uds(Untracked(UdsPaths(upstreams))), heap)
  }

  datatype Destinations = NoDestinations | Destinations(h1: Destination, h2: Option<Destination>, heap: Heap)

  function BuildDestinations(spec: RouteSpec, inherit: Inherit, heap: Heap, now: nat): Destinations {
    if spec.suspended || spec.upstreams == [] then Destinations(Tcp(PLACEHOLDER), None, heap)
    else
      var h1, h2 := WithH2(spec.upstreams, false), WithH2(spec.upstreams, true);
      if !Addressed(h1) then NoDestinations
      else
        var p1 := if inherit.previous.Some? then SlotsOf(Some(inherit.previous.value.destination)) else [];
        var p2 := if inherit.previous.Some? then SlotsOf(inherit.previous.value.destinationH2) else [];
        var (d1, heap1) := BuildDestination(h1, p1, inherit, heap, now);
        if h2 == [] then Destinations(d1, None, heap1)
        else
          var (d2, heap2) := BuildDestination(h2, p2, inherit, heap1, now);
          Destinations(d1, Some(d2), heap2)
  }

  /** `build_route`; `None` for any error, a TLS build that failed or a configuration it refuses. */
  function BuildRoute(spec: RouteSpec, listener: ListenerTls, inherit: Inherit, heap: Heap, now: nat)
    : Option<(Route, Heap)>
  {
    if spec.terminate && !spec.certificateBuilds then None
    else
      match BuildDestinations(spec, inherit, heap, now)
      case NoDestinations => None
      case Destinations(h1, h2, heap') =>
        if (h2.Some? || (spec.http2 && spec.terminate)) && spec.mode.XForwardedFor? then None
        else if h2.Some? && !spec.terminate then None
        else
          var verifier := if spec.terminate then EffectiveMtls(spec, listener) else None;
          Some((Route(spec.terminate, verifier, h1, h2, None, None), heap'))
  }

  // ---- One spec of build_route_table ----

  predicate RequiresHttp(spec: RouteSpec) {
    spec.mode.XForwardedFor? || (spec.fingerprint && !spec.mode.ProxyV2?)
  }

  /** A spec no reload can heal without an edit: never served, not even by a last-good route. */
  predicate PermanentlyInvalid(spec: RouteSpec) {
    (RequiresHttp(spec) && (!spec.terminate || !spec.http)) || spec.sources.BadCidr?
  }

  function SourcesOf(spec: RouteSpec): Option<seq<int>> {
    if spec.sources.Only? then Some(spec.sources.networks) else None
  }

  /** The policy a route is served with: none on the default route or when it does not parse. */
  function PolicyOf(spec: RouteSpec): Option<int> {
    if spec.failover.Policy? && spec.sni != "" then Some(spec.failover.policy) else None
  }

  predicate AnyTracked(slots: seq<Slot>) {
    slots != [] && (slots[0].health.Some? || AnyTracked(slots[1..]))
  }

  predicate DestinationTracksAs(dest: Destination, tracked: bool) {
    dest.Uds? ==> AnyTracked(dest.slots) == tracked
  }

  predicate TracksAs(route: Route, tracked: bool) {
    DestinationTracksAs(route.destination, tracked) &&
    (route.destinationH2.Some? ==> DestinationTracksAs(route.destinationH2.value, tracked))
  }

  /** A retained route whose tracking does not fit the policy is re-created slot by slot. */
  function Retrack(route: Route, track: bool, heap: Heap, now: nat): (Route, Heap) {
    if TracksAs(route, track) then (route, heap)
    else
      var (d1, heap1) := Retracked(route.destination, track, heap, now);
      match route.destinationH2
      case None => (route.(destination := d1), heap1)
      case Some(h2) =>
        var (d2, heap2) := Retracked(h2, track, heap1, now);
        (route.(destination := d1, destinationH2 := Some(d2)), heap2)
  }

  /** The failover state of a route: a TCP destination keeps the health of the same address. */
  function WithFailover(route: Route, policy: Option<int>, previous: Option<Route>, previousDown: bool, heap: Heap,
                        now: nat): (Route, Heap)
  {
    if policy.None? then (route.(failover := None), heap)
    else if route.destination.Uds? then (route.(failover := Some(Failover(policy.value, None))), heap)
    else if previous.Some? && previous.value.destination == route.destination && previous.value.failover.Some?
            && previous.value.failover.value.tcpHealth.Some? then
      (route.(failover := Some(Failover(policy.value, previous.value.failover.value.tcpHealth))), heap)
    else
      var (heap', id) := Allocate(heap, previousDown, now);
      (route.(failover := Some(Failover(policy.value, Some(id)))), heap')
  }

  /** A spec that decides its SNI: the route it installs, or `None` when it is rejected. `previous` is
      the route installed for the same SNI and `previousAuth` the policy recorded for it. */
  function DecideSpec(spec: RouteSpec, listener: ListenerTls, digest: int -> int,
                      previous: Option<Route>, previousAuth: Option<ClientAuth>, heap: Heap, now: nat)
    : (Option<Route>, Heap)
  {
    if PermanentlyInvalid(spec) then (None, heap)
    else
      var policy := PolicyOf(spec);
      var previousDown := previous.Some? && Down(heap, previous.value);
      match BuildRoute(spec, listener, Inherit(previous, policy.Some?, previousDown), heap, now)
      case Some((route, heap1)) => Finish(route, heap1, spec, policy, previous, previousDown, now)
      case None =>
        if previous.Some? && previousAuth == Some(RequestedAuth(spec, listener, digest)) then
          var (route, heap1) := Retrack(previous.value, policy.Some?, heap, now);
          Finish(route, heap1, spec, policy, previous, previousDown, now)
        else (None, heap)
  }

  function Finish(route: Route, heap: Heap, spec: RouteSpec, policy: Option<int>, previous: Option<Route>,
                  previousDown: bool, now: nat): (Option<Route>, Heap)
  {
    var (r, heap') := WithFailover(route.(allowedSources := SourcesOf(spec)), policy, previous, previousDown, heap,
                                   now);
    (Some(r), heap')
  }
}
