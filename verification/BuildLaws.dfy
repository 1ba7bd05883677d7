/** Exactly when a route can be built from its spec, and what it then serves. */
module BuildLaws {
  import opened Wrappers
  import opened Health
  import opened Router

  /** The endpoints a destination names, its health aside. */
  datatype Endpoints = At(addr: int) | Sockets(paths: seq<string>)

  function Named(dest: Destination): Endpoints {
    match dest
    case Tcp(addr) => At(addr)
    case Uds(slots) => Sockets(Paths(slots))
  }

  function NamedOption(dest: Option<Destination>): Option<Endpoints> {
    if dest.None? then None else Some(Named(dest.value))
  }

  // ---- What a spec asks for ----

  /** The upstreams a client that speaks HTTP/2 goes to, and those of every other client. */
  predicate Speaks(u: UpstreamSpec, h2: bool) {
    match u
    case TcpUpstream(_) => !h2
    case UdsUpstream(_, overH2) => overH2 == h2
  }

  /** The first of them, which decides what the destination is. */
  function Leader(upstreams: seq<UpstreamSpec>, h2: bool): Option<UpstreamSpec> {
    if upstreams == [] then None
    else if Speaks(upstreams[0], h2) then Some(upstreams[0])
    else Leader(upstreams[1..], h2)
  }

  /** All their sockets, in order. */
  function SocketsOf(upstreams: seq<UpstreamSpec>, h2: bool): seq<string> {
    if upstreams == [] then []
    else
      var last := |upstreams| - 1;
      SocketsOf(upstreams[..last], h2)
        + if upstreams[last].UdsUpstream? && Speaks(upstreams[last], h2) then upstreams[last].paths else []
  }

  predicate HasH2(upstreams: seq<UpstreamSpec>) { exists i :: 0 <= i < |upstreams| && Speaks(upstreams[i], true) }

  /** There is an upstream for clients that do not speak HTTP/2, and the first of them has an address. */
  predicate DefaultAddressed(upstreams: seq<UpstreamSpec>) {
    match Leader(upstreams, false)
    case None => false
    case Some(TcpUpstream(addr)) => addr.Some?
    case Some(UdsUpstream(_, _)) => true
  }

  /** A spec without upstreams of its own: they come later, or not at all. */
  predicate Placeheld(spec: RouteSpec) { spec.suspended || spec.upstreams == [] }

  predicate ServesH2(spec: RouteSpec) { !Placeheld(spec) && HasH2(spec.upstreams) }

  /** What a spec needs for its own route to be built by this reload. */
  predicate Buildable(spec: RouteSpec) {
    && (spec.terminate ==> spec.certificateBuilds)
    && (Placeheld(spec) || DefaultAddressed(spec.upstreams))
    && (ServesH2(spec) ==> spec.terminate)
    && (spec.mode.XForwardedFor? ==> !ServesH2(spec) && !(spec.http2 && spec.terminate))
  }

  /** The endpoints a spec asks for. */
  function Wanted(spec: RouteSpec): Endpoints {
    if Placeheld(spec) then At(-1)
    else
      match Leader(spec.upstreams, false)
      case Some(TcpUpstream(Some(addr))) => At(addr)
      case Some(UdsUpstream(_, _)) => Sockets(SocketsOf(spec.upstreams, false))
      case _ => At(-1)
  }

  function WantedH2(spec: RouteSpec): Option<Endpoints> {
    if ServesH2(spec) then Some(Sockets(SocketsOf(spec.upstreams, true))) else None
  }

  /** The client verifier a spec asks for, when it terminates: its own, else its listener's, else none. */
  predicate Verifies(verifier: Option<Mtls>, spec: RouteSpec, listener: ListenerTls) {
    match (spec.mtls, listener.mtls)
    case (Some(own), _) => verifier == Some(own)
    case (None, Some(fallback)) => verifier == Some(fallback)
    case (None, None) => verifier == None
  }

  predicate ChecksLike(route: Route, m: Mtls, digest: int -> int) {
    && route.verifier.Some? && digest(route.verifier.value.ca) == digest(m.ca)
    && route.verifier.value.required == m.required
  }

  /** The route asks its clients for what the spec, or failing that its listener, wants of them: the same
      CA by its digest and as strictly, nothing, or whatever the upstream of a passthrough asks. */
  predicate Authenticates(route: Route, spec: RouteSpec, listener: ListenerTls, digest: int -> int) {
    && route.terminates == spec.terminate
    && (spec.terminate ==>
          match (spec.mtls, listener.mtls)
          case (Some(own), _) => ChecksLike(route, own, digest)
          case (None, Some(fallback)) => ChecksLike(route, fallback, digest)
          case (None, None) => route.verifier.None?)
  }

  predicate Admits(route: Route, spec: RouteSpec) {
    match spec.sources
    case Anyone => route.allowedSources == None
    case Only(networks) => route.allowedSources == Some(networks)
    case BadCidr => false
  }

  /** Every route but the default one fails over as its policy says, if the policy parses. */
  predicate FailsOver(route: Route, spec: RouteSpec) {
    match (spec.sni, spec.failover)
    case ("", _) => route.failover.None?
    case (_, Policy(policy)) => route.failover.Some? && route.failover.value.policy == policy
    case (_, _) => route.failover.None?
  }

  /** A spec with nothing in it that only an edit can put right: what needs HTTP has it, on a connection
      that is terminated, and the source list parses. */
  predicate Servable(spec: RouteSpec) {
    && (spec.mode.XForwardedFor? ==> spec.terminate && spec.http)
    && (spec.fingerprint ==> spec.mode.ProxyV2? || (spec.terminate && spec.http))
    && !spec.sources.BadCidr?
  }

  lemma ServableExactly(spec: RouteSpec)
    ensures Servable(spec) <==> !PermanentlyInvalid(spec)
    ensures Servable(spec) ==> !spec.sources.BadCidr?
  {
  }

  lemma AuthenticatesExactly(route: Route, spec: RouteSpec, listener: ListenerTls, digest: int -> int)
    ensures Authenticates(route, spec, listener, digest)
      <==> EnforcedAuth(route, digest) == RequestedAuth(spec, listener, digest)
  {
  }

  // ---- The build gives just that ----

  lemma {:induction false} LeaderExactly(upstreams: seq<UpstreamSpec>, h2: bool)
    ensures match Leader(upstreams, h2)
      case None => WithH2(upstreams, h2) == []
      case Some(u) => WithH2(upstreams, h2) != [] && WithH2(upstreams, h2)[0] == u && Speaks(u, h2)
    ensures Leader(upstreams, true).Some? <==> HasH2(upstreams)
  {
    if upstreams != [] {
      var rest := upstreams[1..];
      LeaderExactly(rest, h2);
      assert forall i :: 0 <= i < |rest| ==> rest[i] == upstreams[i + 1];
      assert HasH2(rest) ==> HasH2(upstreams);
      if h2 == false { LeaderExactly(rest, true); }
    }
  }

  lemma {:induction false} SocketsOfMore(upstreams: seq<UpstreamSpec>, h2: bool)
    requires upstreams != []
    ensures SocketsOf(upstreams, h2)
      == (if upstreams[0].UdsUpstream? && Speaks(upstreams[0], h2) then upstreams[0].paths else [])
         + SocketsOf(upstreams[1..], h2)
  {
    if |upstreams| > 1 {
      var last := |upstreams| - 1;
      SocketsOfMore(upstreams[..last], h2);
      assert upstreams[..last][1..] == upstreams[1..][..last - 1];
    }
  }

  lemma {:induction false} SocketsExactly(upstreams: seq<UpstreamSpec>, h2: bool)
    ensures UdsPaths(WithH2(upstreams, h2)) == SocketsOf(upstreams, h2)
  {
    if upstreams != [] {
      SocketsExactly(upstreams[1..], h2);
      SocketsOfMore(upstreams, h2);
      var rest := WithH2(upstreams[1..], h2);
      assert ([upstreams[0]] + rest)[1..] == rest;
    }
  }

  lemma DestinationIsNamed(upstreams: seq<UpstreamSpec>, previous: seq<Slot>, inherit: Inherit, heap: Heap, now: nat)
    requires Addressed(upstreams)
    ensures Named(BuildDestination(upstreams, previous, inherit, heap, now).0) ==
      if upstreams[0].TcpUpstream? then At(upstreams[0].addr.value) else Sockets(UdsPaths(upstreams))
  {
    if upstreams[0].UdsUpstream? {
      var paths := UdsPaths(upstreams);
      if inherit.track {
        var (slots, _) := WithHealth(paths, previous, inherit.refuseNew, heap, now);
        assert Paths(slots) == paths;
      } else {
        assert Paths(Untracked(paths)) == paths;
      }
    }
  }

  /** A route is built if and only if its spec is buildable, with the spec's own endpoints and verifier. */
  lemma BuildsExactly(spec: RouteSpec, listener: ListenerTls, inherit: Inherit, heap: Heap, now: nat)
    ensures var r := BuildRoute(spec, listener, inherit, heap, now);
      && (r.Some? <==> Buildable(spec))
      && (r.Some? ==>
          Named(r.value.0.destination) == Wanted(spec) && NamedOption(r.value.0.destinationH2) == WantedH2(spec))
      && (r.Some? ==> r.value.0.terminates == spec.terminate)
      && (r.Some? && spec.terminate ==> Verifies(r.value.0.verifier, spec, listener))
      && (r.Some? && !spec.terminate ==> r.value.0.verifier == None)
  {
    LeaderExactly(spec.upstreams, false);
    LeaderExactly(spec.upstreams, true);
    SocketsExactly(spec.upstreams, false);
    SocketsExactly(spec.upstreams, true);
    hide HasH2, Leader, SocketsOf, WithH2, UdsPaths, BuildDestination, Named;
    if !Placeheld(spec) && Addressed(WithH2(spec.upstreams, false)) {
      var h1, h2 := WithH2(spec.upstreams, false), WithH2(spec.upstreams, true);
      var p1 := if inherit.previous.Some? then SlotsOf(Some(inherit.previous.value.destination)) else [];
      var p2 := if inherit.previous.Some? then SlotsOf(inherit.previous.value.destinationH2) else [];
      DestinationIsNamed(h1, p1, inherit, heap, now);
      if h2 != [] { DestinationIsNamed(h2, p2, inherit, BuildDestination(h1, p1, inherit, heap, now).1, now); }
    }
    PlaceholderNamed();
  }

  lemma PlaceholderNamed()
    ensures Named(Tcp(PLACEHOLDER)) == At(-1)
  {
  }
}
