/** Exactly when an SNI is served after a reload, and with what: the availability side of reload
    safety. A certificate that fails to build never takes a working route down. */
module ServiceLaws {
  import opened Wrappers
  import opened Health
  import opened Router
  import opened BuildLaws
  import opened RouteTable
  import opened RouteLaws
  import opened ReloadLaws

  /** Two routes that serve the same: same TLS, same client verifier, same endpoints. */
  predicate SameService(a: Route, b: Route) {
    && a.terminates == b.terminates && a.verifier == b.verifier
    && Named(a.destination) == Named(b.destination) && NamedOption(a.destinationH2) == NamedOption(b.destinationH2)
  }

  lemma RetrackedIsNamed(dest: Destination, track: bool, heap: Heap, now: nat)
    ensures Named(Retracked(dest, track, heap, now).0) == Named(dest)
  {
    if dest.Uds? {
      var paths := Paths(dest.slots);
      if track {
        var (slots, _) := WithHealth(paths, dest.slots, false, heap, now);
        assert Paths(slots) == paths;
      } else {
        assert Paths(Untracked(paths)) == paths;
      }
    }
  }

  lemma RetrackServesSame(route: Route, track: bool, heap: Heap, now: nat)
    ensures SameService(Retrack(route, track, heap, now).0, route)
  {
    hide Named, Retracked, TracksAs;
    RetrackedIsNamed(route.destination, track, heap, now);
    if route.destinationH2.Some? {
      RetrackedIsNamed(route.destinationH2.value, track, Retracked(route.destination, track, heap, now).1, now);
    }
  }

  lemma FinishServesSame(route: Route, heap: Heap, spec: RouteSpec, policy: Option<int>, previous: Option<Route>,
                         previousDown: bool, now: nat)
    ensures var r := Finish(route, heap, spec, policy, previous, previousDown, now).0;
      r.Some? && SameService(r.value, route)
  {
    hide Named;
  }

  /** What the spec itself asks for is what is served. */
  predicate ServesSpec(route: Route, spec: RouteSpec, listener: ListenerTls) {
    && route.terminates == spec.terminate
    && (spec.terminate ==> Verifies(route.verifier, spec, listener))
    && (!spec.terminate ==> route.verifier == None)
    && Named(route.destination) == Wanted(spec) && NamedOption(route.destinationH2) == WantedH2(spec)
  }

  /** A deciding spec serves if and only if it is not permanently invalid and can be built, or has a
      last-good route with the client-certificate policy it asks for. Built, it serves its own
      endpoints; otherwise the last-good route's, whole. */
  lemma DecisionServes(spec: RouteSpec, listener: ListenerTls, digest: int -> int,
                       previous: Option<Route>, auth: Option<ClientAuth>, heap: Heap, now: nat)
    ensures var r := DecideSpec(spec, listener, digest, previous, auth, heap, now).0;
      var lastGood := previous.Some? && auth == Some(RequestedAuth(spec, listener, digest));
      && (r.Some? <==> Servable(spec) && (Buildable(spec) || lastGood))
      && (r.Some? && Buildable(spec) ==> ServesSpec(r.value, spec, listener))
      && (r.Some? && !Buildable(spec) ==> SameService(r.value, previous.value))
  {
    hide BuildRoute, Retrack, Finish, Down, Buildable, Named, Wanted, WantedH2, PermanentlyInvalid, RequestedAuth,
      PolicyOf, Servable, Verifies;
    ServableExactly(spec);
    var policy := PolicyOf(spec);
    var previousDown := previous.Some? && Down(heap, previous.value);
    var inherit := Inherit(previous, policy.Some?, previousDown);
    BuildsExactly(spec, listener, inherit, heap, now);
    var built := BuildRoute(spec, listener, inherit, heap, now);
    if built.Some? {
      FinishServesSame(built.value.0, built.value.1, spec, policy, previous, previousDown, now);
    } else if previous.Some? {
      RetrackServesSame(previous.value, policy.Some?, heap, now);
      var (route, heap1) := Retrack(previous.value, policy.Some?, heap, now);
      FinishServesSame(route, heap1, spec, policy, previous, previousDown, now);
    }
  }

  /** One reload of a sound table. */
  lemma ReloadServes(specs: seq<RouteSpec>, ctx: Context, heap: Heap, sni: string)
    requires TableOk(ctx.previous, heap, ctx.digest)
    ensures Service(Installed(ctx.previous, sni), Installed(Built(specs, |specs|, ctx, heap).table, sni), specs,
                    ctx.listener, ctx.digest, sni)
  {
    var before := Installed(ctx.previous, sni);
    assert before.Some? ==>
      sni in ctx.previous.clientAuth && ctx.previous.clientAuth[sni] == EnforcedAuth(before.value, ctx.digest);
    hide Built, DecideSpec, RouteOk, Installed, Dropped, RequestedAuth, EnforcedAuth, Servable, Buildable,
      ServesSpec, SameService, TableOk, Authenticates;
    TableByDecider(specs, ctx, heap, sni);
    var i := Deciding(specs, sni);
    if i.Some? {
      var auth := if sni in ctx.previous.clientAuth then Some(ctx.previous.clientAuth[sni]) else None;
      DecisionServes(specs[i.value], ctx.listener, ctx.digest, before, auth, Built(specs, i.value, ctx, heap).heap,
                     ctx.now);
      if before.Some? { AuthenticatesExactly(before.value, specs[i.value], ctx.listener, ctx.digest); }
    }
  }

  /** What a reload owes an SNI: `before` and `after` are its routes around the reload. */
  ghost predicate Service(before: Option<Route>, after: Option<Route>, specs: seq<RouteSpec>, listener: ListenerTls,
                          digest: int -> int, sni: string) {
    match Deciding(specs, sni)
    case None => after.None?
    case Some(i) =>
      i < |specs| &&
      var spec := specs[i];
      var lastGood := before.Some? && Authenticates(before.value, spec, listener, digest);
      && (after.Some? <==> Servable(spec) && (Buildable(spec) || lastGood))
      && (after.Some? && Buildable(spec) ==> ServesSpec(after.value, spec, listener))
      && (after.Some? && !Buildable(spec) ==> SameService(after.value, before.value))
  }

  /** Exact service over any sequence of reloads, with any certificates failing: an SNI is served after
      the newest reload if and only if its deciding spec is not permanently invalid and either can be
      built or finds a live route that already enforces the client-certificate policy it asks for. A
      spec that can be built is served with its own TLS and endpoints, otherwise the live route goes
      on unchanged. */
  lemma ServiceIsExact(reloads: seq<Reload>, newest: Reload, digest: int -> int, sni: string)
    ensures var before, after := AfterReloads(reloads, digest), AfterReloads(reloads + [newest], digest);
      Service(Installed(before.table, sni), Installed(after.table, sni), newest.specs, newest.listener, digest, sni)
  {
    hide Built, Installed, TableOk, Service;
    var before := AfterReloads(reloads, digest);
    ReloadsKeepTableOk(reloads, digest);
    TouchedOk(before.table, before.heap, newest.words, digest);
    var all := reloads + [newest];
    assert all[..|all| - 1] == reloads && all[|all| - 1] == newest;
    ReloadServes(newest.specs, Context(newest.listener, digest, before.table, newest.now),
                 Touched(before.heap, newest.words), sni);
  }
}
