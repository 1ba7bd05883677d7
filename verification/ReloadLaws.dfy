/** What holds after every sequence of reloads: the newest deciding spec's client-certificate policy
    and source list, health tracked exactly with failover, and no reload bringing a route up. */
module ReloadLaws {
  import opened Wrappers
  import opened Health
  import opened Router
  import opened BuildLaws
  import opened RouteTable
  import opened RouteLaws

  /** A route's slots are tracked exactly when it has failover, and what it tracks exists. */
  ghost predicate RouteOk(route: Route, heap: Heap) {
    var tracked := route.failover.Some?;
    && Tracked(route.destination, tracked) && Allocated(heap, route.destination)
    && (route.destinationH2.Some? ==>
          Tracked(route.destinationH2.value, tracked) && Allocated(heap, route.destinationH2.value))
    && (tracked && route.failover.value.tcpHealth.Some? ==> route.failover.value.tcpHealth.value < |heap.words|)
    && (tracked && route.destination.Tcp? ==> route.failover.value.tcpHealth.Some?)
  }

  /** The destinations of a route that is about to get its failover. */
  ghost predicate Fits(route: Route, track: bool, heap: Heap) {
    && Tracked(route.destination, track) && Allocated(heap, route.destination)
    && (route.destinationH2.Some? ==>
        Tracked(route.destinationH2.value, track) && Allocated(heap, route.destinationH2.value))
  }

  lemma {:induction false} InheritedAllocated(slots: seq<Slot>, path: string, heap: Heap)
    requires Allocated(heap, Uds(slots))
    ensures Inherited(slots, path).Some? ==> Inherited(slots, path).value < |heap.words|
  {
    if slots != [] && slots[0].path != path {
      assert forall i :: 0 <= i < |slots| - 1 ==> slots[1..][i] == slots[i + 1];
      InheritedAllocated(slots[1..], path, heap);
    }
  }

  lemma WithHealthFits(paths: seq<string>, previous: seq<Slot>, refuseNew: bool, heap: Heap, now: nat)
    requires Allocated(heap, Uds(previous))
    ensures var (slots, heap') := WithHealth(paths, previous, refuseNew, heap, now);
      Extends(heap, heap') && Tracked(Uds(slots), true) && Allocated(heap', Uds(slots))
  {
    var (slots, heap') := WithHealth(paths, previous, refuseNew, heap, now);
    forall i | 0 <= i < |slots| ensures slots[i].health.Some? && slots[i].health.value < |heap'.words| {
      InheritedAllocated(previous, paths[i], heap);
    }
  }

  lemma BuildDestinationFits(upstreams: seq<UpstreamSpec>, previous: seq<Slot>, inherit: Inherit, heap: Heap, now: nat)
    requires Addressed(upstreams) && Allocated(heap, Uds(previous))
    ensures var (d, heap') := BuildDestination(upstreams, previous, inherit, heap, now);
      Extends(heap, heap') && Tracked(d, inherit.track) && Allocated(heap', d)
  {
    hide WithHealth;
    WithHealthFits(UdsPaths(upstreams), previous, inherit.refuseNew, heap, now);
  }

  lemma AllocatedMore(a: Heap, b: Heap, dest: Destination)
    requires Extends(a, b) && Allocated(a, dest)
    ensures Allocated(b, dest)
  {
  }

  lemma BuildRouteFits(spec: RouteSpec, listener: ListenerTls, inherit: Inherit, heap: Heap, now: nat)
    requires inherit.previous.Some? ==> RouteOk(inherit.previous.value, heap)
    ensures BuildRoute(spec, listener, inherit, heap, now).Some? ==>
      var (route, heap') := BuildRoute(spec, listener, inherit, heap, now).value;
      && Extends(heap, heap') && Fits(route, inherit.track, heap')
      && route.terminates == spec.terminate
      && (spec.terminate ==> Verifies(route.verifier, spec, listener))
  {
    hide BuildDestination;
    var h1, h2 := WithH2(spec.upstreams, false), WithH2(spec.upstreams, true);
    if !spec.suspended && spec.upstreams != [] && Addressed(h1) {
      var p1 := if inherit.previous.Some? then SlotsOf(Some(inherit.previous.value.destination)) else [];
      var p2 := if inherit.previous.Some? then SlotsOf(inherit.previous.value.destinationH2) else [];
      BuildDestinationFits(h1, p1, inherit, heap, now);
      var (d1, heap1) := BuildDestination(h1, p1, inherit, heap, now);
      if h2 != [] {
        AllocatedMore(heap, heap1, Uds(p2));
        BuildDestinationFits(h2, p2, inherit, heap1, now);
        AllocatedMore(heap1, BuildDestination(h2, p2, inherit, heap1, now).1, d1);
      }
    }
  }

  lemma {:induction false} AnyTrackedUniform(slots: seq<Slot>, tracked: bool)
    requires Tracked(Uds(slots), tracked)
    ensures AnyTracked(slots) <==> slots != [] && tracked
  {
    if slots != [] {
      assert forall i :: 0 <= i < |slots| - 1 ==> slots[1..][i] == slots[i + 1];
      assert slots[0].health.Some? == tracked;
      AnyTrackedUniform(slots[1..], tracked);
    }
  }

  lemma TracksAsFits(dest: Destination, was: bool, track: bool)
    requires Tracked(dest, was) && DestinationTracksAs(dest, track)
    ensures Tracked(dest, track)
  {
    if dest.Uds? { AnyTrackedUniform(dest.slots, was); }
  }

  lemma RetrackedFits(dest: Destination, track: bool, heap: Heap, now: nat)
    requires Allocated(heap, dest)
    ensures var (d, heap') := Retracked(dest, track, heap, now);
      Extends(heap, heap') && Tracked(d, track) && Allocated(heap', d)
  {
    hide WithHealth;
    if dest.Uds? { WithHealthFits(Paths(dest.slots), dest.slots, false, heap, now); }
  }

  lemma RetrackFits(route: Route, track: bool, heap: Heap, now: nat)
    requires RouteOk(route, heap)
    ensures var (r, heap') := Retrack(route, track, heap, now);
      && Extends(heap, heap') && Fits(r, track, heap')
      && r.terminates == route.terminates && r.verifier == route.verifier
      && (r.destination.Tcp? ==> r.destination == route.destination)
  {
    hide Retracked, Tracked, Allocated, DestinationTracksAs;
    if TracksAs(route, track) {
      TracksAsFits(route.destination, route.failover.Some?, track);
      if route.destinationH2.Some? { TracksAsFits(route.destinationH2.value, route.failover.Some?, track); }
    } else {
      RetrackedFits(route.destination, track, heap, now);
      RetrackedTcp(route.destination, track, heap, now);
      var (d1, heap1) := Retracked(route.destination, track, heap, now);
      if route.destinationH2.Some? {
        AllocatedMore(heap, heap1, route.destinationH2.value);
        RetrackedFits(route.destinationH2.value, track, heap1, now);
        AllocatedMore(heap1, Retracked(route.destinationH2.value, track, heap1, now).1, d1);
      }
    }
  }

  lemma RetrackedTcp(dest: Destination, track: bool, heap: Heap, now: nat)
    ensures var d := Retracked(dest, track, heap, now).0; d.Tcp? ==> d == dest
  {
  }

  lemma FinishOk(route: Route, heap: Heap, spec: RouteSpec, policy: Option<int>, previous: Option<Route>,
                 previousDown: bool, now: nat)
    requires Fits(route, policy.Some?, heap) && (previous.Some? ==> RouteOk(previous.value, heap))
    ensures var (r, heap') := Finish(route, heap, spec, policy, previous, previousDown, now);
      && Extends(heap, heap') && r.Some? && RouteOk(r.value, heap') && r.value.failover.Some? == policy.Some?
      && (policy.Some? ==> r.value.failover.value.policy == policy.value)
      && r.value.allowedSources == SourcesOf(spec)
      && r.value.terminates == route.terminates && r.value.verifier == route.verifier
      && r.value.destination == route.destination && r.value.destinationH2 == route.destinationH2
  {
    hide Tracked, Allocated;
    var heap' := Finish(route, heap, spec, policy, previous, previousDown, now).1;
    AllocatedMore(heap, heap', route.destination);
    if route.destinationH2.Some? { AllocatedMore(heap, heap', route.destinationH2.value); }
  }

  /** The record of a served route is the policy it enforces. */
  ghost predicate Recorded(previous: Option<Route>, auth: Option<ClientAuth>, digest: int -> int) {
    previous.Some? ==> auth == Some(EnforcedAuth(previous.value, digest))
  }

  lemma RouteOkMore(route: Route, a: Heap, b: Heap)
    requires RouteOk(route, a) && Extends(a, b)
    ensures RouteOk(route, b)
  {
    AllocatedMore(a, b, route.destination);
    if route.destinationH2.Some? { AllocatedMore(a, b, route.destinationH2.value); }
  }

  /** What a route owes to the spec that decided it. */
  ghost predicate Obeys(route: Route, spec: RouteSpec, listener: ListenerTls, digest: int -> int) {
    && Servable(spec) && Authenticates(route, spec, listener, digest) && Admits(route, spec) && FailsOver(route, spec)
  }

  /** A deciding spec that comes out with a route, built or carried forward: the route enforces this
      spec's policy and source list, and a permanently invalid spec never comes out with one. */
  lemma DecisionIsSafe(spec: RouteSpec, listener: ListenerTls, digest: int -> int,
                       previous: Option<Route>, auth: Option<ClientAuth>, heap: Heap, now: nat)
    requires Recorded(previous, auth, digest) && (previous.Some? ==> RouteOk(previous.value, heap))
    ensures var (r, heap') := DecideSpec(spec, listener, digest, previous, auth, heap, now);
      && Extends(heap, heap')
      && (r.Some? ==> RouteOk(r.value, heap') && Obeys(r.value, spec, listener, digest))
  {
    hide BuildRoute, Retrack, Finish, RouteOk, PermanentlyInvalid, Servable, Fits, Down;
    ServableExactly(spec);
    var policy := PolicyOf(spec);
    var previousDown := previous.Some? && Down(heap, previous.value);
    var inherit := Inherit(previous, policy.Some?, previousDown);
    BuildRouteFits(spec, listener, inherit, heap, now);
    var built := BuildRoute(spec, listener, inherit, heap, now);
    var r := DecideSpec(spec, listener, digest, previous, auth, heap, now).0;
    if r.Some? { AuthenticatesExactly(r.value, spec, listener, digest); }
    if built.Some? {
      var (route, heap1) := built.value;
      if previous.Some? { RouteOkMore(previous.value, heap, heap1); }
      FinishOk(route, heap1, spec, policy, previous, previousDown, now);
    } else if previous.Some? {
      RetrackFits(previous.value, policy.Some?, heap, now);
      var (route, heap1) := Retrack(previous.value, policy.Some?, heap, now);
      RouteOkMore(previous.value, heap, heap1);
      FinishOk(route, heap1, spec, policy, previous, previousDown, now);
    }
  }

  // ---- One reload ----

  /** Every route of a table enforces what the table records for it, and tracks what exists. */
  ghost predicate TableOk(t: Table, heap: Heap, digest: int -> int) {
    forall sni :: Installed(t, sni).Some? ==>
      && RouteOk(Installed(t, sni).value, heap)
      && sni in t.clientAuth && t.clientAuth[sni] == EnforcedAuth(Installed(t, sni).value, digest)
  }

  lemma DecisionObeys(spec: RouteSpec, ctx: Context, heap0: Heap, heap: Heap)
    requires TableOk(ctx.previous, heap0, ctx.digest) && Extends(heap0, heap)
    ensures var (r, heap') := Decision(spec, ctx, heap);
      && Extends(heap, heap')
      && (r.Some? ==> RouteOk(r.value, heap') && Obeys(r.value, spec, ctx.listener, ctx.digest))
  {
    hide DecideSpec, Installed, RouteOk, PermanentlyInvalid, EnforcedAuth, RequestedAuth;
    var previous := Installed(ctx.previous, spec.sni);
    var auth := if spec.sni in ctx.previous.clientAuth then Some(ctx.previous.clientAuth[spec.sni]) else None;
    if previous.Some? { RouteOkMore(previous.value, heap0, heap); }
    DecisionIsSafe(spec, ctx.listener, ctx.digest, previous, auth, heap, ctx.now);
  }

  lemma {:induction false} BuiltExtends(specs: seq<RouteSpec>, n: nat, ctx: Context, heap: Heap)
    requires n <= |specs| && TableOk(ctx.previous, heap, ctx.digest)
    ensures Extends(heap, Built(specs, n, ctx, heap).heap)
    ensures forall i :: 0 <= i < n && Decides(specs, i) && Outcome(specs, i, ctx, heap).Some? ==>
      && RouteOk(Outcome(specs, i, ctx, heap).value, Built(specs, n, ctx, heap).heap)
      && Obeys(Outcome(specs, i, ctx, heap).value, specs[i], ctx.listener, ctx.digest)
    decreases n
  {
    hide Decision, RouteOk, Obeys, TableOk, Extends, Decides;
    if n == 0 {
      ExtendsSame(heap);
    } else {
      BuiltExtends(specs, n - 1, ctx, heap);
      var b, b' := Built(specs, n - 1, ctx, heap), Built(specs, n, ctx, heap);
      DecisionObeys(specs[n - 1], ctx, heap, b.heap);
      assert b'.heap == b.heap || b'.heap == Decision(specs[n - 1], ctx, b.heap).1;
      ExtendsSame(b.heap);
      ExtendsTrans(heap, b.heap, b'.heap);
      if Decides(specs, n - 1) { TurnDecides(specs, n - 1, ctx, heap); }
      forall i | 0 <= i < n - 1 && Decides(specs, i) && Outcome(specs, i, ctx, heap).Some?
        ensures RouteOk(Outcome(specs, i, ctx, heap).value, b'.heap)
      {
        RouteOkMore(Outcome(specs, i, ctx, heap).value, b.heap, b'.heap);
      }
    }
  }

  lemma TurnDecides(specs: seq<RouteSpec>, n: nat, ctx: Context, heap: Heap)
    requires n < |specs| && Decides(specs, n)
    ensures Built(specs, n + 1, ctx, heap).heap == Decision(specs[n], ctx, Built(specs, n, ctx, heap).heap).1
  {
    hide Decision;
    BuiltReflects(specs, n, ctx, heap);
    SkippedTurn(specs, n, Built(specs, n, ctx, heap).configured);
  }

  lemma ExtendsSame(a: Heap)
    ensures Extends(a, a)
  {
  }

  lemma ExtendsTrans(a: Heap, b: Heap, c: Heap)
    requires Extends(a, b) && Extends(b, c)
    ensures Extends(a, c)
  {
  }

  /** A reload of a sound table is a sound table, whose routes obey their deciding specs. */
  lemma ReloadIsSafe(specs: seq<RouteSpec>, ctx: Context, heap: Heap, sni: string)
    requires TableOk(ctx.previous, heap, ctx.digest)
    ensures var b := Built(specs, |specs|, ctx, heap);
      Installed(b.table, sni).Some? ==>
        && RouteOk(Installed(b.table, sni).value, b.heap)
        && sni in b.table.clientAuth
        && b.table.clientAuth[sni] == EnforcedAuth(Installed(b.table, sni).value, ctx.digest)
        && Deciding(specs, sni).Some?
        && Obeys(Installed(b.table, sni).value, specs[Deciding(specs, sni).value], ctx.listener, ctx.digest)
  {
    hide Built, Outcome, RouteOk, Installed, Dropped, RequestedAuth, EnforcedAuth, Authenticates, Servable;
    TableByDecider(specs, ctx, heap, sni);
    BuiltExtends(specs, |specs|, ctx, heap);
    BuiltReflects(specs, |specs|, ctx, heap);
    var i := Deciding(specs, sni);
    if i.Some? {
      assert Decides(specs, i.value);
      var route := Outcome(specs, i.value, ctx, heap);
      if route.Some? { AuthenticatesExactly(route.value, specs[i.value], ctx.listener, ctx.digest); }
    }
  }

  // ---- Every sequence of reloads ----

  /** One reload, and what refusals and probes left in the existing health objects before it. */
  datatype Reload = Reload(specs: seq<RouteSpec>, listener: ListenerTls, now: nat, words: seq<nat>)

  datatype Live = Live(table: Table, heap: Heap)

  function Touched(heap: Heap, words: seq<nat>): (h: Heap)
    ensures |h.words| == |heap.words|
  {
    if |words| == |heap.words| then Heap(words) else heap
  }

  function Reloaded(live: Live, r: Reload, digest: int -> int): Live {
    var b := Built(r.specs, |r.specs|, Context(r.listener, digest, live.table, r.now), Touched(live.heap, r.words));
    Live(b.table, b.heap)
  }

  function AfterReloads(reloads: seq<Reload>, digest: int -> int): Live {
    if reloads == [] then Live(EMPTY_TABLE, Heap([]))
    else Reloaded(AfterReloads(reloads[..|reloads| - 1], digest), reloads[|reloads| - 1], digest)
  }

  lemma TouchedOk(t: Table, heap: Heap, words: seq<nat>, digest: int -> int)
    requires TableOk(t, heap, digest)
    ensures TableOk(t, Touched(heap, words), digest)
  {
    hide Installed;
    forall sni | Installed(t, sni).Some? ensures RouteOk(Installed(t, sni).value, Touched(heap, words)) {
    }
  }

  lemma {:induction false} ReloadsKeepTableOk(reloads: seq<Reload>, digest: int -> int)
    ensures TableOk(AfterReloads(reloads, digest).table, AfterReloads(reloads, digest).heap, digest)
    decreases |reloads|
  {
    hide Built, RouteOk;
    if reloads != [] {
      hide Installed;
      var before, r := AfterReloads(reloads[..|reloads| - 1], digest), reloads[|reloads| - 1];
      ReloadsKeepTableOk(reloads[..|reloads| - 1], digest);
      TouchedOk(before.table, before.heap, r.words, digest);
      var live := Reloaded(before, r, digest);
      forall sni | Installed(live.table, sni).Some?
        ensures RouteOk(Installed(live.table, sni).value, live.heap)
        ensures sni in live.table.clientAuth
          && live.table.clientAuth[sni] == EnforcedAuth(Installed(live.table, sni).value, digest)
      {
        ReloadIsSafe(r.specs, Context(r.listener, digest, before.table, r.now), Touched(before.heap, r.words), sni);
      }
    }
  }

  /** Reload safety. After any sequence of reloads, with any pattern of failed certificate builds, a
      route that resolves for an SNI obeys the newest spec that decides that SNI: its client
      certificate policy, its source list, and its failover, with health tracked exactly when the
      route has failover. A permanently invalid spec leaves nothing behind. */
  lemma ReloadSafety(reloads: seq<Reload>, newest: Reload, digest: int -> int, sni: string)
    ensures var live := AfterReloads(reloads + [newest], digest);
      match Installed(live.table, sni)
      case None => true
      case Some(route) =>
        && Deciding(newest.specs, sni).Some?
        && Obeys(route, newest.specs[Deciding(newest.specs, sni).value], newest.listener, digest)
        && RouteOk(route, live.heap)
  {
    hide Built, RouteOk, Obeys, Installed, TableOk;
    var all := reloads + [newest];
    assert all[..|all| - 1] == reloads;
    var before := AfterReloads(reloads, digest);
    ReloadsKeepTableOk(reloads, digest);
    TouchedOk(before.table, before.heap, newest.words, digest);
    ReloadIsSafe(newest.specs, Context(newest.listener, digest, before.table, newest.now),
                 Touched(before.heap, newest.words), sni);
  }

  // ---- A reload alone never brings a down route up ----

  /** A slot of the new destination refuses, or shares its health with a slot of the old destination
      at the same path that was already accepting. */
  ghost predicate RefusesOrWasAccepting(slot: Slot, old': seq<Slot>, heap: Heap, heap': Heap) {
    slot.health.Some? &&
    (heap'.Refusing(slot.health.value) ||
     exists j :: 0 <= j < |old'| && old'[j].path == slot.path && old'[j].health == slot.health
       && !heap.Refusing(slot.health.value))
  }

  ghost predicate NoneBroughtUp(slots: seq<Slot>, old': seq<Slot>, heap: Heap, heap': Heap) {
    forall i :: 0 <= i < |slots| ==> RefusesOrWasAccepting(slots[i], old', heap, heap')
  }

  lemma StillRefusing(heap: Heap, heap': Heap, id: HealthId)
    requires Extends(heap, heap') && id < |heap.words|
    ensures heap'.Refusing(id) == heap.Refusing(id)
  {
  }

  lemma WithHealthBringsNoneUp(paths: seq<string>, old': seq<Slot>, heap: Heap, now: nat)
    requires Allocated(heap, Uds(old'))
    ensures var (slots, heap') := WithHealth(paths, old', true, heap, now); NoneBroughtUp(slots, old', heap, heap')
  {
    var (slots, heap') := WithHealth(paths, old', true, heap, now);
    forall i | 0 <= i < |slots| ensures RefusesOrWasAccepting(slots[i], old', heap, heap') {
      InheritedFrom(old', paths[i]);
      InheritedAllocated(old', paths[i], heap);
      if Inherited(old', paths[i]).Some? { StillRefusing(heap, heap', Inherited(old', paths[i]).value); }
    }
  }

  lemma NoneBroughtUpLater(slots: seq<Slot>, old': seq<Slot>, heap: Heap, mid: Heap, heap': Heap)
    requires NoneBroughtUp(slots, old', heap, mid) && Extends(mid, heap') && Allocated(mid, Uds(slots))
    ensures NoneBroughtUp(slots, old', heap, heap')
  {
    forall i | 0 <= i < |slots| ensures RefusesOrWasAccepting(slots[i], old', heap, heap') {
      assert RefusesOrWasAccepting(slots[i], old', heap, mid);
      StillRefusing(mid, heap', slots[i].health.value);
    }
  }

  /** Kept slots of a tracked destination bring nothing up. */
  lemma SameSlots(slots: seq<Slot>, heap: Heap, heap': Heap)
    requires Tracked(Uds(slots), true) && Allocated(heap, Uds(slots)) && Extends(heap, heap')
    ensures NoneBroughtUp(slots, slots, heap, heap')
  {
    forall i | 0 <= i < |slots| ensures RefusesOrWasAccepting(slots[i], slots, heap, heap') {
      StillRefusing(heap, heap', slots[i].health.value);
    }
  }

  ghost predicate SlotsStayRefusing(route: Route, previous: Route, heap: Heap, heap': Heap) {
    && (route.destination.Uds? ==>
        NoneBroughtUp(route.destination.slots, SlotsOf(Some(previous.destination)), heap, heap'))
    && (route.destinationH2.Some? && route.destinationH2.value.Uds? ==>
          NoneBroughtUp(route.destinationH2.value.slots, SlotsOf(previous.destinationH2), heap, heap'))
  }

  /** What a reload of a down route owes: no slot of either destination, and no TCP endpoint, accepts
      that was not accepting there before. */
  ghost predicate StaysRefusing(route: Route, previous: Route, heap: Heap, heap': Heap)
    requires route.failover.Some? && previous.failover.Some?
  {
    && SlotsStayRefusing(route, previous, heap, heap')
    && (route.destination.Tcp? ==>
          || DestinationDown(heap', route.failover.value, route.destination)
          || (previous.destination == route.destination
              && !DestinationDown(heap, previous.failover.value, previous.destination)))
  }

  lemma BuildDestinationRefuses(upstreams: seq<UpstreamSpec>, old': seq<Slot>, inherit: Inherit, heap: Heap, now: nat)
    requires Addressed(upstreams) && Allocated(heap, Uds(old')) && inherit.track && inherit.refuseNew
    ensures var (d, heap') := BuildDestination(upstreams, old', inherit, heap, now);
      d.Uds? ==> NoneBroughtUp(d.slots, old', heap, heap')
  {
    hide WithHealth, NoneBroughtUp;
    WithHealthBringsNoneUp(UdsPaths(upstreams), old', heap, now);
  }

  lemma RefusesBeforeToo(slots: seq<Slot>, old': seq<Slot>, heap: Heap, mid: Heap, heap': Heap)
    requires Extends(heap, mid) && Allocated(heap, Uds(old')) && NoneBroughtUp(slots, old', mid, heap')
    ensures NoneBroughtUp(slots, old', heap, heap')
  {
    forall i | 0 <= i < |slots| ensures RefusesOrWasAccepting(slots[i], old', heap, heap') {
      assert RefusesOrWasAccepting(slots[i], old', mid, heap');
      if !heap'.Refusing(slots[i].health.value) {
        var j :| 0 <= j < |old'| && old'[j].path == slots[i].path && old'[j].health == slots[i].health
          && !mid.Refusing(slots[i].health.value);
        StillRefusing(heap, mid, slots[i].health.value);
      }
    }
  }

  lemma BuildRouteRefuses(spec: RouteSpec, listener: ListenerTls, inherit: Inherit, heap: Heap, now: nat)
    requires inherit.previous.Some? && RouteOk(inherit.previous.value, heap) && inherit.track && inherit.refuseNew
    ensures BuildRoute(spec, listener, inherit, heap, now).Some? ==>
      var (route, heap') := BuildRoute(spec, listener, inherit, heap, now).value;
      SlotsStayRefusing(route, inherit.previous.value, heap, heap')
  {
    hide BuildDestination, NoneBroughtUp;
    var h1, h2 := WithH2(spec.upstreams, false), WithH2(spec.upstreams, true);
    if !spec.suspended && spec.upstreams != [] && Addressed(h1) {
      var p1, p2 := SlotsOf(Some(inherit.previous.value.destination)), SlotsOf(inherit.previous.value.destinationH2);
      BuildDestinationRefuses(h1, p1, inherit, heap, now);
      BuildDestinationFits(h1, p1, inherit, heap, now);
      var (d1, heap1) := BuildDestination(h1, p1, inherit, heap, now);
      if h2 != [] {
        AllocatedMore(heap, heap1, Uds(p2));
        BuildDestinationRefuses(h2, p2, inherit, heap1, now);
        BuildDestinationFits(h2, p2, inherit, heap1, now);
        var (d2, heap2) := BuildDestination(h2, p2, inherit, heap1, now);
        if d1.Uds? { NoneBroughtUpLater(d1.slots, p1, heap, heap1, heap2); }
        if d2.Uds? { RefusesBeforeToo(d2.slots, p2, heap, heap1, heap2); }
      }
    }
  }

  lemma RetrackRefuses(route: Route, heap: Heap, now: nat)
    requires RouteOk(route, heap) && route.failover.Some?
    ensures var (r, heap') := Retrack(route, true, heap, now); SlotsStayRefusing(r, route, heap, heap')
  {
    hide WithHealth, NoneBroughtUp;
    var (r, heap') := Retrack(route, true, heap, now);
    RetrackFits(route, true, heap, now);
    if TracksAs(route, true) {
      if route.destination.Uds? { SameSlots(route.destination.slots, heap, heap); }
      if route.destinationH2.Some? && route.destinationH2.value.Uds? {
        SameSlots(route.destinationH2.value.slots, heap, heap);
      }
    } else {
      RetrackedRefuses(route.destination, heap, now);
      RetrackedFits(route.destination, true, heap, now);
      var (d1, heap1) := Retracked(route.destination, true, heap, now);
      if route.destinationH2.Some? {
        var h2 := route.destinationH2.value;
        AllocatedMore(heap, heap1, h2);
        RetrackedRefuses(h2, heap1, now);
        RetrackedFits(h2, true, heap1, now);
        if d1.Uds? { NoneBroughtUpLater(d1.slots, SlotsOf(Some(route.destination)), heap, heap1, heap'); }
        if h2.Uds? { RefusesBeforeToo(r.destinationH2.value.slots, h2.slots, heap, heap1, heap'); }
      }
    }
  }

  lemma RetrackedRefuses(dest: Destination, heap: Heap, now: nat)
    requires Tracked(dest, true) && Allocated(heap, dest)
    ensures var (d, heap') := Retracked(dest, true, heap, now);
      d.Uds? ==> NoneBroughtUp(d.slots, SlotsOf(Some(dest)), heap, heap')
  {
    if dest.Uds? {
      var (slots, heap') := WithHealth(Paths(dest.slots), dest.slots, false, heap, now);
      forall i | 0 <= i < |slots| ensures RefusesOrWasAccepting(slots[i], dest.slots, heap, heap') {
        assert dest.slots[i].path == slots[i].path;
        InheritedFrom(dest.slots, slots[i].path);
        InheritedAllocated(dest.slots, slots[i].path, heap);
        StillRefusing(heap, heap', Inherited(dest.slots, slots[i].path).value);
      }
    }
  }

  lemma FinishRefuses(route: Route, heap: Heap, spec: RouteSpec, policy: Option<int>, previous: Route, before: Heap,
                      now: nat)
    requires policy.Some? && Fits(route, true, heap) && RouteOk(previous, before) && Extends(before, heap)
    requires previous.failover.Some? && SlotsStayRefusing(route, previous, before, heap)
    ensures var (r, heap') := Finish(route, heap, spec, policy, Some(previous), true, now);
      r.Some? && r.value.failover.Some? && StaysRefusing(r.value, previous, before, heap')
  {
    hide NoneBroughtUp;
    RouteOkMore(previous, before, heap);
    FinishOk(route, heap, spec, policy, Some(previous), true, now);
    var (r, heap') := Finish(route, heap, spec, policy, Some(previous), true, now);
    if route.destination.Uds? {
      NoneBroughtUpLater(route.destination.slots, SlotsOf(Some(previous.destination)), before, heap, heap');
    }
    if route.destinationH2.Some? && route.destinationH2.value.Uds? {
      NoneBroughtUpLater(route.destinationH2.value.slots, SlotsOf(previous.destinationH2), before, heap, heap');
    }
  }

  /** Reloading a down route that keeps failover, built anew or carried forward: every endpoint
      refuses unless that same endpoint was already accepting at that destination. */
  lemma DownRouteStaysRefusing(spec: RouteSpec, listener: ListenerTls, digest: int -> int,
                               previous: Route, auth: Option<ClientAuth>, heap: Heap, now: nat)
    requires RouteOk(previous, heap) && Down(heap, previous) && PolicyOf(spec).Some?
    ensures var (r, heap') := DecideSpec(spec, listener, digest, Some(previous), auth, heap, now);
      r.Some? ==> r.value.failover.Some? && StaysRefusing(r.value, previous, heap, heap')
  {
    hide BuildRoute, Retrack, Finish, RouteOk, PermanentlyInvalid, Fits, StaysRefusing, SlotsStayRefusing;
    var policy := PolicyOf(spec);
    var inherit := Inherit(Some(previous), true, true);
    BuildRouteFits(spec, listener, inherit, heap, now);
    BuildRouteRefuses(spec, listener, inherit, heap, now);
    var built := BuildRoute(spec, listener, inherit, heap, now);
    if built.Some? {
      FinishRefuses(built.value.0, built.value.1, spec, policy, previous, heap, now);
    } else {
      RetrackFits(previous, true, heap, now);
      RetrackRefuses(previous, heap, now);
      var (route, heap1) := Retrack(previous, true, heap, now);
      FinishRefuses(route, heap1, spec, policy, previous, heap, now);
    }
  }

  /** A spec whose HTTP/1 upstreams are socket groups naming no socket at all. */
  predicate NamesNoSocket(spec: RouteSpec) { Wanted(spec) == Sockets([]) }

  /** With one destination before and after, a down route is still down after the reload, whatever
      its endpoints become, if and only if the spec does not get it rebuilt without an endpoint. */
  lemma ReloadNeverBringsUp(spec: RouteSpec, listener: ListenerTls, digest: int -> int,
                            previous: Route, auth: Option<ClientAuth>, heap: Heap, now: nat)
    requires RouteOk(previous, heap) && Down(heap, previous) && PolicyOf(spec).Some? && previous.destinationH2.None?
    ensures var (r, heap') := DecideSpec(spec, listener, digest, Some(previous), auth, heap, now);
      r.Some? && r.value.destinationH2.None? ==>
        (Down(heap', r.value) <==> !(Buildable(spec) && NamesNoSocket(spec)))
  {
    hide RouteOk;
    DownRouteStaysRefusing(spec, listener, digest, previous, auth, heap, now);
    EmptyOnlyByName(spec, listener, digest, previous, auth, heap, now);
    hide DecideSpec, Buildable, NamesNoSocket;
    var (r, heap') := DecideSpec(spec, listener, digest, Some(previous), auth, heap, now);
    if r.Some? && r.value.destination.Uds? {
      var slots := r.value.destination.slots;
      forall i | 0 <= i < |slots| ensures slots[i].health.Some? && heap'.Refusing(slots[i].health.value) {
        assert RefusesOrWasAccepting(slots[i], SlotsOf(Some(previous.destination)), heap, heap');
      }
    }
  }

  lemma EmptyOnlyByName(spec: RouteSpec, listener: ListenerTls, digest: int -> int,
                        previous: Route, auth: Option<ClientAuth>, heap: Heap, now: nat)
    requires RouteOk(previous, heap) && Down(heap, previous) && PolicyOf(spec).Some? && previous.destinationH2.None?
    ensures var (r, heap') := DecideSpec(spec, listener, digest, Some(previous), auth, heap, now);
      r.Some? ==> (r.value.destination == Uds([]) <==> Buildable(spec) && NamesNoSocket(spec))
  {
    hide DestinationDown, PermanentlyInvalid, Buildable, Wanted;
    var inherit := Inherit(Some(previous), true, true);
    BuildsExactly(spec, listener, inherit, heap, now);
    var built := BuildRoute(spec, listener, inherit, heap, now);
    if built.None? {
      RetrackKeepsSize(previous, heap, now);
      DownHasSlots(previous, heap);
    } else {
      BuiltEmpty(spec, listener, previous, heap, now);
    }
  }

  lemma BuiltEmpty(spec: RouteSpec, listener: ListenerTls, previous: Route, heap: Heap, now: nat)
    requires BuildRoute(spec, listener, Inherit(Some(previous), true, true), heap, now).Some?
    ensures BuildRoute(spec, listener, Inherit(Some(previous), true, true), heap, now).value.0.destination == Uds([])
      <==> NamesNoSocket(spec)
  {
    hide BuildRoute, Wanted;
    var inherit := Inherit(Some(previous), true, true);
    BuildsExactly(spec, listener, inherit, heap, now);
    var built := BuildRoute(spec, listener, inherit, heap, now).value.0;
    if built.destination.Uds? && built.destination.slots != [] {
      assert Named(built.destination).paths != [];
    }
  }

  lemma RetrackKeepsSize(route: Route, heap: Heap, now: nat)
    ensures var r := Retrack(route, true, heap, now).0;
      && r.destination.Uds? == route.destination.Uds?
      && (r.destination.Uds? ==> |r.destination.slots| == |route.destination.slots|)
  {
  }

  lemma DownHasSlots(route: Route, heap: Heap)
    requires Down(heap, route) && route.destinationH2.None?
    ensures route.destination != Uds([])
  {
  }

  lemma DownSame(route: Route, a: Heap, b: Heap)
    requires RouteOk(route, a) && Extends(a, b)
    ensures Down(a, route) == Down(b, route)
  {
  }

  /** The live route of `sni` is down and has one destination. */
  ghost predicate DownAt(table: Table, heap: Heap, sni: string) {
    && Installed(table, sni).Some? && Installed(table, sni).value.destinationH2.None?
    && Down(heap, Installed(table, sni).value)
  }

  /** The specs decide `sni`, and give it failover. */
  ghost predicate KeepsFailover(specs: seq<RouteSpec>, sni: string) {
    Deciding(specs, sni).Some? && PolicyOf(specs[Deciding(specs, sni).value]).Some?
  }

  /** The same over any sequence of reloads: if the live route of an SNI is down when the newest
      reload comes, its successor is down in the new table if and only if its deciding spec does not
      get it rebuilt without an endpoint. */
  lemma DownAfterReloadExactly(reloads: seq<Reload>, newest: Reload, digest: int -> int, sni: string)
    requires var before := AfterReloads(reloads, digest); DownAt(before.table, Touched(before.heap, newest.words), sni)
    requires KeepsFailover(newest.specs, sni)
    ensures var live := AfterReloads(reloads + [newest], digest);
      var spec := newest.specs[Deciding(newest.specs, sni).value];
      Installed(live.table, sni).Some? && Installed(live.table, sni).value.destinationH2.None? ==>
        (DownAt(live.table, live.heap, sni) <==> !(Buildable(spec) && NamesNoSocket(spec)))
  {
    hide Installed, RouteOk, Down, PolicyOf, NamesNoSocket, Buildable, DecideSpec, Built, TableOk, Extends, BuildRoute;
    var all := reloads + [newest];
    assert all[..|all| - 1] == reloads;
    var before := AfterReloads(reloads, digest);
    var heap := Touched(before.heap, newest.words);
    var ctx := Context(newest.listener, digest, before.table, newest.now);
    ReloadsKeepTableOk(reloads, digest);
    TouchedOk(before.table, before.heap, newest.words, digest);
    LastReload(newest.specs, ctx, heap, sni);
  }

  lemma LastReload(specs: seq<RouteSpec>, ctx: Context, heap: Heap, sni: string)
    requires TableOk(ctx.previous, heap, ctx.digest) && DownAt(ctx.previous, heap, sni) && KeepsFailover(specs, sni)
    ensures var b := Built(specs, |specs|, ctx, heap); var spec := specs[Deciding(specs, sni).value];
      Installed(b.table, sni).Some? && Installed(b.table, sni).value.destinationH2.None? ==>
        (Down(b.heap, Installed(b.table, sni).value) <==> !(Buildable(spec) && NamesNoSocket(spec)))
  {
    var previous := Installed(ctx.previous, sni).value;
    assert RouteOk(previous, heap);
    hide Installed, RouteOk, Down, PolicyOf, NamesNoSocket, Buildable, DecideSpec, Built, TableOk, Extends, BuildRoute,
      PermanentlyInvalid;
    var i := Deciding(specs, sni).value;
    var spec := specs[i];
    var mid := Built(specs, i, ctx, heap).heap;
    var auth := if sni in ctx.previous.clientAuth then Some(ctx.previous.clientAuth[sni]) else None;
    BuiltExtends(specs, i, ctx, heap);
    RouteOkMore(previous, heap, mid);
    DownSame(previous, heap, mid);
    TableByDecider(specs, ctx, heap, sni);
    ReloadNeverBringsUp(spec, ctx.listener, ctx.digest, previous, auth, mid, ctx.now);
    DecisionObeys(spec, ctx, heap, mid);
    BuiltBetween(specs, i + 1, |specs|, ctx, heap);
    TurnDecides(specs, i, ctx, heap);
    var (r, heap') := DecideSpec(spec, ctx.listener, ctx.digest, Some(previous), auth, mid, ctx.now);
    if r.Some? { DownSame(r.value, heap', Built(specs, |specs|, ctx, heap).heap); }
  }

  lemma {:induction false} BuiltBetween(specs: seq<RouteSpec>, m: nat, n: nat, ctx: Context, heap: Heap)
    requires m <= n <= |specs| && TableOk(ctx.previous, heap, ctx.digest)
    ensures Extends(Built(specs, m, ctx, heap).heap, Built(specs, n, ctx, heap).heap)
    decreases n
  {
    hide Decision, RouteOk, Obeys, TableOk, Extends, Install, Tombstone;
    ExtendsSame(Built(specs, m, ctx, heap).heap);
    if m < n {
      BuiltBetween(specs, m, n - 1, ctx, heap);
      BuiltExtends(specs, n - 1, ctx, heap);
      var b, b' := Built(specs, n - 1, ctx, heap), Built(specs, n, ctx, heap);
      DecisionObeys(specs[n - 1], ctx, heap, b.heap);
      assert b'.heap == b.heap || b'.heap == Decision(specs[n - 1], ctx, b.heap).1;
      ExtendsSame(b.heap);
      ExtendsTrans(Built(specs, m, ctx, heap).heap, b.heap, b'.heap);
    }
  }

  // ---- What configuration can produce ----

  /** An upstream as JavaScript passes it. */
  datatype JsUpstream = JsUpstream(kind: string, host: Option<string>, port: Option<nat>, path: Option<string>,
                                   protocol: Option<string>)

  /** `parse_upstream_spec`; whether host and port name an address is found out when the route is built. */
  function ParseUpstream(u: JsUpstream, address: (string, nat) -> Option<int>): Option<UpstreamSpec> {
    if u.kind == "tcp" then
      if u.host.None? || u.port.None? || u.protocol.Some? then None
      else Some(TcpUpstream(address(u.host.value, u.port.value)))
    else if u.kind == "uds" then
      if u.path.None? || (u.protocol.Some? && u.protocol.value != "h2" && u.protocol.value != "http/1.1") then None
      else Some(UdsUpstream([u.path.value], u.protocol == Some("h2")))
    else None
  }

  ghost predicate Parsed(upstream: UpstreamSpec) {
    exists u, address :: ParseUpstream(u, address) == Some(upstream)
  }

  /** Every upstream of the spec came out of that parser. */
  ghost predicate Configured(spec: RouteSpec) {
    forall i :: 0 <= i < |spec.upstreams| ==> Parsed(spec.upstreams[i])
  }

  /** What the parser takes, exactly: a TCP upstream with host and port and without a protocol, or one
      socket, spoken to over HTTP/2 if and only if it says so. */
  lemma ParsesExactly(u: JsUpstream, address: (string, nat) -> Option<int>)
    ensures match ParseUpstream(u, address)
      case Some(TcpUpstream(addr)) =>
        && u.kind == "tcp" && u.host.Some? && u.port.Some? && u.protocol == None
        && addr == address(u.host.value, u.port.value)
      case Some(UdsUpstream(paths, h2)) =>
        && u.kind == "uds" && u.path.Some? && paths == [u.path.value]
        && (if h2 then u.protocol == Some("h2") else u.protocol in {None, Some("http/1.1")})
      case None =>
        && (u.kind == "tcp" ==> u.host == None || u.port == None || u.protocol != None)
        && (u.kind == "uds" ==> u.path == None || u.protocol !in {None, Some("h2"), Some("http/1.1")})
  {
  }

  lemma {:induction false} LeaderIsSocket(upstreams: seq<UpstreamSpec>)
    requires forall i :: 0 <= i < |upstreams| && upstreams[i].UdsUpstream? ==> upstreams[i].paths != []
    ensures var u := Leader(upstreams, false); u.Some? && u.value.UdsUpstream? ==> SocketsOf(upstreams, false) != []
  {
    if upstreams != [] {
      LeaderIsSocket(upstreams[1..]);
      SocketsOfMore(upstreams, false);
    }
  }

  /** No configured spec names a socket group without a path. */
  lemma ConfiguredHasEndpoints(spec: RouteSpec)
    requires Configured(spec)
    ensures !NamesNoSocket(spec)
  {
    hide Leader, SocketsOf;
    LeaderIsSocket(spec.upstreams);
  }

  /** So, as configuration can have it, a reload alone never brings a down route up. */
  lemma NoReloadBringsUp(reloads: seq<Reload>, newest: Reload, digest: int -> int, sni: string)
    requires var before := AfterReloads(reloads, digest); DownAt(before.table, Touched(before.heap, newest.words), sni)
    requires KeepsFailover(newest.specs, sni) && Configured(newest.specs[Deciding(newest.specs, sni).value])
    ensures var live := AfterReloads(reloads + [newest], digest);
      Installed(live.table, sni).Some? && Installed(live.table, sni).value.destinationH2.None? ==>
        DownAt(live.table, live.heap, sni)
  {
    hide Installed, Down, Buildable, NamesNoSocket, Configured, AfterReloads, DownAt, PolicyOf;
    ConfiguredHasEndpoints(newest.specs[Deciding(newest.specs, sni).value]);
    DownAfterReloadExactly(reloads, newest, digest, sni);
  }

  /** Reload `r` of the live state, as seen from `sni`: nothing cleared a refusal before it, its spec is
      as configured and keeps failover, and it leaves a route with one destination. */
  ghost predicate Quiet(live: Live, r: Reload, after: Live, sni: string) {
    && (forall id :: live.heap.Refusing(id) ==> Touched(live.heap, r.words).Refusing(id))
    && KeepsFailover(r.specs, sni) && Configured(r.specs[Deciding(r.specs, sni).value])
    && Installed(after.table, sni).Some? && Installed(after.table, sni).value.destinationH2.None?
  }

  ghost predicate AllQuiet(reloads: seq<Reload>, later: seq<Reload>, digest: int -> int, sni: string) {
    forall i :: 0 <= i < |later| ==>
      Quiet(AfterReloads(reloads + later[..i], digest), later[i], AfterReloads(reloads + later[..i + 1], digest), sni)
  }

  lemma StaysDownUntouched(heap: Heap, touched: Heap, table: Table, sni: string)
    requires DownAt(table, heap, sni) && forall id :: heap.Refusing(id) ==> touched.Refusing(id)
    ensures DownAt(table, touched, sni)
  {
    hide Installed;
  }

  /** Over any number of further reloads a down route stays down until something clears a refusal. */
  lemma {:induction false} DownUntilProbed(reloads: seq<Reload>, later: seq<Reload>, digest: int -> int, sni: string)
    requires var live := AfterReloads(reloads, digest); DownAt(live.table, live.heap, sni)
    requires AllQuiet(reloads, later, digest, sni)
    ensures var live := AfterReloads(reloads + later, digest); DownAt(live.table, live.heap, sni)
    decreases |later|
  {
    hide AfterReloads, DownAt, Quiet;
    if later == [] {
      assert reloads + later == reloads;
    } else {
      var n := |later| - 1;
      var init, last := later[..n], later[n];
      assert forall i :: 0 <= i <= n ==> init[..i] == later[..i];
      DownUntilProbed(reloads, init, digest, sni);
      assert later[..n + 1] == later && reloads + later == (reloads + init) + [last];
      assert Quiet(AfterReloads(reloads + init, digest), last, AfterReloads(reloads + later, digest), sni);
      QuietKeepsDown(reloads + init, last, digest, sni);
    }
  }

  lemma QuietKeepsDown(reloads: seq<Reload>, r: Reload, digest: int -> int, sni: string)
    requires var live := AfterReloads(reloads, digest); DownAt(live.table, live.heap, sni)
    requires Quiet(AfterReloads(reloads, digest), r, AfterReloads(reloads + [r], digest), sni)
    ensures var live := AfterReloads(reloads + [r], digest); DownAt(live.table, live.heap, sni)
  {
    hide AfterReloads, DownAt, Installed, Configured, PolicyOf;
    var live := AfterReloads(reloads, digest);
    StaysDownUntouched(live.heap, Touched(live.heap, r.words), live.table, sni);
    NoReloadBringsUp(reloads, r, digest, sni);
  }
}
