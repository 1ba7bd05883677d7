/** What a reload does to the health of endpoints: the same endpoint keeps the object it had, and a new one
    starts as the route it replaces was. */
module HealthLaws {
  import opened Wrappers
  import opened Health
  import opened Router
  import opened BuildLaws
  import opened ReloadLaws

  /** One touch of a health word: a refusal stamps it, with 1 at time 0; a probe clears what it saw. */
  lemma TouchIsExact(word: nat, touches: seq<Touch>, last: Touch)
    ensures var before, after := AfterTouches(word, touches), AfterTouches(word, touches + [last]);
      match last
      case Refused(now) => after == (if now == 0 then 1 else now)
      case Probed(observed) => after == if observed == before then 0 else before
  {
    assert (touches + [last])[..|touches|] == touches;
  }

  /** A route with failover is down when all endpoints of one of its destinations refuse, and it has any. */
  lemma DownIsExact(heap: Heap, route: Route)
    ensures Down(heap, route) <==>
      route.failover.Some? &&
      (Refuses(heap, route.destination, route.failover.value.tcpHealth)
       || (route.destinationH2.Some? && Refuses(heap, route.destinationH2.value, route.failover.value.tcpHealth)))
  {
  }

  ghost predicate RefusingNow(heap: Heap, health: Option<HealthId>) {
    health.Some? && health.value < |heap.words| && heap.words[health.value] > 0
  }

  ghost predicate Refuses(heap: Heap, dest: Destination, tcpHealth: Option<HealthId>) {
    match dest
    case Tcp(_) => RefusingNow(heap, tcpHealth)
    case Uds(slots) => |slots| > 0 && forall slot :: slot in slots ==> RefusingNow(heap, slot.health)
  }

  // ---- Slots ----

  /** The first slot with this path. */
  ghost predicate FirstAt(slots: seq<Slot>, path: string, i: nat) {
    i < |slots| && slots[i].path == path && forall j :: 0 <= j < i ==> slots[j].path != path
  }

  ghost predicate Had(slots: seq<Slot>, path: string, id: HealthId) {
    exists i: nat :: FirstAt(slots, path, i) && slots[i].health == Some(id)
  }

  lemma {:induction false} InheritedIsFirst(slots: seq<Slot>, path: string, i: nat)
    requires FirstAt(slots, path, i)
    ensures Inherited(slots, path) == slots[i].health
    decreases |slots|
  {
    if i > 0 {
      assert slots[0].path != path;
      assert forall j :: 0 <= j < i - 1 ==> slots[1..][j] == slots[j + 1];
      InheritedIsFirst(slots[1..], path, i - 1);
    }
  }

  lemma {:induction false} FirstIsInherited(slots: seq<Slot>, path: string)
    requires Inherited(slots, path).Some?
    ensures exists i: nat :: FirstAt(slots, path, i)
    decreases |slots|
  {
    if slots[0].path == path {
      assert FirstAt(slots, path, 0);
    } else {
      FirstIsInherited(slots[1..], path);
      var i: nat :| FirstAt(slots[1..], path, i);
      assert forall j :: 0 < j < i + 1 ==> slots[j] == slots[1..][j - 1];
      assert FirstAt(slots, path, i + 1);
    }
  }

  lemma InheritedIsHad(slots: seq<Slot>, path: string, id: HealthId)
    ensures Inherited(slots, path) == Some(id) <==> Had(slots, path, id)
  {
    if Inherited(slots, path) == Some(id) {
      FirstIsInherited(slots, path);
      var i: nat :| FirstAt(slots, path, i);
      InheritedIsFirst(slots, path, i);
    }
    if i: nat :| FirstAt(slots, path, i) && slots[i].health == Some(id) { InheritedIsFirst(slots, path, i); }
  }

  /** The slot has the object its path had among the old slots, or a new one that refuses if asked to. */
  ghost predicate Continues(slot: Slot, old': seq<Slot>, refuse: bool, heap: Heap, heap': Heap) {
    && slot.health.Some?
    && (Had(old', slot.path, slot.health.value)
        || (&& (forall id :: !Had(old', slot.path, id))
            && |heap.words| <= slot.health.value < |heap'.words|
            && (heap'.words[slot.health.value] > 0 <==> refuse)))
  }

  ghost predicate AllContinue(slots: seq<Slot>, old': seq<Slot>, refuse: bool, heap: Heap, heap': Heap) {
    forall i :: 0 <= i < |slots| ==> Continues(slots[i], old', refuse, heap, heap')
  }

  lemma WithHealthContinues(paths: seq<string>, old': seq<Slot>, refuse: bool, heap: Heap, now: nat)
    ensures var (slots, heap') := WithHealth(paths, old', refuse, heap, now);
      AllContinue(slots, old', refuse, heap, heap')
  {
    var (slots, heap') := WithHealth(paths, old', refuse, heap, now);
    hide WithHealth, Had;
    forall i | 0 <= i < |slots| ensures Continues(slots[i], old', refuse, heap, heap') {
      forall id: HealthId ensures Inherited(old', paths[i]) == Some(id) <==> Had(old', paths[i], id) {
        InheritedIsHad(old', paths[i], id);
      }
    }
  }

  lemma ContinuesWider(slots: seq<Slot>, old': seq<Slot>, refuse: bool, before: Heap, heap: Heap, mid: Heap,
                       heap': Heap)
    requires AllContinue(slots, old', refuse, heap, mid) && Extends(before, heap) && Extends(mid, heap')
    ensures AllContinue(slots, old', refuse, before, heap')
  {
    hide Had;
    forall i | 0 <= i < |slots| ensures Continues(slots[i], old', refuse, before, heap') {
      assert Continues(slots[i], old', refuse, heap, mid);
    }
  }

  lemma DestinationContinues(upstreams: seq<UpstreamSpec>, old': seq<Slot>, inherit: Inherit, heap: Heap, now: nat)
    requires Addressed(upstreams) && inherit.track
    ensures var (d, heap') := BuildDestination(upstreams, old', inherit, heap, now);
      Extends(heap, heap') && AllContinue(SlotsOf(Some(d)), old', inherit.refuseNew, heap, heap')
  {
    hide AllContinue, WithHealth;
    if upstreams[0].UdsUpstream? {
      WithHealthContinues(UdsPaths(upstreams), old', inherit.refuseNew, heap, now);
    } else {
      NothingContinues(old', inherit.refuseNew, heap);
    }
  }

  lemma NothingContinues(old': seq<Slot>, refuse: bool, heap: Heap)
    ensures AllContinue([], old', refuse, heap, heap)
  {
  }

  function OldSlots(previous: Option<Route>): seq<Slot> {
    if previous.Some? then SlotsOf(Some(previous.value.destination)) else []
  }

  function OldSlotsH2(previous: Option<Route>): seq<Slot> {
    if previous.Some? then SlotsOf(previous.value.destinationH2) else []
  }

  lemma BuiltContinues(spec: RouteSpec, listener: ListenerTls, inherit: Inherit, heap: Heap, now: nat)
    requires inherit.track
    ensures var built := BuildRoute(spec, listener, inherit, heap, now);
      built.Some? ==>
        var (r, heap') := built.value;
        && Extends(heap, heap')
        && AllContinue(SlotsOf(Some(r.destination)), OldSlots(inherit.previous), inherit.refuseNew, heap, heap')
        && AllContinue(SlotsOf(r.destinationH2), OldSlotsH2(inherit.previous), inherit.refuseNew, heap, heap')
  {
    hide AllContinue, BuildDestination, WithH2;
    var old1, old2 := OldSlots(inherit.previous), OldSlotsH2(inherit.previous);
    NothingContinues(old1, inherit.refuseNew, heap);
    NothingContinues(old2, inherit.refuseNew, heap);
    var h1, h2 := WithH2(spec.upstreams, false), WithH2(spec.upstreams, true);
    if !spec.suspended && spec.upstreams != [] && Addressed(h1) {
      DestinationContinues(h1, old1, inherit, heap, now);
      var (d1, heap1) := BuildDestination(h1, old1, inherit, heap, now);
      if h2 == [] {
        NothingContinues(old2, inherit.refuseNew, heap1);
        ContinuesWider([], old2, inherit.refuseNew, heap, heap1, heap1, heap1);
      } else {
        assert Addressed(h2);
        DestinationContinues(h2, old2, inherit, heap1, now);
        var (d2, heap2) := BuildDestination(h2, old2, inherit, heap1, now);
        ContinuesWider(SlotsOf(Some(d1)), old1, inherit.refuseNew, heap, heap, heap1, heap2);
        ContinuesWider(SlotsOf(Some(d2)), old2, inherit.refuseNew, heap, heap1, heap2, heap2);
      }
    }
  }

  /** The health of a TCP destination: the previous one's at the same address, or a new object. A socket
      group has none besides its slots'. */
  ghost predicate TcpContinues(route: Route, previous: Option<Route>, refuse: bool, heap: Heap, heap': Heap) {
    route.failover.Some? ==>
      var health := route.failover.value.tcpHealth;
      if route.destination.Uds? then health.None?
      else if previous.Some? && previous.value.failover.Some? && previous.value.failover.value.tcpHealth.Some?
         && previous.value.destination == route.destination
      then health == previous.value.failover.value.tcpHealth
      else
        && health.Some? && |heap.words| <= health.value < |heap'.words|
        && (heap'.words[health.value] > 0 <==> refuse)
  }

  lemma FinishContinues(route: Route, heap: Heap, spec: RouteSpec, policy: Option<int>, previous: Option<Route>,
                        refuse: bool, now: nat)
    ensures var (r, heap') := Finish(route, heap, spec, policy, previous, refuse, now);
      && r.Some? && Extends(heap, heap') && TcpContinues(r.value, previous, refuse, heap, heap')
      && r.value.destination == route.destination && r.value.destinationH2 == route.destinationH2
  {
  }

  /** A route with failover, built anew: every endpoint it shares with the route it replaces, destination by
      destination, keeps its health object, and every other starts out refusing if and only if that
      route was down. */
  lemma RebuiltContinues(spec: RouteSpec, listener: ListenerTls, digest: int -> int,
                         previous: Option<Route>, auth: Option<ClientAuth>, heap: Heap, now: nat)
    requires Servable(spec) && Buildable(spec) && PolicyOf(spec).Some?
    ensures var (r, heap') := DecideSpec(spec, listener, digest, previous, auth, heap, now);
      var down := previous.Some? && Down(heap, previous.value);
      && r.Some? && Extends(heap, heap') && TcpContinues(r.value, previous, down, heap, heap')
      && AllContinue(SlotsOf(Some(r.value.destination)), OldSlots(previous), down, heap, heap')
      && AllContinue(SlotsOf(r.value.destinationH2), OldSlotsH2(previous), down, heap, heap')
  {
    hide AllContinue, BuildRoute, Finish, Servable, Buildable, PermanentlyInvalid, Down;
    ServableExactly(spec);
    var policy, down := PolicyOf(spec), previous.Some? && Down(heap, previous.value);
    var inherit := Inherit(previous, policy.Some?, down);
    BuildsExactly(spec, listener, inherit, heap, now);
    BuiltContinues(spec, listener, inherit, heap, now);
    var (route, mid) := BuildRoute(spec, listener, inherit, heap, now).value;
    FinishContinues(route, mid, spec, policy, previous, down, now);
    var (r, heap') := Finish(route, mid, spec, policy, previous, down, now);
    ContinuesWider(SlotsOf(Some(route.destination)), OldSlots(previous), down, heap, heap, mid, heap');
    ContinuesWider(SlotsOf(route.destinationH2), OldSlotsH2(previous), down, heap, heap, mid, heap');
    TcpWider(r.value, previous, down, heap, mid, heap');
  }

  lemma TcpWider(route: Route, previous: Option<Route>, refuse: bool, before: Heap, heap: Heap, heap': Heap)
    requires TcpContinues(route, previous, refuse, heap, heap') && Extends(before, heap)
    ensures TcpContinues(route, previous, refuse, before, heap')
  {
  }

  ghost predicate HasSlots(dest: Destination) { dest.Uds? ==> dest.slots != [] }

  /** A route that goes on for want of a certificate keeps its endpoints as they are; only when failover is
      switched on for it do they all get objects, that are accepting. */
  lemma RetainedContinues(spec: RouteSpec, listener: ListenerTls, digest: int -> int,
                          previous: Route, auth: Option<ClientAuth>, heap: Heap, now: nat)
    requires Servable(spec) && !Buildable(spec) && auth == Some(RequestedAuth(spec, listener, digest))
    requires RouteOk(previous, heap) && HasSlots(previous.destination)
    requires previous.destinationH2.Some? ==> HasSlots(previous.destinationH2.value)
    ensures var (r, heap') := DecideSpec(spec, listener, digest, Some(previous), auth, heap, now);
      && r.Some? && Extends(heap, heap') && TcpContinues(r.value, Some(previous), Down(heap, previous), heap, heap')
      && (PolicyOf(spec).Some? == previous.failover.Some? ==>
            r.value.destination == previous.destination && r.value.destinationH2 == previous.destinationH2)
      && (PolicyOf(spec).Some? && previous.failover.None? ==>
            && AllContinue(SlotsOf(Some(r.value.destination)), [], false, heap, heap')
            && AllContinue(SlotsOf(r.value.destinationH2), [], false, heap, heap'))
  {
    hide AllContinue, BuildRoute, Finish, Servable, Buildable, PermanentlyInvalid, Down, Retrack, RequestedAuth;
    ServableExactly(spec);
    var policy, down := PolicyOf(spec), Down(heap, previous);
    var inherit := Inherit(Some(previous), policy.Some?, down);
    BuildsExactly(spec, listener, inherit, heap, now);
    RetrackContinues(previous, policy.Some?, heap, now);
    RetrackFits(previous, policy.Some?, heap, now);
    var (route, mid) := Retrack(previous, policy.Some?, heap, now);
    FinishContinues(route, mid, spec, policy, Some(previous), down, now);
    var (r, heap') := Finish(route, mid, spec, policy, Some(previous), down, now);
    TcpWider(r.value, Some(previous), down, heap, mid, heap');
    if policy.Some? && previous.failover.None? {
      ContinuesWider(SlotsOf(Some(route.destination)), [], false, heap, heap, mid, heap');
      ContinuesWider(SlotsOf(route.destinationH2), [], false, heap, heap, mid, heap');
    }
  }

  lemma RetrackContinues(route: Route, track: bool, heap: Heap, now: nat)
    requires RouteOk(route, heap) && HasSlots(route.destination)
    requires route.destinationH2.Some? ==> HasSlots(route.destinationH2.value)
    ensures var (r, heap') := Retrack(route, track, heap, now);
      && (track == route.failover.Some? ==> r == route && heap' == heap)
      && (track && route.failover.None? ==>
            && Extends(heap, heap') && AllContinue(SlotsOf(Some(r.destination)), [], false, heap, heap')
            && AllContinue(SlotsOf(r.destinationH2), [], false, heap, heap'))
  {
    hide AllContinue, Retracked, Allocated;
    var tracked := route.failover.Some?;
    NothingContinues([], false, heap);
    UniformlyTracked(route.destination, tracked);
    if route.destinationH2.Some? { UniformlyTracked(route.destinationH2.value, tracked); }
    if track && !tracked {
      RetrackedIsNew(route.destination, heap, now);
      var (d1, heap1) := Retracked(route.destination, true, heap, now);
      NothingContinues([], false, heap1);
      ContinuesWider([], [], false, heap, heap1, heap1, heap1);
      if route.destinationH2.Some? {
        RetrackedIsNew(route.destinationH2.value, heap1, now);
        var (d2, heap2) := Retracked(route.destinationH2.value, true, heap1, now);
        ContinuesWider(SlotsOf(Some(d1)), [], false, heap, heap, heap1, heap2);
        ContinuesWider(SlotsOf(Some(d2)), [], false, heap, heap1, heap2, heap2);
      }
      if TracksAs(route, true) { AllKept(route, heap, now); }
    }
  }

  /** When nothing is tracked though it should be, and there is no slot to tell, nothing changes. */
  lemma AllKept(route: Route, heap: Heap, now: nat)
    requires RouteOk(route, heap) && route.failover.None? && HasSlots(route.destination)
    requires route.destinationH2.Some? ==> HasSlots(route.destinationH2.value)
    requires TracksAs(route, true)
    ensures SlotsOf(Some(route.destination)) == [] && SlotsOf(route.destinationH2) == []
  {
    UniformlyTracked(route.destination, false);
    if route.destinationH2.Some? { UniformlyTracked(route.destinationH2.value, false); }
  }

  /** A destination is tracked if any of its slots is. */
  lemma {:induction false} AnyTrackedExactly(slots: seq<Slot>)
    ensures AnyTracked(slots) <==> exists slot :: slot in slots && slot.health.Some?
  {
    if slots != [] {
      AnyTrackedExactly(slots[1..]);
      assert slots == [slots[0]] + slots[1..];
    }
  }

  lemma UniformlyTracked(dest: Destination, tracked: bool)
    requires Tracked(dest, tracked) && HasSlots(dest)
    ensures forall track :: DestinationTracksAs(dest, track) <==> dest.Tcp? || track == tracked
  {
    if dest.Uds? { AnyTrackedUniform(dest.slots, tracked); }
  }

  lemma RetrackedIsNew(dest: Destination, heap: Heap, now: nat)
    requires Tracked(dest, false)
    ensures var (d, heap') := Retracked(dest, true, heap, now);
      Extends(heap, heap') && AllContinue(SlotsOf(Some(d)), [], false, heap, heap')
  {
    if dest.Uds? {
      WithHealthContinues(Paths(dest.slots), dest.slots, false, heap, now);
      var (d, heap') := Retracked(dest, true, heap, now);
      forall i | 0 <= i < |SlotsOf(Some(d))| ensures Continues(SlotsOf(Some(d))[i], [], false, heap, heap') {
        assert Continues(SlotsOf(Some(d))[i], dest.slots, false, heap, heap');
      }
    }
  }
}
