/** Local upstream health: endpoints that are refusing connections, shared by identity across route
    tables, and how a rebuilt destination inherits them. */
module Health {
  import opened Wrappers

  /** One `SlotHealth` object: the time of the latest refusal, 0 while accepting. */
  class SlotHealth {
    var refusedAt: nat

    constructor (refusing: bool, now: nat)
      ensures refusedAt == if refusing then Stamp(now) else 0
    {
      refusedAt := if refusing then Stamp(now) else 0;
    }

    method MarkRefused(now: nat)
      modifies this
      ensures refusedAt == Stamp(now) && refusedAt != 0
    {
      refusedAt := Stamp(now);
    }

    /** A probe clears the refusal it observed, and no other. */
    method ClearIfUnchanged(observed: nat) returns (cleared: bool)
      modifies this
      ensures cleared == (old(refusedAt) == observed)
      ensures refusedAt == if cleared then 0 else old(refusedAt)
    {
      cleared := refusedAt == observed;
      if cleared {
        refusedAt := 0;
      }
    }
  }

  function Stamp(now: nat): nat { if now == 0 then 1 else now }

  // ---- Probes ----

  /** What happens to one health word: refusals, and probes ending with what they observed. */
  datatype Touch = Refused(now: nat) | Probed(observed: nat)

  function AfterTouches(word: nat, touches: seq<Touch>): nat {
    if touches == [] then word
    else
      var before := AfterTouches(word, touches[..|touches| - 1]);
      match touches[|touches| - 1]
      case Refused(now) => Stamp(now)
      case Probed(observed) => if before == observed then 0 else before
  }

  /** Probes that started no later than some refusal cannot clear it: if every probe ending after a
      refusal at `now` observed an earlier one, the endpoint still counts as refusing, and with the
      time of a refusal at least as late. */
  lemma {:induction false} ProbeClearsOnlyWhatItSaw(now: nat, later: seq<Touch>)
    requires forall i :: 0 <= i < |later| ==>
      match later[i] case Probed(observed) => observed < Stamp(now) case Refused(at) => now <= at
    ensures AfterTouches(Stamp(now), later) >= Stamp(now) > 0
    decreases |later|
  {
    if later != [] {
      ProbeClearsOnlyWhatItSaw(now, later[..|later| - 1]);
      var last := later[|later| - 1];
      assert match last case Probed(observed) => observed < Stamp(now) case Refused(at) => now <= at;
    }
  }

  // ---- Destinations ----

  type HealthId = nat

  /** The health objects that exist, by identity. */
  datatype Heap = Heap(words: seq<nat>) {
    predicate Refusing(id: HealthId) { id < |words| && words[id] != 0 }
  }

  datatype Slot = Slot(path: string, health: Option<HealthId>)

  datatype Destination = Tcp(addr: int) | Uds(slots: seq<Slot>)

  function Allocate(heap: Heap, refusing: bool, now: nat): (r: (Heap, HealthId))
    ensures |r.0.words| == |heap.words| + 1 && heap.words <= r.0.words
    ensures r.1 == |heap.words| && r.0.Refusing(r.1) == refusing
  {
    (Heap(heap.words + [if refusing then Stamp(now) else 0]), |heap.words|)
  }

  /** Nothing that exists is touched: a later heap only adds objects. */
  predicate Extends(a: Heap, b: Heap) {
    a.words <= b.words
  }

  /** The health of the first slot with this path, if there is one and it is tracked. */
  function Inherited(slots: seq<Slot>, path: string): Option<HealthId> {
    if slots == [] then None
    else if slots[0].path == path then slots[0].health
    else Inherited(slots[1..], path)
  }

  function Untracked(paths: seq<string>): (slots: seq<Slot>)
    ensures |slots| == |paths| && forall i :: 0 <= i < |slots| ==> slots[i] == Slot(paths[i], None)
  {
    seq(|paths|, i requires 0 <= i < |paths| => Slot(paths[i], None))
  }

  function Paths(slots: seq<Slot>): (paths: seq<string>)
    ensures |paths| == |slots| && forall i :: 0 <= i < |slots| ==> paths[i] == slots[i].path
  {
    seq(|slots|, i requires 0 <= i < |slots| => slots[i].path)
  }

  /** `with_health`: every slot tracked, sharing the previous object of its path or getting a new one. */
  function WithHealth(paths: seq<string>, previous: seq<Slot>, refuseNew: bool, heap: Heap,
                      now: nat): (r: (seq<Slot>, Heap))
    ensures |r.0| == |paths| && Extends(heap, r.1)
    ensures forall i :: 0 <= i < |paths| ==> r.0[i].path == paths[i] && r.0[i].health.Some?
    ensures forall i :: 0 <= i < |paths| ==>
      match Inherited(previous, paths[i])
      case Some(id) => r.0[i].health == Some(id)
      case None => |heap.words| <= r.0[i].health.value < |r.1.words| && r.1.Refusing(r.0[i].health.value) == refuseNew
    decreases |paths|
  {
    if paths == [] then ([], heap)
    else
      var init := paths[..|paths| - 1];
      var path := paths[|paths| - 1];
      var (slots, heap1) := WithHealth(init, previous, refuseNew, heap, now);
      match Inherited(previous, path)
      case Some(id) => (slots + [Slot(path, Some(id))], heap1)
      case None =>
        var (heap2, id) := Allocate(heap1, refuseNew, now);
        (slots + [Slot(path, Some(id))], heap2)
  }

  /** `retracked`: the same slots with health tracked or not; tracked state stays shared. */
  function Retracked(dest: Destination, track: bool, heap: Heap, now: nat): (Destination, Heap) {
    match dest
    case Tcp(_) => (dest, heap)
    case Uds(slots) =>
      if track then
        var (slots', heap') := WithHealth(Paths(slots), slots, false, heap, now);
        (Uds(slots'), heap')
      else (Uds(Untracked(Paths(slots))), heap)
  }

  predicate AllRefusing(heap: Heap, slots: seq<Slot>) {
    slots != [] && forall i :: 0 <= i < |slots| ==> slots[i].health.Some? && heap.Refusing(slots[i].health.value)
  }

  predicate Tracked(dest: Destination, tracked: bool) {
    dest.Uds? ==> forall i :: 0 <= i < |dest.slots| ==> dest.slots[i].health.Some? == tracked
  }

  /** Every tracked object exists. */
  predicate Allocated(heap: Heap, dest: Destination) {
    dest.Uds? ==>
      forall i :: 0 <= i < |dest.slots| && dest.slots[i].health.Some? ==> dest.slots[i].health.value < |heap.words|
  }

  lemma {:induction false} InheritedFrom(slots: seq<Slot>, path: string)
    ensures Inherited(slots, path).Some? ==>
      exists i :: 0 <= i < |slots| && slots[i].path == path && slots[i].health == Inherited(slots, path)
    ensures (exists i :: 0 <= i < |slots| && slots[i].path == path) &&
            (forall i :: 0 <= i < |slots| ==> slots[i].health.Some?) ==>
              Inherited(slots, path).Some?
  {
    if slots != [] && slots[0].path != path {
      InheritedFrom(slots[1..], path);
      if Inherited(slots, path).Some? {
        var i :| 0 <= i < |slots[1..]| && slots[1..][i].path == path
          && slots[1..][i].health == Inherited(slots[1..], path);
        assert slots[i + 1].path == path;
      }
      if i :| 0 <= i < |slots| && slots[i].path == path {
        assert slots[1..][i - 1].path == path;
      }
    }
  }
}
