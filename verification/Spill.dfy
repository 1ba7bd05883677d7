/** Spill-over: the packed admission word, the controller that moves the spilled fraction, and why
    nodes that follow it never pass load around in a circle. */
module Spill {
  import opened Basics
  import opened Wrappers

  const WORD: nat := 0x1_0000_0000_0000_0000
  /** Fraction in bits 0 to 9, target in bits 10 to 25, time limit above. */
  const TARGET_UNIT: nat := 0x400
  const TARGETS: nat := 0x1_0000
  const UNTIL_UNIT: nat := 0x400_0000
  const UNTILS: nat := 0x40_0000_0000

  datatype Admission = Admission(fraction: nat, target: nat, untilMs: nat)

  function Pack(a: Admission): nat {
    (a.untilMs * UNTIL_UNIT) % WORD + (a.target % TARGETS) * TARGET_UNIT + Min(a.fraction, 1000)
  }

  function Unpack(word: nat): Option<Admission> {
    if word % TARGET_UNIT == 0 then None
    else Some(Admission(word % TARGET_UNIT, (word / TARGET_UNIT) % TARGETS, word / UNTIL_UNIT))
  }

  lemma FieldsOf(until: nat, target: nat, fraction: nat)
    requires target < TARGETS && fraction < TARGET_UNIT
    ensures var word := until * UNTIL_UNIT + target * TARGET_UNIT + fraction;
      word % TARGET_UNIT == fraction && (word / TARGET_UNIT) % TARGETS == target && word / UNTIL_UNIT == until
  {
  }

  /** What a packed word means: the time limit loses the bits above 2^38, the target those above
      2^16, and a fraction over 1000 is 1000. */
  lemma UnpackPack(a: Admission)
    ensures Unpack(Pack(a)) == if a.fraction == 0 then None
      else Some(Admission(Min(a.fraction, 1000), a.target % TARGETS, a.untilMs % UNTILS))
  {
    assert (a.untilMs * UNTIL_UNIT) % WORD == (a.untilMs % UNTILS) * UNTIL_UNIT;
    FieldsOf(a.untilMs % UNTILS, a.target % TARGETS, Min(a.fraction, 1000));
  }

  /** Exactly when an admission survives being packed. */
  lemma RoundTrip(a: Admission)
    ensures Unpack(Pack(a)) == Some(a) <==> 1 <= a.fraction <= 1000 && a.target < TARGETS && a.untilMs < UNTILS
  {
    UnpackPack(a);
    hide Pack, Unpack;
    assert a.target < TARGETS ==> a.target % TARGETS == a.target;
    assert a.untilMs < UNTILS ==> a.untilMs % UNTILS == a.untilMs;
  }

  // ---- Assessing the readings ----

  datatype Policy = Policy(highWater: nat, margin: nat, step: real, maxFraction: nat, maxPeerRtt: Option<nat>) {
    ghost predicate Valid() { highWater >= 1 && margin >= 2 && step > 0.0 && 1 <= maxFraction <= 1000 }
  }

  datatype PeerView = PeerView(load: Option<nat>, reportUntilMs: nat, cooling: bool, rtt: Option<nat>)

  datatype Reading = Reading(permille: nat, untilMs: nat)

  datatype Trend = Rise | Hold | Decay

  datatype Target = Target(peer: nat, untilMs: nat)

  predicate Usable(policy: Policy, p: PeerView, nowMs: nat) {
    && nowMs < p.reportUntilMs && !p.cooling && p.load.Some?
    && (policy.maxPeerRtt.Some? ==> p.rtt.Some? && p.rtt.value <= policy.maxPeerRtt.value)
  }

  /** The first usable peer with the least load, among those below `n`. */
  function Best(policy: Policy, peers: seq<PeerView>, nowMs: nat, n: nat): (r: Option<nat>)
    requires n <= |peers|
    ensures r.Some? ==> r.value < n && Usable(policy, peers[r.value], nowMs)
    ensures forall j :: 0 <= j < n && Usable(policy, peers[j], nowMs) ==>
      r.Some? && peers[r.value].load.value <= peers[j].load.value
    ensures forall j :: r.Some? && 0 <= j < r.value && Usable(policy, peers[j], nowMs) ==>
      peers[r.value].load.value < peers[j].load.value
  {
    if n == 0 then None
    else
      var r := Best(policy, peers, nowMs, n - 1);
      if Usable(policy, peers[n - 1], nowMs) && (r.None? || peers[n - 1].load.value < peers[r.value].load.value)
      then Some(n - 1) else r
  }

  function Assess(policy: Policy, local: Option<Reading>, peers: seq<PeerView>, nowMs: nat): (Trend, Option<Target>) {
    if local.None? || local.value.untilMs <= nowMs then (Decay, None)
    else
      var best := Best(policy, peers, nowMs, |peers|);
      if best.None? then (Decay, None)
      else
        var here, there := local.value.permille, peers[best.value].load.value;
        var target := Target(best.value, Min(local.value.untilMs, peers[best.value].reportUntilMs));
        if here >= policy.highWater && there + policy.margin <= here then (Rise, Some(target))
        else if 2 * here + policy.margin >= 2 * policy.highWater && 2 * there + policy.margin <= 2 * here then
          (Hold, Some(target))
        else (Decay, None)
  }

  /** Spilling from a node that reads `here` to a peer that reports `there` is justified. */
  predicate Justified(policy: Policy, here: nat, there: nat) {
    2 * here + policy.margin >= 2 * policy.highWater && 2 * there + policy.margin <= 2 * here
  }

  /** The assessment, as one condition: there is a target if and only if the local reading and the
      best usable peer's report are current and half the margin apart; it rises if and only if they
      are the whole margin apart and the node is over its high-water mark. */
  lemma AssessMeans(policy: Policy, local: Option<Reading>, peers: seq<PeerView>, nowMs: nat)
    ensures var (trend, target) := Assess(policy, local, peers, nowMs);
      var best := Best(policy, peers, nowMs, |peers|);
      && (trend.Decay? <==> target.None?)
      && (target.Some? <==> (local.Some? && nowMs < local.value.untilMs && best.Some?
                             && Justified(policy, local.value.permille, peers[best.value].load.value)))
      && (target.Some? ==> target.value.peer == best.value && nowMs < target.value.untilMs)
      && (target.Some? ==> target.value.untilMs == Min(local.value.untilMs, peers[best.value].reportUntilMs))
      && (trend.Rise? <==> (target.Some? && local.value.permille >= policy.highWater
                            && peers[best.value].load.value + policy.margin <= local.value.permille))
  {
  }

  // ---- The controller ----

  datatype Controller = Controller(fraction: real, lastNs: nat, word: nat)

  function Clamp(x: real, high: real): real {
    if x < 0.0 then 0.0 else if x > high then high else x
  }

  /** Rounding half up, which is what rounding does to a number that is not negative. */
  function Round(x: real): (r: nat)
    requires x >= 0.0
    ensures r as real - 0.5 <= x < r as real + 0.5
  {
    (x + 0.5).Floor
  }

  function Elapsed(lastNs: nat, nowNs: nat): nat {
    if lastNs == 0 || nowNs < lastNs then 0 else Min(nowNs - lastNs, SECOND)
  }

  /** The most the fraction may move in a pass. */
  function Delta(policy: Policy, elapsed: nat): real { policy.step * (elapsed as real) / (SECOND as real) }

  function Moved(policy: Policy, fraction: real, trend: Trend, delta: real): real {
    Clamp(match trend case Rise => fraction + delta case Hold => fraction case Decay => fraction - delta,
          policy.maxFraction as real)
  }

  function Admit(fraction: real, target: Option<Target>): Option<Admission>
    requires fraction >= 0.0
  {
    if target.None? || Round(fraction) == 0 then None
    else Some(Admission(Round(fraction), target.value.peer, target.value.untilMs))
  }

  function Pass(policy: Policy, c: Controller, local: Option<Reading>, peers: seq<PeerView>, nowNs: nat): Controller {
    var (trend, target) := Assess(policy, local, peers, nowNs / 1_000_000);
    var fraction := Moved(policy, c.fraction, trend, Delta(policy, Elapsed(c.lastNs, nowNs)));
    var admission := Admit(fraction, target);
    Controller(fraction, nowNs, if admission.None? then 0 else Pack(admission.value))
  }

  class SpillState {
    var fraction: real
    var lastNs: nat
    var admission: nat

    constructor ()
      ensures Contents() == Controller(0.0, 0, 0)
    {
      fraction, lastNs, admission := 0.0, 0, 0;
    }

    function Contents(): Controller
      reads this
    {
      Controller(fraction, lastNs, admission)
    }

    /** One pass of the controller. */
    method Control(policy: Policy, local: Option<Reading>, peers: seq<PeerView>, nowNs: nat)
      returns (r: Option<Admission>)
      modifies this
      ensures Contents() == Pass(policy, old(Contents()), local, peers, nowNs)
      ensures admission == if r.None? then 0 else Pack(r.value)
      ensures r.Some? ==> 1 <= r.value.fraction
    {
      hide Delta, Assess, Pack, Round;
      var elapsed := if lastNs == 0 || nowNs < lastNs then 0 else Min(nowNs - lastNs, SECOND);
      lastNs := nowNs;
      var (trend, target) := Assess(policy, local, peers, nowNs / 1_000_000);
      var delta := Delta(policy, elapsed);
      fraction := match trend case Rise => fraction + delta case Hold => fraction case Decay => fraction - delta;
      fraction := Clamp(fraction, policy.maxFraction as real);
      r := Admit(fraction, target);
      admission := if r.None? then 0 else Pack(r.value);
    }

    /** Whether a connection spills, from an admission word read a moment ago. An expired word is
        cleared, but only if no newer one has replaced it. */
    method SpillTarget(seen: nat, hash: nat, cooling: seq<bool>, nowNs: nat) returns (r: Option<nat>)
      modifies this
      ensures fraction == old(fraction) && lastNs == old(lastNs)
      ensures r == Spills(seen, hash, cooling, nowNs)
      ensures admission == if old(admission) == seen && Expired(seen, nowNs / 1_000_000) then 0 else old(admission)
    {
      r := None;
      var a := Unpack(seen);
      if a.None? {
        return;
      }
      if nowNs / 1_000_000 >= a.value.untilMs {
        if admission == seen {
          admission := 0;
        }
        return;
      }
      if a.value.target < |cooling| && hash % 1000 < a.value.fraction && !cooling[a.value.target] {
        r := Some(a.value.target);
      }
    }
  }

  predicate Expired(word: nat, nowMs: nat) {
    Unpack(word).Some? && Unpack(word).value.untilMs <= nowMs
  }

  function Spills(word: nat, hash: nat, cooling: seq<bool>, nowNs: nat): Option<nat> {
    var a := Unpack(word);
    if a.Some? && nowNs / 1_000_000 < a.value.untilMs && a.value.target < |cooling|
       && hash % 1000 < a.value.fraction && !cooling[a.value.target] then Some(a.value.target) else None
  }

  // ---- What the controller keeps over any run ----

  datatype Input = Input(local: Option<Reading>, peers: seq<PeerView>, nowNs: nat)

  function RunPasses(policy: Policy, inputs: seq<Input>): Controller {
    if inputs == [] then Controller(0.0, 0, 0)
    else
      var i := inputs[|inputs| - 1];
      Pass(policy, RunPasses(policy, inputs[..|inputs| - 1]), i.local, i.peers, i.nowNs)
  }

  lemma DeltaBounds(policy: Policy, elapsed: nat)
    requires policy.step >= 0.0
    ensures Delta(policy, elapsed) >= 0.0
  {
    assert policy.step * (elapsed as real) >= 0.0;
  }

  /** Over any run of passes, whatever the readings and the clock do, the fraction stays between 0
      and its maximum, and no pass moves it by more than step times the time since the last pass,
      counted up to a second. A rise takes it up by exactly that, or to its maximum; a decay takes it
      down by exactly that, or to 0; otherwise it stays. */
  lemma FractionIsBounded(policy: Policy, inputs: seq<Input>, next: Input)
    requires policy.Valid()
    ensures var before := RunPasses(policy, inputs); var after := RunPasses(policy, inputs + [next]);
      var delta := Delta(policy, Elapsed(before.lastNs, next.nowNs));
      var trend := Assess(policy, next.local, next.peers, next.nowNs / 1_000_000).0;
      && 0.0 <= after.fraction <= policy.maxFraction as real
      && before.fraction - delta <= after.fraction <= before.fraction + delta
      && (trend.Rise? ==> after.fraction == policy.maxFraction as real || after.fraction == before.fraction + delta)
      && (trend.Hold? ==> after.fraction == before.fraction)
      && (trend.Decay? ==> after.fraction == 0.0 || after.fraction == before.fraction - delta)
  {
    hide Assess, Delta;
    FractionInRange(policy, inputs);
    var before := RunPasses(policy, inputs);
    DeltaBounds(policy, Elapsed(before.lastNs, next.nowNs));
    assert (inputs + [next])[..|inputs|] == inputs;
  }

  lemma FractionInRange(policy: Policy, inputs: seq<Input>)
    requires policy.Valid()
    ensures 0.0 <= RunPasses(policy, inputs).fraction <= policy.maxFraction as real
  {
    hide Assess, Delta;
  }

  /** An admission that is honoured rests on readings that still hold: the last pass saw a local
      reading and a report of that very peer, far enough apart, and at the moment the connection
      spills neither has run out. */
  lemma HonouredIsCurrent(policy: Policy, inputs: seq<Input>, hash: nat, cooling: seq<bool>, nowNs: nat)
    requires policy.Valid() && forall i :: 0 <= i < |inputs| ==> |inputs[i].peers| <= TARGETS
    ensures var peer := Spills(RunPasses(policy, inputs).word, hash, cooling, nowNs);
      peer.Some? ==> inputs != [] && SpillIsSound(policy, inputs[|inputs| - 1], peer.value, nowNs / 1_000_000)
  {
    hide Assess, Delta, Pack, Unpack;
    assert Unpack(0).None? by { NothingPacked(); }
    if inputs != [] && Spills(RunPasses(policy, inputs).word, hash, cooling, nowNs).Some? {
      var last := inputs[|inputs| - 1];
      FractionInRange(policy, inputs);
      var fraction := RunPasses(policy, inputs).fraction;
      var (trend, target) := Assess(policy, last.local, last.peers, last.nowNs / 1_000_000);
      AssessMeans(policy, last.local, last.peers, last.nowNs / 1_000_000);
      var a := Admit(fraction, target);
      if a.Some? {
        UnpackPack(a.value);
        assert a.value.target % TARGETS == a.value.target;
        assert a.value.untilMs % UNTILS <= a.value.untilMs;
      }
    }
  }

  /** The published word says what the pass decided: nothing, or the rounded fraction, the target and
      how long both readings hold. */
  lemma AdmissionIsPublished(policy: Policy, inputs: seq<Input>, next: Input)
    requires policy.Valid() && |next.peers| <= TARGETS
    ensures var c := RunPasses(policy, inputs + [next]);
      var target := Assess(policy, next.local, next.peers, next.nowNs / 1_000_000).1;
      Unpack(c.word) == if target.None? || c.fraction < 0.5 then None
                        else Some(Admission((c.fraction + 0.5).Floor, target.value.peer, target.value.untilMs % UNTILS))
  {
    hide Assess, Delta, Pack, Unpack;
    NothingPacked();
    var all := inputs + [next];
    assert all[..|all| - 1] == inputs && all[|all| - 1] == next;
    FractionInRange(policy, all);
    var c := RunPasses(policy, all);
    AssessMeans(policy, next.local, next.peers, next.nowNs / 1_000_000);
    var a := Admit(c.fraction, Assess(policy, next.local, next.peers, next.nowNs / 1_000_000).1);
    if a.Some? {
      UnpackPack(a.value);
      assert a.value.target % TARGETS == a.value.target;
      RoundBelow(c.fraction, policy.maxFraction);
    }
  }

  lemma RoundBelow(x: real, n: nat)
    requires 0.0 <= x <= n as real
    ensures Round(x) <= n
  {
  }

  lemma NothingPacked()
    ensures Unpack(0).None?
  {
  }

  predicate SpillIsSound(policy: Policy, i: Input, peer: nat, nowMs: nat) {
    && i.local.Some? && nowMs < i.local.value.untilMs
    && peer < |i.peers| && i.peers[peer].load.Some? && nowMs < i.peers[peer].reportUntilMs && !i.peers[peer].cooling
    && Justified(policy, i.local.value.permille, i.peers[peer].load.value)
  }

  // ---- No cycles between nodes ----

  /** A node of a group at the moment of a pass: what it reads of itself, what it was told of its
      peers, and which node each of those is. */
  datatype Node = Node(local: Reading, policy: Policy, views: seq<PeerView>, ids: seq<nat>, nowMs: nat)

  /** Node `a` spills to node `b`, whose report is within half of a's margin of b's own reading. */
  predicate SpillsTo(nodes: seq<Node>, a: nat, b: nat) {
    && a < |nodes| && b < |nodes|
    && var n := nodes[a]; var target := Assess(n.policy, Some(n.local), n.views, n.nowMs).1;
    && target.Some? && target.value.peer < |n.views| && target.value.peer < |n.ids| && n.ids[target.value.peer] == b
    && var report := n.views[target.value.peer].load;
    && report.Some? && 2 * nodes[b].local.permille < 2 * report.value + n.policy.margin
  }

  lemma SpillIsDownhill(nodes: seq<Node>, a: nat, b: nat)
    requires SpillsTo(nodes, a, b)
    ensures a < |nodes| && b < |nodes| && nodes[b].local.permille < nodes[a].local.permille
  {
    var n := nodes[a];
    AssessMeans(n.policy, Some(n.local), n.views, n.nowMs);
  }

  /** Along any chain of spills, in a group of any size, the load goes strictly down: no chain comes
      back to a node it left, so there is no cycle. */
  lemma {:induction false} SpillNeverCycles(nodes: seq<Node>, chain: seq<nat>, i: nat, j: nat)
    requires forall k :: 0 <= k < |chain| - 1 ==> SpillsTo(nodes, chain[k], chain[k + 1])
    requires i < j < |chain|
    ensures chain[i] < |nodes| && chain[j] < |nodes| && nodes[chain[j]].local.permille < nodes[chain[i]].local.permille
    ensures chain[i] != chain[j]
    decreases j
  {
    hide SpillsTo;
    assert SpillsTo(nodes, chain[j - 1], chain[j - 1 + 1]);
    SpillIsDownhill(nodes, chain[j - 1], chain[j]);
    if i < j - 1 {
      SpillNeverCycles(nodes, chain, i, j - 1);
    }
  }

  /** A peer that reports `load`, with nothing against it, for as long as `untilMs`. */
  function Reporting(load: nat, untilMs: nat): PeerView { PeerView(Some(load), untilMs, false, Some(0)) }

  lemma OnlyPeer(policy: Policy, load: nat, untilMs: nat, nowMs: nat)
    requires nowMs < untilMs
    ensures Best(policy, [Reporting(load, untilMs)], nowMs, 1) == Some(0)
  {
    assert Usable(policy, [Reporting(load, untilMs)][0], nowMs);
  }

  lemma HalfMarginHolds(policy: Policy, load: nat, untilMs: nat, nowMs: nat)
    requires policy.Valid() && policy.margin % 2 == 0 && policy.highWater <= load && policy.margin <= 2 * load
    requires nowMs < untilMs
    ensures Assess(policy, Some(Reading(load, untilMs)), [Reporting(load - policy.margin / 2, untilMs)], nowMs)
         == (Hold, Some(Target(0, untilMs)))
  {
    hide Best;
    OnlyPeer(policy, load - policy.margin / 2, untilMs, nowMs);
  }

  /** A node that spills some already, and reads itself as loaded as its only peer is but is told of
      half a margin less, publishes an admission for that peer. */
  lemma HeldShareStays(policy: Policy, load: nat, inputs: seq<Input>, untilMs: nat, nowNs: nat, hash: nat)
    requires policy.Valid() && policy.margin % 2 == 0 && policy.highWater <= load && policy.margin <= 2 * load
    requires RunPasses(policy, inputs).fraction >= 0.5 && nowNs / 1_000_000 < untilMs < UNTILS && hash % 1000 == 0
    ensures var view := Reporting(load - policy.margin / 2, untilMs);
      var c := RunPasses(policy, inputs + [Input(Some(Reading(load, untilMs)), [view], nowNs)]);
      && c.fraction == RunPasses(policy, inputs).fraction
      && Unpack(c.word) == Some(Admission((c.fraction + 0.5).Floor, 0, untilMs))
      && Spills(c.word, hash, [false], nowNs) == Some(0)
  {
    hide RunPasses, Unpack, Pack, Assess, Delta, Elapsed;
    var view := Reporting(load - policy.margin / 2, untilMs);
    var next := Input(Some(Reading(load, untilMs)), [view], nowNs);
    HalfMarginHolds(policy, load, untilMs, nowNs / 1_000_000);
    FractionIsBounded(policy, inputs, next);
    AdmissionIsPublished(policy, inputs, next);
  }

  /** The bound on the report error is the best there is. Two equally loaded nodes over their high-water
      mark, each told of exactly half a margin less than the other has, each spilling some already:
      after their next passes both publish an admission that names the other, and a connection spills
      from the one to the other and from there back. */
  lemma HalfMarginIsSharp(policy: Policy, load: nat, a: seq<Input>, b: seq<Input>, untilMs: nat, nowNs: nat, hash: nat)
    requires policy.Valid() && policy.margin % 2 == 0 && policy.highWater <= load && policy.margin <= 2 * load
    requires RunPasses(policy, a).fraction >= 0.5 && RunPasses(policy, b).fraction >= 0.5
    requires nowNs / 1_000_000 < untilMs < UNTILS && hash % 1000 == 0
    ensures var seen := Input(Some(Reading(load, untilMs)), [Reporting(load - policy.margin / 2, untilMs)], nowNs);
      var here, there := RunPasses(policy, a + [seen]), RunPasses(policy, b + [seen]);
      && Unpack(here.word) == Some(Admission((here.fraction + 0.5).Floor, 0, untilMs))
      && Unpack(there.word) == Some(Admission((there.fraction + 0.5).Floor, 0, untilMs))
      && Spills(here.word, hash, [false], nowNs) == Some(0) && Spills(there.word, hash, [false], nowNs) == Some(0)
  {
    HeldShareStays(policy, load, a, untilMs, nowNs, hash);
    HeldShareStays(policy, load, b, untilMs, nowNs, hash);
  }

  /** What a node sees at second `n` that is a whole margin above its only peer, over the mark. */
  function BusyAt(policy: Policy, n: nat): Input {
    var untilMs := n * 1000 + 1;
    Input(Some(Reading(policy.highWater + policy.margin, untilMs)), [Reporting(policy.highWater, untilMs)], n * SECOND)
  }

  function Busy(policy: Policy, n: nat): seq<Input> {
    if n == 0 then [] else Busy(policy, n - 1) + [BusyAt(policy, n)]
  }

  lemma BusyRises(policy: Policy, n: nat)
    ensures var i := BusyAt(policy, n); Assess(policy, i.local, i.peers, i.nowNs / 1_000_000).0 == Rise
  {
    hide Best;
    var i := BusyAt(policy, n);
    assert i.nowNs / 1_000_000 == n * 1000;
    OnlyPeer(policy, policy.highWater, n * 1000 + 1, n * 1000);
  }

  /** Each such pass but the first adds the step. */
  lemma BusyPass(policy: Policy, before: seq<Input>, n: nat)
    requires policy.Valid() && n > 0 && RunPasses(policy, before).lastNs == (n - 1) * SECOND
    ensures var c, was := RunPasses(policy, before + [BusyAt(policy, n)]), RunPasses(policy, before);
      && c.lastNs == n * SECOND && 0.0 <= was.fraction
      && (c.fraction == policy.maxFraction as real || c.fraction == was.fraction + if n == 1 then 0.0 else policy.step)
  {
    hide Assess, Pack, Delta, Admit, Moved;
    var i, all := BusyAt(policy, n), before + [BusyAt(policy, n)];
    assert all[..|all| - 1] == before && all[|all| - 1] == i;
    BusyRises(policy, n);
    FractionIsBounded(policy, before, i);
    FractionInRange(policy, before);
    FullSecond(policy);
    assert Delta(policy, 0) == 0.0 by { NoSecond(policy); }
  }

  lemma NoSecond(policy: Policy)
    ensures Delta(policy, 0) == 0.0
  {
  }

  lemma {:induction false} BusyRaises(policy: Policy, n: nat)
    requires policy.Valid()
    ensures var c := RunPasses(policy, Busy(policy, n));
      c.lastNs == n * SECOND && 0.0 <= c.fraction &&
      (c.fraction == policy.maxFraction as real || c.fraction >= Steps(policy, SaturatingSub(n, 1)))
  {
    hide BusyAt, Pass;
    if n > 0 {
      BusyRaises(policy, n - 1);
      BusyPass(policy, Busy(policy, n - 1), n);
      FractionInRange(policy, Busy(policy, n));
    }
  }

  function Steps(policy: Policy, n: nat): real { if n == 0 then 0.0 else Steps(policy, n - 1) + policy.step }

  lemma {:induction false} StepsIsProduct(policy: Policy, n: nat)
    ensures Steps(policy, n) == n as real * policy.step
  {
    if n > 0 {
      StepsIsProduct(policy, n - 1);
      OneMoreStep((n - 1) as real, n as real, policy.step);
    }
  }

  lemma OneMoreStep(x: real, y: real, c: real)
    requires y == x + 1.0
    ensures y * c == x * c + c
  {
  }

  lemma FullSecond(policy: Policy)
    ensures Delta(policy, SECOND) == policy.step
  {
  }

  /** Such a share does come about: enough seconds over the mark take any controller to it. */
  lemma ShareComesAbout(policy: Policy) returns (inputs: seq<Input>)
    requires policy.Valid()
    ensures RunPasses(policy, inputs).fraction >= 0.5
  {
    var q := 0.5 / policy.step;
    assert q * policy.step == 0.5;
    var n := q.Floor + 1;
    assert n as real >= q;
    assert (n as real - q) * policy.step >= 0.0;
    hide RunPasses, Busy, Steps;
    inputs := Busy(policy, n + 1);
    BusyRaises(policy, n + 1);
    StepsIsProduct(policy, n);
  }
}
