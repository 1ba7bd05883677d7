/** The spill controller, number by number: which peer it looks at, how far a pass moves the fraction,
    what the published word holds and which connections it sends away. */
module SpillExact {
  import opened Basics
  import opened Wrappers
  import opened Spill

  /** Fraction in the low 10 bits, target in the next 16, time limit in the upper 38. */
  lemma WordLayout(a: Admission)
    ensures var word := Pack(a);
      && word % 1024 == (if a.fraction <= 1000 then a.fraction else 1000)
      && word / 1024 % 65536 == a.target % 65536 && word / 67108864 == a.untilMs % 274877906944
  {
    assert (a.untilMs * UNTIL_UNIT) % WORD == (a.untilMs % UNTILS) * UNTIL_UNIT;
    FieldsOf(a.untilMs % UNTILS, a.target % TARGETS, Min(a.fraction, 1000));
  }

  /** A connection goes to `peer` if and only if the word names it, still holds, gives a share its hash
      falls in, and the peer is there and not cooling down. */
  lemma SpillsExactly(word: nat, hash: nat, cooling: seq<bool>, nowNs: nat, peer: nat)
    ensures Spills(word, hash, cooling, nowNs) == Some(peer) <==>
      && peer == word / 1024 % 65536 && hash % 1000 < word % 1024 && nowNs / 1_000_000 < word / 67108864
      && peer < |cooling| && !cooling[peer]
  {
  }

  lemma ExpiredExactly(word: nat, nowMs: nat)
    ensures Expired(word, nowMs) <==> word % 1024 != 0 && word / 67108864 <= nowMs
  {
  }

  // ---- The peer it looks at ----

  /** A current report of a peer that is not cooling down and, where a limit is set, near enough. */
  ghost predicate Reports(policy: Policy, p: PeerView, nowMs: nat, load: nat) {
    && p.load == Some(load) && nowMs < p.reportUntilMs && !p.cooling
    && match (policy.maxPeerRtt, p.rtt)
       case (None, _) => true
       case (Some(limit), Some(rtt)) => rtt <= limit
       case (Some(_), None) => false
  }

  /** The first of the least loaded among them. */
  ghost predicate Chosen(policy: Policy, peers: seq<PeerView>, nowMs: nat, i: nat, load: nat) {
    && i < |peers| && Reports(policy, peers[i], nowMs, load)
    && (forall j, other :: 0 <= j < |peers| && Reports(policy, peers[j], nowMs, other) ==> load <= other)
    && (forall j, other :: 0 <= j < i && Reports(policy, peers[j], nowMs, other) ==> load < other)
  }

  lemma UsableExactly(policy: Policy, p: PeerView, nowMs: nat, load: nat)
    ensures Reports(policy, p, nowMs, load) <==> Usable(policy, p, nowMs) && p.load == Some(load)
  {
  }

  lemma BestIsChosen(policy: Policy, peers: seq<PeerView>, nowMs: nat, i: nat, load: nat)
    ensures Chosen(policy, peers, nowMs, i, load) <==>
      Best(policy, peers, nowMs, |peers|) == Some(i) && i < |peers| && peers[i].load == Some(load)
  {
    hide Usable, Reports;
    var best := Best(policy, peers, nowMs, |peers|);
    if Chosen(policy, peers, nowMs, i, load) {
      UsableExactly(policy, peers[i], nowMs, load);
      assert best.Some?;
      var b := best.value;
      UsableHasLoad(policy, peers[b], nowMs);
      UsableExactly(policy, peers[b], nowMs, peers[b].load.value);
    }
    if best == Some(i) && i < |peers| && peers[i].load == Some(load) {
      UsableExactly(policy, peers[i], nowMs, load);
      forall j, other: nat | 0 <= j < |peers| && Reports(policy, peers[j], nowMs, other)
        ensures load <= other && (j < i ==> load < other)
      {
        UsableExactly(policy, peers[j], nowMs, other);
      }
    }
  }

  lemma UsableHasLoad(policy: Policy, p: PeerView, nowMs: nat)
    ensures Usable(policy, p, nowMs) ==> p.load.Some?
  {
  }

  // ---- One pass ----

  /** The most a pass may move the fraction: the step for each second since the last pass, for one second
      at most, and nothing at the first pass or when the clock went back. */
  ghost function Stride(policy: Policy, lastNs: nat, nowNs: nat): real {
    if lastNs == 0 || nowNs <= lastNs then 0.0
    else if nowNs - lastNs >= 1_000_000_000 then policy.step
    else policy.step * ((nowNs - lastNs) as real) / 1000000000.0
  }

  lemma DeltaExactly(policy: Policy, lastNs: nat, nowNs: nat)
    ensures Delta(policy, Elapsed(lastNs, nowNs)) == Stride(policy, lastNs, nowNs)
  {
    FullSecond(policy);
    NoSecond(policy);
  }

  /** A node `here` over its mark by no less than half a margin, with a peer half a margin below it. */
  ghost predicate Uneven(policy: Policy, here: nat, there: nat) {
    2 * here >= 2 * policy.highWater - policy.margin && 2 * here >= 2 * there + policy.margin
  }

  /** A pass, exactly: the fraction goes up towards its maximum when the chosen peer is a whole margin
      below a node over its mark, stays while it is half a margin below, and otherwise goes down to 0;
      and while it does not go down, and rounds to something, the word names that peer for as long as
      both readings hold. */
  lemma PassIsExact(policy: Policy, c: Controller, local: Option<Reading>, peers: seq<PeerView>, nowNs: nat,
                    i: nat, load: nat)
    requires policy.Valid() && 0.0 <= c.fraction <= policy.maxFraction as real && |peers| <= 65536
    requires local.Some? && nowNs / 1_000_000 < local.value.untilMs
    requires Chosen(policy, peers, nowNs / 1_000_000, i, load)
    ensures var after := Pass(policy, c, local, peers, nowNs);
      var here, stride := local.value.permille, Stride(policy, c.lastNs, nowNs);
      var until := if local.value.untilMs <= peers[i].reportUntilMs then local.value.untilMs
        else peers[i].reportUntilMs;
      && after.lastNs == nowNs
      && after.fraction == (if here >= policy.highWater && here >= load + policy.margin
                            then (if c.fraction + stride <= policy.maxFraction as real then c.fraction + stride
                                  else policy.maxFraction as real)
                            else if Uneven(policy, here, load) then c.fraction
                            else if stride <= c.fraction then c.fraction - stride else 0.0)
      && (!Uneven(policy, here, load) || after.fraction < 0.5 ==> after.word == 0)
      && (Uneven(policy, here, load) && after.fraction >= 0.5 ==>
            && after.word % 1024 == (after.fraction + 0.5).Floor && after.word / 1024 % 65536 == i
            && after.word / 67108864 == until % 274877906944)
  {
    hide Pack, Delta, Elapsed, Best, Stride;
    BestIsChosen(policy, peers, nowNs / 1_000_000, i, load);
    DeltaExactly(policy, c.lastNs, nowNs);
    StrideForward(policy, c.lastNs, nowNs);
    var (trend, target) := Assess(policy, local, peers, nowNs / 1_000_000);
    var fraction := Moved(policy, c.fraction, trend, Stride(policy, c.lastNs, nowNs));
    var a := Admit(fraction, target);
    if a.Some? {
      WordLayout(a.value);
      RoundBelow(fraction, policy.maxFraction);
      assert a.value.target % 65536 == a.value.target;
    }
  }

  lemma StrideForward(policy: Policy, lastNs: nat, nowNs: nat)
    requires policy.step > 0.0
    ensures Stride(policy, lastNs, nowNs) >= 0.0
  {
    DeltaBounds(policy, Elapsed(lastNs, nowNs));
    DeltaExactly(policy, lastNs, nowNs);
  }

  /** Without a current reading of its own, or without any peer to look at, a node goes down and spills
      nothing. */
  lemma BlindPassDecays(policy: Policy, c: Controller, local: Option<Reading>, peers: seq<PeerView>, nowNs: nat)
    requires policy.Valid() && 0.0 <= c.fraction <= policy.maxFraction as real
    requires || local.None? || local.value.untilMs <= nowNs / 1_000_000
             || (forall i, load :: 0 <= i < |peers| ==> !Reports(policy, peers[i], nowNs / 1_000_000, load))
    ensures var after := Pass(policy, c, local, peers, nowNs);
      var stride := Stride(policy, c.lastNs, nowNs);
      && after.lastNs == nowNs && after.word == 0
      && after.fraction == if stride <= c.fraction then c.fraction - stride else 0.0
  {
    hide Pack, Delta, Elapsed, Stride;
    DeltaExactly(policy, c.lastNs, nowNs);
    StrideForward(policy, c.lastNs, nowNs);
    var best := Best(policy, peers, nowNs / 1_000_000, |peers|);
    if best.Some? {
      UsableHasLoad(policy, peers[best.value], nowNs / 1_000_000);
      UsableExactly(policy, peers[best.value], nowNs / 1_000_000, peers[best.value].load.value);
    }
  }
}
