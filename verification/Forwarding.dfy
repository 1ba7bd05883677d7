/** Forwarding a connection to the route's peers: which peers are tried, what each of them sees of
    the client, how the time is shared, and what is left for local service. */
module Forwarding {
  import opened Basics
  import opened Wrappers
  import opened Bytes
  import opened Cooldown

  datatype Mode = Down | Drain | Spill(target: nat)

  datatype Decision = Refuse | ToPeers(mode: Mode) | Local

  function Decide(ingress: bool, suspended: bool, locallyDown: bool, drain: bool, spill: Option<nat>): Decision {
    if ingress then (if locallyDown || drain then Refuse else Local)
    else if suspended then Local
    else if locallyDown then ToPeers(Down)
    else if drain then ToPeers(Drain)
    else if spill.Some? then ToPeers(Spill(spill.value))
    else Local
  }

  // ---- Which peers are tried ----

  /** The peer the round robin reaches `i` places after `start`. */
  function Place(start: nat, i: nat, n: nat): (r: nat)
    requires n > 0
    ensures r < n
  {
    (start + i) % n
  }

  /** The ready peers in round-robin order, from the i-th place after `start` on. */
  function Rotation(words: seq<nat>, start: nat, now: nat, i: nat): seq<nat>
    requires i <= |words|
    decreases |words| - i
  {
    if i == |words| then []
    else
      var peer := Place(start, i, |words|);
      (if Cooling(words[peer], now) then [] else [peer]) + Rotation(words, start, now, i + 1)
  }

  /** The first peer whose cooldown ends first, among those below `n`. */
  function Earliest(words: seq<nat>, n: nat): (r: nat)
    requires 1 <= n <= |words|
    ensures r < n
    ensures forall j :: 0 <= j < n ==> Until(words[r]) <= Until(words[j])
    ensures forall j :: 0 <= j < r ==> Until(words[r]) < Until(words[j])
  {
    if n == 1 then 0
    else
      var best := Earliest(words, n - 1);
      if Until(words[n - 1]) < Until(words[best]) then n - 1 else best
  }

  function Candidates(words: seq<nat>, cursor: nat, mode: Mode, now: nat): seq<nat>
    requires words != []
  {
    if mode.Spill? then
      if mode.target < |words| && !Cooling(words[mode.target], now) then [mode.target] else []
    else
      var ready := Rotation(words, if |words| == 1 then 0 else cursor % |words|, now, 0);
      if ready == [] && mode.Down? then [Earliest(words, |words|)] else ready
  }

  /** How far after `start` the round robin reaches `peer`. */
  function Turn(peer: nat, start: nat, n: nat): nat
    requires start < n && peer < n
  {
    if start <= peer then peer - start else peer + n - start
  }

  predicate InTurn(peers: seq<nat>, start: nat, n: nat)
    requires start < n
  {
    && (forall a :: 0 <= a < |peers| ==> peers[a] < n)
    && (forall a, b :: 0 <= a < b < |peers| ==> Turn(peers[a], start, n) < Turn(peers[b], start, n))
  }

  predicate Ready(words: seq<nat>, now: nat, peer: nat) {
    peer < |words| && !Cooling(words[peer], now)
  }

  lemma {:induction false} RotationIsReady(words: seq<nat>, start: nat, now: nat, i: nat)
    requires i <= |words| && start < |words|
    ensures var ready := Rotation(words, start, now, i);
      && InTurn(ready, start, |words|)
      && (forall a :: 0 <= a < |ready| ==> Turn(ready[a], start, |words|) >= i && Ready(words, now, ready[a]))
      && (forall p: nat :: Ready(words, now, p) && Turn(p, start, |words|) >= i ==> p in ready)
    decreases |words| - i
  {
    hide Cooling, Turn, Place;
    if i == |words| {
      forall p: nat | Ready(words, now, p) ensures Turn(p, start, |words|) < i { TurnBelow(p, start, |words|); }
    } else {
      RotationIsReady(words, start, now, i + 1);
      var peer := Place(start, i, |words|);
      TurnOf(start, i, |words|);
      var rest := Rotation(words, start, now, i + 1);
      assert Rotation(words, start, now, i) == (if Cooling(words[peer], now) then [] else [peer]) + rest;
    }
  }

  lemma TurnBelow(peer: nat, start: nat, n: nat)
    requires start < n && peer < n
    ensures Turn(peer, start, n) < n
  {
  }

  lemma TurnOf(start: nat, i: nat, n: nat)
    requires start < n && i < n
    ensures Turn(Place(start, i, n), start, n) == i
    ensures forall p: nat :: p < n && Turn(p, start, n) == i ==> p == Place(start, i, n)
  {
    if start + i < n {
      assert (start + i) % n == start + i;
    } else {
      assert start + i == n + (start + i - n);
      assert (start + i) % n == start + i - n;
    }
  }

  ghost predicate SomeReady(words: seq<nat>, now: nat) {
    exists p: nat :: Ready(words, now, p)
  }

  /** Each ready peer is tried exactly once, in round-robin order; when none is ready, a route that
      is down still tries the peer whose cooldown ends first, and a draining one tries none. */
  lemma CandidatesInTurn(words: seq<nat>, cursor: nat, mode: Mode, now: nat)
    requires words != [] && !mode.Spill?
    ensures var tried := Candidates(words, cursor, mode, now);
      && InTurn(tried, cursor % |words|, |words|)
      && (SomeReady(words, now) ==> forall p: nat :: p in tried <==> Ready(words, now, p))
      && (!SomeReady(words, now) && mode.Drain? ==> tried == [])
      && (!SomeReady(words, now) && mode.Down? ==> |tried| == 1 && tried[0] < |words|)
      && (!SomeReady(words, now) && mode.Down? ==>
          forall p :: 0 <= p < |words| ==> Until(words[tried[0]]) <= Until(words[p]))
  {
    hide Cooling, Turn, Place, Rotation, Until;
    var start := if |words| == 1 then 0 else cursor % |words|;
    assert start == cursor % |words|;
    RotationIsReady(words, start, now, 0);
    var ready := Rotation(words, start, now, 0);
    assert forall p: nat :: Ready(words, now, p) ==> Turn(p, start, |words|) >= 0;
    assert SomeReady(words, now) <==> ready != [] by {
      if ready != [] { assert Ready(words, now, ready[0]); }
    }
  }

  // ---- One round of attempts ----

  datatype Answer = Refused | Failed | Closed | FirstByte

  /** What a peer does with an attempt: how long it takes, how much of what is sent reaches it. */
  datatype Reaction = Reaction(took: nat, reached: nat, answer: Answer)

  datatype Try = Try(peer: nat, share: nat, took: nat, received: Bytes, answered: bool)

  /** An attempt limited to `share`: the first byte can only come after everything was written. */
  function Attempt(peer: nat, prefix: Bytes, share: nat, r: Reaction): (t: Try)
    ensures t.peer == peer && t.share == share
    ensures t.received <= prefix && t.took <= share
    ensures t.answered ==> t.received == prefix
  {
    if r.took > share then Try(peer, share, share, prefix[..Min(r.reached, |prefix|)], false)
    else
      match r.answer
      case FirstByte => Try(peer, share, r.took, prefix, true)
      case Closed => Try(peer, share, r.took, prefix[..Min(r.reached, |prefix|)], false)
      case _ => Try(peer, share, r.took, [], false)
  }

  /** Where a round stands: the peers' cooldown words, the attempts so far and the time they took. */
  datatype Round = Round(words: seq<nat>, tries: seq<Try>, elapsed: nat, answered: bool)

  datatype Backoff = Backoff(minNs: nat, maxNs: nat)

  function Share(remaining: nat, count: nat, attempt: nat): nat {
    remaining / Max(1, if attempt < count then count - attempt else 0)
  }

  function Tried(s: Round, peer: nat, count: nat, budget: nat, prefix: Bytes, r: Reaction, b: Backoff,
                 clock: nat): Round
    requires peer < |s.words| && s.elapsed < budget
  {
    var t := Attempt(peer, prefix, Share(budget - s.elapsed, count, |s.tries|), r);
    var elapsed := s.elapsed + t.took;
    var word := if t.answered then 0 else AfterFailure(s.words[peer], b.minNs, b.maxNs, clock + elapsed);
    Round(s.words[peer := word], s.tries + [t], elapsed, t.answered)
  }

  /** Try `peers` in turn until one answers or the budget is spent. `count` is how many were
      expected; other connections can make the round see more or fewer. */
  function TryPeers(s: Round, peers: seq<nat>, count: nat, budget: nat, prefix: Bytes,
                    reactions: nat -> Reaction, b: Backoff, clock: nat): (r: Round)
    requires forall i :: 0 <= i < |peers| ==> peers[i] < |s.words|
    ensures |r.words| == |s.words|
    decreases |peers|
  {
    if peers == [] || s.elapsed >= budget || s.answered then s
    else TryPeers(Tried(s, peers[0], count, budget, prefix, reactions(|s.tries|), b, clock), peers[1..],
                  count, budget, prefix, reactions, b, clock)
  }

  /** Only the last attempt of a round can have been answered, and the others saw only part of the
      replayable prefix. */
  ghost predicate Contained(s: Round, prefix: Bytes) {
    && (forall i :: 0 <= i < |s.tries| ==> s.tries[i].received <= prefix)
    && (forall i :: 0 <= i < |s.tries| && s.tries[i].answered ==> i == |s.tries| - 1 && s.answered)
    && (s.answered ==> s.tries != [] && s.tries[|s.tries| - 1].answered && s.tries[|s.tries| - 1].received == prefix)
  }

  /** The time left is worth a fair share `quota` for every peer to come, and every attempt got one. */
  ghost predicate Fair(s: Round, count: nat, budget: nat, quota: nat) {
    && s.elapsed <= budget
    && (|s.tries| < count && !s.answered ==> budget - s.elapsed >= quota * (count - |s.tries|))
    && (forall i :: 0 <= i < |s.tries| && i < count ==> s.tries[i].share >= quota)
    && (forall i :: 0 <= i < |s.tries| ==> s.tries[i].took <= s.tries[i].share)
  }

  /** An equal part of what is left is a fair share, and leaves one for each of the others. */
  lemma ShareIsFair(remaining: nat, quota: nat, d: nat)
    requires d >= 1 && remaining >= quota * d
    ensures quota <= remaining / d <= remaining
    ensures remaining - remaining / d >= quota * (d - 1)
  {
    var share := remaining / d;
    assert share * d <= remaining < (share + 1) * d;
    if share < quota {
      MulGrows(share + 1, quota, d);
      assert false;
    }
    assert share * d == share * (d - 1) + share;
    MulGrows(quota, share, d - 1);
  }

  lemma TriedIsFair(s: Round, peer: nat, count: nat, budget: nat, quota: nat, prefix: Bytes, r: Reaction, b: Backoff,
                    clock: nat)
    requires peer < |s.words| && s.elapsed < budget && !s.answered
    requires Fair(s, count, budget, quota)
    ensures Fair(Tried(s, peer, count, budget, prefix, r, b, clock), count, budget, quota)
  {
    hide AfterFailure;
    var remaining, k := budget - s.elapsed, |s.tries|;
    if k < count {
      ShareIsFair(remaining, quota, count - k);
    } else {
      assert remaining / 1 == remaining;
    }
  }

  /** A round of attempts, on every run: however the peers behave and however slow the earlier ones
      are, each expected attempt has at least the fair share `quota` of the time there was at the
      start, the round stays within its budget, every failed peer saw only part of the prefix, and
      only the last attempt can be answered. */
  lemma {:induction false} RoundIsSafe(s: Round, peers: seq<nat>, count: nat, budget: nat, quota: nat, prefix: Bytes,
                                       reactions: nat -> Reaction, b: Backoff, clock: nat)
    requires forall i :: 0 <= i < |peers| ==> peers[i] < |s.words|
    requires Fair(s, count, budget, quota) && Contained(s, prefix)
    ensures var r := TryPeers(s, peers, count, budget, prefix, reactions, b, clock);
      Fair(r, count, budget, quota) && Contained(r, prefix)
    decreases |peers|
  {
    if peers != [] && s.elapsed < budget && !s.answered {
      hide Fair, Attempt, AfterFailure, Share;
      assert s.elapsed < budget;
      var t := Tried(s, peers[0], count, budget, prefix, reactions(|s.tries|), b, clock);
      TriedIsFair(s, peers[0], count, budget, quota, prefix, reactions(|s.tries|), b, clock);
      RoundIsSafe(t, peers[1..], count, budget, quota, prefix, reactions, b, clock);
    }
  }

  /** From `s` to `r` the round tried `peers` in order, as many as there are new attempts, and left
      every other peer's cooldown alone; one that answered has its cooldown cleared. */
  ghost predicate Follows(s: Round, r: Round, peers: seq<nat>) {
    && s.elapsed <= r.elapsed && |r.words| == |s.words|
    && |s.tries| <= |r.tries| <= |s.tries| + |peers|
    && (forall i :: 0 <= i < |s.tries| ==> r.tries[i] == s.tries[i])
    && (forall i :: |s.tries| <= i < |r.tries| ==> r.tries[i].peer == peers[i - |s.tries|])
    && (forall p :: 0 <= p < |s.words| && p !in peers ==> r.words[p] == s.words[p])
    && (r.answered && !s.answered ==>
        r.tries != [] && r.tries[|r.tries| - 1].peer < |r.words| && r.words[r.tries[|r.tries| - 1].peer] == 0)
  }

  /** What one attempt changes. */
  lemma TriedFollows(s: Round, peer: nat, count: nat, budget: nat, prefix: Bytes, r: Reaction, b: Backoff, clock: nat)
    requires peer < |s.words| && s.elapsed < budget
    ensures var t := Tried(s, peer, count, budget, prefix, r, b, clock);
      && Follows(s, t, [peer]) && |t.tries| == |s.tries| + 1
      && t.answered == t.tries[|s.tries|].answered
      && (!t.answered ==> t.words[peer] == AfterFailure(s.words[peer], b.minNs, b.maxNs, clock + t.elapsed))
  {
    hide Attempt, AfterFailure, Share;
  }

  lemma FollowsTrans(s: Round, t: Round, r: Round, peers: seq<nat>)
    requires peers != [] && Follows(s, t, [peers[0]]) && |t.tries| == |s.tries| + 1
    requires Follows(t, r, peers[1..]) && (t.answered ==> r == t)
    ensures Follows(s, r, peers)
  {
    var rest := peers[1..];
    forall p | 0 <= p < |s.words| && p !in peers ensures r.words[p] == s.words[p] {
      assert p !in rest && p !in [peers[0]];
    }
    forall i | |s.tries| <= i < |r.tries| ensures r.tries[i].peer == peers[i - |s.tries|] {
      if i == |s.tries| { assert r.tries[i] == t.tries[i]; }
    }
  }

  /** The round tries its candidates in order and touches no other peer's cooldown. */
  lemma {:induction false} RoundFollows(s: Round, peers: seq<nat>, count: nat, budget: nat, prefix: Bytes,
                                        reactions: nat -> Reaction, b: Backoff, clock: nat)
    requires forall i :: 0 <= i < |peers| ==> peers[i] < |s.words|
    ensures Follows(s, TryPeers(s, peers, count, budget, prefix, reactions, b, clock), peers)
    decreases |peers|
  {
    if peers != [] && s.elapsed < budget && !s.answered {
      hide Tried;
      var t := Tried(s, peers[0], count, budget, prefix, reactions(|s.tries|), b, clock);
      TriedFollows(s, peers[0], count, budget, prefix, reactions(|s.tries|), b, clock);
      var rest := peers[1..];
      var r := TryPeers(t, rest, count, budget, prefix, reactions, b, clock);
      RoundFollows(t, rest, count, budget, prefix, reactions, b, clock);
      hide Follows;
      FollowsTrans(s, t, r, peers);
    }
  }

  ghost predicate FailedBetween(before: nat, after: nat, b: Backoff, earliest: nat, latest: nat) {
    exists now: nat :: earliest <= now <= latest && after == AfterFailure(before, b.minNs, b.maxNs, now)
  }

  /** Every attempt after `s` that was not answered put one failure into its peer's cooldown. */
  ghost predicate Recorded(s: Round, r: Round, b: Backoff, clock: nat) {
    && |r.words| == |s.words|
    && (forall i :: |s.tries| <= i < |r.tries| ==> r.tries[i].peer < |s.words|)
    && (forall i :: |s.tries| <= i < |r.tries| && !r.tries[i].answered ==>
          FailedBetween(s.words[r.tries[i].peer], r.words[r.tries[i].peer], b, clock + s.elapsed, clock + r.elapsed))
  }

  lemma RecordedTrans(s: Round, t: Round, r: Round, peers: seq<nat>, b: Backoff, clock: nat)
    requires peers != [] && peers[0] < |s.words|
    requires forall i, j :: 0 <= i < j < |peers| ==> peers[i] != peers[j]
    requires Follows(s, t, [peers[0]]) && |t.tries| == |s.tries| + 1 && t.answered == t.tries[|s.tries|].answered
    requires !t.answered ==> t.words[peers[0]] == AfterFailure(s.words[peers[0]], b.minNs, b.maxNs, clock + t.elapsed)
    requires Follows(t, r, peers[1..]) && (t.answered ==> r == t) && Recorded(t, r, b, clock)
    ensures Recorded(s, r, b, clock)
  {
    hide AfterFailure, FailedBetween;
    var rest, k := peers[1..], |s.tries|;
    assert peers[0] !in rest;
    assert r.tries[k] == t.tries[k];
    forall i | k <= i < |r.tries| && !r.tries[i].answered
      ensures FailedBetween(s.words[r.tries[i].peer], r.words[r.tries[i].peer], b, clock + s.elapsed, clock + r.elapsed)
    {
      if i == k {
        FailedNow(s.words[peers[0]], b, clock + s.elapsed, clock + t.elapsed, clock + r.elapsed);
      } else {
        var p := r.tries[i].peer;
        assert p == rest[i - k - 1] && p !in [peers[0]];
        FailedSooner(s.words[p], r.words[p], b, clock + t.elapsed, clock + s.elapsed, clock + r.elapsed);
      }
    }
  }

  /** Every peer that did not answer took exactly one failure into its cooldown, at a moment of the
      round. */
  lemma {:induction false} FailuresAreRecorded(s: Round, peers: seq<nat>, count: nat, budget: nat, prefix: Bytes,
                                               reactions: nat -> Reaction, b: Backoff, clock: nat)
    requires forall i :: 0 <= i < |peers| ==> peers[i] < |s.words|
    requires forall i, j :: 0 <= i < j < |peers| ==> peers[i] != peers[j]
    ensures Recorded(s, TryPeers(s, peers, count, budget, prefix, reactions, b, clock), b, clock)
    decreases |peers|
  {
    if peers != [] && s.elapsed < budget && !s.answered {
      hide Tried, AfterFailure, FailedBetween;
      var t := Tried(s, peers[0], count, budget, prefix, reactions(|s.tries|), b, clock);
      TriedFollows(s, peers[0], count, budget, prefix, reactions(|s.tries|), b, clock);
      var rest := peers[1..];
      var r := TryPeers(t, rest, count, budget, prefix, reactions, b, clock);
      RoundFollows(t, rest, count, budget, prefix, reactions, b, clock);
      FailuresAreRecorded(t, rest, count, budget, prefix, reactions, b, clock);
      hide Follows, Recorded;
      RecordedTrans(s, t, r, peers, b, clock);
    }
  }

  lemma FailedNow(before: nat, b: Backoff, earliest: nat, now: nat, latest: nat)
    requires earliest <= now <= latest
    ensures FailedBetween(before, AfterFailure(before, b.minNs, b.maxNs, now), b, earliest, latest)
  {
  }

  lemma FailedSooner(before: nat, after: nat, b: Backoff, later: nat, earlier: nat, latest: nat)
    requires earlier <= later && FailedBetween(before, after, b, later, latest)
    ensures FailedBetween(before, after, b, earlier, latest)
  {
  }

  /** A spill goes to its target, unless there is no such peer or it is cooling down. */
  lemma SpillGoesToTarget(words: seq<nat>, cursor: nat, target: nat, now: nat, p: nat)
    requires words != []
    ensures var tried := Candidates(words, cursor, Spill(target), now);
      && |tried| <= 1 && (p in tried <==> p == target && Ready(words, now, p))
  {
  }

  // ---- A round, attempt by attempt ----

  /** The time some attempts took. */
  function Spent(tries: seq<Try>): nat {
    if tries == [] then 0 else Spent(tries[..|tries| - 1]) + tries[|tries| - 1].took
  }

  /** How an attempt that may take `share` goes with a peer that reacts like this: it ends when the peer
      is done with it or its time is up; it is answered if and only if the first byte comes in time; and
      the peer has got everything before it can answer, part of it if it closes or is still busy, and
      nothing if no connection came about. */
  ghost predicate Goes(t: Try, prefix: Bytes, r: Reaction) {
    && t.took == (if r.took <= t.share then r.took else t.share)
    && (t.answered <==> r.took <= t.share && r.answer.FirstByte?)
    && t.received == if t.answered then prefix
                     else if r.took <= t.share && (r.answer.Refused? || r.answer.Failed?) then []
                     else prefix[..Min(r.reached, |prefix|)]
  }

  /** The i-th attempt, begun at `began`: with the i-th peer, while there is time, with an equal share of
      what is left among the peers not yet tried. */
  ghost predicate Begun(t: Try, i: nat, began: nat, peers: seq<nat>, budget: nat, prefix: Bytes,
                        reactions: nat -> Reaction) {
    && i < |peers| && t.peer == peers[i] && began < budget && t.share == (budget - began) / (|peers| - i)
    && Goes(t, prefix, reactions(i))
  }

  /** The attempts are those the peers get in their order, one after the other; only the last can have been
      answered. */
  ghost predicate InOrder(tries: seq<Try>, peers: seq<nat>, spent: nat, budget: nat, prefix: Bytes,
                          reactions: nat -> Reaction) {
    && (forall i :: 0 <= i < |tries| ==> BegunAt(tries, i, peers, spent, budget, prefix, reactions))
    && (forall i :: 0 <= i < |tries| - 1 ==> !tries[i].answered)
  }

  ghost predicate BegunAt(tries: seq<Try>, i: nat, peers: seq<nat>, spent: nat, budget: nat, prefix: Bytes,
                          reactions: nat -> Reaction) {
    i < |tries| && Begun(tries[i], i, spent + Spent(tries[..i]), peers, budget, prefix, reactions)
  }

  predicate LastAnswered(tries: seq<Try>) { tries != [] && tries[|tries| - 1].answered }

  lemma TriedGoes(s: Round, peer: nat, count: nat, budget: nat, prefix: Bytes, r: Reaction, b: Backoff, clock: nat)
    requires peer < |s.words| && s.elapsed < budget && |s.tries| < count
    ensures var t := Tried(s, peer, count, budget, prefix, r, b, clock);
      && |t.tries| == |s.tries| + 1 && t.tries[..|s.tries|] == s.tries
      && t.tries[|s.tries|].peer == peer && t.tries[|s.tries|].share == (budget - s.elapsed) / (count - |s.tries|)
      && Goes(t.tries[|s.tries|], prefix, r)
      && t.answered == t.tries[|s.tries|].answered && t.elapsed == s.elapsed + t.tries[|s.tries|].took
      && t.words == s.words[peer := if t.answered then 0
                                    else AfterFailure(s.words[peer], b.minNs, b.maxNs, clock + t.elapsed)]
  {
    hide AfterFailure;
  }

  lemma InOrderMore(tries: seq<Try>, t: Try, peers: seq<nat>, spent: nat, budget: nat, prefix: Bytes,
                    reactions: nat -> Reaction)
    requires InOrder(tries, peers, spent, budget, prefix, reactions) && !LastAnswered(tries)
    requires Begun(t, |tries|, spent + Spent(tries), peers, budget, prefix, reactions)
    ensures InOrder(tries + [t], peers, spent, budget, prefix, reactions)
    ensures Spent(tries + [t]) == Spent(tries) + t.took && LastAnswered(tries + [t]) == t.answered
  {
    hide BegunAt, Begun, Spent;
    var more := tries + [t];
    forall i | 0 <= i < |more| ensures BegunAt(more, i, peers, spent, budget, prefix, reactions) {
      BegunStays(tries, t, i, peers, spent, budget, prefix, reactions);
    }
    SpentMore(tries, t);
  }

  lemma BegunStays(tries: seq<Try>, t: Try, i: nat, peers: seq<nat>, spent: nat, budget: nat, prefix: Bytes,
                   reactions: nat -> Reaction)
    requires i <= |tries|
    requires i < |tries| ==> BegunAt(tries, i, peers, spent, budget, prefix, reactions)
    requires i == |tries| ==> Begun(t, i, spent + Spent(tries), peers, budget, prefix, reactions)
    ensures BegunAt(tries + [t], i, peers, spent, budget, prefix, reactions)
  {
    hide Begun, Spent;
    var more := tries + [t];
    assert more[..i] == tries[..i];
    if i == |tries| { assert tries[..i] == tries; }
  }

  lemma SpentMore(tries: seq<Try>, t: Try)
    ensures Spent(tries + [t]) == Spent(tries) + t.took
  {
    assert (tries + [t])[..|tries|] == tries;
  }

  /** The round so far is such a list of attempts. */
  ghost predicate SoFar(s: Round, peers: seq<nat>, spent: nat, budget: nat, prefix: Bytes, reactions: nat -> Reaction) {
    && |s.tries| <= |peers| && InOrder(s.tries, peers, spent, budget, prefix, reactions)
    && s.elapsed == spent + Spent(s.tries) && s.answered == LastAnswered(s.tries)
  }

  lemma TriedSoFar(s: Round, peers: seq<nat>, budget: nat, prefix: Bytes, reactions: nat -> Reaction, b: Backoff,
                   clock: nat, spent: nat)
    requires SoFar(s, peers, spent, budget, prefix, reactions) && |s.tries| < |peers| && s.elapsed < budget
      && !s.answered
    requires peers[|s.tries|] < |s.words|
    ensures var k := |s.tries|; var t := Tried(s, peers[k], |peers|, budget, prefix, reactions(k), b, clock);
      |t.tries| == k + 1 && |t.words| == |s.words| && SoFar(t, peers, spent, budget, prefix, reactions)
  {
    hide Tried, Goes, InOrder, Spent;
    var k := |s.tries|;
    var t := Tried(s, peers[k], |peers|, budget, prefix, reactions(k), b, clock);
    TriedGoes(s, peers[k], |peers|, budget, prefix, reactions(k), b, clock);
    assert t.tries == s.tries + [t.tries[k]];
    InOrderMore(s.tries, t.tries[k], peers, spent, budget, prefix, reactions);
  }

  lemma {:induction false} RoundGoesOn(s: Round, peers: seq<nat>, budget: nat, prefix: Bytes,
                                       reactions: nat -> Reaction,
                                       b: Backoff, clock: nat, spent: nat)
    requires forall i :: 0 <= i < |peers| ==> peers[i] < |s.words|
    requires SoFar(s, peers, spent, budget, prefix, reactions)
    ensures var r := TryPeers(s, peers[|s.tries|..], |peers|, budget, prefix, reactions, b, clock);
      && SoFar(r, peers, spent, budget, prefix, reactions)
      && (r.answered || |r.tries| == |peers| || r.elapsed >= budget)
    decreases |peers| - |s.tries|
  {
    var k := |s.tries|;
    if k < |peers| && s.elapsed < budget && !s.answered {
      TriedSoFar(s, peers, budget, prefix, reactions, b, clock, spent);
      hide Tried, SoFar;
      var t := Tried(s, peers[k], |peers|, budget, prefix, reactions(k), b, clock);
      assert peers[k..][1..] == peers[k + 1..];
      RoundGoesOn(t, peers, budget, prefix, reactions, b, clock, spent);
    }
  }

  /** A round, exactly: the peers are tried in order, each with its share, until one answers, none is left
      or the time is up. So a peer that answers within its share is never passed over. */
  lemma RoundIsExact(words: seq<nat>, peers: seq<nat>, spent: nat, budget: nat, prefix: Bytes,
                     reactions: nat -> Reaction, b: Backoff, clock: nat)
    requires forall i :: 0 <= i < |peers| ==> peers[i] < |words|
    ensures var r := TryPeers(Round(words, [], spent, false), peers, |peers|, budget, prefix, reactions, b, clock);
      && SoFar(r, peers, spent, budget, prefix, reactions)
      && (r.answered || |r.tries| == |peers| || r.elapsed >= budget)
  {
    hide TryPeers;
    assert peers[0..] == peers;
    RoundGoesOn(Round(words, [], spent, false), peers, budget, prefix, reactions, b, clock, spent);
  }

  /** The i-th attempt's mark on its peer's cooldown: cleared by an answer, else one failure more at the
      moment the attempt ended. */
  ghost predicate Marked(words: seq<nat>, s: Round, i: nat, spent: nat, b: Backoff, clock: nat) {
    && i < |s.tries| && s.tries[i].peer < |words| == |s.words|
    && s.words[s.tries[i].peer] ==
         if s.tries[i].answered then 0
         else AfterFailure(words[s.tries[i].peer], b.minNs, b.maxNs, clock + spent + Spent(s.tries[..i + 1]))
  }

  ghost predicate AllMarked(words: seq<nat>, s: Round, peers: seq<nat>, spent: nat, b: Backoff, clock: nat) {
    && |s.words| == |words| && |s.tries| <= |peers|
    && (forall i :: 0 <= i < |s.tries| ==> s.tries[i].peer == peers[i] && Marked(words, s, i, spent, b, clock))
    && (forall p :: 0 <= p < |words| && p !in peers[..|s.tries|] ==> s.words[p] == words[p])
    && s.elapsed == spent + Spent(s.tries)
  }

  lemma TriedMarks(words: seq<nat>, s: Round, peers: seq<nat>, budget: nat, prefix: Bytes, r: Reaction, b: Backoff,
                   clock: nat, spent: nat)
    requires AllMarked(words, s, peers, spent, b, clock) && |s.tries| < |peers| && s.elapsed < budget
    requires peers[|s.tries|] < |words| && forall i, j :: 0 <= i < j < |peers| ==> peers[i] != peers[j]
    ensures var k := |s.tries|; var t := Tried(s, peers[k], |peers|, budget, prefix, r, b, clock);
      |t.tries| == k + 1 && AllMarked(words, t, peers, spent, b, clock)
  {
    hide Tried, Goes, Spent, AfterFailure;
    var k := |s.tries|;
    var t := Tried(s, peers[k], |peers|, budget, prefix, r, b, clock);
    TriedGoes(s, peers[k], |peers|, budget, prefix, r, b, clock);
    assert t.tries == s.tries + [t.tries[k]];
    SpentMore(s.tries, t.tries[k]);
    forall i | 0 <= i <= k ensures t.tries[i].peer == peers[i] && Marked(words, t, i, spent, b, clock) {
      if i < k {
        assert Marked(words, s, i, spent, b, clock);
        assert t.tries[..i + 1] == s.tries[..i + 1];
      } else {
        assert t.tries[..i + 1] == t.tries;
        assert peers[k] !in peers[..k];
      }
    }
    forall p | 0 <= p < |words| && p !in peers[..k + 1] ensures t.words[p] == words[p] {
      assert peers[..k + 1] == peers[..k] + [peers[k]];
    }
  }

  lemma {:induction false} RoundMarksOn(words: seq<nat>, s: Round, peers: seq<nat>, budget: nat, prefix: Bytes,
                                        reactions: nat -> Reaction, b: Backoff, clock: nat, spent: nat)
    requires AllMarked(words, s, peers, spent, b, clock)
    requires forall i :: 0 <= i < |peers| ==> peers[i] < |words|
    requires forall i, j :: 0 <= i < j < |peers| ==> peers[i] != peers[j]
    ensures var r := TryPeers(s, peers[|s.tries|..], |peers|, budget, prefix, reactions, b, clock);
      AllMarked(words, r, peers, spent, b, clock)
    decreases |peers| - |s.tries|
  {
    var k := |s.tries|;
    if k < |peers| && s.elapsed < budget && !s.answered {
      TriedMarks(words, s, peers, budget, prefix, reactions(k), b, clock, spent);
      hide Tried, Marked;
      var t := Tried(s, peers[k], |peers|, budget, prefix, reactions(k), b, clock);
      assert peers[k..][1..] == peers[k + 1..];
      RoundMarksOn(words, t, peers, budget, prefix, reactions, b, clock, spent);
    }
  }

  /** And what a round does to the cooldowns, exactly. */
  lemma RoundMarks(words: seq<nat>, peers: seq<nat>, spent: nat, budget: nat, prefix: Bytes,
                   reactions: nat -> Reaction, b: Backoff, clock: nat)
    requires forall i :: 0 <= i < |peers| ==> peers[i] < |words|
    requires forall i, j :: 0 <= i < j < |peers| ==> peers[i] != peers[j]
    ensures var r := TryPeers(Round(words, [], spent, false), peers, |peers|, budget, prefix, reactions, b, clock);
      AllMarked(words, r, peers, spent, b, clock)
  {
    hide TryPeers;
    assert peers[0..] == peers;
    RoundMarksOn(words, Round(words, [], spent, false), peers, budget, prefix, reactions, b, clock, spent);
  }
}
