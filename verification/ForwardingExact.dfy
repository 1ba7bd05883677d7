/** What becomes of a forward and of a connection, exactly: which peers are tried, when a round stops,
    where the client's bytes are then, and which branch a connection takes. */
module ForwardingExact {
  import opened Basics
  import opened Wrappers
  import opened Bytes
  import opened Forwarding
  import opened ForwardingLaws

  /** A down route spends the whole handshake timeout on its peers, a draining one half of it but at most
      two seconds, a spill half of it but at most one. */
  lemma BudgetExactly(mode: Mode, handshake: nat)
    ensures var budget := Budget(mode, handshake);
      && (mode.Down? ==> budget == handshake)
      && (mode.Drain? ==> budget == if handshake <= 4_000_000_000 then handshake / 2 else 2_000_000_000)
      && (mode.Spill? ==> budget == if handshake <= 2_000_000_000 then handshake / 2 else 1_000_000_000)
  {
  }

  /** The hello can be sent again: it is whole, and all of it was peeked in time. */
  ghost predicate Replayable(stream: Bytes, complete: bool, helloLen: nat, w: World, budget: nat) {
    && complete && 0 < helloLen <= |stream|
    && w.arrived.Some? && w.arrived.value >= helloLen && w.peekTook <= budget
  }

  /** The round of a forward as it stood when its last peer answered or it stopped. */
  ghost function RoundOf(o: Outcome, prefix: Bytes): Round {
    var last := |o.tries| - 1;
    Round(o.state.words, if LastAnswered(o.tries) then o.tries[last := o.tries[last].(received := prefix)] else o.tries,
          o.elapsed, LastAnswered(o.tries))
  }

  /** Where the client's stream and the connection are at the end of a forward. */
  ghost predicate Ended(o: Outcome, stream: Bytes, helloLen: nat, mode: Mode, handshake: nat, w: World) {
    if !LastAnswered(o.tries) then
      && o.unread == stream
      && (mode.Down? ==> o.result == Done(Some(UpstreamConnect)))
      && (!mode.Down? ==> o.result.ServeLocally? && o.result.left + o.elapsed == handshake)
    else
      && o.result == Done(if w.readOk && w.tunnelOk then None else Some(StreamError))
      && |o.unread| == if w.readOk && w.tunnelOk then 0
                       else if w.readOk then (if helloLen + w.carried <= |stream| then |stream| - helloLen - w.carried
                                              else 0)
                       else |stream| - Min(w.lost, helloLen)
  }

  /** The cursor moves on by one for every forward that chooses among several peers. */
  ghost predicate CursorMoves(before: State, after: State, chooses: bool, mode: Mode) {
    after.cursor == before.cursor + if chooses && !mode.Spill? && |before.words| != 1 then 1 else 0
  }

  lemma ConcludedEnds(st: State, round: Round, stream: Bytes, helloLen: nat, mode: Mode, handshake: nat, header: Bytes,
                      w: World)
    requires helloLen <= |stream| && round.answered == LastAnswered(round.tries) && round.elapsed <= handshake
    requires round.answered ==> round.tries[|round.tries| - 1].received == header + stream[..helloLen]
    ensures var o := Concluded(st, round, stream, helloLen, mode, handshake, header, w);
      && Ended(o, stream, helloLen, mode, handshake, w) && RoundOf(o, header + stream[..helloLen]) == round
      && o.state.cursor == st.cursor
  {
    var o := Concluded(st, round, stream, helloLen, mode, handshake, header, w);
    if round.answered {
      var last := |round.tries| - 1;
      assert RoundOf(o, header + stream[..helloLen]).tries[last] == round.tries[last];
      assert RoundOf(o, header + stream[..helloLen]).tries == round.tries;
    }
  }

  /** A forward, exactly. With a hello that can be replayed the candidates are tried in their order, each
      with its share, until one answers, all have been tried or the budget is spent, and each attempt
      leaves its mark on its peer's cooldown and on no other; with none, nothing is tried. */
  lemma ForwardIsExact(st: State, stream: Bytes, complete: bool, helloLen: nat, mode: Mode, handshake: nat,
                       header: Bytes, w: World, b: Backoff, clock: nat)
    requires st.words != []
    ensures var o := Forward(st, stream, complete, helloLen, mode, handshake, header, w, b, clock);
      var peers := Candidates(st.words, st.cursor, mode, clock);
      var budget := Budget(mode, handshake);
      && Ended(o, stream, helloLen, mode, handshake, w)
      && CursorMoves(st, o.state, complete && helloLen != 0, mode)
      && (!Replayable(stream, complete, helloLen, w, budget) || peers == [] ==>
          && o.tries == [] && o.state.words == st.words
          && o.elapsed == if !complete || helloLen == 0 || peers == [] then 0 else Min(w.peekTook, budget))
      && (Replayable(stream, complete, helloLen, w, budget) && peers != [] ==>
          var r := RoundOf(o, header + stream[..helloLen]);
          && SoFar(r, peers, w.peekTook, budget, header + stream[..helloLen], w.reactions)
          && AllMarked(st.words, r, peers, w.peekTook, b, clock)
          && (r.answered || |r.tries| == |peers| || r.elapsed >= budget))
  {
    hide TryPeers, Candidates, Budget, SoFar, AllMarked, Concluded, RoundOf;
    var budget := Budget(mode, handshake);
    BudgetWithin(mode, handshake);
    var peers := Candidates(st.words, st.cursor, mode, clock);
    if Replayable(stream, complete, helloLen, w, budget) && peers != [] {
      ReplayableForward(st, stream, helloLen, mode, handshake, header, w, b, clock);
    } else {
      NothingForwarded(st, stream, complete, helloLen, mode, handshake, header, w, b, clock);
    }
  }

  lemma NothingForwarded(st: State, stream: Bytes, complete: bool, helloLen: nat, mode: Mode, handshake: nat,
                         header: Bytes, w: World, b: Backoff, clock: nat)
    requires st.words != []
    requires !Replayable(stream, complete, helloLen, w, Budget(mode, handshake))
      || Candidates(st.words, st.cursor, mode, clock) == []
    ensures var o := Forward(st, stream, complete, helloLen, mode, handshake, header, w, b, clock);
      && Ended(o, stream, helloLen, mode, handshake, w)
      && CursorMoves(st, o.state, complete && helloLen != 0, mode)
      && o.tries == [] && o.state.words == st.words
      && o.elapsed == if !complete || helloLen == 0 || Candidates(st.words, st.cursor, mode, clock) == [] then 0
                      else Min(w.peekTook, Budget(mode, handshake))
  {
    hide TryPeers, Candidates, Budget, Concluded;
    BudgetWithin(mode, handshake);
  }

  lemma ReplayableForward(st: State, stream: Bytes, helloLen: nat, mode: Mode, handshake: nat, header: Bytes, w: World,
                          b: Backoff, clock: nat)
    requires st.words != [] && Replayable(stream, true, helloLen, w, Budget(mode, handshake))
    requires Candidates(st.words, st.cursor, mode, clock) != []
    ensures var o := Forward(st, stream, true, helloLen, mode, handshake, header, w, b, clock);
      var peers := Candidates(st.words, st.cursor, mode, clock);
      var budget := Budget(mode, handshake);
      var r := RoundOf(o, header + stream[..helloLen]);
      && Ended(o, stream, helloLen, mode, handshake, w) && CursorMoves(st, o.state, true, mode)
      && SoFar(r, peers, w.peekTook, budget, header + stream[..helloLen], w.reactions)
      && AllMarked(st.words, r, peers, w.peekTook, b, clock)
      && (r.answered || |r.tries| == |peers| || r.elapsed >= budget)
  {
    hide TryPeers, Candidates, Budget, AllMarked, Concluded, RoundOf, InOrder, Contained, Ended, Fair;
    var budget, prefix := Budget(mode, handshake), header + stream[..helloLen];
    BudgetWithin(mode, handshake);
    var peers := Candidates(st.words, st.cursor, mode, clock);
    CandidatesInRange(st.words, st.cursor, mode, clock);
    CandidatesDistinct(st.words, st.cursor, mode, clock);
    var start := Round(st.words, [], w.peekTook, false);
    var round := TryPeers(start, peers, |peers|, budget, prefix, w.reactions, b, clock);
    RoundIsExact(st.words, peers, w.peekTook, budget, prefix, w.reactions, b, clock);
    RoundMarks(st.words, peers, w.peekTook, budget, prefix, w.reactions, b, clock);
    RoundStaysIn(start, peers, budget, prefix, w.reactions, b, clock);
    ConcludedEnds(Advanced(st, mode), round, stream, helloLen, mode, handshake, header, w);
  }

  lemma RoundStaysIn(s: Round, peers: seq<nat>, budget: nat, prefix: Bytes, reactions: nat -> Reaction, b: Backoff,
                     clock: nat)
    requires forall i :: 0 <= i < |peers| ==> peers[i] < |s.words|
    requires s.tries == [] && !s.answered && s.elapsed <= budget
    ensures var r := TryPeers(s, peers, |peers|, budget, prefix, reactions, b, clock);
      && r.elapsed <= budget
      && (r.answered ==> LastAnswered(r.tries) && r.tries[|r.tries| - 1].received == prefix)
  {
    hide TryPeers;
    RoundIsSafe(s, peers, |peers|, budget, 0, prefix, reactions, b, clock);
  }

  /** A forward that gives up has tried every candidate or has no time left. */
  lemma GivesUpAtTheEnd(st: State, stream: Bytes, complete: bool, helloLen: nat, mode: Mode, handshake: nat,
                        header: Bytes, w: World, b: Backoff, clock: nat)
    requires st.words != [] && Replayable(stream, complete, helloLen, w, Budget(mode, handshake))
    ensures var o := Forward(st, stream, complete, helloLen, mode, handshake, header, w, b, clock);
      var peers := Candidates(st.words, st.cursor, mode, clock);
      !LastAnswered(o.tries) ==>
        && (|o.tries| == |peers| || o.elapsed == Budget(mode, handshake)) && |o.tries| <= |peers|
        && (forall i :: 0 <= i < |o.tries| ==> o.tries[i].peer == peers[i])
  {
    hide Forward, Candidates, Budget, InOrder, Marked;
    ForwardIsExact(st, stream, complete, helloLen, mode, handshake, header, w, b, clock);
    ForwardIsSafe(st, stream, complete, helloLen, mode, handshake, header, w, b, clock);
  }

  // ---- A prompt peer is never passed over ----

  lemma {:induction false} SpentAtMost(tries: seq<Try>, quota: nat)
    requires forall i :: 0 <= i < |tries| ==> tries[i].took <= quota
    ensures Spent(tries) <= |tries| * quota
  {
    if tries != [] { SpentAtMost(tries[..|tries| - 1], quota); }
  }

  lemma LessThanAll(n: nat, count: nat, quota: nat, budget: nat)
    requires n < count && quota > 0 && quota * count <= budget
    ensures n * quota < budget
  {
    MulGrows(n + 1, count, quota);
  }

  /** If no candidate up to some one takes longer than an equal part of the time, and that one sends its
      first byte, then the client is handed over: to it, or to one before it. */
  lemma PromptPeerAnswers(st: State, stream: Bytes, complete: bool, helloLen: nat, mode: Mode, handshake: nat,
                          header: Bytes, w: World, b: Backoff, clock: nat, k: nat)
    requires st.words != [] && Replayable(stream, complete, helloLen, w, Budget(mode, handshake))
    requires k < |Candidates(st.words, st.cursor, mode, clock)|
    requires var quota := (Budget(mode, handshake) - w.peekTook) / |Candidates(st.words, st.cursor, mode, clock)|;
      quota > 0 && (forall i: nat :: i <= k ==> w.reactions(i).took <= quota) && w.reactions(k).answer.FirstByte?
    ensures var o := Forward(st, stream, complete, helloLen, mode, handshake, header, w, b, clock);
      LastAnswered(o.tries) && |o.tries| <= k + 1
  {
    hide Forward, Candidates, Budget, AllMarked, RoundOf, Spent;
    ForwardIsExact(st, stream, complete, helloLen, mode, handshake, header, w, b, clock);
    SharesAreFair(st, stream, complete, helloLen, mode, handshake, header, w, b, clock);
    var o := Forward(st, stream, complete, helloLen, mode, handshake, header, w, b, clock);
    var peers := Candidates(st.words, st.cursor, mode, clock);
    var budget, prefix := Budget(mode, handshake), header + stream[..helloLen];
    var r := RoundOf(o, prefix);
    var quota := (budget - w.peekTook) / |peers|;
    SameShares(o, prefix, peers, quota);
    if |r.tries| > k {
      assert BegunAt(r.tries, k, peers, w.peekTook, budget, prefix, w.reactions);
      assert r.tries[k].answered;
    } else {
      forall i | 0 <= i < |r.tries| ensures r.tries[i].took <= quota {
        assert BegunAt(r.tries, i, peers, w.peekTook, budget, prefix, w.reactions);
      }
      SpentAtMost(r.tries, quota);
      PeekLeavesQuota(budget, w.peekTook, |peers|);
      LessThanAll(|r.tries|, |peers|, quota, budget - w.peekTook);
    }
  }

  lemma SameShares(o: Outcome, prefix: Bytes, peers: seq<nat>, quota: nat)
    requires o.tries != [] ==> SharedOut(o.tries, peers, quota)
    ensures var r := RoundOf(o, prefix);
      && |r.tries| == |o.tries| && LastAnswered(o.tries) == r.answered == LastAnswered(r.tries)
      && (forall i :: 0 <= i < |r.tries| ==> r.tries[i].share >= quota)
  {
  }

  // ---- Which branch a connection takes ----

  /** A connection that may be passed on: it did not come from a peer and is not suspended. */
  ghost predicate MayMove(c: Connection) { !(c.ingress || c.suspended) }

  /** The mode of the first round, if there is one. */
  ghost function FirstMode(c: Connection, route: Route): Option<Mode> {
    if c.ingress || c.suspended then None
    else if route.locallyDown then Some(Down)
    else if route.drain then Some(Drain)
    else if route.spill.Some? then Some(Spill(route.spill.value))
    else None
  }

  lemma FirstRoundIsExact(st: State, c: Connection, route: Route, stream: Bytes, header: Bytes, w: World, clock: nat)
    requires st.words != []
    ensures var o := FirstRound(st, c, route, stream, header, w, clock);
      match FirstMode(c, route)
      case Some(mode) =>
        o == Forward(st, stream, c.complete, c.helloLen, mode, c.handshake, header, w, route.backoff, clock)
      case None =>
        && o.tries == [] && o.unread == stream && o.elapsed == 0 && o.state == st
        && o.result == if c.ingress && (route.locallyDown || route.drain) then Done(None) else ServeLocally(c.handshake)
  {
    hide Forward;
  }

  /** The local part of a connection, with `left` of the handshake timeout: a connection that is not
      terminated here, or could still move to a peer and owes no certificate, is connected before the
      hello is read, within the connect timeout and, if it can move, half of what is left. What a failed
      connect leaves of the time then goes to a round as on a down route. */
  lemma ServedIsExact(st: State, c: Connection, route: Route, stream: Bytes, header: Bytes,
                      w1: World, connect: Connect, w2: World, clock: nat)
    requires st.words != []
    ensures var o := FirstRound(st, c, route, stream, header, w1, clock);
      var s := Serve(st, c, route, stream, header, w1, connect, w2, clock);
      s.first == o.tries &&
      if o.result.Done? then s == Served(Over, o.tries, [], o.unread, o.elapsed)
      else
        var left := o.result.left;
        var early := !c.terminate || (MayMove(c) && c.complete && !c.requiresCert);
        var limit := if MayMove(c) && left / 2 < c.connectTimeout then left / 2 else c.connectTimeout;
        var took := if connect.took < limit then connect.took else limit;
        if !early then s == Served(Here(left), o.tries, [], o.unread, o.elapsed)
        else if connect.took <= limit && connect.ok then
          && s.end.Here? && s.end.left == (if took <= left then left - took else 0)
          && s.second == [] && s.unread == o.unread && s.elapsed == o.elapsed + took
        else if !MayMove(c) then s == Served(Over, o.tries, [], o.unread, o.elapsed + took)
        else
          && took <= left
          && var p := Forward(o.state, o.unread, c.complete, c.helloLen, Down, left - took, header, w2, route.backoff,
                              clock + o.elapsed + took);
             s.end.Over? && s.second == p.tries && s.unread == p.unread && s.elapsed == o.elapsed + took + p.elapsed
  {
    hide Forward, FirstRound;
  }
}
