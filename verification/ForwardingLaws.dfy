/** A forwarded connection from end to end: the peer round, the local connect and the second peer
    round share one handshake timeout, and the client's bytes go to one place only. */
module ForwardingLaws {
  import opened Basics
  import opened Wrappers
  import opened Bytes
  import opened Forwarding

  const DRAIN_BUDGET: nat := 2 * SECOND
  const SPILL_BUDGET: nat := SECOND

  /** The failover state of a route: each peer's cooldown word, the round-robin cursor, the counters. */
  datatype State = State(words: seq<nat>, cursor: nat, replays: nat, exhausted: nat, localFallbacks: nat)

  /** What the rest of the world does during one round: how long the peek takes and how many bytes
      it finds, how each attempt goes, and, once a peer answered, whether the client can still be
      read and how much of the hello is read when it can not, whether the tunnel ends cleanly and
      how much it carries when it does not. */
  datatype World = World(peekTook: nat, arrived: Option<nat>, reactions: nat -> Reaction,
                         readOk: bool, lost: nat, tunnelOk: bool, carried: nat)

  datatype ErrorKind = UpstreamConnect | StreamError

  datatype Forwarded = Done(error: Option<ErrorKind>) | ServeLocally(left: nat)

  datatype Outcome = Outcome(result: Forwarded, tries: seq<Try>, unread: Bytes, elapsed: nat, state: State)

  function Budget(mode: Mode, handshake: nat): nat {
    match mode
    case Down => handshake
    case Drain => Min(handshake / 2, DRAIN_BUDGET)
    case Spill(_) => Min(handshake / 2, SPILL_BUDGET)
  }

  function GiveUp(st: State, mode: Mode, handshake: nat, tries: seq<Try>, stream: Bytes, elapsed: nat): Outcome {
    if mode.Down? then
      Outcome(Done(Some(UpstreamConnect)), tries, stream, elapsed, st.(exhausted := st.exhausted + 1))
    else
      var left := if elapsed <= handshake then handshake - elapsed else 0;
      Outcome(ServeLocally(left), tries, stream, elapsed, st.(localFallbacks := st.localFallbacks + 1))
  }

  function Advanced(st: State, mode: Mode): State {
    if mode.Spill? || |st.words| == 1 then st else st.(cursor := st.cursor + 1)
  }

  /** After the peer's first byte: the hello is read, then everything else is copied to the peer. */
  function Committed(st: State, round: Round, header: Bytes, stream: Bytes, helloLen: nat, w: World): Outcome
    requires helloLen <= |stream| && round.tries != []
  {
    if !w.readOk then
      Outcome(Done(Some(StreamError)), round.tries, stream[Min(w.lost, helloLen)..], round.elapsed, st)
    else
      var taken := if w.tunnelOk then |stream| else Min(helloLen + w.carried, |stream|);
      var last := |round.tries| - 1;
      var tries := round.tries[last := round.tries[last].(received := header + stream[..taken])];
      Outcome(Done(if w.tunnelOk then None else Some(StreamError)), tries, stream[taken..], round.elapsed, st)
  }

  predicate Peeked(w: World, budget: nat, stream: Bytes, helloLen: nat) {
    w.peekTook <= budget && w.arrived.Some? && Min(w.arrived.value, |stream|) >= helloLen
  }

  function Forward(st: State, stream: Bytes, complete: bool, helloLen: nat, mode: Mode, handshake: nat,
                   header: Bytes, w: World, b: Backoff, clock: nat): (o: Outcome)
    requires st.words != []
    ensures |o.state.words| == |st.words|
  {
    if !complete || helloLen == 0 then
      if mode.Down? then Outcome(Done(Some(UpstreamConnect)), [], stream, 0, st)
      else GiveUp(st, mode, handshake, [], stream, 0)
    else
      var budget := Budget(mode, handshake);
      var peers := Candidates(st.words, st.cursor, mode, clock);
      var st1 := Advanced(st, mode);
      if peers == [] then GiveUp(st1, mode, handshake, [], stream, 0)
      else if !Peeked(w, budget, stream, helloLen) then
        GiveUp(st1, mode, handshake, [], stream, Min(w.peekTook, budget))
      else
        CandidatesInRange(st.words, st.cursor, mode, clock);
        var round := TryPeers(Round(st.words, [], w.peekTook, false), peers, |peers|, budget,
                              header + stream[..helloLen], w.reactions, b, clock);
        Concluded(st1, round, stream, helloLen, mode, handshake, header, w)
  }

  function Concluded(st: State, round: Round, stream: Bytes, helloLen: nat, mode: Mode, handshake: nat,
                     header: Bytes, w: World): Outcome
    requires helloLen <= |stream|
  {
    var st1 := st.(words := round.words, replays := st.replays + (if round.tries == [] then 0 else |round.tries| - 1));
    if round.answered && round.tries != [] then Committed(st1, round, header, stream, helloLen, w)
    else GiveUp(st1, mode, handshake, round.tries, stream, round.elapsed)
  }

  lemma CandidatesInRange(words: seq<nat>, cursor: nat, mode: Mode, now: nat)
    requires words != []
    ensures var c := Candidates(words, cursor, mode, now); forall i :: 0 <= i < |c| ==> c[i] < |words|
  {
    if !mode.Spill? { CandidatesInTurn(words, cursor, mode, now); }
  }

  // ---- What one round guarantees ----

  /** No attempt of the round was answered, and each peer saw at most part of header and hello. */
  ghost predicate NoneAnswered(tries: seq<Try>, prefix: Bytes) {
    forall i :: 0 <= i < |tries| ==> !tries[i].answered && tries[i].received <= prefix
  }

  /** What is left of a stream after some first part of it, of at most `n` bytes. */
  ghost predicate LeftOf(unread: Bytes, stream: Bytes, n: int) {
    |stream| - n <= |unread| <= |stream| && unread == stream[|stream| - |unread|..]
  }

  /** Exactly the last attempt was answered: that peer holds the header and then exactly the part of
      the client's stream that is no longer unread, at least the hello. If the client broke off, the
      peer holds header and hello, and no more than the hello is gone. */
  ghost predicate OneAnswered(tries: seq<Try>, prefix: Bytes, header: Bytes, stream: Bytes, unread: Bytes,
                              readOk: bool) {
    && tries != []
    && NoneAnswered(tries[..|tries| - 1], prefix)
    && tries[|tries| - 1].answered
    && (!readOk ==> tries[|tries| - 1].received == prefix && LeftOf(unread, stream, |prefix| - |header|))
    && (readOk ==> header <= prefix <= tries[|tries| - 1].received)
    && (readOk ==> tries[|tries| - 1].received + unread == header + stream)
  }

  ghost predicate RoundOutcome(o: Outcome, header: Bytes, stream: Bytes, helloLen: nat, mode: Mode, handshake: nat,
                               readOk: bool) {
    var prefix := header + stream[..Min(helloLen, |stream|)];
    && o.elapsed <= Budget(mode, handshake)
    && ((NoneAnswered(o.tries, prefix) && o.unread == stream && o.result != Done(None))
        || (OneAnswered(o.tries, prefix, header, stream, o.unread, readOk) && o.result.Done?))
    && (o.result.ServeLocally? ==>
        NoneAnswered(o.tries, prefix) && !mode.Down? && o.result.left + o.elapsed == handshake)
    && (o.result == Done(None) ==> readOk && o.unread == [])
  }

  lemma BudgetWithin(mode: Mode, handshake: nat)
    ensures Budget(mode, handshake) <= handshake
    ensures !mode.Down? ==> 2 * Budget(mode, handshake) <= handshake
  {
  }

  lemma CommittedOutcome(st: State, round: Round, header: Bytes, stream: Bytes, helloLen: nat, w: World, mode: Mode,
                         handshake: nat)
    requires helloLen <= |stream| && round.answered && round.elapsed <= Budget(mode, handshake)
    requires Contained(round, header + stream[..helloLen])
    ensures RoundOutcome(Committed(st, round, header, stream, helloLen, w), header, stream, helloLen, mode, handshake,
                         w.readOk)
  {
    hide Budget;
    var o := Committed(st, round, header, stream, helloLen, w);
    var last := |round.tries| - 1;
    assert o.tries[..last] == round.tries[..last];
    if w.readOk {
      var taken := |stream| - |o.unread|;
      assert stream[taken..] == o.unread;
      assert o.tries[last].received == header + stream[..taken];
      assert (header + stream[..taken]) + stream[taken..] == header + stream;
      assert header + stream[..helloLen] <= header + stream[..taken];
    } else {
      assert o.unread == stream[|stream| - |o.unread|..];
    }
  }

  /** Forwarding commits once, on every run. */
  lemma ForwardIsSafe(st: State, stream: Bytes, complete: bool, helloLen: nat, mode: Mode, handshake: nat,
                      header: Bytes, w: World, b: Backoff, clock: nat)
    requires st.words != []
    ensures var o := Forward(st, stream, complete, helloLen, mode, handshake, header, w, b, clock);
      RoundOutcome(o, header, stream, helloLen, mode, handshake, w.readOk)
  {
    hide TryPeers, Candidates, Budget, Committed;
    var budget := Budget(mode, handshake);
    BudgetWithin(mode, handshake);
    var peers := Candidates(st.words, st.cursor, mode, clock);
    if complete && helloLen != 0 && peers != [] && Peeked(w, budget, stream, helloLen) {
      CandidatesInRange(st.words, st.cursor, mode, clock);
      RoundFromPeek(st, stream, helloLen, mode, handshake, header, w, b, clock);
    }
  }

  /** The attempts themselves, after the hello was peeked. */
  lemma RoundFromPeek(st: State, stream: Bytes, helloLen: nat, mode: Mode, handshake: nat,
                      header: Bytes, w: World, b: Backoff, clock: nat)
    requires st.words != [] && helloLen <= |stream| && helloLen != 0
    requires Candidates(st.words, st.cursor, mode, clock) != [] && Peeked(w, Budget(mode, handshake), stream, helloLen)
    ensures var o := Forward(st, stream, true, helloLen, mode, handshake, header, w, b, clock);
      RoundOutcome(o, header, stream, helloLen, mode, handshake, w.readOk)
  {
    hide TryPeers, Candidates, Budget, Committed;
    var budget := Budget(mode, handshake);
    BudgetWithin(mode, handshake);
    var prefix := header + stream[..helloLen];
    var peers := Candidates(st.words, st.cursor, mode, clock);
    CandidatesInRange(st.words, st.cursor, mode, clock);
    var start := Round(st.words, [], w.peekTook, false);
    var round := TryPeers(start, peers, |peers|, budget, prefix, w.reactions, b, clock);
    var quota := (budget - w.peekTook) / |peers|;
    PeekLeavesQuota(budget, w.peekTook, |peers|);
    RoundIsSafe(start, peers, |peers|, budget, quota, prefix, w.reactions, b, clock);
    var st1 := Advanced(st, mode).(words := round.words,
        replays := st.replays + (if round.tries == [] then 0 else |round.tries| - 1));
    if round.answered {
      CommittedOutcome(st1, round, header, stream, helloLen, w, mode, handshake);
    }
  }

  lemma PeekLeavesQuota(budget: nat, peekTook: nat, count: nat)
    requires peekTook <= budget && count > 0
    ensures budget - peekTook >= ((budget - peekTook) / count) * count
  {
  }

  /** The attempts went to `peers` in order, each with at least `quota` of the time. */
  ghost predicate SharedOut(tries: seq<Try>, peers: seq<nat>, quota: nat) {
    && |tries| <= |peers|
    && (forall i :: 0 <= i < |tries| ==> tries[i].peer == peers[i] && tries[i].share >= quota)
  }

  lemma RoundIsSharedOut(s: Round, peers: seq<nat>, budget: nat, prefix: Bytes, reactions: nat -> Reaction, b: Backoff,
                         clock: nat)
    requires peers != [] && forall i :: 0 <= i < |peers| ==> peers[i] < |s.words|
    requires s.tries == [] && !s.answered && s.elapsed <= budget
    ensures var r := TryPeers(s, peers, |peers|, budget, prefix, reactions, b, clock);
      SharedOut(r.tries, peers, (budget - s.elapsed) / |peers|)
  {
    hide TryPeers, Contained;
    var quota := (budget - s.elapsed) / |peers|;
    PeekLeavesQuota(budget, s.elapsed, |peers|);
    StartContained(s, prefix);
    RoundIsSafe(s, peers, |peers|, budget, quota, prefix, reactions, b, clock);
    RoundFollows(s, peers, |peers|, budget, prefix, reactions, b, clock);
  }

  lemma ConcludedIsSharedOut(st: State, round: Round, stream: Bytes, helloLen: nat, mode: Mode, handshake: nat,
                             header: Bytes, w: World, peers: seq<nat>, quota: nat)
    requires helloLen <= |stream| && SharedOut(round.tries, peers, quota)
    ensures SharedOut(Concluded(st, round, stream, helloLen, mode, handshake, header, w).tries, peers, quota)
  {
  }

  /** However slow the earlier peers were, each attempt of a round has at least an equal part of the
      time there was when the first began. */
  lemma SharesAreFair(st: State, stream: Bytes, complete: bool, helloLen: nat, mode: Mode, handshake: nat,
                      header: Bytes, w: World, b: Backoff, clock: nat)
    requires st.words != []
    ensures var o := Forward(st, stream, complete, helloLen, mode, handshake, header, w, b, clock);
      var peers := Candidates(st.words, st.cursor, mode, clock);
      && (o.tries != [] ==> peers != [] && w.peekTook <= Budget(mode, handshake))
      && (o.tries != [] ==> SharedOut(o.tries, peers, (Budget(mode, handshake) - w.peekTook) / |peers|))
  {
    hide TryPeers, Candidates, Budget, SharedOut, Concluded;
    var budget := Budget(mode, handshake);
    var peers := Candidates(st.words, st.cursor, mode, clock);
    if complete && helloLen != 0 && peers != [] && Peeked(w, budget, stream, helloLen) {
      CandidatesInRange(st.words, st.cursor, mode, clock);
      var start := Round(st.words, [], w.peekTook, false);
      var prefix := header + stream[..helloLen];
      RoundIsSharedOut(start, peers, budget, prefix, w.reactions, b, clock);
      var round := TryPeers(start, peers, |peers|, budget, prefix, w.reactions, b, clock);
      ConcludedIsSharedOut(Advanced(st, mode), round, stream, helloLen, mode, handshake, header, w, peers,
                           (budget - w.peekTook) / |peers|);
    }
  }

  lemma StartContained(s: Round, prefix: Bytes)
    requires s.tries == [] && !s.answered
    ensures Contained(s, prefix)
  {
  }

  lemma CandidatesDistinct(words: seq<nat>, cursor: nat, mode: Mode, now: nat)
    requires words != []
    ensures var c := Candidates(words, cursor, mode, now); forall i, j :: 0 <= i < j < |c| ==> c[i] != c[j]
  {
    if !mode.Spill? {
      CandidatesInTurn(words, cursor, mode, now);
      hide Candidates, Turn;
      var c := Candidates(words, cursor, mode, now);
      forall i, j | 0 <= i < j < |c| ensures c[i] != c[j] {
        assert Turn(c[i], cursor % |words|, |words|) < Turn(c[j], cursor % |words|, |words|);
      }
    }
  }

  /** The counters, exactly: an attempt after the first is a replay; a forward no peer answered is
      either exhausted or a local fallback, and counted once, except that a down route whose hello
      cannot be replayed is not counted at all. */
  lemma ForwardCounts(st: State, stream: Bytes, complete: bool, helloLen: nat, mode: Mode, handshake: nat,
                      header: Bytes, w: World, b: Backoff, clock: nat)
    requires st.words != []
    ensures var o := Forward(st, stream, complete, helloLen, mode, handshake, header, w, b, clock);
      var answered := o.tries != [] && o.tries[|o.tries| - 1].answered;
      && o.state.replays == st.replays + (if o.tries == [] then 0 else |o.tries| - 1)
      && o.state.exhausted == st.exhausted + (if !answered && mode.Down? && complete && helloLen != 0 then 1 else 0)
      && o.state.localFallbacks == st.localFallbacks + (if !answered && !mode.Down? then 1 else 0)
      && (o.result.ServeLocally? <==> !answered && !mode.Down?)
      && (o.state.cursor == st.cursor || o.state.cursor == st.cursor + 1)
  {
    hide TryPeers, Candidates, Budget, Contained, Concluded;
    var budget := Budget(mode, handshake);
    var peers := Candidates(st.words, st.cursor, mode, clock);
    if complete && helloLen != 0 && peers != [] && Peeked(w, budget, stream, helloLen) {
      CandidatesInRange(st.words, st.cursor, mode, clock);
      var start := Round(st.words, [], w.peekTook, false);
      var prefix := header + stream[..helloLen];
      StartContained(start, prefix);
      RoundIsSafe(start, peers, |peers|, budget, 0, prefix, w.reactions, b, clock);
      var round := TryPeers(start, peers, |peers|, budget, prefix, w.reactions, b, clock);
      LastAnswers(round, prefix);
      ConcludedCounts(Advanced(st, mode), round, stream, helloLen, mode, handshake, header, w);
    }
  }

  lemma ConcludedCounts(st: State, round: Round, stream: Bytes, helloLen: nat, mode: Mode, handshake: nat,
                        header: Bytes, w: World)
    requires helloLen <= |stream| && (round.answered <==> round.tries != [] && round.tries[|round.tries| - 1].answered)
    ensures var o := Concluded(st, round, stream, helloLen, mode, handshake, header, w);
      && |o.tries| == |round.tries| && (o.tries != [] ==> o.tries[|o.tries| - 1].answered == round.answered)
      && o.state.replays == st.replays + (if o.tries == [] then 0 else |o.tries| - 1) && o.state.cursor == st.cursor
      && o.state.exhausted == st.exhausted + (if !round.answered && mode.Down? then 1 else 0)
      && o.state.localFallbacks == st.localFallbacks + (if !round.answered && !mode.Down? then 1 else 0)
      && (o.result.ServeLocally? <==> !round.answered && !mode.Down?)
  {
  }

  lemma LastAnswers(r: Round, prefix: Bytes)
    requires Contained(r, prefix)
    ensures r.answered <==> r.tries != [] && r.tries[|r.tries| - 1].answered
  {
  }

  // ---- A connection from decision to local service ----

  /** What is known of a connection when its route is decided, its time limits included. */
  datatype Connection = Connection(ingress: bool, suspended: bool, terminate: bool, requiresCert: bool,
                                   complete: bool, helloLen: nat, handshake: nat, connectTimeout: nat)

  datatype Route = Route(locallyDown: bool, drain: bool, spill: Option<nat>, backoff: Backoff)

  /** The local connect: how long it would take and whether it would succeed. */
  datatype Connect = Connect(took: nat, ok: bool)

  /** How a connection ends here: closed or gone to a peer, or served locally with what is left of
      the handshake timeout. */
  datatype End = Over | Here(left: nat)

  datatype Served = Served(end: End, first: seq<Try>, second: seq<Try>, unread: Bytes, elapsed: nat)

  /** When a connection is refused, forwarded and how: one that came from a peer is refused if and
      only if this node is down or draining, and is never forwarded; a suspended one stays here; being
      down comes before draining, and both before spilling. */
  lemma DecisionIsExact(ingress: bool, suspended: bool, down: bool, drain: bool, spill: Option<nat>)
    ensures var d := Decide(ingress, suspended, down, drain, spill);
      && (d.Refuse? <==> ingress && (down || drain))
      && (d.ToPeers? <==> !ingress && !suspended && (down || drain || spill.Some?))
      && (d.ToPeers? ==> (d.mode.Down? <==> down) && (d.mode.Spill? <==> !down && !drain))
      && (d.ToPeers? && d.mode.Spill? ==> spill == Some(d.mode.target))
  {
  }

  function FirstRound(st: State, c: Connection, route: Route, stream: Bytes, header: Bytes, w: World,
                      clock: nat): (o: Outcome)
    requires st.words != []
    ensures |o.state.words| == |st.words|
  {
    match Decide(c.ingress, c.suspended, route.locallyDown, route.drain, route.spill)
    case Refuse => Outcome(Done(None), [], stream, 0, st)
    case Local => Outcome(ServeLocally(c.handshake), [], stream, 0, st)
    case ToPeers(mode) => Forward(st, stream, c.complete, c.helloLen, mode, c.handshake, header, w, route.backoff,
                                  clock)
  }

  predicate MayUsePeers(c: Connection) { !c.suspended && !c.ingress }

  /** The upstream is connected before the hello is read, so a failure can still go to the peers. */
  predicate ConnectsEarly(c: Connection) {
    !c.terminate || (MayUsePeers(c) && c.complete && !c.requiresCert)
  }

  function ConnectLimit(c: Connection, left: nat): nat {
    if MayUsePeers(c) then Min(c.connectTimeout, left / 2) else c.connectTimeout
  }

  function Serve(st: State, c: Connection, route: Route, stream: Bytes, header: Bytes,
                 w1: World, connect: Connect, w2: World, clock: nat): Served
    requires st.words != []
  {
    var o := FirstRound(st, c, route, stream, header, w1, clock);
    if o.result.Done? then Served(Over, o.tries, [], o.unread, o.elapsed)
    else if !ConnectsEarly(c) then Served(Here(o.result.left), o.tries, [], o.unread, o.elapsed)
    else ConnectOrForward(o, c, route, header, connect, w2, clock)
  }

  function ConnectOrForward(o: Outcome, c: Connection, route: Route, header: Bytes, connect: Connect, w: World,
                            clock: nat): Served
    requires o.result.ServeLocally? && o.state.words != []
  {
    var limit := ConnectLimit(c, o.result.left);
    var took := Min(connect.took, limit);
    var left := if took <= o.result.left then o.result.left - took else 0;
    if connect.ok && connect.took <= limit then Served(Here(left), o.tries, [], o.unread, o.elapsed + took)
    else if !MayUsePeers(c) then Served(Over, o.tries, [], o.unread, o.elapsed + took)
    else
      var p := Forward(o.state, o.unread, c.complete, c.helloLen, Down, left, header, w, route.backoff,
                       clock + o.elapsed + took);
      Served(Over, o.tries, p.tries, p.unread, o.elapsed + took + p.elapsed)
  }

  lemma FirstRoundIsSafe(st: State, c: Connection, route: Route, stream: Bytes, header: Bytes, w: World, clock: nat)
    requires st.words != []
    ensures var o := FirstRound(st, c, route, stream, header, w, clock);
      var prefix := header + stream[..Min(c.helloLen, |stream|)];
      && (c.ingress || c.suspended ==> o.tries == [])
      && o.elapsed <= c.handshake
      && ((NoneAnswered(o.tries, prefix) && o.unread == stream)
          || (OneAnswered(o.tries, prefix, header, stream, o.unread, w.readOk) && o.result.Done?))
      && (o.result.ServeLocally? ==> NoneAnswered(o.tries, prefix) && o.unread == stream)
      && (o.result.ServeLocally? ==> o.result.left + o.elapsed == c.handshake && 2 * o.elapsed <= c.handshake)
  {
    hide Forward, OneAnswered, NoneAnswered, Budget;
    var prefix := header + stream[..Min(c.helloLen, |stream|)];
    match Decide(c.ingress, c.suspended, route.locallyDown, route.drain, route.spill)
    case ToPeers(mode) =>
      ForwardIsSafe(st, stream, c.complete, c.helloLen, mode, c.handshake, header, w, route.backoff, clock);
      BudgetWithin(mode, c.handshake);
      OneOrNone(FirstRound(st, c, route, stream, header, w, clock), header, stream, c.helloLen, w.readOk);
    case _ => NothingTried(prefix);
  }

  lemma NothingTried(prefix: Bytes)
    ensures NoneAnswered([], prefix)
  {
  }

  lemma OneOrNone(o: Outcome, header: Bytes, stream: Bytes, helloLen: nat, readOk: bool)
    ensures var prefix := header + stream[..Min(helloLen, |stream|)];
      !(NoneAnswered(o.tries, prefix) && OneAnswered(o.tries, prefix, header, stream, o.unread, readOk))
  {
    var prefix := header + stream[..Min(helloLen, |stream|)];
    if OneAnswered(o.tries, prefix, header, stream, o.unread, readOk) {
      assert o.tries[|o.tries| - 1].answered;
    }
  }

  /** The whole connection, on every run. Over both rounds at most one attempt is answered, and it
      is the last: that peer holds the header and then exactly what is gone from the client's stream;
      every other peer saw at most part of header and hello. When the connection stays here no peer
      answered and nothing was read. The rounds and the local connect together keep within the
      handshake timeout, and a connection that arrived from a peer is never forwarded again. */
  lemma ConnectionIsSafe(st: State, c: Connection, route: Route, stream: Bytes, header: Bytes,
                         w1: World, connect: Connect, w2: World, clock: nat)
    requires st.words != []
    ensures var s := Serve(st, c, route, stream, header, w1, connect, w2, clock);
      var prefix := header + stream[..Min(c.helloLen, |stream|)];
      && ((NoneAnswered(s.first, prefix) && NoneAnswered(s.second, prefix) && s.unread == stream)
          || (OneAnswered(s.first, prefix, header, stream, s.unread, w1.readOk) && s.second == [] && s.end.Over?)
          || (NoneAnswered(s.first, prefix) && OneAnswered(s.second, prefix, header, stream, s.unread, w2.readOk)
              && s.end.Over?))
      && (s.end.Here? ==> NoneAnswered(s.first, prefix) && s.second == [] && s.unread == stream)
      && (MayUsePeers(c) ==> s.elapsed <= c.handshake)
      && (MayUsePeers(c) && s.end.Here? ==> s.end.left + s.elapsed == c.handshake)
      && (!MayUsePeers(c) ==> s.first == [] && s.second == [] && s.elapsed <= c.connectTimeout)
  {
    hide Forward, FirstRound, OneAnswered, NoneAnswered;
    var o := FirstRound(st, c, route, stream, header, w1, clock);
    FirstRoundIsSafe(st, c, route, stream, header, w1, clock);
    var prefix := header + stream[..Min(c.helloLen, |stream|)];
    NothingTried(prefix);
    if !MayUsePeers(c) { NothingAtFirst(st, c, route, stream, header, w1, clock); }
    if o.result.ServeLocally? && ConnectsEarly(c) && MayUsePeers(c) {
      var took := Min(connect.took, ConnectLimit(c, o.result.left));
      var left := o.result.left - took;
      ForwardIsSafe(o.state, stream, c.complete, c.helloLen, Down, left, header, w2, route.backoff,
                    clock + o.elapsed + took);
    }
  }

  lemma NothingAtFirst(st: State, c: Connection, route: Route, stream: Bytes, header: Bytes, w: World, clock: nat)
    requires st.words != [] && !MayUsePeers(c)
    ensures FirstRound(st, c, route, stream, header, w, clock).elapsed == 0
  {
  }

  /** After a failed local connect, the peers keep at least half of what was left before it, and at
      least a quarter of the whole handshake timeout. */
  lemma PeersKeepHalf(st: State, c: Connection, route: Route, stream: Bytes, header: Bytes, w: World, connect: Connect,
                      clock: nat)
    requires st.words != [] && MayUsePeers(c)
    ensures var o := FirstRound(st, c, route, stream, header, w, clock);
      o.result.ServeLocally? ==>
        var took := Min(connect.took, ConnectLimit(c, o.result.left));
        took <= o.result.left && 2 * (o.result.left - took) >= o.result.left &&
        4 * (o.result.left - took) >= c.handshake
  {
    hide FirstRound, NoneAnswered, OneAnswered;
    FirstRoundIsSafe(st, c, route, stream, header, w, clock);
  }
}
