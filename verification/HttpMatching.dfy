/** The two pumps over whole runs: what the client is sent back, which response answers which request
    and when a tunnel opens. */
module HttpMatching {
  import opened Basics
  import opened Bytes
  import opened HttpHead
  import opened HttpStream
  import opened HttpResponse
  import opened HttpTunnel

  // ---- What the client gets back, and which response answers which request ----

  function Statuses(finals: seq<Final>): (r: seq<nat>)
    ensures |r| == |finals| && forall i :: 0 <= i < |r| ==> r[i] == finals[i].status
  {
    if finals == [] then [] else Statuses(finals[..|finals| - 1]) + [finals[|finals| - 1].status]
  }

  /** The answers still to come out of the upstream stream, for the requests `ms` next in line. */
  function ToCome(st: State, ms: seq<Meta>): seq<nat>
    requires Placed(st)
  {
    match st.response
    case Reading => Answers(st.upstream, ms)
    case Carrying(left, broken) => if broken then [] else Answers(st.upstream[left..], ms)
    case _ => []
  }

  /** What the response pump has done with the upstream stream `u`: sent the client a part of it, byte
      for byte, and matched its final responses to the requests in order, whatever requests `ms` come
      next. */
  ghost predicate Relays(st: State, u: Bytes) {
    Inv(st) && st.back + st.upstream == u && forall ms: seq<Meta> :: InOrder(st, u, ms)
  }

  ghost predicate InOrder(st: State, u: Bytes, ms: seq<Meta>)
    requires Inv(st)
  {
    Statuses(st.finals) + ToCome(st, ms) <= Answers(u, st.metas[..|st.finals|] + ms)
  }

  lemma BackKeeps(st: State, n: nat)
    requires n <= |st.upstream|
    ensures Back(st, n).back + Back(st, n).upstream == st.back + st.upstream
  {
    assert st.back + st.upstream[..n] + st.upstream[n..] == st.back + st.upstream;
  }

  lemma StatusesMore(finals: seq<Final>, f: Final)
    ensures Statuses(finals + [f]) == Statuses(finals) + [f.status]
  {
    assert (finals + [f])[..|finals|] == finals;
  }

  /** The answers after a final head: that one, and then those of the rest of the stream. */
  lemma AnswersStep(u: Bytes, meta: Meta, ms: seq<Meta>)
    requires FrontOf(u).Answer?
    ensures var front := FrontOf(u); var f := FollowingOf(u, front.len, meta, front.status);
      Answers(u, [meta] + ms) ==
        [front.status] + (if f.Carried? && !f.broken then Answers(u[front.len + f.n..], ms) else [])
  {
    hide FrontOf, FollowingOf;
    assert ([meta] + ms)[1..] == ms;
  }

  lemma RespondRelays(st: State, u: Bytes)
    requires Relays(st, u) && st.response.Reading? && Inv(RespondStep(st))
    ensures Relays(RespondStep(st), u)
  {
    var front := FrontOf(st.upstream);
    if front.Answer? && st.queue != [] {
      TakeRelays(st, u);
    } else if front.Passing? {
      PassingRelays(st, u);
    } else {
      EndRelays(st, RespondStep(st), u);
    }
  }

  lemma PassingRelays(st: State, u: Bytes)
    requires Relays(st, u) && st.response.Reading? && FrontOf(st.upstream).Passing? && Inv(RespondStep(st))
    ensures Relays(RespondStep(st), u)
  {
    hide FrontOf;
    BackKeeps(st, FrontOf(st.upstream).len);
    var st' := RespondStep(st);
    forall ms: seq<Meta>
      ensures InOrder(st', u, ms)
    {
      assert InOrder(st, u, ms) && ToCome(st', ms) == ToCome(st, ms);
    }
  }

  /** A response pump that stops, or stays where it is. */
  lemma EndRelays(st: State, st': State, u: Bytes)
    requires Relays(st, u) && Inv(st') && (st' == st || st' == st.(response := Ended))
    ensures Relays(st', u)
  {
    hide Answers;
    if st' != st {
      forall ms: seq<Meta>
        ensures InOrder(st', u, ms)
      {
        assert InOrder(st, u, ms) && ToCome(st', ms) == [];
      }
    }
  }

  lemma TakeRelays(st: State, u: Bytes)
    requires Relays(st, u) && st.response.Reading? && FrontOf(st.upstream).Answer? && st.queue != []
      && Inv(RespondStep(st))
    ensures Relays(RespondStep(st), u)
  {
    hide RespondStep, FrontOf, InOrder;
    TakeShape(st);
    forall ms: seq<Meta> ensures InOrder(RespondStep(st), u, ms) {
      var k := |st.finals|;
      assert st.queue[0] == k;
      assert InOrder(st, u, [st.metas[k]] + ms);
      TakeInOrder(st, RespondStep(st), u, ms);
    }
  }

  lemma TakeInOrder(st: State, st': State, u: Bytes, ms: seq<Meta>)
    requires Inv(st) && Inv(st') && st.response.Reading? && FrontOf(st.upstream).Answer? && |st.finals| < |st.metas|
    requires InOrder(st, u, [st.metas[|st.finals|]] + ms)
    requires st'.metas == st.metas && st'.finals == st.finals + [Final(FrontOf(st.upstream).status, |st.finals|)]
    requires var front := FrontOf(st.upstream);
      var f := FollowingOf(st.upstream, front.len, st.metas[|st.finals|], front.status);
      ToCome(st', ms) == if f.Carried? && !f.broken then Answers(st.upstream[front.len + f.n..], ms) else []
    ensures InOrder(st', u, ms)
  {
    hide FrontOf, FollowingOf, Matched, Placed, Answers, Statuses;
    var front, k := FrontOf(st.upstream), |st.finals|;
    var meta := st.metas[k];
    AnswersStep(st.upstream, meta, ms);
    StatusesMore(st.finals, Final(front.status, k));
    PrefixOf(st.metas, k, ms);
    Assoc(Statuses(st.finals), [front.status], ToCome(st', ms));
    assert ToCome(st, [meta] + ms) == [front.status] + ToCome(st', ms);
  }

  lemma PrefixOf(metas: seq<Meta>, k: nat, ms: seq<Meta>)
    requires k < |metas|
    ensures metas[..k] + ([metas[k]] + ms) == metas[..k + 1] + ms
  {
  }

  /** What taking a final response leaves: the answers to come are those after it. */
  lemma TakeShape(st: State)
    requires Inv(st) && st.response.Reading? && FrontOf(st.upstream).Answer? && st.queue != [] && Inv(RespondStep(st))
    ensures var st' := RespondStep(st); var front, k := FrontOf(st.upstream), |st.finals|;
      && st.queue[0] == k && st'.metas == st.metas && st'.finals == st.finals + [Final(front.status, k)]
      && st'.back + st'.upstream == st.back + st.upstream
      && var f := FollowingOf(st.upstream, front.len, st.metas[k], front.status);
      forall ms :: ToCome(st', ms) ==
        if f.Carried? && !f.broken then Answers(st.upstream[front.len + f.n..], ms) else []
  {
    hide FrontOf, FollowingOf, Answers;
    var front := FrontOf(st.upstream);
    assert st.queue[0] == |st.finals|;
    var f := FollowingOf(st.upstream, front.len, st.metas[|st.finals|], front.status);
    if !f.Refused? { BackKeeps(Take(st, front.status), front.len); }
    if f.Carried? {
      assert st.upstream[front.len..][f.n..] == st.upstream[front.len + f.n..];
    }
  }

  lemma StepRelays(st: State, a: Action, rewrites: seq<HeaderRewrite>, u: Bytes)
    requires Relays(st, u) && Inv(Step(st, a, rewrites))
    ensures Relays(Step(st, a, rewrites), u)
  {
    hide FindBlank, RewriteHead, FramingOf, MetaOf, CopyOf, RespondStep, AnnounceStep, Answers;
    match a {
      case Respond => if st.response.Reading? { RespondRelays(st, u); }
      case EndResponses => EndRelays(st, Step(st, a, rewrites), u);
      case CarryBack(n) =>
        if st.response.Carrying? && n <= st.response.left && n <= |st.upstream| { CarryRelays(st, n, rewrites, u); }
      case RelayBack(n) =>
        if st.response.Relaying? && n <= |st.upstream| { RelayRelays(st, n, rewrites, u); }
      case _ =>
        AnnounceCases(st, rewrites);
        RequestRelays(st, Step(st, a, rewrites), u);
    }
  }

  /** Nothing the request pump does touches what was matched. */
  lemma RequestRelays(st: State, st': State, u: Bytes)
    requires Relays(st, u) && Inv(st') && st.metas <= st'.metas && st'.finals == st.finals
    requires st'.upstream == st.upstream && st'.back == st.back && st'.response == st.response
    ensures Relays(st', u)
  {
    hide Answers;
    forall ms: seq<Meta>
      ensures InOrder(st', u, ms)
    {
      assert st'.metas[..|st.finals|] == st.metas[..|st.finals|];
      assert InOrder(st, u, ms) && ToCome(st', ms) == ToCome(st, ms);
    }
  }

  lemma CarryRelays(st: State, n: nat, rewrites: seq<HeaderRewrite>, u: Bytes)
    requires Relays(st, u) && st.response.Carrying? && n <= st.response.left && n <= |st.upstream|
    requires Inv(Step(st, CarryBack(n), rewrites))
    ensures Relays(Step(st, CarryBack(n), rewrites), u)
  {
    hide Answers;
    BackKeeps(st, n);
    var st' := Step(st, CarryBack(n), rewrites);
    var left := st.response.left;
    assert st.upstream[n..][left - n..] == st.upstream[left..];
    forall ms: seq<Meta>
      ensures InOrder(st', u, ms)
    {
      assert left == n ==> st.upstream[n..] == st.upstream[left..];
      assert InOrder(st, u, ms) && ToCome(st', ms) == ToCome(st, ms);
    }
  }

  lemma RelayRelays(st: State, n: nat, rewrites: seq<HeaderRewrite>, u: Bytes)
    requires Relays(st, u) && st.response.Relaying? && n <= |st.upstream| && Inv(Step(st, RelayBack(n), rewrites))
    ensures Relays(Step(st, RelayBack(n), rewrites), u)
  {
    hide Answers;
    BackKeeps(st, n);
    var st' := Step(st, RelayBack(n), rewrites);
    forall ms: seq<Meta>
      ensures InOrder(st', u, ms)
    {
      assert InOrder(st, u, ms) && ToCome(st', ms) == [] == ToCome(st, ms);
    }
  }

  lemma {:induction false} RunRelays(s: Bytes, u: Bytes, actions: seq<Action>, rewrites: seq<HeaderRewrite>)
    ensures Relays(Run(s, u, actions, rewrites), u)
    decreases |actions|
  {
    hide Step, Inv, Relays, Start;
    if actions == [] {
      StartRelays(s, u);
    } else {
      var init := actions[..|actions| - 1];
      RunRelays(s, u, init, rewrites);
      StepKeepsInv(Run(s, u, init, rewrites), actions[|actions| - 1], rewrites);
      StepRelays(Run(s, u, init, rewrites), actions[|actions| - 1], rewrites, u);
    }
  }

  lemma StartRelays(s: Bytes, u: Bytes)
    ensures Relays(Start(s, u), u)
  {
    hide Answers;
    var st := Start(s, u);
    assert [] + u == u;
    forall ms: seq<Meta> ensures InOrder(st, u, ms) {
      assert st.metas[..0] + ms == ms;
      assert Statuses(st.finals) + ToCome(st, ms) == ToCome(st, ms);
    }
  }

  /** In every interleaving the client has been sent exactly the beginning of the upstream stream, and
      the k-th final response of that stream, framed as responses are, has answered the k-th request. */
  lemma ResponsesMatchRequests(s: Bytes, u: Bytes, actions: seq<Action>, rewrites: seq<HeaderRewrite>)
    ensures var st := Run(s, u, actions, rewrites);
      && st.back + st.upstream == u
      && Statuses(st.finals) <= Answers(u, st.metas)
      && (forall i :: 0 <= i < |st.finals| ==> st.finals[i].request == i < |st.metas|)
  {
    hide Run, Answers;
    RunRelays(s, u, actions, rewrites);
    var st := Run(s, u, actions, rewrites);
    var ms := st.metas[|st.finals|..];
    assert st.metas[..|st.finals|] + ms == st.metas;
    assert InOrder(st, u, ms);
  }

  /** Tunnel gating. In every interleaving, what has been sent upstream is the beginning of what the
      sequential rewriter sends for the verdicts given so far. That rewriter goes raw only behind a
      request whose own answer, the final response of the upstream stream in the same place, opened
      the tunnel: 101 for an upgrade, 2xx for CONNECT. */
  lemma TunnelGating(s: Bytes, u: Bytes, actions: seq<Action>, rewrites: seq<HeaderRewrite>)
    ensures var st := Run(s, u, actions, rewrites); var p := Pump(s, rewrites, Verdicts(st), 0, [], []);
      && st.out <= p.out && st.metas <= p.metas
      && (p.end.Tunnelled? ==>
            var k := |p.metas| - 1;
            && p.metas == st.metas && 0 <= k < |Answers(u, st.metas)|
            && var status := Answers(u, st.metas)[k];
               (st.metas[k].upgrade && status == 101) || (st.metas[k].connect && 200 <= status <= 299))
      && (st.request.InTunnel? ==> p.end.Tunnelled?)
  {
    hide Pump, Run, Answers;
    var st := Run(s, u, actions, rewrites);
    var reply := Verdicts(st);
    assert Consistent(st, reply);
    RunRefinesPump(s, u, actions, rewrites, reply);
    ResumeExtends(st, rewrites, reply);
    ResponsesMatchRequests(s, u, actions, rewrites);
    var p := Pump(s, rewrites, reply, 0, [], []);
    if p.end.Tunnelled? {
      TunnelIsAccepted(s, rewrites, reply, [], []);
    }
  }

  /** Nothing is read from the client or sent upstream while a verdict is outstanding. */
  lemma NothingWhileWaiting(st: State, a: Action, rewrites: seq<HeaderRewrite>)
    requires Inv(st) && Waiting(st)
    ensures var st' := Step(st, a, rewrites);
      && st'.out == st.out && st'.client == st.client && st'.metas == st.metas
      && st'.request == st.request && st'.broken == st.broken
  {
    hide FrontOf, FollowingOf, RespondStep;
    StepLearns(st, a, rewrites);
    if a.Respond? && st.response.Reading? { RespondLearns(st); }
    if a.CopySome? && a.n == 0 {
      assert st.out + st.client[..0] == st.out && st.client[0..] == st.client;
    }
  }

  /** The last request is through, is a tunnel candidate and has no verdict. */
  predicate Waiting(st: State) {
    st.request == Copying(0, AwaitVerdict) && |st.metas| - 1 !in st.replies
  }

  /** Once the request pump is done, whatever the interleaving was, it has sent, announced and ended
      exactly as the sequential pump for the verdicts given; one that broke off has sent and announced
      a beginning of that. */
  lemma FinishedRun(s: Bytes, u: Bytes, actions: seq<Action>, rewrites: seq<HeaderRewrite>)
    ensures var st := Run(s, u, actions, rewrites);
      var p := Pump(s, rewrites, Verdicts(st), 0, [], []);
      && (st.request.Done? ==> Pumped(st.out, st.metas, st.request.end) == p)
      && (st.broken ==> !st.request.Done? && st.out <= p.out && st.metas <= p.metas)
  {
    var st := Run(s, u, actions, rewrites);
    assert Consistent(st, Verdicts(st));
    hide Pump, Step, Run;
    RunRefinesPump(s, u, actions, rewrites, Verdicts(st));
    ResumeExtends(st, rewrites, Verdicts(st));
  }
}
