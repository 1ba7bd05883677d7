/** What the response pump does with each response, and that it gets to every answer there is. */
module HttpProgress {
  import opened Bytes
  import opened HttpHead
  import opened HttpStream
  import opened HttpResponse
  import opened HttpTunnel
  import opened HttpMatching
  import opened HttpStuck

  /** The request `k` has got its answer: the verdict if it asked for a tunnel, and nobody else's. */
  ghost predicate Answered(st: State, st': State, k: nat, status: nat)
    requires k < |st.metas| && st.queue != []
  {
    var opens := (st.metas[k].upgrade && status == 101) || (st.metas[k].connect && 200 <= status <= 299);
    && st'.finals == st.finals + [Final(status, k)] && st'.queue == st.queue[1..] && st'.metas == st.metas
    && (forall j :: j != k ==> (j in st'.replies <==> j in st.replies))
    && (forall j :: j != k && j in st.replies && j in st'.replies ==> st'.replies[j] == st.replies[j])
    && (k in st'.replies <==> st.metas[k].upgrade || st.metas[k].connect)
    && (k in st'.replies ==> st'.replies[k] == if opens then Accepted else Declined)
    && st'.client == st.client && st'.out == st.out && st'.request == st.request && st'.broken == st.broken
  }

  /** The head goes back, and the pump is set to carry what follows it; a refused head stays. */
  ghost predicate Followed(st: State, st': State, len: nat, f: Following)
    requires len <= |st.upstream|
  {
    match f
    case Refused => st'.back == st.back && st'.upstream == st.upstream && st'.response.Ended?
    case Raw => st'.back == st.back + st.upstream[..len] && st'.upstream == st.upstream[len..] && st'.response.Relaying?
    case Carried(n, broken) =>
      && st'.back == st.back + st.upstream[..len] && st'.upstream == st.upstream[len..]
      && st'.response == if n > 0 then Carrying(n, broken) else if broken then Ended else Reading
  }

  /** One response, exactly. An interim head only passes. A final one waits for a request to answer, and
      when none can come the pump ends without it; else the oldest request is answered. */
  lemma RespondIsExact(st: State)
    requires Inv(st)
    ensures var st', front, k := RespondStep(st), FrontOf(st.upstream), |st.finals|;
      && (front.Closes? || front.Unreadable? ==> st' == st.(response := Ended))
      && (front.Passing? ==>
            st' == st.(back := st.back + st.upstream[..front.len], upstream := st.upstream[front.len..]))
      && (front.Answer? && k == |st.metas| ==>
            st' == st.(response := if st.broken || st.request.Done? then Ended else st.response))
      && (front.Answer? && k < |st.metas| ==>
            && Answered(st, st', k, front.status)
            && Followed(st, st', front.len, FollowingOf(st.upstream, front.len, st.metas[k], front.status)))
  {
    hide FrontOf, FollowingOf, Placed;
    if FrontOf(st.upstream).Answer? && |st.finals| < |st.metas| {
      TakeIsExact(st);
      hide Take, Answered;
    }
  }

  lemma TakeIsExact(st: State)
    requires Inv(st) && FrontOf(st.upstream).Answer? && |st.finals| < |st.metas|
    ensures var k := |st.finals|; var taken := Take(st, FrontOf(st.upstream).status);
      && st.queue != [] && st.queue[0] == k && Answered(st, taken, k, FrontOf(st.upstream).status)
      && taken.back == st.back && taken.upstream == st.upstream
      && (forall st': State :: st' == taken.(back := st'.back, upstream := st'.upstream, response := st'.response) ==>
            Answered(st, st', k, FrontOf(st.upstream).status))
  {
    hide FrontOf, Placed;
    var k := |st.finals|;
    assert st.queue[0] == k && k !in st.replies;
    OpensExactly(st.metas[k], FrontOf(st.upstream).status);
    hide Opens;
  }

  lemma OpensExactly(meta: Meta, status: nat)
    ensures Opens(meta, status) <==> (meta.upgrade && status == 101) || (meta.connect && 200 <= status <= 299)
    ensures meta.TunnelCandidate() <==> meta.upgrade || meta.connect
  {
  }

  // ---- Every answer can be had ----

  /** The next step towards the next answer. */
  lemma StepNearer(st: State, rewrites: seq<HeaderRewrite>)
    requires Inv(st) && Left(st) != []
    ensures var st' := Step(st, Nearer(st), rewrites);
      && Inv(st') && st'.request == st.request && st'.metas == st.metas
      && Statuses(st'.finals) + Left(st') == Statuses(st.finals) + Left(st)
      && |st'.upstream| <= |st.upstream| && |st'.finals| >= |st.finals|
      && (|st'.upstream| < |st.upstream| || Left(st') == [])
  {
    hide FrontOf, FollowingOf, Answers, RespondStep;
    StepKeepsInv(st, Nearer(st), rewrites);
    if st.response.Carrying? {
      NearerCarries(st, rewrites);
    } else {
      assert st.response.Reading?;
      NearerResponds(st);
    }
  }

  lemma NearerCarries(st: State, rewrites: seq<HeaderRewrite>)
    requires Inv(st) && st.response.Carrying? && !st.response.broken
    requires Inv(Step(st, CarryBack(st.response.left), rewrites))
    ensures var st' := Step(st, CarryBack(st.response.left), rewrites);
      && |st'.upstream| < |st.upstream| && st'.metas == st.metas && st'.finals == st.finals
      && st'.request == st.request && Left(st') == Left(st)
  {
    hide Answers, Matched;
    var st' := Step(st, CarryBack(st.response.left), rewrites);
    assert st.upstream[st.response.left..] == st'.upstream;
  }

  lemma NearerResponds(st: State)
    requires Inv(st) && st.response.Reading? && Left(st) != [] && Inv(RespondStep(st))
    ensures var st' := RespondStep(st);
      && st'.metas == st.metas && st'.request == st.request
      && Statuses(st'.finals) + Left(st') == Statuses(st.finals) + Left(st)
      && |st'.upstream| <= |st.upstream| && |st'.finals| >= |st.finals|
      && (|st'.upstream| < |st.upstream| || Left(st') == [])
  {
    hide FollowingOf, FrontOf, Matched, Placed, RespondStep, Left, Answers;
    QueueIsRest(st);
    LeftNeedsRequest(st);
    RespondIsExact(st);
    if FrontOf(st.upstream).Passing? { PassingLeft(st); } else { AnswersNext(st); }
  }

  lemma AnswersNext(st: State)
    requires Inv(st) && st.response.Reading? && FrontOf(st.upstream).Answer? && st.queue != [] && Inv(RespondStep(st))
    requires |st.finals| < |st.metas|
    ensures var st' := RespondStep(st);
      && |st'.finals| == |st.finals| + 1 && Statuses(st'.finals) + Left(st') == Statuses(st.finals) + Left(st)
      && |st'.upstream| <= |st.upstream| && (|st'.upstream| < |st.upstream| || Left(st') == [])
  {
    hide FollowingOf, FrontOf, Matched, Placed, RespondStep, Left, Answers;
    QueueIsRest(st);
    var front, st' := FrontOf(st.upstream), RespondStep(st);
    RespondIsExact(st);
    TakeLeft(st);
    StatusesMore(st.finals, Final(front.status, |st.finals|));
    assert Statuses(st.finals) + [front.status] + Left(st') == Statuses(st.finals) + ([front.status] + Left(st'));
    EndedHasNone(st');
  }

  lemma EndedHasNone(st: State)
    requires Inv(st)
    ensures st.response.Ended? ==> Left(st) == []
  {
  }

  lemma LeftNeedsRequest(st: State)
    requires Inv(st) && st.response.Reading? && Left(st) != []
    ensures (FrontOf(st.upstream).Passing? || FrontOf(st.upstream).Answer?) && |st.finals| < |st.metas|
      && st.queue != []
  {
    hide FrontOf, FollowingOf;
    LeftIsQueued(st);
  }

  /** From anywhere in any run, the response pump can go on to every answer still to come. */
  lemma {:induction false} LeftComes(st: State, rewrites: seq<HeaderRewrite>) returns (actions: seq<Action>)
    requires Inv(st)
    ensures var r := RunFrom(st, actions, rewrites);
      r.request == st.request && r.metas == st.metas && Statuses(r.finals) == Statuses(st.finals) + Left(st)
    decreases |st.upstream| + |Left(st)|
  {
    hide Step, Inv, Left;
    if Left(st) == [] {
      actions := [];
      assert Statuses(st.finals) + [] == Statuses(st.finals);
    } else {
      StepNearer(st, rewrites);
      var st' := Step(st, Nearer(st), rewrites);
      SameTotal(st, st');
      var rest := LeftComes(st', rewrites);
      actions := [Nearer(st)] + rest;
      RunFromCons(st, Nearer(st), rest, rewrites);
    }
  }

  lemma SameTotal(st: State, st': State)
    requires Inv(st) && Inv(st') && Left(st) != [] && Statuses(st'.finals) + Left(st') == Statuses(st.finals) + Left(st)
    requires |st'.upstream| < |st.upstream| || Left(st') == []
    requires |st'.upstream| <= |st.upstream| && |st'.finals| >= |st.finals|
    ensures |st'.upstream| + |Left(st')| < |st.upstream| + |Left(st)|
  {
    hide Left;
    assert |Statuses(st'.finals) + Left(st')| == |Statuses(st.finals) + Left(st)|;
  }

  // ---- And those are all ----

  /** No request can come any more, and all that came are answered. */
  ghost predicate AllServed(st: State) {
    st.response.Ended? && |st.finals| == |st.metas| && (st.request.Done? || st.broken)
  }

  ghost predicate AllAnswers(st: State, u: Bytes, ms: seq<Meta>)
    requires Inv(st)
  {
    Statuses(st.finals) + ToCome(st, ms) == Answers(u, st.metas[..|st.finals|] + ms)
  }

  /** Whatever requests come next, what has been answered and what can still be is all there is. */
  ghost predicate Exact(st: State, u: Bytes) {
    Inv(st) && (AllServed(st) || forall ms: seq<Meta> :: AllAnswers(st, u, ms))
  }

  /** The step leaves the matched requests and the answers to come as they are. */
  lemma SameToCome(st: State, st': State, u: Bytes)
    requires Inv(st) && Inv(st') && (forall ms: seq<Meta> :: AllAnswers(st, u, ms))
    requires st'.finals == st.finals && st.metas <= st'.metas
      && (forall ms: seq<Meta> :: ToCome(st', ms) == ToCome(st, ms))
    ensures Exact(st', u)
  {
    hide Answers, ToCome, Inv;
    QueueIsRest(st);
    forall ms: seq<Meta> ensures AllAnswers(st', u, ms) {
      assert st'.metas[..|st.finals|] == st.metas[..|st.finals|];
      assert AllAnswers(st, u, ms);
    }
  }

  lemma TakesExactly(st: State, u: Bytes)
    requires Inv(st) && st.response.Reading? && FrontOf(st.upstream).Answer? && st.queue != [] && Inv(RespondStep(st))
    requires forall ms: seq<Meta> :: AllAnswers(st, u, ms)
    ensures Exact(RespondStep(st), u)
  {
    hide RespondStep, FrontOf, FollowingOf, Answers, AllAnswers, Matched, Placed, ToCome;
    QueueIsRest(st);
    TakeShape(st);
    forall ms: seq<Meta> ensures AllAnswers(RespondStep(st), u, ms) {
      assert AllAnswers(st, u, [st.metas[|st.finals|]] + ms);
      NextExactly(st, RespondStep(st), u, ms);
    }
  }

  lemma NextExactly(st: State, st': State, u: Bytes, ms: seq<Meta>)
    requires Inv(st) && Inv(st') && st.response.Reading? && FrontOf(st.upstream).Answer? && |st.finals| < |st.metas|
    requires AllAnswers(st, u, [st.metas[|st.finals|]] + ms)
    requires st'.metas == st.metas && st'.finals == st.finals + [Final(FrontOf(st.upstream).status, |st.finals|)]
    requires var front := FrontOf(st.upstream);
      var f := FollowingOf(st.upstream, front.len, st.metas[|st.finals|], front.status);
      ToCome(st', ms) == if f.Carried? && !f.broken then Answers(st.upstream[front.len + f.n..], ms) else []
    ensures AllAnswers(st', u, ms)
  {
    hide FrontOf, FollowingOf, Matched, Placed, Answers, Statuses;
    var front, k := FrontOf(st.upstream), |st.finals|;
    AnswersStep(st.upstream, st.metas[k], ms);
    StatusesMore(st.finals, Final(front.status, k));
    PrefixOf(st.metas, k, ms);
    assert ToCome(st, [st.metas[k]] + ms) == [front.status] + ToCome(st', ms);
    assert Statuses(st.finals) + [front.status] + ToCome(st', ms)
      == Statuses(st.finals) + ([front.status] + ToCome(st', ms));
  }

  lemma RespondsExactly(st: State, u: Bytes)
    requires Exact(st, u) && st.response.Reading? && Inv(RespondStep(st))
    ensures Exact(RespondStep(st), u)
  {
    hide FrontOf, FollowingOf, Answers, AllAnswers, Matched, Placed, RespondStep;
    QueueIsRest(st);
    RespondIsExact(st);
    var st', front := RespondStep(st), FrontOf(st.upstream);
    assert !AllServed(st);
    if front.Answer? && |st.finals| < |st.metas| {
      TakesExactly(st, u);
    } else if !front.Answer? {
      forall ms: seq<Meta> ensures ToCome(st', ms) == ToCome(st, ms) { FrontDecides(st.upstream, ms); }
      SameToCome(st, st', u);
    }
  }

  lemma QueueIsRest(st: State)
    requires Inv(st)
    ensures Queued(st) && |st.finals| <= |st.metas| && (st.queue == [] <==> |st.finals| == |st.metas|)
  {
  }

  lemma FrontDecides(u: Bytes, ms: seq<Meta>)
    ensures FrontOf(u).Passing? ==> Answers(u, ms) == Answers(u[FrontOf(u).len..], ms)
    ensures FrontOf(u).Closes? || FrontOf(u).Unreadable? ==> Answers(u, ms) == []
  {
    hide FrontOf, FollowingOf;
  }

  lemma StepIsExact(st: State, a: Action, rewrites: seq<HeaderRewrite>, u: Bytes)
    requires Exact(st, u) && !a.EndResponses? && Inv(Step(st, a, rewrites))
    ensures Exact(Step(st, a, rewrites), u)
  {
    hide RespondStep, Answers, AllAnswers, Statuses, Matched, Placed;
    var st' := Step(st, a, rewrites);
    match a {
      case Respond => if st.response.Reading? { RespondsExactly(st, u); }
      case CarryBack(n) =>
        if st.response.Carrying? && n <= st.response.left && n <= |st.upstream| {
          CarriesExactly(st, n, rewrites);
          SameToCome(st, st', u);
        }
      case RelayBack(n) => if !AllServed(st) { SameToCome(st, st', u); }
      case _ => RequestsExactly(st, a, rewrites, u);
    }
  }

  lemma CarriesExactly(st: State, n: nat, rewrites: seq<HeaderRewrite>)
    requires Inv(st) && st.response.Carrying? && n <= st.response.left && n <= |st.upstream|
    requires Inv(Step(st, CarryBack(n), rewrites))
    ensures var st' := Step(st, CarryBack(n), rewrites); forall ms :: ToCome(st', ms) == ToCome(st, ms)
  {
    hide Answers;
    var left := st.response.left;
    assert st.upstream[n..][left - n..] == st.upstream[left..];
    assert left == n ==> st.upstream[n..] == st.upstream[left..];
  }

  lemma RequestsExactly(st: State, a: Action, rewrites: seq<HeaderRewrite>, u: Bytes)
    requires Exact(st, u) && Inv(Step(st, a, rewrites))
    requires !a.Respond? && !a.CarryBack? && !a.RelayBack? && !a.EndResponses?
    ensures Exact(Step(st, a, rewrites), u)
  {
    hide FindBlank, RewriteHead, FramingOf, MetaOf, CopyOf, AnnounceStep, Answers, AllAnswers, Statuses;
    AnnounceCases(st, rewrites);
    var st' := Step(st, a, rewrites);
    if AllServed(st) { assert st' == st || (st'.request == st.request && st'.metas == st.metas); }
    else { SameToCome(st, st', u); }
  }

  /** Over every run in which the response pump is not stopped from outside, what it has matched and what it
      can still match are all the answers the upstream stream has for the requests announced. */
  lemma {:induction false} RunIsExact(s: Bytes, u: Bytes, actions: seq<Action>, rewrites: seq<HeaderRewrite>)
    requires forall i :: 0 <= i < |actions| ==> !actions[i].EndResponses?
    ensures Exact(Run(s, u, actions, rewrites), u)
    decreases |actions|
  {
    hide Step, Inv, Exact, Start;
    if actions == [] {
      StartsExactly(s, u);
    } else {
      var init := actions[..|actions| - 1];
      RunIsExact(s, u, init, rewrites);
      ExactIsInv(Run(s, u, init, rewrites), u);
      StepKeepsInv(Run(s, u, init, rewrites), actions[|actions| - 1], rewrites);
      StepIsExact(Run(s, u, init, rewrites), actions[|actions| - 1], rewrites, u);
    }
  }

  lemma ExactIsInv(st: State, u: Bytes)
    requires Exact(st, u)
    ensures Inv(st)
  {
  }

  lemma StartsExactly(s: Bytes, u: Bytes)
    ensures Exact(Start(s, u), u)
  {
    hide Answers;
    var st := Start(s, u);
    forall ms: seq<Meta> ensures AllAnswers(st, u, ms) {
      assert st.metas[..0] + ms == ms;
      assert Statuses(st.finals) + ToCome(st, ms) == ToCome(st, ms);
    }
  }

  /** So any such run can be continued until every answer of the upstream stream has gone to its request. */
  lemma AllAnswersCome(s: Bytes, u: Bytes, actions: seq<Action>, rewrites: seq<HeaderRewrite>)
    returns (more: seq<Action>)
    requires forall i :: 0 <= i < |actions| ==> !actions[i].EndResponses?
    ensures Inv(Run(s, u, actions, rewrites))
    ensures var st := Run(s, u, actions, rewrites); var r := RunFrom(st, more, rewrites);
      r.metas == st.metas && Statuses(r.finals) == Answers(u, st.metas)
  {
    hide Step, Answers;
    RunIsExact(s, u, actions, rewrites);
    ResponsesMatchRequests(s, u, actions, rewrites);
    var st := Run(s, u, actions, rewrites);
    hide Run, Inv;
    more := LeftComes(st, rewrites);
    hide Left;
    if AllServed(st) {
      EndedHasNone(st);
      assert |Answers(u, st.metas)| <= |Statuses(st.finals)|;
      assert Statuses(st.finals) == Answers(u, st.metas);
    } else {
      NothingLeftOut(st, u);
    }
  }

  lemma NothingLeftOut(st: State, u: Bytes)
    requires Exact(st, u) && !AllServed(st)
    ensures Statuses(st.finals) + Left(st) == Answers(u, st.metas)
  {
    hide Answers, ToCome;
    var ms := st.metas[|st.finals|..];
    assert st.metas[..|st.finals|] + ms == st.metas;
    assert AllAnswers(st, u, ms);
  }

  // ---- The request pump ----

  /** What the request pump has to do before it reads from the client again. */
  function Rank(r: RequestPump): nat {
    match r
    case Announced(_, _) => 3
    case Copying(left, _) => if left > 0 then 2 else 1
    case _ => 0
  }

  /** Its next step, when it does not wait. */
  lemma NextStep(st: State, rewrites: seq<HeaderRewrite>) returns (a: Action)
    requires Inv(st) && !st.request.Done? && !st.broken && !Waiting(st)
    ensures var st' := Step(st, a, rewrites);
      && Inv(st') && !st'.broken
      && (st'.request.Done? || |st'.client| < |st.client|
          || (|st'.client| == |st.client| && Rank(st'.request) < Rank(st.request)))
  {
    hide RewriteHead, FramingOf, MetaOf, CopyOf, Opens, Matched, FindBlank;
    match st.request {
      case Parsing => a := Announce;
      case Announced(_, _) => a := WriteHead;
      case Copying(left, _) => a := if left > 0 then CopySome(left) else Proceed;
      case InTunnel => a := CopyRaw(|st.client|);
    }
    StepKeepsInv(st, a, rewrites);
  }

  /** From anywhere in any run, unless it has broken off, the request pump can go on until it is done or waits
      for an answer that the upstream stream does not have. */
  lemma {:induction false} PumpFinishes(st: State, rewrites: seq<HeaderRewrite>) returns (actions: seq<Action>)
    requires Inv(st) && !st.broken
    ensures var r := RunFrom(st, actions, rewrites); !r.broken && (r.request.Done? || Stuck(r))
    decreases |st.client|, Rank(st.request)
  {
    hide Step, Stuck, Inv;
    actions := [];
    if !st.request.Done? && !Stuck(st) {
      var waited: seq<Action> := [];
      if Waiting(st) { waited := AnswerComes(st, rewrites); }
      var r := RunFrom(st, waited, rewrites);
      var a := NextStep(r, rewrites);
      var next := Step(r, a, rewrites);
      var rest: seq<Action> := [];
      if !next.request.Done? { rest := PumpFinishes(next, rewrites); }
      actions := waited + ([a] + rest);
      RunFromCons(r, a, rest, rewrites);
      RunFromJoin(st, waited, [a] + rest, rewrites);
    }
  }

  lemma {:induction false} RunFromJoin(st: State, a: seq<Action>, b: seq<Action>, rewrites: seq<HeaderRewrite>)
    requires Inv(st)
    ensures RunFrom(st, a + b, rewrites) == RunFrom(RunFrom(st, a, rewrites), b, rewrites)
    decreases |a|
  {
    hide Step, Inv;
    if a == [] {
      assert a + b == b;
    } else {
      StepKeepsInv(st, a[0], rewrites);
      assert (a + b)[1..] == a[1..] + b;
      RunFromJoin(Step(st, a[0], rewrites), a[1..], b, rewrites);
    }
  }

  /** So there is an interleaving in which the request pump does all that the sequential pump does for the
      verdicts it gets, unless it gets stuck. */
  lemma RunCanFinish(s: Bytes, u: Bytes, rewrites: seq<HeaderRewrite>) returns (actions: seq<Action>)
    ensures Inv(Start(s, u))
    ensures var r := RunFrom(Start(s, u), actions, rewrites); !r.broken && (r.request.Done? || Stuck(r))
  {
    hide Stuck, Step;
    actions := PumpFinishes(Start(s, u), rewrites);
  }

  /** A failed read or write, or a limit met, takes the request pump down wherever it reads or writes, and
      only there; nothing else changes. */
  lemma BreakIsExact(st: State, rewrites: seq<HeaderRewrite>)
    requires Inv(st)
    ensures Step(st, Break, rewrites) == st.(broken := match st.request
                                                       case Done(_) => false
                                                       case Copying(left, _) => left != 0
                                                       case _ => true)
  {
  }
}
