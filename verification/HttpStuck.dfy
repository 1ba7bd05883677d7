/** When the request pump can never go on: it waits for a verdict that no response of the upstream
    stream will give. */
module HttpStuck {
  import opened Wrappers
  import opened Bytes
  import opened HttpHead
  import opened HttpHeadLaws
  import opened HttpStream
  import opened HttpResponse
  import opened HttpReframing
  import opened HttpTunnel
  import opened HttpMatching

  function RunFrom(st: State, actions: seq<Action>, rewrites: seq<HeaderRewrite>): (r: State)
    requires Inv(st)
    ensures Inv(r)
    decreases |actions|
  {
    if actions == [] then st
    else
      StepKeepsInv(st, actions[0], rewrites);
      RunFrom(Step(st, actions[0], rewrites), actions[1..], rewrites)
  }

  /** The answers the upstream stream still holds for the requests in the queue. */
  function Left(st: State): seq<nat>
    requires Inv(st)
  {
    ToCome(st, st.metas[|st.finals|..])
  }

  /** Waiting for the verdict of the last request, when the upstream stream holds no answer to it: it
      has closed, broken off or gone raw before, or says nothing more. */
  predicate Stuck(st: State)
    requires Inv(st)
  {
    Waiting(st) && |st.finals| + |Left(st)| < |st.metas|
  }

  lemma TakeLeft(st: State)
    requires Inv(st) && st.response.Reading? && FrontOf(st.upstream).Answer? && st.queue != [] && Inv(RespondStep(st))
    ensures var st' := RespondStep(st);
      |st'.finals| == |st.finals| + 1 && st'.metas == st.metas && Left(st) == [FrontOf(st.upstream).status] + Left(st')
  {
    hide RespondStep, FrontOf, FollowingOf, Answers;
    TakeShape(st);
    var k := |st.finals|;
    var ms := st.metas[k + 1..];
    assert st.metas[k..] == [st.metas[k]] + ms;
    AnswersStep(st.upstream, st.metas[k], ms);
  }

  lemma PassingLeft(st: State)
    requires Inv(st) && st.response.Reading? && FrontOf(st.upstream).Passing? && Inv(RespondStep(st))
    ensures var st' := RespondStep(st); st'.finals == st.finals && st'.metas == st.metas && Left(st') == Left(st)
  {
    hide FrontOf;
  }

  /** What is answered and what can still be answered together never grow while the pump waits. */
  lemma LeftNeverGrows(st: State, a: Action, rewrites: seq<HeaderRewrite>)
    requires Inv(st) && Waiting(st) && Inv(Step(st, a, rewrites))
    ensures var st' := Step(st, a, rewrites);
      st'.metas == st.metas && |st'.finals| + |Left(st')| <= |st.finals| + |Left(st)|
  {
    hide RespondStep, FrontOf, FollowingOf, Answers;
    NothingWhileWaiting(st, a, rewrites);
    match a {
      case Respond => if st.response.Reading? { RespondLeft(st); }
      case CarryBack(n) =>
        if st.response.Carrying? && n <= st.response.left && n <= |st.upstream| {
          assert st.upstream[n..][st.response.left - n..] == st.upstream[st.response.left..];
        }
      case _ =>
    }
  }

  lemma RespondLeft(st: State)
    requires Inv(st) && st.response.Reading? && Inv(RespondStep(st))
    ensures var st' := RespondStep(st); st'.metas == st.metas && |st'.finals| + |Left(st')| <= |st.finals| + |Left(st)|
  {
    var front := FrontOf(st.upstream);
    if front.Answer? && st.queue != [] {
      TakeLeft(st);
    } else if front.Passing? {
      PassingLeft(st);
    }
  }

  lemma StuckStays(st: State, a: Action, rewrites: seq<HeaderRewrite>)
    requires Inv(st) && Stuck(st) && Inv(Step(st, a, rewrites))
    ensures var st' := Step(st, a, rewrites); st'.request == st.request && Stuck(st')
  {
    hide RespondStep, FrontOf, FollowingOf, Answers, ToCome;
    NothingWhileWaiting(st, a, rewrites);
    LeftNeverGrows(st, a, rewrites);
    hide Step;
    var st' := Step(st, a, rewrites);
    assert |st'.metas| - 1 !in st'.replies;
  }

  lemma {:induction false} StuckForever(st: State, actions: seq<Action>, rewrites: seq<HeaderRewrite>)
    requires Inv(st) && Stuck(st)
    ensures RunFrom(st, actions, rewrites).request == st.request
    decreases |actions|
  {
    hide Step, Stuck, Inv;
    if actions != [] {
      StepKeepsInv(st, actions[0], rewrites);
      StuckStays(st, actions[0], rewrites);
      StuckForever(Step(st, actions[0], rewrites), actions[1..], rewrites);
    }
  }

  lemma RunFromCons(st: State, a: Action, actions: seq<Action>, rewrites: seq<HeaderRewrite>)
    requires Inv(st)
    ensures Inv(Step(st, a, rewrites))
    ensures RunFrom(st, [a] + actions, rewrites) == RunFrom(Step(st, a, rewrites), actions, rewrites)
  {
    hide Step, Inv;
    StepKeepsInv(st, a, rewrites);
    assert ([a] + actions)[1..] == actions;
  }

  lemma LeftIsQueued(st: State)
    requires Inv(st)
    ensures |Left(st)| <= |st.metas| - |st.finals|
  {
    hide Answers;
  }

  /** The one step of the response pump that brings the answer nearer. */
  function Nearer(st: State): Action {
    if st.response.Carrying? then CarryBack(st.response.left) else Respond
  }

  lemma NearerStep(st: State, rewrites: seq<HeaderRewrite>)
    requires Inv(st) && Waiting(st) && !Stuck(st)
    ensures var st' := Step(st, Nearer(st), rewrites);
      && Inv(st') && st'.request == st.request && st'.metas == st.metas
      && st'.client == st.client && st'.broken == st.broken
      && (|st'.metas| - 1 in st'.replies || (|st'.upstream| < |st.upstream| && Waiting(st') && !Stuck(st')))
  {
    hide FrontOf, FollowingOf, Answers, Opens, RespondStep, Left, Matched;
    var a := Nearer(st);
    StepKeepsInv(st, a, rewrites);
    NothingWhileWaiting(st, a, rewrites);
    if st.response.Carrying? {
      NearerCarry(st, rewrites);
    } else {
      NotStuckReads(st);
      NearerRespond(st);
    }
  }

  lemma NotStuckReads(st: State)
    requires Inv(st) && Waiting(st) && !Stuck(st) && !st.response.Carrying?
    ensures st.response.Reading? && |st.finals| < |st.metas|
  {
    hide Answers;
    assert Left(st) == [] || st.response.Reading?;
  }

  lemma NearerCarry(st: State, rewrites: seq<HeaderRewrite>)
    requires Inv(st) && st.response.Carrying? && Inv(Step(st, CarryBack(st.response.left), rewrites))
    ensures var st' := Step(st, CarryBack(st.response.left), rewrites);
      && |st'.upstream| < |st.upstream| && st'.metas == st.metas && st'.replies == st.replies
      && |st'.finals| + |Left(st')| == |st.finals| + |Left(st)|
  {
    hide Answers, Matched;
    var st' := Step(st, CarryBack(st.response.left), rewrites);
    assert st.upstream[st.response.left..] == st'.upstream;
  }

  lemma NearerRespond(st: State)
    requires Inv(st) && Waiting(st) && !Stuck(st) && st.response.Reading? && Inv(RespondStep(st))
    ensures var st' := RespondStep(st);
      || |st.metas| - 1 in st'.replies
      || (|st'.upstream| < |st.upstream| && st'.metas == st.metas
          && |st'.finals| + |Left(st')| == |st.finals| + |Left(st)|)
  {
    LeftIsQueued(st);
    assert st.queue != [] by { assert |st.finals| <= |st.metas| - 1; }
    var front := FrontOf(st.upstream);
    if front.Passing? {
      PassingLeft(st);
      PassingShrinks(st);
    } else if front.Answer? {
      TakeLeft(st);
      TakeShrinks(st);
    }
  }

  lemma PassingShrinks(st: State)
    requires Inv(st) && st.response.Reading? && FrontOf(st.upstream).Passing?
    ensures |RespondStep(st).upstream| < |st.upstream|
  {
    hide FrontOf;
  }

  lemma TakeShrinks(st: State)
    requires Inv(st) && st.response.Reading? && FrontOf(st.upstream).Answer? && st.queue != [] && Inv(RespondStep(st))
    requires Waiting(st)
    ensures var st' := RespondStep(st);
      |st'.upstream| < |st.upstream| || |Left(st')| == 0
    ensures var st' := RespondStep(st); |st'.finals| == |st.metas| ==> |st.metas| - 1 in st'.replies
  {
    hide FrontOf, FollowingOf, Answers;
    var st' := RespondStep(st);
    TakeShape(st);
  }

  /** If the answer is there, the response pump can get to it. */
  lemma {:induction false} AnswerComes(st: State, rewrites: seq<HeaderRewrite>) returns (actions: seq<Action>)
    requires Inv(st) && Waiting(st) && !Stuck(st)
    ensures var r := RunFrom(st, actions, rewrites);
      && r.request == st.request && r.metas == st.metas && |r.metas| - 1 in r.replies
      && r.client == st.client && r.broken == st.broken
    decreases |st.upstream|
  {
    hide Step, Stuck, Inv, Left;
    var a := Nearer(st);
    NearerStep(st, rewrites);
    var st' := Step(st, a, rewrites);
    if |st'.metas| - 1 in st'.replies {
      actions := [a];
      RunFromCons(st, a, [], rewrites);
      assert [a] + [] == [a];
    } else {
      var rest := AnswerComes(st', rewrites);
      actions := [a] + rest;
      RunFromCons(st, a, rest, rewrites);
    }
  }

  lemma NotWaitingGoesOn(st: State, rewrites: seq<HeaderRewrite>) returns (a: Action)
    requires Inv(st) && !st.request.Done? && !st.broken && !Waiting(st)
    ensures Step(st, a, rewrites).request != st.request
  {
    hide FindBlank, RewriteHead, FramingOf, MetaOf, CopyOf, Opens;
    match st.request
    case Parsing => a := Announce;
    case Announced(_, _) => a := WriteHead;
    case Copying(left, _) => a := if left > 0 then CopySome(left) else Proceed;
    case InTunnel => a := CopyRaw(|st.client|);
  }

  lemma {:induction false} RunFromThen(st: State, actions: seq<Action>, a: Action, rewrites: seq<HeaderRewrite>)
    requires Inv(st)
    ensures RunFrom(st, actions + [a], rewrites) == Step(RunFrom(st, actions, rewrites), a, rewrites)
    decreases |actions|
  {
    hide Step, Inv;
    if actions == [] {
      RunFromCons(st, a, [], rewrites);
      assert actions + [a] == [a] + [];
    } else {
      assert (actions + [a])[1..] == actions[1..] + [a];
      StepKeepsInv(st, actions[0], rewrites);
      RunFromThen(Step(st, actions[0], rewrites), actions[1..], a, rewrites);
    }
  }

  /** The request pump, neither done nor broken, can go on. */
  ghost predicate CanGoOn(st: State, rewrites: seq<HeaderRewrite>)
    requires Inv(st)
  {
    exists actions: seq<Action> :: RunFrom(st, actions, rewrites).request != st.request
  }

  /** Exactly when it can not: if and only if it waits for a verdict to which the upstream stream holds
      no answer, because the response pump has ended or will end before it. */
  lemma StuckExactly(st: State, rewrites: seq<HeaderRewrite>)
    requires Inv(st) && !st.request.Done? && !st.broken
    ensures !CanGoOn(st, rewrites) <==> Stuck(st)
    ensures st.response.Ended? ==> (Stuck(st) <==> Waiting(st))
  {
    hide Step, Answers;
    if Stuck(st) {
      forall actions: seq<Action> ensures RunFrom(st, actions, rewrites).request == st.request {
        StuckForever(st, actions, rewrites);
      }
    } else {
      var actions: seq<Action> := [];
      if Waiting(st) { actions := AnswerComes(st, rewrites); }
      var r := RunFrom(st, actions, rewrites);
      assert !Waiting(r);
      var a := NotWaitingGoesOn(r, rewrites);
      RunFromThen(st, actions, a, rewrites);
      assert RunFrom(st, actions + [a], rewrites).request != st.request;
    }
  }

  /** It does get stuck: whenever the first request asks for a tunnel, is forwarded whole, and the
      upstream stream holds no final response. */
  lemma UnansweredTunnelSticks(s: Bytes, u: Bytes, rewrites: seq<HeaderRewrite>) returns (actions: seq<Action>)
    requires Next(s).Some? && Acceptable([Next(s).value.0]) && MetaOf(PrintHead(Next(s).value.0.head)).TunnelCandidate()
    requires forall ms :: Answers(u, ms) == []
    ensures Stuck(Run(s, u, actions, rewrites))
  {
    hide RewriteHead, FramingOf, MetaOf, CopyOf, ParseHead, PrintHead, Acceptable, Answers, AnnounceStep, FindBlank,
      Next;
    var st1 := AnnounceStep(Start(s, u), rewrites);
    FirstIsAnnounced(s, u, rewrites);
    var body := CopyOf(st1.client, st1.request.framing).end;
    RunMore(s, u, [], Announce, rewrites);
    RunMore(s, u, [Announce], WriteHead, rewrites);
    RunMore(s, u, [Announce, WriteHead], CopySome(body), rewrites);
    actions := [Announce, WriteHead, CopySome(body)];
    assert [] + [Announce] == [Announce] && [Announce] + [WriteHead] == [Announce, WriteHead];
    assert [Announce, WriteHead] + [CopySome(body)] == actions;
    WrittenWaits(st1, rewrites);
  }

  /** With its first request announced, a pump that writes it all waits. */
  lemma WrittenWaits(st: State, rewrites: seq<HeaderRewrite>)
    requires Inv(st) && st.request.Announced? && |st.metas| == 1 && st.metas[0].TunnelCandidate() && !st.broken
    requires CopyOf(st.client, st.request.framing).Whole? && st.finals == [] && st.replies == map[]
    requires st.response.Reading? && forall ms :: Answers(st.upstream, ms) == []
    ensures Inv(Step(st, WriteHead, rewrites))
    ensures var n := CopyOf(st.client, st.request.framing).end;
      var r := Step(Step(st, WriteHead, rewrites), CopySome(n), rewrites);
      Inv(r) && Stuck(r)
  {
    hide CopyOf, Answers, Opens;
    StepKeepsInv(st, WriteHead, rewrites);
    StepKeepsInv(Step(st, WriteHead, rewrites), CopySome(CopyOf(st.client, st.request.framing).end), rewrites);
  }

  lemma RunMore(s: Bytes, u: Bytes, actions: seq<Action>, a: Action, rewrites: seq<HeaderRewrite>)
    ensures Run(s, u, actions + [a], rewrites) == Step(Run(s, u, actions, rewrites), a, rewrites)
  {
    hide Step, Inv;
    assert (actions + [a])[..|actions|] == actions;
  }

  lemma FirstIsAnnounced(s: Bytes, u: Bytes, rewrites: seq<HeaderRewrite>)
    requires Next(s).Some? && Acceptable([Next(s).value.0])
    ensures var st := AnnounceStep(Start(s, u), rewrites);
      && st.request.Announced? && st.metas == [MetaOf(PrintHead(Next(s).value.0.head))]
      && CopyOf(st.client, st.request.framing).Whole?
      && st == Start(s, u).(metas := st.metas, queue := [0], client := st.client, request := st.request)
  {
    hide RewriteHead, FramingOf, MetaOf, CopyOf, ParseHead, PrintHead, Acceptable, Next, FindBlank;
    NextParts(s);
    FirstHead(s, rewrites);
  }

  lemma FirstHead(s: Bytes, rewrites: seq<HeaderRewrite>)
    requires Next(s).Some? && Acceptable([Next(s).value.0])
    ensures FindBlank(s, 0) < |s|
    ensures var block := s[..FindBlank(s, 0) + 4];
      RewriteHead(block, rewrites).Ok? && PrintHead(Next(s).value.0.head) == block
  {
    hide RewriteHead, FramingOf, CopyOf, ParseHead, FirstError, IsBlock, WellFormed, Rewritten, PrintHead, Acceptable,
      Next, FindBlank;
    NextParts(s);
    var block := s[..FindBlank(s, 0) + 4];
    BlockOfStream(s);
    ParsePrint(block);
    RewriteHeadMeaning(block, rewrites);
    HasNoError(Next(s).value.0);
  }

  lemma HasNoError(r: Request)
    requires Acceptable([r]) && WellFormed(r.head)
    ensures FirstError(r.head.fields).None?
  {
    hide FirstError, WellFormed;
    assert [r][0] == r;
  }

  lemma NextParts(s: Bytes)
    requires Next(s).Some?
    ensures var e := FindBlank(s, 0);
      && e < |s| && Next(s).value.0.head == ParseHead(s[..e + 4]) && FramingOf(s[..e + 4]).Ok?
      && CopyOf(s[e + 4..], FramingOf(s[..e + 4]).value).Whole?
  {
    hide FramingOf, CopyOf, ParseHead, FindBlank;
  }

  /** For example a CONNECT, to an upstream that closes without a word. */
  lemma ConnectWithoutAnswerSticks(rewrites: seq<HeaderRewrite>) returns (actions: seq<Action>)
    ensures Stuck(Run(PrintHead(Head(CONNECT + [SP], [])), [], actions, rewrites))
  {
    var h := Head(CONNECT + [SP], []);
    ConnectLine(h);
    var s := PrintHead(h);
    ConnectIsNext(h);
    actions := UnansweredTunnelSticks(s, [], rewrites);
  }

  lemma ConnectLine(h: Head)
    requires h == Head(CONNECT + [SP], [])
    ensures WellFormed(h) && LineMethod(h.line, CONNECT)
  {
    assert h.line[..|CONNECT|] == CONNECT;
  }

  lemma ConnectIsNext(h: Head)
    requires WellFormed(h) && LineMethod(h.line, CONNECT)
    ensures Next(PrintHead(h)) == Some((Request(h, []), |PrintHead(h)|))
    ensures MetaOf(PrintHead(h)).connect
  {
    hide PrintHead, WellFormed, LineMethod, ParseHead, MetaOf, FramingOf, FindBlank;
    MetaOfPrinted(h);
    PrintedBlock(h, []);
    var s := PrintHead(h);
    assert s + [] == s && s[..|s|] == s;
  }
}
