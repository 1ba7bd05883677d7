/** The two pumps of `proxy_http1_rewriting` running side by side: a FIFO of announced requests from
    the request pump to the response pump, and a one-shot verdict back for every tunnel candidate. */
module HttpTunnel {
  import opened Bytes
  import opened HttpHead
  import opened HttpStream
  import opened HttpResponse

  /** What the request pump does once a body is through. */
  datatype After = GoOn | AwaitVerdict | Fail(error: HttpError)

  /** Where the request pump is: between requests, with a head announced but not written, with
      `left` bytes of a body to copy, in a tunnel, or done. */
  datatype RequestPump =
    | Parsing
    | Announced(head: Bytes, framing: Framing)
    | Copying(left: nat, after: After)
    | InTunnel
    | Done(end: End)

  /** Where the response pump is: between responses, with `left` bytes of a body to carry back (a body
      that breaks off there if `broken`), relaying raw bytes to the end, or done. */
  datatype ResponsePump = Reading | Carrying(left: nat, broken: bool) | Relaying | Ended

  datatype Final = Final(status: nat, request: nat)

  /** `client` is the unread client stream, `out` everything sent upstream, `metas` the requests
      announced so far, `queue` those the response pump has not taken yet, `finals` the final
      responses it matched, and `replies` the verdicts the request pump has been given. `upstream` is
      the unread upstream stream, `back` everything sent to the client. A `broken` request pump is
      gone for good, from wherever it was. */
  datatype State = State(client: Bytes, out: Bytes, metas: seq<Meta>, queue: seq<nat>,
                         finals: seq<Final>, replies: map<nat, Reply>, request: RequestPump, broken: bool,
                         upstream: Bytes, back: Bytes, response: ResponsePump)

  /** `s` and `u` are all the client and the upstream will ever send. */
  function Start(s: Bytes, u: Bytes): State {
    State(s, [], [], [], [], map[], Parsing, false, u, [], Reading)
  }

  /** One step of one pump. A step that is not possible leaves the state as it is, so a list of
      actions is an arbitrary interleaving. `Break` is a failed read or write of the request pump, or a
      limit it met, `EndResponses` one of the response pump. */
  datatype Action =
    | Announce
    | WriteSome(n: nat)
    | WriteHead
    | CopySome(n: nat)
    | Proceed
    | CopyRaw(n: nat)
    | Break
    | Respond
    | CarryBack(n: nat)
    | RelayBack(n: nat)
    | EndResponses

  /** Announcing never fails: the queue lives until both pumps are done. */
  function AnnounceStep(st: State, rewrites: seq<HeaderRewrite>): State {
    var s, k := st.client, |st.metas|;
    var e := FindBlank(s, 0);
    if s == [] then st.(request := Done(Closed))
    else if e == |s| then
      st.(request := Done(Failed(if |s| > MAX_HEADER_SIZE then HeadTooLarge else UnexpectedEof)))
    else
      var block := s[..e + 4];
      var head, framing := RewriteHead(block, rewrites), FramingOf(block);
      if head.Err? then st.(request := Done(Failed(head.error)))
      else if framing.Err? then st.(request := Done(Failed(framing.error)))
      else st.(metas := st.metas + [MetaOf(block)], queue := st.queue + [k],
               client := s[e + 4..], request := Announced(head.value, framing.value))
  }

  function WriteHeadStep(st: State): State
    requires st.request.Announced? && st.metas != []
  {
    var meta := st.metas[|st.metas| - 1];
    st.(out := st.out + st.request.head,
        request := match CopyOf(st.client, st.request.framing)
                   case Whole(n) => Copying(n, if meta.TunnelCandidate() then AwaitVerdict else GoOn)
                   case Broken(w, error) => Copying(w, Fail(error)))
  }

  /** The end of a body: on to the next request, or wait for the response pump's verdict. */
  function ProceedStep(st: State): State
    requires st.request.Copying? && st.metas != []
  {
    var k := |st.metas| - 1;
    match st.request.after
    case GoOn => st.(request := Parsing)
    case Fail(error) => st.(request := Done(Failed(error)))
    case AwaitVerdict =>
      if k in st.replies then st.(request := if st.replies[k].Accepted? then InTunnel else Parsing) else st
  }

  /** `n` bytes of the upstream stream go to the client. */
  function Back(st: State, n: nat): State
    requires n <= |st.upstream|
  {
    st.(back := st.back + st.upstream[..n], upstream := st.upstream[n..])
  }

  function Settle(left: nat, broken: bool): ResponsePump {
    if left > 0 then Carrying(left, broken) else if broken then Ended else Reading
  }

  /** A final response takes the oldest request off the queue, and with it goes the verdict. */
  function Take(st: State, status: nat): (r: State)
    requires st.queue != [] && st.queue[0] < |st.metas|
    ensures r == st.(queue := r.queue, finals := r.finals, replies := r.replies)
  {
    var k := st.queue[0];
    var meta := st.metas[k];
    st.(queue := st.queue[1..], finals := st.finals + [Final(status, k)],
        replies := if meta.TunnelCandidate() then st.replies[k := if Opens(meta, status) then Accepted else Declined]
                   else st.replies)
  }

  /** A response head: interim ones pass, a final one answers the oldest request; without one it waits,
      or is refused when no request can come any more. */
  function RespondStep(st: State): State
    requires Queued(st)
  {
    match FrontOf(st.upstream)
    case Passing(len) => Back(st, len)
    case Answer(len, status) =>
      if st.queue == [] then (if st.request.Done? || st.broken then st.(response := Ended) else st)
      else
        (match FollowingOf(st.upstream, len, st.metas[st.queue[0]], status)
         case Refused => Take(st, status).(response := Ended)
         case Raw => Back(Take(st, status), len).(response := Relaying)
         case Carried(n, broken) => Back(Take(st, status), len).(response := Settle(n, broken)))
    case _ => st.(response := Ended)
  }

  /** The request pump is reading or writing: not done, and not waiting for a verdict. */
  predicate Exposed(r: RequestPump) { !r.Done? && (r.Copying? ==> r.left > 0) }

  function RequestStep(st: State, a: Action, rewrites: seq<HeaderRewrite>): State
    requires Inv(st)
  {
    match a
    case Announce => if st.request.Parsing? then AnnounceStep(st, rewrites) else st
    case WriteSome(n) =>
      if st.request.Announced? && n <= |st.request.head| then
        st.(out := st.out + st.request.head[..n], request := Announced(st.request.head[n..], st.request.framing))
      else st
    case WriteHead => if st.request.Announced? then WriteHeadStep(st) else st
    case CopySome(n) =>
      if st.request.Copying? && n <= st.request.left then
        st.(out := st.out + st.client[..n], client := st.client[n..],
            request := Copying(st.request.left - n, st.request.after))
      else st
    case Proceed => if st.request.Copying? && st.request.left == 0 then ProceedStep(st) else st
    case CopyRaw(n) =>
      if st.request.InTunnel? && n <= |st.client| then
        var st' := st.(out := st.out + st.client[..n], client := st.client[n..]);
        if n == |st.client| then st'.(request := Done(Tunnelled)) else st'
      else st
    case Break => st.(broken := Exposed(st.request))
    case _ => st
  }

  function Step(st: State, a: Action, rewrites: seq<HeaderRewrite>): State
    requires Inv(st)
  {
    match a
    case Respond => if st.response.Reading? then RespondStep(st) else st
    case CarryBack(n) =>
      if st.response.Carrying? && n <= st.response.left && n <= |st.upstream| then
        Back(st, n).(response := Settle(st.response.left - n, st.response.broken))
      else st
    case RelayBack(n) =>
      if st.response.Relaying? && n <= |st.upstream| then
        Back(st, n).(response := if n == |st.upstream| then Ended else Relaying)
      else st
    case EndResponses => st.(response := Ended)
    case _ => if st.broken then st else RequestStep(st, a, rewrites)
  }

  // ---- What every interleaving keeps ----

  /** The response pump answers requests in the order they were announced, and a verdict is what
      the final response to that same request says. */
  ghost predicate Matched(st: State) {
    && |st.finals| <= |st.metas|
    && |st.queue| == |st.metas| - |st.finals|
    && (forall i :: 0 <= i < |st.queue| ==> st.queue[i] == |st.finals| + i)
    && (forall i :: 0 <= i < |st.finals| ==> st.finals[i].request == i)
    && (forall k :: k in st.replies ==>
          && k < |st.finals| && st.metas[k].TunnelCandidate()
          && st.replies[k] == if Opens(st.metas[k], st.finals[k].status) then Accepted else Declined)
    && (forall k :: 0 <= k < |st.finals| && st.metas[k].TunnelCandidate() ==> k in st.replies)
  }

  ghost predicate Placed(st: State) {
    && (st.request.Announced? || st.request.Copying? || st.request.InTunnel? ==> st.metas != [])
    && (st.request.Copying? ==>
          && st.request.left <= |st.client|
          && (st.request.after.AwaitVerdict? ==> st.metas[|st.metas| - 1].TunnelCandidate())
          && (st.request.after.GoOn? ==> !st.metas[|st.metas| - 1].TunnelCandidate()))
    && (st.request.InTunnel? || st.request == Done(Tunnelled) ==>
          st.metas != [] && |st.metas| - 1 in st.replies && st.replies[|st.metas| - 1].Accepted?)
    && (st.response.Carrying? ==> 0 < st.response.left <= |st.upstream|)
    && (st.broken ==> Exposed(st.request))
  }

  ghost predicate Inv(st: State) {
    Matched(st) && Placed(st)
  }

  /** Inv holds at the start and every step of either pump keeps it. */
  lemma StepKeepsInv(st: State, a: Action, rewrites: seq<HeaderRewrite>)
    requires Inv(st)
    ensures Inv(Step(st, a, rewrites))
  {
    hide Inv, RespondStep, RequestStep;
    match a {
      case Respond => if st.response.Reading? { RespondKeepsInv(st); }
      case CarryBack(_) => BackKeepsInv(st, a, rewrites);
      case RelayBack(_) => BackKeepsInv(st, a, rewrites);
      case EndResponses => BackKeepsInv(st, a, rewrites);
      case _ => if !st.broken { RequestKeepsInv(st, a, rewrites); }
    }
  }

  lemma BackKeepsInv(st: State, a: Action, rewrites: seq<HeaderRewrite>)
    requires Inv(st) && (a.CarryBack? || a.RelayBack? || a.EndResponses?)
    ensures Inv(Step(st, a, rewrites))
  {
    hide Matched;
    StillMatches(st, Step(st, a, rewrites));
  }

  lemma RequestKeepsInv(st: State, a: Action, rewrites: seq<HeaderRewrite>)
    requires Inv(st) && !st.broken
    ensures Inv(RequestStep(st, a, rewrites))
  {
    hide AnnounceStep, WriteHeadStep, ProceedStep, Matched;
    match a {
      case Announce => if st.request.Parsing? { AnnounceKeepsInv(st, rewrites); }
      case WriteHead => if st.request.Announced? { HeadKeepsInv(st); }
      case Proceed => if st.request.Copying? && st.request.left == 0 { ProceedKeepsInv(st); }
      case _ => StillMatches(st, RequestStep(st, a, rewrites));
    }
  }

  predicate SameBooks(st: State, st': State) {
    st'.queue == st.queue && st'.finals == st.finals && st'.replies == st.replies
  }

  /** Requests on the queue have been announced. */
  predicate Queued(st: State) { forall i :: 0 <= i < |st.queue| ==> st.queue[i] < |st.metas| }

  predicate SameRequests(st: State, st': State) {
    && st'.client == st.client && st'.out == st.out && st'.metas == st.metas
    && st'.request == st.request && st'.broken == st.broken
  }

  predicate CarryFits(st: State) { st.response.Carrying? ==> 0 < st.response.left <= |st.upstream| }

  lemma FinalShape(st: State)
    requires Queued(st) && st.response.Reading? && st.queue != [] && FrontOf(st.upstream).Answer?
    ensures SameRequests(st, RespondStep(st)) && CarryFits(RespondStep(st))
    ensures SameBooks(Take(st, FrontOf(st.upstream).status), RespondStep(st))
  {
    assert st.queue[0] < |st.metas|;
    hide FrontOf, FollowingOf, Take, Queued;
  }

  lemma OtherShape(st: State)
    requires Queued(st) && st.response.Reading? && (st.queue == [] || !FrontOf(st.upstream).Answer?)
    ensures SameRequests(st, RespondStep(st)) && CarryFits(RespondStep(st)) && SameBooks(st, RespondStep(st))
  {
    hide FrontOf, FollowingOf, Take, Queued;
  }

  /** What a response head can do: it leaves the request pump alone, and the books too unless it is a
      final response, which takes the oldest request. */
  lemma RespondShape(st: State)
    requires Matched(st) && st.response.Reading?
    ensures Queued(st)
    ensures var st' := RespondStep(st);
      && SameRequests(st, st') && CarryFits(st')
      && (|| SameBooks(st, st')
          || (st.queue != [] && FrontOf(st.upstream).Answer? && SameBooks(Take(st, FrontOf(st.upstream).status), st')))
  {
    assert Queued(st);
    hide FrontOf, Matched, Take, Queued, SameRequests, SameBooks, CarryFits, RespondStep;
    if st.queue != [] && FrontOf(st.upstream).Answer? { FinalShape(st); } else { OtherShape(st); }
  }

  lemma RespondKeepsInv(st: State)
    requires Inv(st) && st.response.Reading?
    ensures Inv(RespondStep(st))
  {
    RespondShape(st);
    hide RespondStep, FrontOf;
    var st', front := RespondStep(st), FrontOf(st.upstream);
    if SameBooks(st, st') {
      StillMatches(st, st');
    } else {
      TakeMatches(st, front.status);
      StillMatches(Take(st, front.status), st');
    }
    hide Matched, Take;
  }

  lemma TakeMatches(st: State, status: nat)
    requires Inv(st) && st.queue != []
    ensures Matched(Take(st, status)) && st.queue[0] == |st.finals|
    ensures forall k :: k in st.replies ==>
      k in Take(st, status).replies && Take(st, status).replies[k] == st.replies[k]
  {
    hide Opens, Placed;
    var st' := Take(st, status);
    assert st.queue[0] == |st.finals|;
    assert st'.finals[..|st.finals|] == st.finals;
    assert forall i :: 0 <= i < |st'.queue| ==> st'.queue[i] == st.queue[i + 1];
  }

  lemma AnnounceKeepsInv(st: State, rewrites: seq<HeaderRewrite>)
    requires Inv(st) && st.request.Parsing? && !st.broken
    ensures Inv(AnnounceStep(st, rewrites))
  {
    AnnouncePlaced(st, rewrites);
    AnnounceCases(st, rewrites);
    hide AnnounceStep, Placed;
    var st' := AnnounceStep(st, rewrites);
    if |st'.metas| > |st.metas| {
      AnnounceMatches(st, st');
    } else {
      StillMatches(st, st');
    }
  }

  /** What an announcement can do to the bookkeeping. */
  lemma AnnounceCases(st: State, rewrites: seq<HeaderRewrite>)
    ensures var st', k := AnnounceStep(st, rewrites), |st.metas|;
      && st'.finals == st.finals
      && st'.replies == st.replies && st'.upstream == st.upstream && st'.back == st.back && st'.response == st.response
      && ((st'.metas == st.metas && st'.queue == st.queue)
          || (|st'.metas| == k + 1 && st.metas <= st'.metas && st'.queue == st.queue + [k]))
  {
    hide FindBlank, RewriteHead, FramingOf, MetaOf;
  }

  lemma StillMatches(st: State, st': State)
    requires Matched(st) && st'.metas == st.metas && SameBooks(st, st')
    ensures Matched(st')
  {
    hide Opens;
  }

  lemma AnnouncePlaced(st: State, rewrites: seq<HeaderRewrite>)
    requires Inv(st) && st.request.Parsing? && !st.broken
    ensures Placed(AnnounceStep(st, rewrites))
  {
    hide FindBlank, RewriteHead, FramingOf, MetaOf, Matched;
  }

  lemma AnnounceMatches(st: State, st': State)
    requires Inv(st) && |st'.metas| == |st.metas| + 1 && st.metas <= st'.metas
    requires st'.queue == st.queue + [|st.metas|] && st'.finals == st.finals && st'.replies == st.replies
    ensures Matched(st')
  {
    hide Opens, Placed;
    assert forall k :: 0 <= k < |st.metas| ==> st'.metas[k] == st.metas[k];
  }

  lemma HeadKeepsInv(st: State)
    requires Inv(st) && st.request.Announced? && !st.broken
    ensures Inv(WriteHeadStep(st))
  {
    hide CopyOf, Opens;
  }

  lemma ProceedKeepsInv(st: State)
    requires Inv(st) && st.request.Copying? && st.request.left == 0
    ensures Inv(ProceedStep(st))
  {
    hide Opens;
  }

  /** The state after any interleaving of the two pumps. */
  function Run(s: Bytes, u: Bytes, actions: seq<Action>, rewrites: seq<HeaderRewrite>): (st: State)
    ensures Inv(st)
  {
    if actions == [] then Start(s, u)
    else
      var st := Run(s, u, actions[..|actions| - 1], rewrites);
      StepKeepsInv(st, actions[|actions| - 1], rewrites);
      Step(st, actions[|actions| - 1], rewrites)
  }

  // ---- Every interleaving forwards what the sequential pump forwards ----

  /** `reply` answers every request as the response pump has answered it so far. */
  ghost predicate Consistent(st: State, reply: nat -> Reply) {
    && (forall k :: k in st.replies ==> reply(k) == st.replies[k])
    && (forall k :: 0 <= k < |st.metas| ==> !reply(k).Gone?)
  }

  /** What the sequential pump goes on to do from a request pump's state. */
  ghost function Resume(st: State, rewrites: seq<HeaderRewrite>, reply: nat -> Reply): Pumped
    requires Inv(st)
  {
    var k := |st.metas|;
    match st.request
    case Parsing => Pump(st.client, rewrites, reply, k, st.out, st.metas)
    case Announced(head, framing) =>
      match AfterHead(st.client, head, framing, st.metas[k - 1], reply(k - 1)) {
        case Finish(bytes, ms, end) => Pumped(st.out + bytes, st.metas, end)
        case Continue(bytes, _, rest) => Pump(rest, rewrites, reply, k, st.out + bytes, st.metas)
      }
    case Copying(left, after) =>
      var out := st.out + st.client[..left];
      (match after
       case Fail(error) => Pumped(out, st.metas, Failed(error))
       case GoOn => Pump(st.client[left..], rewrites, reply, k, out, st.metas)
       case AwaitVerdict =>
         if reply(k - 1).Declined? then Pump(st.client[left..], rewrites, reply, k, out, st.metas)
         else if reply(k - 1).Accepted? then Pumped(out + st.client[left..], st.metas, Tunnelled)
         else Pumped(out, st.metas, Closed))
    case InTunnel => Pumped(st.out + st.client, st.metas, Tunnelled)
    case Done(end) => Pumped(st.out, st.metas, end)
  }

  lemma AfterHeadMeta(rest: Bytes, head: Bytes, framing: Framing, meta: Meta, reply: Reply)
    ensures var x := AfterHead(rest, head, framing, meta, reply);
      if x.Finish? then x.metas == [meta] else x.meta == meta
  {
  }

  lemma AnnounceResumes(st: State, rewrites: seq<HeaderRewrite>, reply: nat -> Reply)
    requires Inv(st) && st.request.Parsing? && Consistent(AnnounceStep(st, rewrites), reply)
    requires Inv(AnnounceStep(st, rewrites))
    ensures Resume(AnnounceStep(st, rewrites), rewrites, reply) == Resume(st, rewrites, reply)
  {
    hide FindBlank, RewriteHead, FramingOf, MetaOf, AfterHead, Matched, Placed;
    var st' := AnnounceStep(st, rewrites);
    if st'.request.Announced? {
      AnnouncedResumes(st, rewrites, reply);
    } else {
      assert st.out + [] == st.out && st.metas + [] == st.metas;
    }
  }

  lemma AnnouncedResumes(st: State, rewrites: seq<HeaderRewrite>, reply: nat -> Reply)
    requires Inv(st) && st.request.Parsing? && Consistent(AnnounceStep(st, rewrites), reply)
    requires Inv(AnnounceStep(st, rewrites)) && AnnounceStep(st, rewrites).request.Announced?
    ensures Resume(AnnounceStep(st, rewrites), rewrites, reply) == Resume(st, rewrites, reply)
  {
    hide FindBlank, RewriteHead, FramingOf, MetaOf, AfterHead, Matched, Placed;
    var st', k := AnnounceStep(st, rewrites), |st.metas|;
    var meta := st'.metas[k];
    AfterHeadMeta(st'.client, st'.request.head, st'.request.framing, meta, reply(k));
    assert OneRequest(st.client, rewrites, reply(k))
      == AfterHead(st'.client, st'.request.head, st'.request.framing, meta, reply(k));
    assert st'.metas == st.metas + [meta];
  }

  lemma WriteResumes(st: State, n: nat, rewrites: seq<HeaderRewrite>, reply: nat -> Reply)
    requires Inv(st) && st.request.Announced? && n <= |st.request.head| && !st.broken
    ensures Resume(Step(st, WriteSome(n), rewrites), rewrites, reply) == Resume(st, rewrites, reply)
  {
    hide Pump, CopyOf;
    var head, out := st.request.head, st.out;
    var c := CopyOf(st.client, st.request.framing);
    var end := if c.Whole? then c.end else c.written;
    var body := st.client[..end];
    assert head == head[..n] + head[n..];
    assert out + head[..n] + (head[n..] + body) == out + (head + body);
    assert out + head[..n] + (head[n..] + body + st.client[end..]) == out + (head + body + st.client[end..]);
  }

  lemma CopyResumes(st: State, n: nat, rewrites: seq<HeaderRewrite>, reply: nat -> Reply)
    requires Inv(st) && st.request.Copying? && n <= st.request.left && !st.broken
    ensures Resume(Step(st, CopySome(n), rewrites), rewrites, reply) == Resume(st, rewrites, reply)
  {
    hide Pump;
    var st' := Step(st, CopySome(n), rewrites);
    var left := st.request.left;
    assert st.client[..n] + st.client[n..][..left - n] == st.client[..left];
    assert st.out + st.client[..n] + st.client[n..][..left - n] == st.out + st.client[..left];
    assert st.client[n..][left - n..] == st.client[left..];
  }

  lemma HeadResumes(st: State, rewrites: seq<HeaderRewrite>, reply: nat -> Reply)
    requires Inv(st) && st.request.Announced? && Inv(WriteHeadStep(st)) && !reply(|st.metas| - 1).Gone?
    ensures Resume(WriteHeadStep(st), rewrites, reply) == Resume(st, rewrites, reply)
  {
    hide Pump, CopyOf;
    var c, head := CopyOf(st.client, st.request.framing), st.request.head;
    var n := if c.Whole? then c.end else c.written;
    assert st.out + head + st.client[..n] == st.out + (head + st.client[..n]);
    assert st.out + head + st.client[..n] + st.client[n..] == st.out + (head + st.client[..n] + st.client[n..]);
  }

  lemma ProceedResumes(st: State, rewrites: seq<HeaderRewrite>, reply: nat -> Reply)
    requires Inv(st) && st.request.Copying? && st.request.left == 0
    requires Inv(ProceedStep(st)) && Consistent(ProceedStep(st), reply)
    ensures Resume(ProceedStep(st), rewrites, reply) == Resume(st, rewrites, reply)
  {
    hide Pump;
    assert st.out + st.client[..0] == st.out && st.client[0..] == st.client;
  }

  lemma StepResumes(st: State, a: Action, rewrites: seq<HeaderRewrite>, reply: nat -> Reply)
    requires Inv(st) && Inv(Step(st, a, rewrites)) && Consistent(Step(st, a, rewrites), reply)
    ensures Consistent(st, reply)
    ensures Resume(Step(st, a, rewrites), rewrites, reply) == Resume(st, rewrites, reply)
  {
    hide Pump, FindBlank, RewriteHead, FramingOf, MetaOf, CopyOf, AfterHead, RespondStep, AnnounceStep, WriteHeadStep,
      ProceedStep, Matched;
    StepLearns(st, a, rewrites);
    if st.broken {
      ResponseResumes(st, Step(st, a, rewrites), rewrites, reply);
      return;
    }
    match a {
      case Announce => if st.request.Parsing? { AnnounceResumes(st, rewrites, reply); }
      case WriteSome(n) =>
        if st.request.Announced? && n <= |st.request.head| { WriteResumes(st, n, rewrites, reply); }
      case WriteHead => if st.request.Announced? { HeadResumes(st, rewrites, reply); }
      case CopySome(n) => if st.request.Copying? && n <= st.request.left { CopyResumes(st, n, rewrites, reply); }
      case Proceed => if st.request.Copying? && st.request.left == 0 { ProceedResumes(st, rewrites, reply); }
      case CopyRaw(n) =>
        if st.request.InTunnel? && n <= |st.client| {
          assert st.out + st.client[..n] + st.client[n..] == st.out + st.client;
        }
      case _ => ResponseResumes(st, Step(st, a, rewrites), rewrites, reply);
    }
  }

  /** What the request pump goes on to do does not depend on the response pump's own state. */
  lemma ResponseResumes(st: State, st': State, rewrites: seq<HeaderRewrite>, reply: nat -> Reply)
    requires Inv(st) && Inv(st') && st'.client == st.client && st'.out == st.out && st'.metas == st.metas
    requires st'.request == st.request
    ensures Resume(st', rewrites, reply) == Resume(st, rewrites, reply)
  {
    hide Pump, AfterHead, Matched;
  }

  lemma AnnounceWrites(st: State, rewrites: seq<HeaderRewrite>)
    ensures AnnounceStep(st, rewrites).out == st.out
  {
    hide FindBlank, RewriteHead, FramingOf, MetaOf;
  }

  lemma RespondLearns(st: State)
    requires Inv(st) && st.response.Reading?
    ensures var st' := RespondStep(st);
      && st'.client == st.client && st'.out == st.out && st'.metas == st.metas && st'.request == st.request
      && st'.broken == st.broken && st.finals <= st'.finals
      && forall k :: k in st.replies ==> k in st'.replies && st'.replies[k] == st.replies[k]
  {
    RespondShape(st);
    hide RespondStep, FrontOf, Opens;
    if st.queue != [] && FrontOf(st.upstream).Answer? {
      TakeMatches(st, FrontOf(st.upstream).status);
    }
  }

  /** Announcements and answers are never taken back. */
  lemma StepLearns(st: State, a: Action, rewrites: seq<HeaderRewrite>)
    requires Inv(st)
    ensures var st' := Step(st, a, rewrites);
      && st.metas <= st'.metas && st.out <= st'.out && st.finals <= st'.finals
      && (forall k :: k in st.replies ==> k in st'.replies && st'.replies[k] == st.replies[k])
      && (a.Respond? || a.CarryBack? || a.RelayBack? || a.EndResponses? || st.broken || a.Break? ==>
            st'.client == st.client && st'.out == st.out && st'.metas == st.metas && st'.request == st.request)
  {
    hide FindBlank, RewriteHead, FramingOf, MetaOf, CopyOf, Opens, AnnounceStep, RespondStep;
    AnnounceCases(st, rewrites);
    if a.Announce? && st.request.Parsing? {
      AnnounceWrites(st, rewrites);
    }
    if a.Respond? && st.response.Reading? {
      RespondLearns(st);
    }
  }

  /** Refinement: whatever the interleaving, the request pump is on its way to doing exactly what
      the sequential pump does for any answers that agree with those given so far. */
  lemma {:induction false} RunRefinesPump(s: Bytes, u: Bytes, actions: seq<Action>, rewrites: seq<HeaderRewrite>,
                                          reply: nat -> Reply)
    requires Consistent(Run(s, u, actions, rewrites), reply)
    ensures Resume(Run(s, u, actions, rewrites), rewrites, reply) == Pump(s, rewrites, reply, 0, [], [])
    decreases |actions|
  {
    hide Pump, Step, Resume, Inv, Consistent;
    if actions == [] {
      StartResumes(s, u, rewrites, reply);
    } else {
      var init := actions[..|actions| - 1];
      StepResumes(Run(s, u, init, rewrites), actions[|actions| - 1], rewrites, reply);
      RunRefinesPump(s, u, init, rewrites, reply);
    }
  }

  lemma StartResumes(s: Bytes, u: Bytes, rewrites: seq<HeaderRewrite>, reply: nat -> Reply)
    ensures Inv(Start(s, u)) && Resume(Start(s, u), rewrites, reply) == Pump(s, rewrites, reply, 0, [], [])
  {
    hide Pump;
  }

  /** The verdicts given so far; a request without one counts as never answered. */
  function Verdicts(st: State): nat -> Reply {
    k => if k in st.replies then st.replies[k] else Dropped
  }

  lemma TunnelTurn(s: Bytes, rewrites: seq<HeaderRewrite>, reply: Reply)
    ensures var x := OneRequest(s, rewrites, reply);
      x.Finish? && x.end.Tunnelled? ==> reply.Accepted? && |x.metas| == 1
  {
    hide CopyOf, RewriteHead, FramingOf, MetaOf, FindBlank;
  }

  lemma {:induction false} TunnelIsAccepted(s: Bytes, rewrites: seq<HeaderRewrite>, reply: nat -> Reply,
                                            out: Bytes, metas: seq<Meta>)
    requires Pump(s, rewrites, reply, |metas|, out, metas).end.Tunnelled?
    ensures var ms := Pump(s, rewrites, reply, |metas|, out, metas).metas;
      |ms| > 0 && reply(|ms| - 1).Accepted? && metas <= ms
    decreases |s|
  {
    hide OneRequest;
    var x := OneRequest(s, rewrites, reply(|metas|));
    TunnelTurn(s, rewrites, reply(|metas|));
    if x.Continue? {
      TunnelIsAccepted(x.rest, rewrites, reply, out + x.bytes, metas + [x.meta]);
    }
  }

  lemma ResumeExtends(st: State, rewrites: seq<HeaderRewrite>, reply: nat -> Reply)
    requires Inv(st)
    ensures st.out <= Resume(st, rewrites, reply).out
    ensures st.metas <= Resume(st, rewrites, reply).metas
  {
    hide AfterHead, OneRequest;
    if st.request.Parsing? {
      PumpExtends(st.client, rewrites, reply, |st.metas|, st.out, st.metas);
    } else if st.request.Announced? {
      var x := AfterHead(st.client, st.request.head, st.request.framing, st.metas[|st.metas| - 1],
                         reply(|st.metas| - 1));
      if x.Continue? {
        PumpExtends(x.rest, rewrites, reply, |st.metas|, st.out + x.bytes, st.metas);
      }
    } else if st.request.Copying? {
      var left := st.request.left;
      PumpExtends(st.client[left..], rewrites, reply, |st.metas|, st.out + st.client[..left], st.metas);
    }
  }
}
