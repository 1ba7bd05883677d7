/** The response pump as it runs: reads of any size and a carried-over buffer, specified by the
    upstream stream and the announced requests alone. */
module HttpResponsePump {
  import opened Wrappers
  import opened Bytes
  import opened HttpHead
  import opened HttpStream
  import opened HttpResponse
  import opened HttpReads
  import opened HttpCuts
  import opened HttpBodies

  /** What one turn of the loop comes to: `done` bytes of the stream relayed, a status for each request
      answered, and whether the loop goes on, and if not, whether it ends without an error. */
  datatype Turn = More(statuses: seq<nat>, done: nat) | Over(statuses: seq<nat>, done: nat, ok: bool)

  function TurnOf(u: Bytes, metas: seq<Meta>): (r: Turn)
    ensures r.done <= |u| && |r.statuses| <= |metas| && (r.More? ==> r.done > 0)
  {
    match FrontOf(u)
    case Closes => Over([], 0, true)
    case Unreadable => Over([], 0, false)
    case Passing(len) => More([], len)
    case Answer(len, status) =>
      if metas == [] then Over([], 0, false)
      else
        match FollowingOf(u, len, metas[0], status)
        case Refused => Over([status], 0, false)
        case Raw => Over([status], |u|, true)
        case Carried(n, broken) => if broken then Over([status], len + n, false) else More([status], len + n)
  }

  /** What the pump does with a whole upstream stream and the requests announced in all. */
  datatype Relayed = Relayed(statuses: seq<nat>, done: nat, ok: bool)

  function Relay(u: Bytes, metas: seq<Meta>): (r: Relayed)
    ensures r.done <= |u|
    decreases |u|
  {
    match TurnOf(u, metas)
    case Over(statuses, done, ok) => Relayed(statuses, done, ok)
    case More(statuses, done) =>
      var r := Relay(u[done..], metas[|statuses|..]);
      Relayed(statuses + r.statuses, done + r.done, r.ok)
  }

  /** The requests are answered by the final responses of the stream, in order. */
  lemma {:induction false} RelayAnswers(u: Bytes, metas: seq<Meta>)
    ensures Relay(u, metas).statuses == Answers(u, metas)
    decreases |u|
  {
    hide FrontOf, FollowingOf;
    var turn := TurnOf(u, metas);
    if turn.More? { RelayAnswers(u[turn.done..], metas[|turn.statuses|..]); }
  }

  // ---- forward_response_stream ----

  /** The first head of the stream, and the chunk and trailer lines behind it, are within limits. */
  predicate ResponseFits(u: Bytes, metas: seq<Meta>) {
    var e := FindBlank(u, 0);
    e < |u| ==>
      && e + 4 <= MAX_HEADER_SIZE + 1
      && (ParseStatus(u[..e + 4]).Some? && metas != [] ==>
            var status := ParseStatus(u[..e + 4]).value;
            ResponseBodyOf(ParseHead(u[..e + 4]).fields, status, metas[0].headOnly) == Framed(Chunked) ==>
              ChunksFit(u[e + 4..], 0))
  }

  predicate ResponsesFit(u: Bytes, metas: seq<Meta>)
    decreases |u|
  {
    ResponseFits(u, metas) &&
    var turn := TurnOf(u, metas);
    turn.More? ==> ResponsesFit(u[turn.done..], metas[|turn.statuses|..])
  }

  ghost predicate TurnMade(turn: Turn, over: Option<bool>, statuses: seq<nat>, done: nat) {
    turn == match over case None => More(statuses, done) case Some(ok) => Over(statuses, done, ok)
  }

  /** A turn that met a limit ends in an error, short of what the stream asks for. */
  ghost predicate TurnStopped(turn: Turn, over: Option<bool>, statuses: seq<nat>, done: nat) {
    over == Some(false) && statuses <= turn.statuses && done <= turn.done
  }

  lemma HeadOf(u: Bytes)
    requires FindBlank(u, 0) < |u|
    ensures var e := FindBlank(u, 0); var status := ParseStatus(u[..e + 4]);
      FrontOf(u) == if status.None? then Unreadable
                    else if Interim(status.value) then Passing(e + 4) else Answer(e + 4, status.value)
  {
    hide ParseStatus, FindBlank;
  }

  /** The body behind a head, from the head on. */
  method RelayBody(reader: Reader, writer: Writer, carried: Bytes, head: Bytes, meta: Meta, status: nat)
    returns (over: Option<bool>, carry: Bytes, ghost done: nat)
    requires Holds(Any, |carried|, reader.chunks, 0, carried + reader.Rest())
    modifies reader, writer
    ensures over.None? ==> Between(Any, |carry|, reader.chunks, carry + reader.Rest())
    ensures var t := carried + old(reader.Rest()); var u := head + t;
      && done <= |u| && writer.out == old(writer.out) + u[..done]
      && (over.None? ==> carry + reader.Rest() == u[done..])
      && match FollowingOf(u, |head|, meta, status)
         case Refused => over == Some(false) && done == 0
         case Raw => over == Some(true) && done == |u|
         case Carried(n, broken) =>
           || (over == (if broken then Some(false) else None) && done == |head| + n)
           || (over == Some(false) && done <= |head| + n
               && ResponseBodyOf(ParseHead(head).fields, status, meta.headOnly) == Framed(Chunked) && !ChunksFit(t, 0))
  {
    hide Flatten, CopyOf, ChunksFit, BodyStop, ParseHead, ResponseBodyOf, Shape, Between, Refusable;
    ghost var t := carried + reader.Rest();
    ghost var u := head + t;
    assert u[..|head|] == head && u[|head|..] == t;
    if status == 101 && !meta.TunnelCandidate() {
      assert u[..0] == [];
      return Some(false), carried, 0;
    }
    var body := ResponseBodyOf(ParseHead(head).fields, status, meta.headOnly);
    if Opens(meta, status) || body.ToTheEnd? {
      writer.Write(head);
      writer.Write(carried);
      CopyToEnd(reader, writer);
      assert u[..|u|] == head + (carried + old(reader.Rest()));
      return Some(true), [], |u|;
    }
    var copied;
    ghost var n;
    copied, carry, n := CopyMessage(reader, writer, carried, head, body.framing, Any);
    assert u[..|head| + n] == head + t[..n] && u[|head| + n..] == t[n..];
    done := |head| + n;
    over := if copied.Ok? then None else Some(false);
    if copied.Ok? { RestHolds(Any, |carry|, reader.chunks, n, t); }
  }

  /** One turn of the loop. */
  method RelayOne(reader: Reader, writer: Writer, carried: Bytes, metas: seq<Meta>)
    returns (over: Option<bool>, statuses: seq<nat>, carry: Bytes, ghost done: nat)
    requires Between(Any, |carried|, reader.chunks, carried + reader.Rest())
    modifies reader, writer
    ensures over.None? ==> Between(Any, |carry|, reader.chunks, carry + reader.Rest())
    ensures var u := carried + old(reader.Rest()); var turn := TurnOf(u, metas);
      && done <= |u| && writer.out == old(writer.out) + u[..done]
      && (over.None? ==> carry + reader.Rest() == u[done..])
      && (|| TurnMade(turn, over, statuses, done)
          || (TurnStopped(turn, over, statuses, done) && !ResponseFits(u, metas)))
  {
    hide Flatten, FindBlank, FollowingOf, ParseStatus, ChunksFit, ParseHead, ResponseBodyOf, Reaches,
      Reached, Shape, Holds;
    ghost var u := carried + reader.Rest();
    if FindBlank(u, 0) < |u| {
      HeadJudged(Any, |carried|, reader.chunks, u, FindBlank(u, 0) + 4);
      if Reaches(|carried|, reader.chunks, FindBlank(u, 0) + 4, MAX_HEADER_SIZE, HEAD_READ) {
        HeadHolds(Any, |carried|, reader.chunks, u, FindBlank(u, 0) + 4);
      }
    }
    var block;
    block, carry := ReadHeaderBlock(reader, carried);
    assert u[..0] == [] && writer.out + [] == writer.out;
    if block.Err? {
      return Some(false), [], carry, 0;
    }
    if block.value.None? {
      return Some(true), [], carry, 0;
    }
    var at := block.value.value;
    assert carry[..at] == u[..at] && carry[at..] + reader.Rest() == u[at..];
    HeadOf(u);
    var status := ParseStatus(carry[..at]);
    if status.None? {
      return Some(false), [], carry, 0;
    }
    if Interim(status.value) {
      RestHolds(Any, |carry[at..]|, reader.chunks, 0, u[at..]);
      assert u[at..][0..] == u[at..];
      writer.Write(carry[..at]);
      return None, [], carry[at..], at;
    }
    if metas == [] {
      return Some(false), [], carry, 0;
    }
    ghost var head := carry[..at];
    assert head + (carry[at..] + reader.Rest()) == u;
    over, carry, done := RelayBody(reader, writer, carry[at..], carry[..at], metas[0], status.value);
    statuses := [status.value];
  }

  /** `forward_response_stream`. However the upstream's bytes arrive, the pump relays, answers and ends
      as the stream and the announced requests say, as long as heads and control lines are within
      their limits; past a limit it may stop early, having relayed nothing but a beginning of that. */
  method ForwardResponseStream(reader: Reader, writer: Writer, metas: seq<Meta>)
    returns (statuses: seq<nat>, ok: bool, ghost done: nat)
    requires reader.Valid()
    modifies reader, writer
    ensures var u := old(reader.Rest()); var r := Relay(u, metas);
      && done <= |u| && writer.out == old(writer.out) + u[..done]
      && (|| (statuses == r.statuses && done == r.done && ok == r.ok)
          || (statuses <= r.statuses && done <= r.done && !ok && !ResponsesFit(u, metas)))
  {
    hide Flatten, TurnOf, ResponseFits, ResponsesFit, Relay;
    var carry: Bytes := [];
    statuses, done := [], 0;
    ghost var u := reader.Rest();
    ghost var whole := Relay(u, metas);
    var left := metas;
    assert u == u[0..] && u[..0] == [];
    while true
      invariant done <= |u| && u[done..] == carry + reader.Rest() && Between(Any, |carry|, reader.chunks, u[done..])
      invariant writer.out == old(writer.out) + u[..done]
      invariant whole == Onward(statuses, done, Relay(u[done..], left))
      invariant ResponsesFit(u, metas) ==> ResponsesFit(u[done..], left)
      decreases |u| - done
    {
      ghost var rest := u[done..];
      var over, answered;
      ghost var n;
      over, answered, carry, n := RelayOne(reader, writer, carry, left);
      Further(u, done, n, old(writer.out));
      RelayTurn(rest, left, statuses, answered, done);
      if over.Some? {
        return statuses + answered, over.value, done + n;
      }
      statuses, left, done := statuses + answered, left[|answered|..], done + n;
    }
  }

  /** What came before, and then the rest. */
  function Onward(statuses: seq<nat>, done: nat, r: Relayed): Relayed {
    Relayed(statuses + r.statuses, done + r.done, r.ok)
  }

  lemma Further(u: Bytes, done: nat, n: nat, out: Bytes)
    requires done <= |u| && n <= |u| - done
    ensures out + u[..done] + u[done..][..n] == out + u[..done + n] && u[done..][n..] == u[done + n..]
  {
    assert u[..done] + u[done..][..n] == u[..done + n];
    assert out + u[..done] + u[done..][..n] == out + (u[..done] + u[done..][..n]);
  }

  /** One turn's part of the whole, whatever came before. */
  lemma RelayTurn(u: Bytes, metas: seq<Meta>, before: seq<nat>, answered: seq<nat>, from: nat)
    ensures var turn, r := TurnOf(u, metas), Relay(u, metas);
      && turn.done <= r.done
      && (answered <= turn.statuses ==> before + answered <= before + r.statuses)
      && (turn.Over? ==> r == Relayed(turn.statuses, turn.done, turn.ok))
      && (ResponsesFit(u, metas) ==> ResponseFits(u, metas))
      && (turn.More? ==>
            var left, later := u[turn.done..], metas[|turn.statuses|..];
            && Onward(before, from, r) == Onward(before + turn.statuses, from + turn.done, Relay(left, later))
            && (ResponsesFit(u, metas) ==> ResponsesFit(left, later)))
  {
    hide TurnOf, ResponseFits;
    var turn := TurnOf(u, metas);
    if turn.More? {
      var r := Relay(u[turn.done..], metas[|turn.statuses|..]);
      assert before + (turn.statuses + r.statuses) == before + turn.statuses + r.statuses;
    }
  }
}
