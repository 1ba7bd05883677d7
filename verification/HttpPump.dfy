/** The request pump as it runs, over reads of any size. It is specified by the stream alone, so the way
    the stream is cut into reads cannot matter as long as heads and control lines respect their limits;
    and past the limits it is shown exactly when it does. */
module HttpPump {
  import opened Wrappers
  import opened Bytes
  import opened Text
  import opened HttpHead
  import opened HttpStream
  import opened HttpReads
  import opened HttpCuts
  import opened HttpBodies

  /** The head and the control lines of the stream's first request are within their limits. */
  predicate RequestFits(s: Bytes, rewrites: seq<HeaderRewrite>, reply: Reply) {
    var e := FindBlank(s, 0);
    e < |s| ==>
      && HeadFits(e + 4)
      && (!reply.Gone? && RewriteHead(s[..e + 4], rewrites).Ok? && FramingOf(s[..e + 4]) == Ok(Chunked) ==>
            ChunksFit(s[e + 4..], 0))
  }

  predicate StreamFits(s: Bytes, rewrites: seq<HeaderRewrite>, reply: nat -> Reply, k: nat)
    decreases |s|
  {
    RequestFits(s, rewrites, reply(k)) &&
    var x := OneRequest(s, rewrites, reply(k));
    x.Continue? ==> StreamFits(x.rest, rewrites, reply, k + 1)
  }

  /** What a turn does under every such cut when the first thing past a limit is refused. */
  function RequestStop(s: Bytes, rewrites: seq<HeaderRewrite>, reply: Reply, mode: Mode): (x: Option<Exchange>)
    ensures x.Some? ==> x.value.Finish?
  {
    var e := FindBlank(s, 0);
    if e == |s| then None
    else if HeadRefused(mode, e + 4) then Some(Finish([], [], Failed(HeadTooLarge)))
    else if !HeadFits(e + 4) || reply.Gone? then None
    else
      var block, t := s[..e + 4], s[e + 4..];
      var head, framing := RewriteHead(block, rewrites), FramingOf(block);
      if head.Err? || framing.Err? then None
      else
        var at := BodyStop(t, framing.value, BodyMode(mode, e + 4));
        if at.None? then None
        else Some(Finish(head.value + t[..at.value], [MetaOf(block)], Failed(LineTooLong)))
  }

  /** The same for the pump: every request before is within its limits. */
  function PumpStop(s: Bytes, rewrites: seq<HeaderRewrite>, reply: nat -> Reply, k: nat,
                    out: Bytes, metas: seq<Meta>, mode: Mode): Option<Pumped>
    decreases |s|
  {
    var stop := RequestStop(s, rewrites, reply(k), mode);
    if stop.Some? then Some(Pumped(out + stop.value.bytes, metas + stop.value.metas, stop.value.end))
    else if !RequestFits(s, rewrites, reply(k)) then None
    else
      match OneRequest(s, rewrites, reply(k))
      case Finish(_, _, _) => None
      case Continue(bytes, meta, rest) =>
        PumpStop(rest, rewrites, reply, k + 1, out + bytes, metas + [meta], RestMode(mode, |s| - |rest|))
  }

  /** The first thing of a request past its limit is read under every such cut. */
  predicate RequestForced(s: Bytes, rewrites: seq<HeaderRewrite>, reply: Reply, mode: Mode) {
    var e := FindBlank(s, 0);
    e < |s| &&
    if !HeadFits(e + 4) then HeadForced(mode, e + 4)
    else
      var block, t := s[..e + 4], s[e + 4..];
      !reply.Gone? && RewriteHead(block, rewrites).Ok? && FramingOf(block).Ok? &&
      BodyForced(t, FramingOf(block).value, BodyMode(mode, e + 4))
  }

  predicate BodyForced(t: Bytes, framing: Framing, mode: Mode) {
    var at := BodyStop(t, framing, Until(|t|));
    at.Some? && !Refusable(t, at.value, mode)
  }

  predicate PumpForced(s: Bytes, rewrites: seq<HeaderRewrite>, reply: nat -> Reply, k: nat, mode: Mode)
    decreases |s|
  {
    || RequestForced(s, rewrites, reply(k), mode)
    || (RequestFits(s, rewrites, reply(k)) &&
        var x := OneRequest(s, rewrites, reply(k));
        x.Continue? && PumpForced(x.rest, rewrites, reply, k + 1, RestMode(mode, |s| - |x.rest|)))
  }

  predicate OverLimit(end: End) {
    end == Failed(HeadTooLarge) || end == Failed(LineTooLong)
  }

  function Announced(x: Exchange): seq<Meta> {
    if x.Finish? then x.metas else [x.meta]
  }

  /** A turn did what the stream asks for. */
  ghost predicate Exchanged(x: Exchange, out: Bytes, metas: seq<Meta>, end: Option<End>, left: Bytes) {
    && out == x.bytes && metas == Announced(x)
    && (x.Finish? ==> end == Some(x.end))
    && (x.Continue? ==> end == None && left == x.rest)
  }

  /** A turn stopped at a limit: what it wrote and announced is what the stream asks for, cut off. */
  ghost predicate Stopped(x: Exchange, out: Bytes, metas: seq<Meta>, end: Option<End>) {
    end.Some? && OverLimit(end.value) && out <= x.bytes && metas <= Announced(x)
  }

  /** A turn got past the place where it would have stopped. */
  ghost predicate Beyond(stop: Exchange, bytes: Bytes, metas: seq<Meta>, end: Option<End>) {
    stop.Finish? &&
    if end.None? then |bytes| > |stop.bytes| || |metas| > |stop.metas|
    else (bytes, metas, end.value) != (stop.bytes, stop.metas, stop.end)
  }

  /** What a request comes to from its rewritten head on, likewise. */
  ghost predicate BodyTurn(t: Bytes, head: Bytes, framing: Framing, meta: Meta, reply: Reply, mode: Mode,
                           bytes: Bytes, end: Option<End>, rest: Bytes) {
    var x := AfterHead(t, head, framing, meta, reply);
    var stop, strict := BodyStop(t, framing, mode), BodyStop(t, framing, Until(|t|));
    && (|| Exchanged(x, bytes, [meta], end, rest)
        || (Stopped(x, bytes, [meta], end) && framing.Chunked? && !ChunksFit(t, 0)))
    && (stop.Some? ==> end == Some(Failed(LineTooLong)) && bytes == head + t[..stop.value])
    && (BodyForced(t, framing, mode) ==>
          strict.Some? && Beyond(Finish(head + t[..strict.value], [meta], Failed(LineTooLong)), bytes, [meta], end))
  }

  /** A request from its rewritten head on: head, body, and the verdict a tunnel candidate waits for. */
  method ForwardBody(reader: Reader, writer: Writer, carried: Bytes,
                     head: Bytes, framing: Framing, meta: Meta, reply: Reply, ghost mode: Mode)
    returns (end: Option<End>, carry: Bytes, ghost bytes: Bytes)
    requires Holds(mode, |carried|, reader.chunks, 0, carried + reader.Rest())
    modifies reader, writer
    ensures writer.out == old(writer.out) + bytes
    ensures var t := carried + old(reader.Rest());
      BodyTurn(t, head, framing, meta, reply, mode, bytes, end, carry + reader.Rest())
    ensures end.None? ==>
      var t, rest := carried + old(reader.Rest()), carry + reader.Rest();
      |rest| <= |t| && Between(RestMode(mode, |t| - |rest|), |carry|, reader.chunks, rest)
  {
    hide Flatten, CopyOf, ChunksFit, BodyStop, Shape, Refusable, BodyDid, BodyCutOff, BodyTurn, RestMode;
    ghost var t := carried + reader.Rest();
    var body;
    ghost var done;
    body, carry, done := CopyMessage(reader, writer, carried, head, framing, mode);
    CopiedTurn(t, head, framing, meta, reply, mode, body, done);
    bytes := head + t[..done];
    if body.Err? {
      BrokenTurn(t, head, framing, meta, reply, mode, body, done, carry + reader.Rest());
      return Some(Failed(body.error)), carry, bytes;
    }
    if !meta.TunnelCandidate() || reply.Declined? {
      RestHolds(mode, |carry|, reader.chunks, done, t);
      return None, carry, bytes;
    }
    if reply.Accepted? {
      writer.Write(carry);
      CopyToEnd(reader, writer);
      bytes := bytes + t[done..];
      assert writer.out == old(writer.out) + bytes;
      assert [] + reader.Rest() == [];
      return Some(Tunnelled), [], bytes;
    }
    EndedTurn(t, head, framing, meta, reply, mode, done, carry + reader.Rest());
    return Some(Closed), carry, bytes;
  }

  lemma CopiedTurn(t: Bytes, head: Bytes, framing: Framing, meta: Meta, reply: Reply, mode: Mode,
                   r: Result<(), HttpError>, done: nat)
    requires done <= |t| && (r == Err(LineTooLong) ==> Refusable(t, done, mode))
    requires BodyDid(t, framing, r, done) || BodyCutOff(t, framing, r, done)
    requires BodyStop(t, framing, mode).Some? ==> r == Err(LineTooLong) && done == BodyStop(t, framing, mode).value
    ensures r.Ok? && (!meta.TunnelCandidate() || reply.Declined?) ==>
      BodyTurn(t, head, framing, meta, reply, mode, head + t[..done], None, t[done..])
    ensures r.Ok? && meta.TunnelCandidate() && reply.Accepted? ==>
      BodyTurn(t, head, framing, meta, reply, mode, head + t[..done] + t[done..], Some(Tunnelled), [])
    ensures r.Ok? ==> CopyOf(t, framing) == Whole(done) && BodyStop(t, framing, mode).None?
  {
    hide CopyOf, ChunksFit, BodyStop, Refusable, BodyForced;
    CopiedBeyond(t, framing, head, r, done, mode);
    BodyForcedStops(t, framing, mode);
  }

  lemma EndedTurn(t: Bytes, head: Bytes, framing: Framing, meta: Meta, reply: Reply, mode: Mode, done: nat, rest: Bytes)
    requires CopyOf(t, framing) == Whole(done) && BodyStop(t, framing, mode).None?
    requires meta.TunnelCandidate() && !reply.Accepted? && !reply.Declined?
    ensures BodyTurn(t, head, framing, meta, reply, mode, head + t[..done], Some(Closed), rest)
  {
    hide CopyOf, ChunksFit, BodyStop, BodyForced;
    BodyForcedStops(t, framing, mode);
  }

  lemma BrokenTurn(t: Bytes, head: Bytes, framing: Framing, meta: Meta, reply: Reply, mode: Mode,
                   r: Result<(), HttpError>, done: nat, rest: Bytes)
    requires done <= |t| && r.Err? && (r == Err(LineTooLong) ==> Refusable(t, done, mode))
    requires BodyDid(t, framing, r, done) || BodyCutOff(t, framing, r, done)
    requires BodyStop(t, framing, mode).Some? ==> r == Err(LineTooLong) && done == BodyStop(t, framing, mode).value
    ensures BodyTurn(t, head, framing, meta, reply, mode, head + t[..done], Some(Failed(r.error)), rest)
  {
    hide CopyOf, ChunksFit, BodyStop, Refusable, BodyForced;
    CopiedBeyond(t, framing, head, r, done, mode);
    BodyForcedStops(t, framing, mode);
    CutOffPrefix(t, head, done, CopyExtent(CopyOf(t, framing)));
  }

  /** A copy that was sure to read the line it would have stopped at got past it, or met another error. */
  lemma CopiedBeyond(t: Bytes, framing: Framing, head: Bytes, r: Result<(), HttpError>, done: nat, mode: Mode)
    requires done <= |t| && (r == Err(LineTooLong) ==> Refusable(t, done, mode))
    requires BodyDid(t, framing, r, done) || BodyCutOff(t, framing, r, done)
    ensures var at := BodyStop(t, framing, Until(|t|));
      BodyForced(t, framing, mode) ==>
        if r.Ok? then |head + t[..done]| > |head + t[..at.value]|
        else r.error != LineTooLong || head + t[..done] != head + t[..at.value]
  {
    hide Refusable, CopyOf, BodyStop, ChunksFit;
    var at := BodyStop(t, framing, Until(|t|));
    if at.Some? {
      if r.Ok? {
        StopInside(t, framing);
      } else if head + t[..done] == head + t[..at.value] {
        assert |head + t[..done]| == |head + t[..at.value]|;
      }
    }
  }

  lemma CutOffPrefix(t: Bytes, head: Bytes, done: nat, end: nat)
    requires done <= |t| && end <= |t|
    ensures done <= end ==> head + t[..done] <= head + t[..end] && head + t[..done] <= head + t[..end] + t[end..]
  {
    if done <= end {
      assert head + t[..end] == (head + t[..done]) + t[done..end];
      assert head + t[..end] + t[end..] == (head + t[..done]) + t[done..];
    }
  }

  // Which of a request's parts is the first past its limit, if any.

  lemma LongHead(s: Bytes, rewrites: seq<HeaderRewrite>, reply: Reply, mode: Mode)
    requires FindBlank(s, 0) < |s| && !HeadFits(FindBlank(s, 0) + 4)
    ensures var end, refused := FindBlank(s, 0) + 4, Some(Finish([], [], Failed(HeadTooLarge)));
      && RequestStop(s, rewrites, reply, Until(|s|)) == refused && !RequestFits(s, rewrites, reply)
      && RequestStop(s, rewrites, reply, mode) == (if HeadRefused(mode, end) then refused else None)
      && RequestForced(s, rewrites, reply, mode) == HeadForced(mode, end)
  {
    hide FindBlank, BodyStop, BodyForced;
  }

  lemma NothingLong(s: Bytes, rewrites: seq<HeaderRewrite>, reply: Reply, mode: Mode)
    requires var e := FindBlank(s, 0);
      || e == |s|
      || (HeadFits(e + 4) && (reply.Gone? || RewriteHead(s[..e + 4], rewrites).Err? || FramingOf(s[..e + 4]).Err?))
    ensures RequestStop(s, rewrites, reply, mode).None? && !RequestForced(s, rewrites, reply, mode)
  {
    hide FindBlank, BodyStop, BodyForced, RewriteHead, FramingOf, MetaOf;
  }

  lemma LongBody(s: Bytes, rewrites: seq<HeaderRewrite>, reply: Reply, mode: Mode, head: Bytes, framing: Framing)
    requires FindBlank(s, 0) < |s| && HeadFits(FindBlank(s, 0) + 4) && !reply.Gone?
    requires RewriteHead(s[..FindBlank(s, 0) + 4], rewrites) == Ok(head)
    requires FramingOf(s[..FindBlank(s, 0) + 4]) == Ok(framing)
    ensures var end := FindBlank(s, 0) + 4; var t, meta := s[end..], MetaOf(s[..end]);
      var at, strict := BodyStop(t, framing, BodyMode(mode, end)), BodyStop(t, framing, Until(|t|));
      && RequestStop(s, rewrites, reply, mode) ==
           (if at.None? then None else Some(Finish(head + t[..at.value], [meta], Failed(LineTooLong))))
      && RequestStop(s, rewrites, reply, Until(|s|)) ==
           (if strict.None? then None else Some(Finish(head + t[..strict.value], [meta], Failed(LineTooLong))))
      && RequestForced(s, rewrites, reply, mode) == BodyForced(t, framing, BodyMode(mode, end))
  {
    hide FindBlank, BodyStop, BodyForced, RewriteHead, FramingOf, MetaOf;
    var end := FindBlank(s, 0) + 4;
    assert BodyMode(Until(|s|), end) == Until(|s[end..]|);
  }

  lemma BodyForcedStops(t: Bytes, framing: Framing, mode: Mode)
    ensures BodyForced(t, framing, mode) ==> BodyStop(t, framing, Until(|t|)).Some?
  {
  }

  /** What a turn comes to: what the stream asks for, or that cut off at a limit; exactly the stop where
      the first thing past a limit is refused; and something else where it is read. */
  ghost predicate TurnDone(s: Bytes, rewrites: seq<HeaderRewrite>, reply: Reply, mode: Mode,
                           bytes: Bytes, metas: seq<Meta>, end: Option<End>, rest: Bytes) {
    var x, stop := OneRequest(s, rewrites, reply), RequestStop(s, rewrites, reply, mode);
    && (|| Exchanged(x, bytes, metas, end, rest)
        || (Stopped(x, bytes, metas, end) && !RequestFits(s, rewrites, reply)))
    && (stop.Some? ==> bytes == stop.value.bytes && metas == stop.value.metas && end == Some(stop.value.end))
    && (RequestForced(s, rewrites, reply, mode) ==>
          var strict := RequestStop(s, rewrites, reply, Until(|s|));
          strict.Some? && Beyond(strict.value, bytes, metas, end))
  }

  lemma NoHeadDone(s: Bytes, rewrites: seq<HeaderRewrite>, reply: Reply, mode: Mode, end: End, rest: Bytes)
    requires FindBlank(s, 0) == |s| && (s == [] ==> end == Closed)
    requires s != [] ==> end == Failed(if |s| > MAX_HEADER_SIZE then HeadTooLarge else UnexpectedEof)
    ensures TurnDone(s, rewrites, reply, mode, [], [], Some(end), rest)
  {
    hide FindBlank, RequestStop, RequestForced, RequestFits, RewriteHead, FramingOf, MetaOf, AfterHead;
    NothingLong(s, rewrites, reply, mode);
  }

  lemma HeadRefusedDone(s: Bytes, rewrites: seq<HeaderRewrite>, reply: Reply, mode: Mode, rest: Bytes)
    requires FindBlank(s, 0) < |s| && !HeadForced(mode, FindBlank(s, 0) + 4)
    ensures TurnDone(s, rewrites, reply, mode, [], [], Some(Failed(HeadTooLarge)), rest)
  {
    hide FindBlank, RequestStop, RequestForced, RequestFits, OneRequest, HeadForced, HeadRefused;
    HeadFitsForced(mode, FindBlank(s, 0) + 4);
    LongHead(s, rewrites, reply, mode);
    assert [] <= OneRequest(s, rewrites, reply).bytes;
  }

  lemma HeadEndsDone(s: Bytes, rewrites: seq<HeaderRewrite>, reply: Reply, mode: Mode, end: End, rest: Bytes)
    requires FindBlank(s, 0) < |s| && !HeadRefused(mode, FindBlank(s, 0) + 4)
    requires var block := s[..FindBlank(s, 0) + 4]; var head, framing := RewriteHead(block, rewrites), FramingOf(block);
      if head.Err? then end == Failed(head.error)
      else if framing.Err? then end == Failed(framing.error) else reply.Gone? && end == Closed
    ensures TurnDone(s, rewrites, reply, mode, [], [], Some(end), rest)
  {
    hide FindBlank, RequestStop, RequestForced, RequestFits, HeadForced, HeadRefused, RewriteHead, FramingOf, MetaOf,
      AfterHead;
    HeadErrors(s[..FindBlank(s, 0) + 4], rewrites);
    if HeadFits(FindBlank(s, 0) + 4) {
      NothingLong(s, rewrites, reply, mode);
    } else {
      LongHead(s, rewrites, reply, mode);
    }
  }

  lemma BodyDone(s: Bytes, rewrites: seq<HeaderRewrite>, reply: Reply, mode: Mode, head: Bytes, framing: Framing,
                 bytes: Bytes, end: Option<End>, rest: Bytes)
    requires FindBlank(s, 0) < |s| && !HeadRefused(mode, FindBlank(s, 0) + 4) && !reply.Gone?
    requires RewriteHead(s[..FindBlank(s, 0) + 4], rewrites) == Ok(head)
    requires FramingOf(s[..FindBlank(s, 0) + 4]) == Ok(framing)
    requires var at := FindBlank(s, 0) + 4;
      BodyTurn(s[at..], head, framing, MetaOf(s[..at]), reply, BodyMode(mode, at), bytes, end, rest)
    ensures TurnDone(s, rewrites, reply, mode, bytes, [MetaOf(s[..FindBlank(s, 0) + 4])], end, rest)
  {
    hide FindBlank, RequestStop, RequestForced, HeadForced, HeadRefused, RewriteHead, FramingOf, MetaOf, AfterHead,
      BodyStop, BodyForced, ChunksFit, BodyMode;
    var at := FindBlank(s, 0) + 4;
    BodyForcedStops(s[at..], framing, BodyMode(mode, at));
    if HeadFits(at) {
      LongBody(s, rewrites, reply, mode, head, framing);
    } else {
      LongHead(s, rewrites, reply, mode);
    }
  }

  /** One turn of the loop of `rewrite_request_stream`. */
  method ForwardOne(reader: Reader, writer: Writer, carried: Bytes, rewrites: seq<HeaderRewrite>, reply: Reply,
                    ghost mode: Mode)
    returns (end: Option<End>, metas: seq<Meta>, carry: Bytes, ghost bytes: Bytes)
    requires Between(mode, |carried|, reader.chunks, carried + reader.Rest())
    modifies reader, writer
    ensures writer.out == old(writer.out) + bytes
    ensures TurnDone(carried + old(reader.Rest()), rewrites, reply, mode, bytes, metas, end, carry + reader.Rest())
    ensures end.None? ==>
      var s, rest := carried + old(reader.Rest()), carry + reader.Rest();
      |rest| <= |s| && Between(RestMode(mode, |s| - |rest|), |carry|, reader.chunks, rest)
  {
    hide Flatten, FindBlank, RewriteHead, FramingOf, MetaOf, CopyOf, ChunksFit, BodyStop, BodyForced, Reaches, Reached,
      Shape, TurnDone, BodyTurn, BodyMode, HeadForced, HeadRefused;
    ghost var s := carried + reader.Rest();
    ghost var e := FindBlank(s, 0);
    if e < |s| {
      HeadJudged(mode, |carried|, reader.chunks, s, e + 4);
      if Reaches(|carried|, reader.chunks, e + 4, MAX_HEADER_SIZE, HEAD_READ) {
        HeadHolds(mode, |carried|, reader.chunks, s, e + 4);
      }
    }
    var block;
    block, carry := ReadHeaderBlock(reader, carried);
    bytes := [];
    if block.Err? {
      if e == |s| {
        NoHeadDone(s, rewrites, reply, mode, Failed(block.error), carry + reader.Rest());
      } else {
        HeadRefusedDone(s, rewrites, reply, mode, carry + reader.Rest());
      }
      return Some(Failed(block.error)), [], carry, [];
    }
    if block.value.None? {
      NoHeadDone(s, rewrites, reply, mode, Closed, carry + reader.Rest());
      return Some(Closed), [], carry, [];
    }
    var at := block.value.value;
    assert carry[..at] == s[..at] && carry[at..] + reader.Rest() == s[at..];
    var head := RewriteRequestHead(carry[..at], rewrites);
    if head.Err? {
      HeadEndsDone(s, rewrites, reply, mode, Failed(head.error), carry + reader.Rest());
      return Some(Failed(head.error)), [], carry, [];
    }
    var framing := FramingOf(carry[..at]);
    if framing.Err? {
      HeadEndsDone(s, rewrites, reply, mode, Failed(framing.error), carry + reader.Rest());
      return Some(Failed(framing.error)), [], carry, [];
    }
    var meta := MetaOf(carry[..at]);
    if reply.Gone? {
      HeadEndsDone(s, rewrites, reply, mode, Closed, carry + reader.Rest());
      return Some(Closed), [], carry, [];
    }
    end, carry, bytes := ForwardBody(reader, writer, carry[at..], head.value, framing.value, meta, reply,
                                     BodyMode(mode, at));
    metas := [meta];
    BodyDone(s, rewrites, reply, mode, head.value, framing.value, bytes, end, carry + reader.Rest());
    if end.None? { RestOfBody(mode, at, |s[at..]| - |carry + reader.Rest()|); }
  }

  lemma HeadFitsForced(mode: Mode, end: nat)
    ensures HeadFits(end) ==> HeadForced(mode, end)
  {
  }

  lemma RestOfBody(mode: Mode, end: nat, n: nat)
    ensures RestMode(BodyMode(mode, end), n) == RestMode(mode, end + n)
  {
  }

  /** No error of a whole head is the one for its size. */
  lemma HeadErrors(block: Bytes, rewrites: seq<HeaderRewrite>)
    ensures RewriteHead(block, rewrites) != Err(HeadTooLarge)
    ensures FramingOf(block) != Err(HeadTooLarge)
  {
    hide RewriteFields, FramingFrom, Insert, ParseHead, MetaOf;
    var r := FindCrlf(block, 0);
    if r < |block| { FieldErrors(block, r + 2, rewrites, Insert(block[..r + 2], rewrites)); }
    FramingErrors(ParseHead(block).fields, false, false, None);
  }

  lemma LineErrors(f: Bytes)
    requires f != []
    ensures LineError(f) != Some(HeadTooLarge)
  {
  }

  lemma {:induction false} FieldErrors(block: Bytes, i: nat, rewrites: seq<HeaderRewrite>, out: Bytes)
    requires i <= |block|
    ensures RewriteFields(block, i, rewrites, out) != Err(HeadTooLarge)
    decreases |block| - i
  {
    hide Owned, Name, FindCrlf, LineError;
    var r := FindCrlf(block, i);
    if i < r < |block| {
      assert LineError(block[i..r]) != Some(HeadTooLarge) by { LineErrors(block[i..r]); }
    }
    if r < |block| {
      FieldErrors(block, r + 2, rewrites, out);
      FieldErrors(block, r + 2, rewrites, out + block[i..r + 2]);
    }
  }

  lemma {:induction false} FramingErrors(fields: seq<Bytes>, te: bool, chunked: bool, length: Option<nat>)
    ensures FramingFrom(fields, te, chunked, length) != Err(HeadTooLarge)
    decreases |fields|
  {
    hide FinalChunked, ParseU64;
    if fields != [] {
      if Names(fields[0], TRANSFER_ENCODING) {
        FramingErrors(fields[1..], true, FinalChunked(FieldValue(fields[0])), length);
      } else if Names(fields[0], CONTENT_LENGTH) {
        FramingErrors(fields[1..], te, chunked, ParseU64(FieldValue(fields[0]), 10));
      } else {
        FramingErrors(fields[1..], te, chunked, length);
      }
    }
  }

  lemma StrictRest(n: nat, m: nat)
    ensures m <= n ==> RestMode(Until(n), n - m) == Until(m)
  {
  }

  lemma NotTheSame(before: Bytes, bytes: Bytes, metas: seq<Meta>, announced: seq<Meta>, stop: Option<Exchange>,
                   end: End)
    ensures stop.Some? && Beyond(stop.value, bytes, announced, Some(end)) ==>
      Pumped(before + bytes, metas + announced, end) !=
      Pumped(before + stop.value.bytes, metas + stop.value.metas, stop.value.end)
  {
    if stop.Some? && stop.value.Finish? {
      assert before + bytes == before + stop.value.bytes ==> bytes == stop.value.bytes by {
        assert (before + bytes)[|before|..] == bytes;
        assert (before + stop.value.bytes)[|before|..] == stop.value.bytes;
      }
      assert metas + announced == metas + stop.value.metas ==> announced == stop.value.metas by {
        assert (metas + announced)[|metas|..] == announced;
        assert (metas + stop.value.metas)[|metas|..] == stop.value.metas;
      }
    }
  }

  /** `rewrite_request_stream`. However the stream is cut into reads, the pump writes, announces
      and ends as the stream alone says, as long as heads and control lines are within their
      limits; past a limit it may stop early, having written nothing but a prefix of that. What is known
      of the cut decides more: where the first thing past a limit is refused it stops right there, and
      where it is read it ends otherwise. */
  method RewriteRequestStream(reader: Reader, writer: Writer, rewrites: seq<HeaderRewrite>, reply: nat -> Reply,
                              ghost mode: Mode)
    returns (metas: seq<Meta>, end: End)
    requires Between(mode, 0, reader.chunks, reader.Rest())
    modifies reader, writer
    ensures var s := old(reader.Rest()); var p := Pump(s, rewrites, reply, 0, old(writer.out), []);
      || (writer.out == p.out && metas == p.metas && end == p.end)
      || (!StreamFits(s, rewrites, reply, 0) && OverLimit(end) && writer.out <= p.out && metas <= p.metas)
    ensures var stop := PumpStop(old(reader.Rest()), rewrites, reply, 0, old(writer.out), [], mode);
      stop.Some? ==> Pumped(writer.out, metas, end) == stop.value
    ensures var s := old(reader.Rest()); var strict := PumpStop(s, rewrites, reply, 0, old(writer.out), [], Until(|s|));
      PumpForced(s, rewrites, reply, 0, mode) ==> strict.Some? && Pumped(writer.out, metas, end) != strict.value
  {
    hide Flatten, OneRequest, RequestFits, RequestStop, RequestForced, Between, RestMode, PumpStop, PumpForced, Pump,
      StreamFits;
    var carry: Bytes := [];
    var k: nat := 0;
    metas := [];
    ghost var s := reader.Rest();
    ghost var whole, fits := Pump(s, rewrites, reply, 0, writer.out, []), StreamFits(s, rewrites, reply, 0);
    ghost var stop := PumpStop(s, rewrites, reply, 0, writer.out, [], mode);
    ghost var strict := PumpStop(s, rewrites, reply, 0, writer.out, [], Until(|s|));
    ghost var forced, passed, m := PumpForced(s, rewrites, reply, 0, mode), false, mode;
    assert carry + reader.Rest() == s;
    while true
      invariant s == carry + reader.Rest() && Between(m, |carry|, reader.chunks, s)
      invariant whole == Pump(s, rewrites, reply, k, writer.out, metas)
      invariant fits ==> StreamFits(s, rewrites, reply, k)
      invariant stop.Some? ==> PumpStop(s, rewrites, reply, k, writer.out, metas, m) == stop
      invariant forced && !passed ==> PumpForced(s, rewrites, reply, k, m)
      invariant forced && !passed ==> PumpStop(s, rewrites, reply, k, writer.out, metas, Until(|s|)) == strict
      invariant passed ==> strict.Some? && (|writer.out| > |strict.value.out| || |metas| > |strict.value.metas|)
      decreases |s|
    {
      ghost var before := writer.out;
      ghost var x := OneRequest(s, rewrites, reply(k));
      StepOf(s, rewrites, reply, k, before, metas, m);
      StopOf(s, rewrites, reply, k, before, metas, m);
      StopOf(s, rewrites, reply, k, before, metas, Until(|s|));
      FitsNotStopped(s, rewrites, reply(k));
      var last, announced;
      ghost var bytes;
      last, announced, carry, bytes := ForwardOne(reader, writer, carry, rewrites, reply(k), m);
      StrictRest(|s|, |carry + reader.Rest()|);
      if last.Some? {
        PumpStops(s, rewrites, reply, k, before, metas, bytes, announced);
        NotTheSame(before, bytes, metas, announced, RequestStop(s, rewrites, reply(k), Until(|s|)), last.value);
        return metas + announced, last.value;
      }
      passed := passed || (forced && RequestForced(s, rewrites, reply(k), m));
      metas := metas + announced;
      m := RestMode(m, |s| - |carry + reader.Rest()|);
      s := carry + reader.Rest();
      k := k + 1;
    }
  }

  lemma PumpStops(s: Bytes, rewrites: seq<HeaderRewrite>, reply: nat -> Reply, k: nat,
                  out: Bytes, metas: seq<Meta>, bytes: Bytes, announced: seq<Meta>)
    ensures var x := OneRequest(s, rewrites, reply(k)); var p := Pump(s, rewrites, reply, k, out, metas);
      bytes <= x.bytes && announced <= Announced(x) ==> out + bytes <= p.out && metas + announced <= p.metas
  {
    hide OneRequest;
    var x := OneRequest(s, rewrites, reply(k));
    if x.Continue? {
      PumpExtends(x.rest, rewrites, reply, k + 1, out + x.bytes, metas + [x.meta]);
      var p := Pump(s, rewrites, reply, k, out, metas);
      if bytes <= x.bytes && announced <= [x.meta] {
        PrefixTrans(out + bytes, out + x.bytes, p.out);
        PrefixTrans(metas + announced, metas + [x.meta], p.metas);
      }
    }
  }

  /** What the first request says about a pump's whole run. */
  lemma StepOf(s: Bytes, rewrites: seq<HeaderRewrite>, reply: nat -> Reply, k: nat, out: Bytes, metas: seq<Meta>,
               mode: Mode)
    ensures var x := OneRequest(s, rewrites, reply(k));
      && (x.Finish? ==> Pump(s, rewrites, reply, k, out, metas) == Pumped(out + x.bytes, metas + x.metas, x.end))
      && (x.Continue? ==>
            Pump(s, rewrites, reply, k, out, metas) ==
            Pump(x.rest, rewrites, reply, k + 1, out + x.bytes, metas + [x.meta]))
      && (StreamFits(s, rewrites, reply, k) ==> RequestFits(s, rewrites, reply(k)))
      && (StreamFits(s, rewrites, reply, k) && x.Continue? ==> StreamFits(x.rest, rewrites, reply, k + 1))
      && (PumpForced(s, rewrites, reply, k, mode) ==>
            || RequestForced(s, rewrites, reply(k), mode)
            || (RequestFits(s, rewrites, reply(k)) && x.Continue? &&
                PumpForced(x.rest, rewrites, reply, k + 1, RestMode(mode, |s| - |x.rest|))))
  {
    hide OneRequest, RequestFits, RequestForced, RestMode;
  }

  lemma StopOf(s: Bytes, rewrites: seq<HeaderRewrite>, reply: nat -> Reply, k: nat, out: Bytes, metas: seq<Meta>,
               mode: Mode)
    ensures var x, stop := OneRequest(s, rewrites, reply(k)), RequestStop(s, rewrites, reply(k), mode);
      var p := PumpStop(s, rewrites, reply, k, out, metas, mode);
      && (stop.Some? ==>
            stop.value.Finish? && p == Some(Pumped(out + stop.value.bytes, metas + stop.value.metas, stop.value.end)))
      && (stop.None? && p.Some? ==> x.Continue? && RequestFits(s, rewrites, reply(k)))
      && (stop.None? && x.Continue? && RequestFits(s, rewrites, reply(k)) ==>
            p == PumpStop(x.rest, rewrites, reply, k + 1, out + x.bytes, metas + [x.meta],
                          RestMode(mode, |s| - |x.rest|)))
  {
    hide OneRequest, RequestFits, RequestStop, RestMode;
  }

  lemma FitsNotStopped(s: Bytes, rewrites: seq<HeaderRewrite>, reply: Reply)
    ensures RequestFits(s, rewrites, reply) ==> RequestStop(s, rewrites, reply, Until(|s|)).None?
  {
    hide FindBlank, RewriteHead, FramingOf, MetaOf, ChunksFit, ChunksStop, RequestStop, RequestForced;
    var e := FindBlank(s, 0);
    if RequestFits(s, rewrites, reply) {
      if e == |s| || reply.Gone? || RewriteHead(s[..e + 4], rewrites).Err? || FramingOf(s[..e + 4]).Err? {
        NothingLong(s, rewrites, reply, Until(|s|));
      } else {
        LongBody(s, rewrites, reply, Any, RewriteHead(s[..e + 4], rewrites).value, FramingOf(s[..e + 4]).value);
        ChunksStrict(s[e + 4..], 0);
      }
    }
  }

  // ---- Any two cuts of a stream ----

  /** Fragmentation independence: two readers delivering the same bytes in different pieces make
      the pump write the same bytes, announce the same requests and end the same way, as long as the
      first head or line past its limit, if there is one, is past what any cut can reach. */
  method AnyTwoCuts(a: seq<Bytes>, b: seq<Bytes>, rewrites: seq<HeaderRewrite>, reply: nat -> Reply)
    returns (outA: Bytes, metasA: seq<Meta>, endA: End, outB: Bytes, metasB: seq<Meta>, endB: End)
    requires Pieces(a) && Pieces(b) && Flatten(a) == Flatten(b)
    requires StreamFits(Flatten(a), rewrites, reply, 0) || PumpStop(Flatten(a), rewrites, reply, 0, [], [], Any).Some?
    ensures outA == outB && metasA == metasB && endA == endB
    ensures var stop := PumpStop(Flatten(a), rewrites, reply, 0, [], [], Any);
      Pumped(outA, metasA, endA) == if stop.Some? then stop.value else Pump(Flatten(a), rewrites, reply, 0, [], [])
  {
    hide PumpStop, Pump, StreamFits, Flatten, PumpForced;
    var readerA := new Reader(a);
    var writerA := new Writer();
    metasA, endA := RewriteRequestStream(readerA, writerA, rewrites, reply, Any);
    var readerB := new Reader(b);
    var writerB := new Writer();
    metasB, endB := RewriteRequestStream(readerB, writerB, rewrites, reply, Any);
    outA, outB := writerA.out, writerB.out;
  }

  /** If the first thing of a request past its limit is within some cut's reach, such a cut is one that
      brings some bytes one at a time and then the rest at once. */
  lemma RequestTarget(s: Bytes, rewrites: seq<HeaderRewrite>, reply: Reply) returns (x: nat)
    requires !RequestFits(s, rewrites, reply) && RequestStop(s, rewrites, reply, Any).None?
    ensures x <= |s| && RequestForced(s, rewrites, reply, Until(x))
  {
    hide FindBlank, RewriteHead, FramingOf, MetaOf, ChunksFit, ChunksStop;
    var end := FindBlank(s, 0) + 4;
    if !HeadFits(end) {
      x := MAX_HEADER_SIZE;
    } else {
      var t := s[end..];
      ChunksStrict(t, 0);
      var j := ChunksStop(t, 0, Until(|t|)).value;
      var n := FindLine(t, j);
      if n <= MAX_CHUNK_LINE + LINE_READ {
        x := end + j + MAX_CHUNK_LINE;
        assert BodyMode(Until(x), end) == Until(j + MAX_CHUNK_LINE);
      } else {
        x := end - 1;
        assert BodyMode(Until(x), end) == Ample;
      }
    }
  }

  lemma FindLine(t: Bytes, j: nat) returns (n: nat)
    requires LongLine(t, j) && !LongHopeless(t, j)
    ensures j + n <= |t| && !LineFits(n) && (n <= MAX_CHUNK_LINE + LINE_READ || j + n < HEAD_READ)
    ensures forall mode :: LineForced(mode, j, n) ==> !Refusable(t, j, mode)
  {
    n := FindCrlf(t, j) + 2 - j;
  }

  lemma {:induction false} PumpTarget(s: Bytes, rewrites: seq<HeaderRewrite>, reply: nat -> Reply, k: nat,
                                      out: Bytes, metas: seq<Meta>) returns (x: nat)
    requires !StreamFits(s, rewrites, reply, k) && PumpStop(s, rewrites, reply, k, out, metas, Any).None?
    ensures x <= |s| && PumpForced(s, rewrites, reply, k, Until(x))
    decreases |s|
  {
    hide RequestFits, RequestStop, RequestForced, OneRequest;
    if !RequestFits(s, rewrites, reply(k)) {
      x := RequestTarget(s, rewrites, reply(k));
    } else {
      var next := OneRequest(s, rewrites, reply(k));
      x := PumpTarget(next.rest, rewrites, reply, k + 1, out + next.bytes, metas + [next.meta]);
      x := |s| - |next.rest| + x;
    }
  }

  /** And for every other stream there are two cuts under which the pump does not do the same: brought
      byte by byte it stops at the first thing past its limit, and another cut gets it past that. So
      what the pump does is independent of the cut if and only if the stream is within its limits, or
      the first thing that is not is past what any cut can reach. */
  method CutsDiffer(s: Bytes, rewrites: seq<HeaderRewrite>, reply: nat -> Reply)
    returns (a: seq<Bytes>, outA: Bytes, metasA: seq<Meta>, endA: End,
             b: seq<Bytes>, outB: Bytes, metasB: seq<Meta>, endB: End)
    requires !StreamFits(s, rewrites, reply, 0) && PumpStop(s, rewrites, reply, 0, [], [], Any).None?
    ensures Cut(a, s) && Cut(b, s) && (outA, metasA, endA) != (outB, metasB, endB)
    ensures Some(Pumped(outA, metasA, endA)) == PumpStop(s, rewrites, reply, 0, [], [], Until(|s|))
  {
    hide PumpStop, PumpForced, StreamFits, Pump, ByteCut, Flatten;
    ghost var target := PumpTarget(s, rewrites, reply, 0, [], []);
    var x := 0;
    while !PumpForced(s, rewrites, reply, 0, Until(x))
      invariant x <= target <= |s|
      decreases target - x
    {
      x := x + 1;
    }
    assert s[0..] == s;
    a, b := ByteCut(s, |s|), ByteCut(s, x);
    var readerA := new Reader(a);
    var writerA := new Writer();
    metasA, endA := RewriteRequestStream(readerA, writerA, rewrites, reply, Until(|s|));
    var readerB := new Reader(b);
    var writerB := new Writer();
    metasB, endB := RewriteRequestStream(readerB, writerB, rewrites, reply, Until(x));
    outA, outB := writerA.out, writerB.out;
  }
}
