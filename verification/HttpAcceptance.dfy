/** Which client streams the rewriter accepts: exactly those that are a sequence of whole requests
    with acceptable heads. */
module HttpAcceptance {
  import opened Bytes
  import opened HttpHead
  import opened HttpHeadLaws
  import opened HttpStream
  import opened HttpReframing

  /** A whole request with an acceptable head is forwarded, and the pump goes on. */
  lemma TurnAccepts(s: Bytes, rewrites: seq<HeaderRewrite>, reply: Reply)
    requires Next(s).Some? && Acceptable([Next(s).value.0]) && reply.Declined?
    ensures OneRequest(s, rewrites, reply).Continue?
  {
    var r := Next(s).value.0;
    assert Acceptable([r]) ==> WellFormed([r][0].head) && FirstError([r][0].head.fields).None?;
    hide RewriteHead, FramingOf, MetaOf, CopyOf, ParseHead, FirstError, IsBlock, WellFormed, Rewritten, PrintHead,
      Acceptable;
    var e := FindBlank(s, 0);
    BlockOfStream(s);
    RewriteHeadMeaning(s[..e + 4], rewrites);
  }

  ghost predicate AllDeclined(reply: nat -> Reply) { forall k :: reply(k).Declined? }

  /** The pump's whole run over `m` acceptable requests and what follows them. */
  lemma {:induction false} WholeRequestsGoThrough(s: Bytes, m: nat, rewrites: seq<HeaderRewrite>, reply: nat -> Reply,
                                                  k: nat)
    requires Take(s, m).Some? && Acceptable(Take(s, m).value.0) && AllDeclined(reply)
    ensures var (rs, rest) := Take(s, m).value; var q := Pump(rest, rewrites, reply, k + m, [], []);
      Pump(s, rewrites, reply, k, [], []) == Pumped(Forwarded(rs, rewrites) + q.out, Metas(rs) + q.metas, q.end)
    decreases m
  {
    hide Next, MetaOf, Rewritten, FirstError, WellFormed, PrintHead, Forwarded, OneRequest;
    if m == 0 {
      var q := Pump(s, rewrites, reply, k, [], []);
      NothingForwarded(rewrites, q.out);
      assert Metas([]) + q.metas == q.metas;
    } else {
      var (r, n) := Next(s).value;
      var (later, rest) := Take(s[n..], m - 1).value;
      var rs := [r] + later;
      assert rs[0] == r && rs[1..] == later;
      AcceptableParts(r, later);
      hide Acceptable;
      assert reply(k).Declined?;
      TurnAccepts(s, rewrites, reply(k));
      TurnForwards(s, rewrites, reply(k));
      var x := OneRequest(s, rewrites, reply(k));
      PumpTurn(s, rewrites, reply, k);
      hide Pump;
      WholeRequestsGoThrough(s[n..], m - 1, rewrites, reply, k + 1);
      var q := Pump(rest, rewrites, reply, k + m, [], []);
      ForwardedStep(r, later, rewrites, q.out);
      var one := RewriteOne(r, rewrites);
      assert PrintHead(one.head) + (one.body + (Forwarded(later, rewrites) + q.out))
        == x.bytes + (Forwarded(later, rewrites) + q.out);
      assert [x.meta] + (Metas(later) + q.metas) == Metas(rs) + q.metas;
    }
  }

  lemma AcceptableParts(r: Request, later: seq<Request>)
    requires Acceptable([r] + later)
    ensures Acceptable([r]) && Acceptable(later)
  {
    hide WellFormed, FirstError;
    var rs := [r] + later;
    assert rs[0] == r && forall i :: 0 <= i < |later| ==> later[i] == rs[i + 1];
  }

  lemma PumpTurn(s: Bytes, rewrites: seq<HeaderRewrite>, reply: nat -> Reply, k: nat)
    requires OneRequest(s, rewrites, reply(k)).Continue?
    ensures var x := OneRequest(s, rewrites, reply(k)); var q := Pump(x.rest, rewrites, reply, k + 1, [], []);
      Pump(s, rewrites, reply, k, [], []) == Pumped(x.bytes + q.out, [x.meta] + q.metas, q.end)
  {
    hide OneRequest;
    var x := OneRequest(s, rewrites, reply(k));
    assert [] + x.bytes == x.bytes && [] + [x.meta] == [x.meta];
    PumpAppends(x.rest, rewrites, reply, k + 1, x.bytes, [x.meta]);
  }

  /** A stream that is nothing but whole requests with acceptable heads. */
  ghost predicate WellFramed(s: Bytes) {
    exists m: nat :: Take(s, m).Some? && Take(s, m).value.1 == [] && Acceptable(Take(s, m).value.0)
  }

  /** Acceptance, exactly: with no tunnel, the pump reaches the end of the stream without an error if
      and only if the stream is well framed. */
  lemma AcceptedExactly(s: Bytes, rewrites: seq<HeaderRewrite>, reply: nat -> Reply)
    requires AllDeclined(reply)
    ensures Pump(s, rewrites, reply, 0, [], []).end.Closed? <==> WellFramed(s)
  {
    hide Pump, WellFramed;
    if WellFramed(s) { FramedIsAccepted(s, rewrites, reply); }
    if Pump(s, rewrites, reply, 0, [], []).end.Closed? { AcceptedIsFramed(s, rewrites, reply); }
  }

  lemma FramedIsAccepted(s: Bytes, rewrites: seq<HeaderRewrite>, reply: nat -> Reply)
    requires AllDeclined(reply) && WellFramed(s)
    ensures Pump(s, rewrites, reply, 0, [], []).end.Closed?
  {
    hide Pump, Forwarded, Acceptable, Metas, Take;
    var m: nat :| Take(s, m).Some? && Take(s, m).value.1 == [] && Acceptable(Take(s, m).value.0);
    WholeRequestsGoThrough(s, m, rewrites, reply, 0);
    NothingLeft(rewrites, reply, m);
  }

  lemma AcceptedIsFramed(s: Bytes, rewrites: seq<HeaderRewrite>, reply: nat -> Reply)
    requires AllDeclined(reply) && Pump(s, rewrites, reply, 0, [], []).end.Closed?
    ensures WellFramed(s)
  {
    hide Pump, Forwarded, Acceptable, Metas, Take, CutShort;
    var m := PumpExplained(s, rewrites, reply, 0);
    assert Attentive(reply);
  }

  lemma NothingLeft(rewrites: seq<HeaderRewrite>, reply: nat -> Reply, k: nat)
    ensures Pump([], rewrites, reply, k, [], []).end.Closed?
  {
  }
}
