/** The forwarded stream frames like the client's: the rewriter's output parses, by the same rules,
    into the client's requests with their owned fields replaced and their bodies untouched. */
module HttpReframing {
  import opened Wrappers
  import opened Bytes
  import opened Text
  import opened HttpHead
  import opened HttpHeadLaws
  import opened HttpStream

  /** One framed request: its head, and the wire bytes of its body. */
  datatype Request = Request(head: Head, body: Bytes)

  /** The request a stream starts with and its length on the wire, by the framing rules alone. */
  function Next(s: Bytes): (r: Option<(Request, nat)>)
    ensures r.Some? ==> 0 < r.value.1 <= |s|
  {
    var e := FindBlank(s, 0);
    if e == |s| then None
    else
      var block, rest := s[..e + 4], s[e + 4..];
      var framing := FramingOf(block);
      if framing.Err? then None
      else
        match CopyOf(rest, framing.value)
        case Broken(_, _) => None
        case Whole(n) => Some((Request(ParseHead(block), rest[..n]), e + 4 + n))
  }

  /** The first `k` requests of a stream and what follows them. */
  function Take(s: Bytes, k: nat): Option<(seq<Request>, Bytes)>
    decreases k
  {
    if k == 0 then Some(([], s))
    else
      match Next(s)
      case None => None
      case Some((r, n)) =>
        match Take(s[n..], k - 1)
        case None => None
        case Some((rs, rest)) => Some(([r] + rs, rest))
  }

  function RewriteOne(r: Request, rewrites: seq<HeaderRewrite>): Request {
    Request(Rewritten(r.head, rewrites), r.body)
  }

  function RewriteAll(rs: seq<Request>, rewrites: seq<HeaderRewrite>): (q: seq<Request>)
    ensures |q| == |rs|
  {
    if rs == [] then [] else [RewriteOne(rs[0], rewrites)] + RewriteAll(rs[1..], rewrites)
  }

  function Print(rs: seq<Request>): Bytes {
    if rs == [] then [] else PrintHead(rs[0].head) + rs[0].body + Print(rs[1..])
  }

  // ---- Owned headers ----

  predicate Relevant(f: Bytes) {
    || Names(f, TRANSFER_ENCODING) || Names(f, CONTENT_LENGTH)
    || Names(f, CONNECTION) || Names(f, UPGRADE)
  }

  /** An owned header is a plain field name that frames nothing, with a value of one line. */
  predicate GoodRewrite(r: HeaderRewrite) {
    && r.name != [] && !HasWhitespace(r.name) && FindByte(r.name, COLON) == |r.name|
    && !EqIgnoreCase(r.name, TRANSFER_ENCODING) && !EqIgnoreCase(r.name, CONTENT_LENGTH)
    && !EqIgnoreCase(r.name, CONNECTION) && !EqIgnoreCase(r.name, UPGRADE)
    && (r.value.Some? ==> NoCrlf(r.value.value))
  }

  predicate GoodRewrites(rewrites: seq<HeaderRewrite>) {
    forall i :: 0 <= i < |rewrites| ==> GoodRewrite(rewrites[i])
  }

  lemma {:induction false} NoWhitespaceAt(s: Bytes, i: nat)
    requires !HasWhitespace(s) && i < |s|
    ensures !AsciiWhitespace(s[i])
  {
    if i > 0 { NoWhitespaceAt(s[1..], i - 1); }
  }

  lemma TrimName(s: Bytes)
    requires !HasWhitespace(s)
    ensures Trim(s) == s
  {
    if s != [] {
      NoWhitespaceAt(s, 0);
      NoWhitespaceAt(s, |s| - 1);
    }
  }

  /** An accepted line's field name is the one `rewrite_request_head` compares. */
  lemma {:induction false} OwnedNotRelevant(f: Bytes, rewrites: seq<HeaderRewrite>)
    requires WellFormedField(f) && LineError(f).None?
    requires GoodRewrites(rewrites) && Owned(Name(f), rewrites)
    ensures !Relevant(f)
    decreases |rewrites|
  {
    TrimName(Name(f));
    if !EqIgnoreCase(rewrites[0].name, Name(f)) {
      OwnedNotRelevant(f, rewrites[1..]);
    }
  }

  lemma InsertedLine(r: HeaderRewrite)
    requires GoodRewrite(r) && r.value.Some?
    ensures var f := r.name + [COLON, SP] + r.value.value;
      WellFormedField(f) && Name(f) == r.name && !Relevant(f)
  {
    var f := r.name + [COLON, SP] + r.value.value;
    assert FindByte(f, COLON) == |r.name| by {
      assert f[|r.name|] == COLON;
      assert forall j :: 0 <= j < |r.name| ==> f[j] == r.name[j];
    }
    TrimName(r.name);
    forall j | 0 <= j < |f| ensures !CrlfAt(f, j) {
      if j < |r.name| {
        NoWhitespaceAt(r.name, j);
      } else if j >= |r.name| + 2 {
        assert !CrlfAt(r.value.value, j - |r.name| - 2);
      }
    }
  }

  // ---- Framing is untouched by a rewrite ----

  function RelevantOnly(fields: seq<Bytes>): seq<Bytes> {
    if fields == [] then []
    else if Relevant(fields[0]) then [fields[0]] + RelevantOnly(fields[1..])
    else RelevantOnly(fields[1..])
  }

  lemma {:induction false} RelevantConcat(a: seq<Bytes>, b: seq<Bytes>)
    ensures RelevantOnly(a + b) == RelevantOnly(a) + RelevantOnly(b)
  {
    if a == [] {
      assert a + b == b;
    } else {
      assert (a + b)[1..] == a[1..] + b;
      RelevantConcat(a[1..], b);
    }
  }

  lemma {:induction false} RelevantInsertions(rewrites: seq<HeaderRewrite>)
    requires GoodRewrites(rewrites)
    ensures RelevantOnly(Insertions(rewrites)) == [] && AllWellFormed(Insertions(rewrites))
  {
    if rewrites != [] {
      RelevantInsertions(rewrites[1..]);
      if rewrites[0].value.Some? {
        InsertedLine(rewrites[0]);
        assert Insertions(rewrites)[1..] == Insertions(rewrites[1..]);
      }
    }
  }

  lemma {:induction false} RelevantKept(fields: seq<Bytes>, rewrites: seq<HeaderRewrite>)
    requires GoodRewrites(rewrites) && AllWellFormed(fields) && FirstError(fields).None?
    ensures RelevantOnly(Kept(fields, rewrites)) == RelevantOnly(fields)
    ensures AllWellFormed(Kept(fields, rewrites))
  {
    if fields != [] {
      RelevantKept(fields[1..], rewrites);
      if Owned(Name(fields[0]), rewrites) {
        OwnedNotRelevant(fields[0], rewrites);
      } else {
        assert Kept(fields, rewrites)[1..] == Kept(fields[1..], rewrites);
      }
    }
  }

  lemma {:induction false} FramingByRelevant(fields: seq<Bytes>, te: bool, chunked: bool, length: Option<nat>)
    ensures FramingFrom(fields, te, chunked, length)
         == FramingFrom(RelevantOnly(fields), te, chunked, length)
    decreases |fields|
  {
    if fields != [] {
      var te', chunked', length' := te, chunked, length;
      if Names(fields[0], TRANSFER_ENCODING) {
        te', chunked' := true, FinalChunked(FieldValue(fields[0]));
      } else if Names(fields[0], CONTENT_LENGTH) {
        length' := ParseU64(FieldValue(fields[0]), 10);
      }
      FramingByRelevant(fields[1..], te', chunked', length');
      if Relevant(fields[0]) {
        assert RelevantOnly(fields)[1..] == RelevantOnly(fields[1..]);
      }
    }
  }

  lemma {:induction false} UpgradeByRelevant(fields: seq<Bytes>)
    ensures AnyNamed(fields, UPGRADE) == AnyNamed(RelevantOnly(fields), UPGRADE)
    ensures ConnectionHas(fields, UPGRADE) == ConnectionHas(RelevantOnly(fields), UPGRADE)
  {
    if fields != [] {
      UpgradeByRelevant(fields[1..]);
      if Relevant(fields[0]) {
        assert RelevantOnly(fields)[1..] == RelevantOnly(fields[1..]);
      }
    }
  }

  predicate Letters(m: Bytes) {
    forall j :: 0 <= j < |m| ==> 65 <= m[j] <= 90
  }

  /** The method is `m`, decided inside the request line. */
  predicate LineMethod(line: Bytes, m: Bytes) {
    |line| > |m| && line[|m|] == SP && EqIgnoreCase(line[..|m|], m)
  }

  lemma MethodFromLine(h: Head, m: Bytes)
    requires Letters(m) && LineMethod(h.line, m)
    ensures EqIgnoreCase(Method(PrintHead(h)), m)
  {
    var b := PrintHead(h);
    assert b[..|m|] == h.line[..|m|];
    assert b[|m|] == SP;
    forall j | 0 <= j < |m| ensures b[j] != SP {
      assert Lower(h.line[..|m|][j]) == Lower(m[j]);
    }
  }

  lemma MethodInLine(h: Head, m: Bytes)
    requires Letters(m) && m != [] && EqIgnoreCase(Method(PrintHead(h)), m)
    ensures LineMethod(h.line, m)
  {
    var b := PrintHead(h);
    var i := FindByte(b, SP);
    forall j | 0 <= j < i ensures b[j] != CR {
      assert Lower(b[..i][j]) == Lower(m[j]);
    }
    assert b[|h.line|] == CR;
    assert b[..i] == h.line[..i];
  }

  lemma MethodOf(h: Head, m: Bytes)
    requires Letters(m) && m != []
    ensures EqIgnoreCase(Method(PrintHead(h)), m) <==> LineMethod(h.line, m)
  {
    if LineMethod(h.line, m) { MethodFromLine(h, m); }
    if EqIgnoreCase(Method(PrintHead(h)), m) { MethodInLine(h, m); }
  }

  lemma MetaOfPrinted(h: Head)
    requires WellFormed(h)
    ensures var connect := LineMethod(h.line, CONNECT);
      && MetaOf(PrintHead(h)) == Meta(LineMethod(h.line, HEAD), connect, !connect && IsUpgrade(h.fields))
      && FramingOf(PrintHead(h))
         == if connect then Ok(NoBody) else FramingFrom(h.fields, false, false, None)
  {
    hide WellFormed, PrintHead, ParseHead, FramingFrom, IsUpgrade, LineMethod, Method, EqIgnoreCase;
    PrintedParses(h);
    MethodOf(h, CONNECT);
    MethodOf(h, HEAD);
  }

  lemma PrintedParses(h: Head)
    requires WellFormed(h)
    ensures ParseHead(PrintHead(h)) == h
  {
    PrintedBlock(h, []);
  }

  lemma RelevantRewritten(h: Head, rewrites: seq<HeaderRewrite>)
    requires WellFormed(h) && GoodRewrites(rewrites) && FirstError(h.fields).None?
    ensures WellFormed(Rewritten(h, rewrites))
    ensures RelevantOnly(Rewritten(h, rewrites).fields) == RelevantOnly(h.fields)
  {
    RelevantInsertions(rewrites);
    RelevantKept(h.fields, rewrites);
    RelevantConcat(Insertions(rewrites), Kept(h.fields, rewrites));
  }

  /** Rewriting changes neither what a request is nor how its body is framed. */
  lemma RewriteKeepsFraming(h: Head, rewrites: seq<HeaderRewrite>)
    requires WellFormed(h) && GoodRewrites(rewrites) && FirstError(h.fields).None?
    ensures WellFormed(Rewritten(h, rewrites))
    ensures MetaOf(PrintHead(Rewritten(h, rewrites))) == MetaOf(PrintHead(h))
    ensures FramingOf(PrintHead(Rewritten(h, rewrites))) == FramingOf(PrintHead(h))
  {
    var h' := Rewritten(h, rewrites);
    RelevantRewritten(h, rewrites);
    MetaOfPrinted(h);
    MetaOfPrinted(h');
    FramingByRelevant(h.fields, false, false, None);
    FramingByRelevant(h'.fields, false, false, None);
    UpgradeByRelevant(h.fields);
    UpgradeByRelevant(h'.fields);
  }

  // ---- Bodies are copied verbatim, so they end where they did ----

  lemma {:induction false} TrailersStable(t: Bytes, u: Bytes, i: nat, n: nat)
    requires i <= |t| && Trailers(t, i) == Whole(n)
    requires n <= |u| && t[..n] == u[..n]
    ensures Trailers(u, i) == Whole(n)
    decreases |t| - i
  {
    var r := FindCrlf(t, i);
    if r != i {
      TrailersStable(t, u, r + 2, n);
    }
    FindCrlfStable(t, u, i, n);
  }

  lemma LineStable(t: Bytes, u: Bytes, i: nat, n: nat)
    requires i <= n <= |t| && n <= |u| && t[..n] == u[..n] && FindCrlf(t, i) + 2 <= n
    ensures FindCrlf(u, i) == FindCrlf(t, i)
    ensures t[i..FindCrlf(t, i)] == u[i..FindCrlf(t, i)]
  {
    FindCrlfStable(t, u, i, n);
    var r := FindCrlf(t, i);
    assert t[i..r] == t[..n][i..r] == u[..n][i..r] == u[i..r];
  }

  lemma TurnStable(t: Bytes, u: Bytes, i: nat, n: nat)
    requires i <= |t| && !ChunkTurn(t, i).BrokenChunk? && ChunkTurn(t, i).next <= n <= |t|
    requires n <= |u| && t[..n] == u[..n]
    ensures ChunkTurn(u, i) == ChunkTurn(t, i)
  {
    hide ChunkSize;
    LineStable(t, u, i, n);
    if ChunkTurn(t, i).WholeChunk? {
      LineStable(t, u, ChunkTurn(t, i).next - 2, n);
    }
  }

  lemma {:induction false} ChunksStable(t: Bytes, u: Bytes, i: nat, n: nat)
    requires i <= |t| && Chunks(t, i) == Whole(n)
    requires n <= |u| && t[..n] == u[..n]
    ensures Chunks(u, i) == Whole(n)
    decreases |t| - i
  {
    hide ChunkTurn;
    match ChunkTurn(t, i) {
      case LastChunk(next) => TrailersStable(t, u, next, n);
      case WholeChunk(next) => ChunksStable(t, u, next, n);
    }
    TurnStable(t, u, i, n);
  }

  lemma CopyStable(t: Bytes, framing: Framing, post: Bytes)
    requires CopyOf(t, framing).Whole?
    ensures var body := t[..CopyOf(t, framing).end];
      CopyOf(body + post, framing) == Whole(|body|)
  {
    var n := CopyOf(t, framing).end;
    assert (t[..n] + post)[..n] == t[..n];
    if framing.Chunked? {
      ChunksStable(t, t[..n] + post, 0, n);
    }
  }

  /** A forwarded request, with anything behind it, is framed as the client's was. */
  lemma NextRewritten(s: Bytes, rewrites: seq<HeaderRewrite>, post: Bytes)
    requires GoodRewrites(rewrites) && Next(s).Some?
    requires FirstError(BlockHead(s).fields).None?
    ensures var r := RewriteOne(Next(s).value.0, rewrites);
      Next(PrintHead(r.head) + (r.body + post)) == Some((r, |PrintHead(r.head)| + |r.body|))
  {
    hide FramingOf, CopyOf, MetaOf, Rewritten, PrintHead, ParseHead, FirstError, GoodRewrites;
    var e := FindBlank(s, 0);
    var block, rest := s[..e + 4], s[e + 4..];
    BlockOfStream(s);
    ParsePrint(block);
    var r := RewriteOne(Next(s).value.0, rewrites);
    RewriteKeepsFraming(ParseHead(block), rewrites);
    PrintedNext(r, FramingOf(block).value, rest, post);
  }

  lemma PrintedNext(r: Request, framing: Framing, rest: Bytes, post: Bytes)
    requires WellFormed(r.head) && FramingOf(PrintHead(r.head)) == Ok(framing)
    requires CopyOf(rest, framing).Whole? && r.body == rest[..CopyOf(rest, framing).end]
    ensures Next(PrintHead(r.head) + (r.body + post)) == Some((r, |PrintHead(r.head)| + |r.body|))
  {
    hide FramingOf, CopyOf;
    var head := PrintHead(r.head);
    var wire := head + (r.body + post);
    PrintedBlock(r.head, r.body + post);
    CopyStable(rest, framing, post);
    assert wire[..|head|] == head && wire[|head|..] == r.body + post;
    assert (r.body + post)[..|r.body|] == r.body;
  }

  /** The head of the stream's first block. */
  function BlockHead(s: Bytes): (h: Head)
    requires FindBlank(s, 0) < |s|
    ensures WellFormed(h)
  {
    BlockOfStream(s);
    ParsePrint(s[..FindBlank(s, 0) + 4]);
    ParseHead(s[..FindBlank(s, 0) + 4])
  }

  lemma BlockOfStream(s: Bytes)
    requires FindBlank(s, 0) < |s|
    ensures IsBlock(s[..FindBlank(s, 0) + 4])
  {
    var e := FindBlank(s, 0);
    var b := s[..e + 4];
    assert BlankAt(b, e);
    assert FindBlank(b, 0) < e ==> BlankAt(s, FindBlank(b, 0));
  }

  // ---- Whole streams ----

  /** The response pump never goes away while requests are being forwarded. */
  ghost predicate Attentive(reply: nat -> Reply) {
    forall k :: reply(k).Accepted? || reply(k).Declined?
  }

  predicate Acceptable(rs: seq<Request>) {
    forall i :: 0 <= i < |rs| ==> WellFormed(rs[i].head) && FirstError(rs[i].head.fields).None?
  }

  function Metas(rs: seq<Request>): (q: seq<Meta>)
    ensures |q| == |rs|
  {
    if rs == [] then [] else [MetaOf(PrintHead(rs[0].head))] + Metas(rs[1..])
  }

  /** The bytes forwarded for some requests. */
  function Forwarded(rs: seq<Request>, rewrites: seq<HeaderRewrite>): Bytes {
    Print(RewriteAll(rs, rewrites))
  }

  /** A request cut short: its rewritten head and part of its body. */
  predicate CutShort(rest: Bytes, rewrites: seq<HeaderRewrite>, tail: Bytes) {
    FindBlank(rest, 0) < |rest| &&
    var head := PrintHead(Rewritten(BlockHead(rest), rewrites));
    head <= tail && tail[|head|..] <= rest[FindBlank(rest, 0) + 4..]
  }

  /** What a pump's result means for the stream it was given: `m` whole requests were forwarded in
      order, followed by the raw rest of the stream if a tunnel was accepted, by nothing if the
      stream ended, and by at most one request cut short if the stream was refused. */
  ghost predicate Explains(s: Bytes, rewrites: seq<HeaderRewrite>, reply: nat -> Reply, p: Pumped, m: nat) {
    Take(s, m).Some? &&
    var (rs, rest) := Take(s, m).value;
    var sent := Forwarded(rs, rewrites);
    |rs| == m && Acceptable(rs) && sent <= p.out && |p.metas| >= m && p.metas[..m] == Metas(rs) &&
    var tail := p.out[|sent|..];
    match p.end
    case Tunnelled => |p.metas| == m && tail == rest
    case Closed => |p.metas| == m && tail == [] && (Attentive(reply) ==> rest == [])
    case Failed(_) => (|p.metas| == m && tail == []) || (|p.metas| == m + 1 && CutShort(rest, rewrites, tail))
  }

  lemma {:induction false} PumpAppends(s: Bytes, rewrites: seq<HeaderRewrite>, reply: nat -> Reply, k: nat,
                                       out: Bytes, metas: seq<Meta>)
    ensures var q := Pump(s, rewrites, reply, k, [], []);
      Pump(s, rewrites, reply, k, out, metas) == Pumped(out + q.out, metas + q.metas, q.end)
    decreases |s|
  {
    hide OneRequest;
    match OneRequest(s, rewrites, reply(k)) {
      case Finish(bytes, ms, _) =>
        assert [] + bytes == bytes && [] + ms == ms;
      case Continue(bytes, meta, rest) =>
        assert [] + bytes == bytes && [] + [meta] == [meta];
        PumpAppends(rest, rewrites, reply, k + 1, out + bytes, metas + [meta]);
        PumpAppends(rest, rewrites, reply, k + 1, bytes, [meta]);
        var q := Pump(rest, rewrites, reply, k + 1, [], []);
        assert (out + bytes) + q.out == out + (bytes + q.out);
        assert (metas + [meta]) + q.metas == metas + ([meta] + q.metas);
    }
  }

  /** One turn that goes on forwarded exactly the stream's next request, rewritten. */
  lemma TurnForwards(s: Bytes, rewrites: seq<HeaderRewrite>, reply: Reply)
    requires OneRequest(s, rewrites, reply).Continue?
    ensures Next(s).Some?
    ensures var (r, n) := Next(s).value; var x := OneRequest(s, rewrites, reply);
      && x.rest == s[n..] && x.meta == MetaOf(PrintHead(r.head))
      && WellFormed(r.head) && FirstError(r.head.fields).None?
      && x.bytes == PrintHead(RewriteOne(r, rewrites).head) + r.body
  {
    hide RewriteHead, FramingOf, MetaOf, CopyOf, PrintHead, Rewritten;
    var e := FindBlank(s, 0);
    BlockOfStream(s);
    ParsePrint(s[..e + 4]);
    RewriteHeadMeaning(s[..e + 4], rewrites);
  }

  /** A turn that ends the pump forwarded the next request whole, cut short, or not at all. */
  lemma TurnFinishes(s: Bytes, rewrites: seq<HeaderRewrite>, reply: Reply)
    requires OneRequest(s, rewrites, reply).Finish?
    ensures var x := OneRequest(s, rewrites, reply);
      || (x.metas == [] && x.bytes == [] && !x.end.Tunnelled? &&
          (x.end.Closed? ==> s == [] || reply.Gone?))
      || (|x.metas| == 1 && x.end.Failed? && CutShort(s, rewrites, x.bytes))
      || (!x.end.Failed? && Next(s).Some? &&
          var (r, n) := Next(s).value;
          && x.metas == [MetaOf(PrintHead(r.head))]
          && WellFormed(r.head) && FirstError(r.head.fields).None?
          && x.bytes == PrintHead(RewriteOne(r, rewrites).head) + r.body
                        + (if x.end.Tunnelled? then s[n..] else [])
          && (x.end.Closed? ==> reply.Dropped?))
  {
    hide RewriteHead, FramingOf, MetaOf, CopyOf, PrintHead, Rewritten, ParseHead, WellFormed, FirstError, IsBlock;
    var e := FindBlank(s, 0);
    if s != [] && e < |s| {
      BlockOfStream(s);
      ParsePrint(s[..e + 4]);
      RewriteHeadMeaning(s[..e + 4], rewrites);
      hide FindBlank;
      var head, rest := RewriteHead(s[..e + 4], rewrites), s[e + 4..];
      if head.Ok? && FramingOf(s[..e + 4]).Ok? {
        match CopyOf(rest, FramingOf(s[..e + 4]).value) {
          case Broken(w, _) => assert (head.value + rest[..w])[|head.value|..] == rest[..w];
          case Whole(n) => assert rest[n..] == s[e + 4 + n..];
        }
      }
    }
  }

  /** Every run of the request pump, however it ends, is explained by the client's own framing. */
  lemma {:induction false} PumpExplained(s: Bytes, rewrites: seq<HeaderRewrite>, reply: nat -> Reply, k: nat)
    returns (m: nat)
    ensures Explains(s, rewrites, reply, Pump(s, rewrites, reply, k, [], []), m)
    decreases |s|
  {
    var x := OneRequest(s, rewrites, reply(k));
    if x.Continue? {
      TurnForwards(s, rewrites, reply(k));
      var q := Pump(x.rest, rewrites, reply, k + 1, [], []);
      var m' := PumpExplained(x.rest, rewrites, reply, k + 1);
      PumpAppends(x.rest, rewrites, reply, k + 1, x.bytes, [x.meta]);
      m := m' + 1;
      ExplainMore(s, rewrites, reply, q, x, m');
      assert [] + x.bytes == x.bytes && [] + [x.meta] == [x.meta];
    } else {
      TurnFinishes(s, rewrites, reply(k));
      m := if x.end.Failed? then 0 else |x.metas|;
      ExplainLast(s, rewrites, reply, reply(k), x);
    }
  }

  lemma ExplainMore(s: Bytes, rewrites: seq<HeaderRewrite>, reply: nat -> Reply, q: Pumped, x: Exchange, m: nat)
    requires x.Continue? && Explains(x.rest, rewrites, reply, q, m)
    requires Next(s).Some? && x.rest == s[Next(s).value.1..]
    requires var r := Next(s).value.0;
      && WellFormed(r.head) && FirstError(r.head.fields).None? && x.meta == MetaOf(PrintHead(r.head))
      && x.bytes == PrintHead(RewriteOne(r, rewrites).head) + r.body
    ensures Explains(s, rewrites, reply, Pumped(x.bytes + q.out, [x.meta] + q.metas, q.end), m + 1)
  {
    hide Next, PrintHead, Rewritten, MetaOf, CutShort, FirstError, WellFormed;
    var r := Next(s).value.0;
    var (rs, rest) := Take(x.rest, m).value;
    var all := [r] + rs;
    assert Take(s, m + 1) == Some((all, rest));
    assert all[1..] == rs;
    ForwardedStep(r, rs, rewrites, []);
    var sent := Forwarded(rs, rewrites);
    assert Forwarded(all, rewrites) == x.bytes + sent;
    assert (x.bytes + q.out)[|x.bytes + sent|..] == q.out[|sent|..];
    assert ([x.meta] + q.metas)[..m + 1] == [x.meta] + q.metas[..m];
  }

  lemma ExplainLast(s: Bytes, rewrites: seq<HeaderRewrite>, reply: nat -> Reply, now: Reply, x: Exchange)
    requires x == OneRequest(s, rewrites, now) && x.Finish? && exists k :: now == reply(k)
    ensures Explains(s, rewrites, reply, Pumped([] + x.bytes, [] + x.metas, x.end),
                     if x.end.Failed? then 0 else |x.metas|)
  {
    TurnFinishes(s, rewrites, now);
    hide OneRequest, Next, PrintHead, Rewritten, MetaOf, CutShort, FirstError, WellFormed;
    assert [] + x.bytes == x.bytes && [] + x.metas == x.metas;
    if x.end.Failed? || x.metas == [] {
      assert Take(s, 0) == Some(([], s));
      assert x.metas[..0] == [] && x.bytes[0..] == x.bytes;
    } else {
      hide Explains;
      ExplainWhole(s, rewrites, reply, Pumped(x.bytes, x.metas, x.end));
    }
  }

  lemma ExplainWhole(s: Bytes, rewrites: seq<HeaderRewrite>, reply: nat -> Reply, p: Pumped)
    requires Next(s).Some? && !p.end.Failed? && (p.end.Closed? ==> exists k :: reply(k).Dropped?)
    requires var (r, n) := Next(s).value;
      && p.metas == [MetaOf(PrintHead(r.head))]
      && WellFormed(r.head) && FirstError(r.head.fields).None?
      && p.out == PrintHead(RewriteOne(r, rewrites).head) + r.body + (if p.end.Tunnelled? then s[n..] else [])
    ensures Explains(s, rewrites, reply, p, 1)
  {
    hide Next, PrintHead, Rewritten, MetaOf, CutShort, FirstError, WellFormed;
    var (r, n) := Next(s).value;
    var none: seq<Request> := [];
    assert Take(s[n..], 0) == Some((none, s[n..]));
    assert [r] + none == [r];
    assert Take(s, 1) == Some(([r], s[n..]));
    ForwardedStep(r, none, rewrites, []);
    var sent := Forwarded([r], rewrites);
    assert sent == PrintHead(RewriteOne(r, rewrites).head) + r.body;
    assert p.out[|sent|..] == if p.end.Tunnelled? then s[n..] else [];
    assert p.metas[..1] == p.metas;
  }

  lemma ForwardedStep(r: Request, rest: seq<Request>, rewrites: seq<HeaderRewrite>, tail: Bytes)
    ensures var one := RewriteOne(r, rewrites);
      Forwarded([r] + rest, rewrites) + tail
      == PrintHead(one.head) + (one.body + (Forwarded(rest, rewrites) + tail))
  {
    hide PrintHead, Rewritten;
    assert ([r] + rest)[1..] == rest;
    assert RewriteAll([r] + rest, rewrites)[1..] == RewriteAll(rest, rewrites);
  }

  lemma {:induction false} TakeForwarded(s: Bytes, rewrites: seq<HeaderRewrite>, m: nat, tail: Bytes)
    requires GoodRewrites(rewrites) && Take(s, m).Some? && Acceptable(Take(s, m).value.0)
    ensures var rs := Take(s, m).value.0;
      && Take(Forwarded(rs, rewrites) + tail, m) == Some((RewriteAll(rs, rewrites), tail))
      && Metas(RewriteAll(rs, rewrites)) == Metas(rs)
    decreases m
  {
    hide Next, MetaOf, GoodRewrites, Rewritten, FirstError, WellFormed, PrintHead, Forwarded;
    if m == 0 {
      NothingForwarded(rewrites, tail);
    } else {
      var (r, n) := Next(s).value;
      var (rest, _) := Take(s[n..], m - 1).value;
      var rs := [r] + rest;
      assert rs[1..] == rest && rs[0] == r;
      assert forall i :: 0 <= i < |rest| ==> rest[i] == rs[i + 1];
      TakeForwarded(s[n..], rewrites, m - 1, tail);
      RewriteKeepsFraming(r.head, rewrites);
      var one, post := RewriteOne(r, rewrites), Forwarded(rest, rewrites) + tail;
      NextHead(s);
      NextRewritten(s, rewrites, post);
      ForwardedStep(r, rest, rewrites, tail);
      var wire := PrintHead(one.head) + (one.body + post);
      assert wire[|PrintHead(one.head)| + |one.body|..] == post;
    }
  }

  lemma NothingForwarded(rewrites: seq<HeaderRewrite>, tail: Bytes)
    ensures Forwarded([], rewrites) + tail == tail
  {
  }

  lemma NextHead(s: Bytes)
    requires Next(s).Some?
    ensures FindBlank(s, 0) < |s| && BlockHead(s) == Next(s).value.0.head
  {
  }

  /** Re-framing: whatever the client sends and however the response pump answers, an accepted
      stream is forwarded as exactly its requests, in order, with rewritten heads and untouched
      bodies; behind an accepted tunnel the rest of the stream follows raw. */
  lemma Reframing(s: Bytes, rewrites: seq<HeaderRewrite>, reply: nat -> Reply)
    requires GoodRewrites(rewrites)
    requires !Pump(s, rewrites, reply, 0, [], []).end.Failed?
    ensures var p := Pump(s, rewrites, reply, 0, [], []); var m := |p.metas|;
      Take(s, m).Some? &&
      var (rs, rest) := Take(s, m).value;
      && Take(p.out, m) == Some((RewriteAll(rs, rewrites), if p.end.Tunnelled? then rest else []))
      && p.metas == Metas(rs) == Metas(RewriteAll(rs, rewrites))
      && (p.end.Closed? && Attentive(reply) ==> rest == [])
  {
    hide Take, Pump, Metas, Forwarded, RewriteAll;
    var p := Pump(s, rewrites, reply, 0, [], []);
    var m := PumpExplained(s, rewrites, reply, 0);
    var (rs, rest) := Take(s, m).value;
    var tail := p.out[|Forwarded(rs, rewrites)|..];
    TakeForwarded(s, rewrites, m, tail);
    assert Forwarded(rs, rewrites) + tail == p.out;
    assert p.metas[..m] == p.metas;
  }

  // ---- What a rewritten head holds ----

  /** The field lines a reader of the head finds under `name`. */
  function FieldsNamed(fields: seq<Bytes>, name: Bytes): seq<Bytes> {
    if fields == [] then []
    else if Names(fields[0], name) then [fields[0]] + FieldsNamed(fields[1..], name)
    else FieldsNamed(fields[1..], name)
  }

  predicate Distinct(rewrites: seq<HeaderRewrite>) {
    forall i, j :: 0 <= i < j < |rewrites| ==> !EqIgnoreCase(rewrites[i].name, rewrites[j].name)
  }

  lemma {:induction false} NamedConcat(a: seq<Bytes>, b: seq<Bytes>, name: Bytes)
    ensures FieldsNamed(a + b, name) == FieldsNamed(a, name) + FieldsNamed(b, name)
  {
    if a == [] {
      assert a + b == b;
    } else {
      assert (a + b)[1..] == a[1..] + b;
      NamedConcat(a[1..], b, name);
    }
  }

  lemma {:induction false} NamedInsertions(rewrites: seq<HeaderRewrite>, name: Bytes)
    requires GoodRewrites(rewrites) && forall i :: 0 <= i < |rewrites| ==> !EqIgnoreCase(rewrites[i].name, name)
    ensures FieldsNamed(Insertions(rewrites), name) == []
  {
    hide GoodRewrite;
    if rewrites != [] {
      NamedInsertions(rewrites[1..], name);
      if rewrites[0].value.Some? {
        InsertedName(rewrites[0], name);
        assert Insertions(rewrites)[1..] == Insertions(rewrites[1..]);
      }
    }
  }

  lemma InsertedName(r: HeaderRewrite, name: Bytes)
    requires GoodRewrite(r) && r.value.Some?
    ensures Names(r.name + [COLON, SP] + r.value.value, name) <==> EqIgnoreCase(r.name, name)
  {
    InsertedLine(r);
    TrimName(r.name);
    assert FindByte(r.name + [COLON, SP] + r.value.value, COLON) == |r.name|;
  }

  lemma {:induction false} OwnInsertion(rewrites: seq<HeaderRewrite>, i: nat)
    requires GoodRewrites(rewrites) && Distinct(rewrites) && i < |rewrites|
    ensures FieldsNamed(Insertions(rewrites), rewrites[i].name) == Insertions([rewrites[i]])
    decreases i
  {
    hide GoodRewrite;
    var r, name := rewrites[0], rewrites[i].name;
    var rest := rewrites[1..];
    if i == 0 {
      NamedInsertions(rest, name);
    } else {
      assert rest[i - 1] == rewrites[i];
      OwnInsertion(rest, i - 1);
    }
    if r.value.Some? {
      InsertedName(r, name);
      assert Insertions(rewrites)[1..] == Insertions(rest);
      assert Insertions(rewrites)[0] == r.name + [COLON, SP] + r.value.value;
    }
    assert [r][1..] == [];
  }

  lemma {:induction false} OwnedByName(name: Bytes, rewrites: seq<HeaderRewrite>, i: nat)
    requires i < |rewrites| && EqIgnoreCase(name, rewrites[i].name)
    ensures Owned(name, rewrites)
    decreases i
  {
    if i > 0 { OwnedByName(name, rewrites[1..], i - 1); }
  }

  lemma {:induction false} NamedKept(fields: seq<Bytes>, rewrites: seq<HeaderRewrite>, i: nat)
    requires AllWellFormed(fields) && FirstError(fields).None? && i < |rewrites|
    ensures FieldsNamed(Kept(fields, rewrites), rewrites[i].name) == []
  {
    if fields != [] {
      NamedKept(fields[1..], rewrites, i);
      if !Owned(Name(fields[0]), rewrites) {
        assert Kept(fields, rewrites)[1..] == Kept(fields[1..], rewrites);
        TrimName(Name(fields[0]));
        if EqIgnoreCase(Name(fields[0]), rewrites[i].name) { OwnedByName(Name(fields[0]), rewrites, i); }
      }
    }
  }

  /** Each owned header is in the forwarded head exactly once, with symphony's value, or not at
      all when symphony has none; no client copy survives. */
  lemma OwnedExactlyOnce(h: Head, rewrites: seq<HeaderRewrite>, i: nat)
    requires WellFormed(h) && FirstError(h.fields).None?
    requires GoodRewrites(rewrites) && Distinct(rewrites) && i < |rewrites|
    ensures FieldsNamed(Rewritten(h, rewrites).fields, rewrites[i].name)
         == if rewrites[i].value.Some? then [rewrites[i].name + [COLON, SP] + rewrites[i].value.value] else []
  {
    hide GoodRewrites, FieldsNamed;
    NamedConcat(Insertions(rewrites), Kept(h.fields, rewrites), rewrites[i].name);
    OwnInsertion(rewrites, i);
    NamedKept(h.fields, rewrites, i);
    assert [rewrites[i]][1..] == [];
  }
}
