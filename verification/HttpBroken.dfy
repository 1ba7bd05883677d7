/** What is wrong with a body that breaks off and with a request that is not forwarded, how much of it has
    gone upstream by then, and how the pump ends. */
module HttpBroken {
  import opened Wrappers
  import opened Bytes
  import opened HttpHead
  import opened HttpStream
  import opened HttpFraming

  // ---- Chunked bodies ----

  ghost predicate AllValid(chunks: seq<Chunk>) { forall i :: 0 <= i < |chunks| ==> chunks[i].Valid() }

  function ChunkTexts(chunks: seq<Chunk>): Bytes {
    if chunks == [] then [] else ChunkText(chunks[0]) + ChunkTexts(chunks[1..])
  }

  /** A line that never ends: too long for a control line, or else cut off. */
  ghost predicate CutOff(rest: Bytes, error: HttpError) {
    NoCrlf(rest) && error == if |rest| > 1024 then LineTooLong else UnexpectedEof
  }

  function FieldLines(fields: seq<Bytes>): Bytes {
    if fields == [] then [] else fields[0] + CRLF + FieldLines(fields[1..])
  }

  /** Behind a size line: less than the size announces, or no line end right after it. */
  ghost predicate BadData(more: Bytes, n: nat, good: nat, error: HttpError) {
    if |more| < n then good == |more| && error == UnexpectedEof
    else
      && good == n
      && (CutOff(more[n..], error)
          || (!NoCrlf(more[n..]) && !CrlfAt(more[n..], 0) && error == MissingChunkCrlf))
  }

  /** Behind the last size line: trailers that never end. */
  ghost predicate BadTrailers(more: Bytes, trailers: seq<Bytes>, good: nat, error: HttpError) {
    && AllWellFormed(trailers) && good == |FieldLines(trailers)|
    && exists end :: more == FieldLines(trailers) + end && CutOff(end, error)
  }

  ghost predicate EndlessTrailers(more: Bytes, good: nat, error: HttpError) {
    exists trailers :: BadTrailers(more, trailers, good, error)
  }

  /** What is wrong behind the whole chunks of a body: its next size line never ends or is none, or what
      comes behind it is not as it says. `good` bytes of it are still copied. */
  ghost predicate Flaw(rest: Bytes, good: nat, error: HttpError) {
    || (good == 0 && CutOff(rest, error))
    || (exists line, more :: rest == line + CRLF + more && NoCrlf(line) && BadChunk(line, more, good, error))
  }

  ghost predicate BadChunk(line: Bytes, more: Bytes, good: nat, error: HttpError) {
    match ChunkSize(line)
    case None => good == 0 && error == MalformedChunkSize
    case Some(n) =>
      && good >= |line| + 2
      && if n > 0 then BadData(more, n, good - |line| - 2, error)
         else EndlessTrailers(more, good - |line| - 2, error)
  }

  lemma RestCutOff(t: Bytes, i: nat)
    requires i <= |t| && FindCrlf(t, i) == |t|
    ensures CutOff(t[i..], LineCutOff(|t| - i))
  {
    OneLine(t, i, |t|);
    assert t[i..|t|] == t[i..];
  }

  lemma LineSplits(t: Bytes, i: nat, r: nat)
    requires i <= |t| && i <= r == FindCrlf(t, i) < |t|
    ensures NoCrlf(t[i..r]) && r + 2 <= |t| && t[i..] == t[i..r] + CRLF + t[r + 2..]
  {
    OneLine(t, i, r);
    assert t[r..r + 2] == CRLF;
    assert t[i..] == t[i..r] + t[r..r + 2] + t[r + 2..];
  }

  lemma {:induction false} TrailersBreak(t: Bytes, i: nat) returns (trailers: seq<Bytes>)
    requires i <= |t| && Trailers(t, i).Broken?
    ensures BadTrailers(t[i..], trailers, Trailers(t, i).written - i, Trailers(t, i).error)
    decreases |t| - i
  {
    hide FindCrlf, NoCrlf;
    var r := FindCrlf(t, i);
    if r == |t| {
      trailers := [];
      RestCutOff(t, i);
      assert t[i..] == FieldLines(trailers) + t[i..];
    } else {
      LineSplits(t, i, r);
      var rest := TrailersBreak(t, r + 2);
      trailers := [t[i..r]] + rest;
      assert trailers[1..] == rest;
      var c := Trailers(t, r + 2);
      var end :| t[r + 2..] == FieldLines(rest) + end && CutOff(end, c.error);
      hide CutOff;
      assert FieldLines(trailers) == t[i..r] + CRLF + FieldLines(rest);
      assert t[i..] == FieldLines(trailers) + end;
    }
  }

  lemma TurnBreaks(t: Bytes, i: nat)
    requires i <= |t| && ChunkTurn(t, i).BrokenChunk?
    ensures Flaw(t[i..], ChunkTurn(t, i).written - i, ChunkTurn(t, i).error)
  {
    hide FindCrlf, NoCrlf, ChunkSize;
    var r := FindCrlf(t, i);
    var turn := ChunkTurn(t, i);
    if r == |t| {
      RestCutOff(t, i);
    } else {
      LineSplits(t, i, r);
      var line, more := t[i..r], t[r + 2..];
      var size := ChunkSize(line);
      if size.Some? { DataBreaks(t, i, r, size.value); }
      assert BadChunk(line, more, turn.written - i, turn.error);
    }
  }

  lemma DataBreaks(t: Bytes, i: nat, r: nat, n: nat)
    requires i <= |t| && r == FindCrlf(t, i) && r + 2 <= |t| && ChunkSize(t[i..r]) == Some(n)
      && ChunkTurn(t, i).BrokenChunk?
    ensures var turn := ChunkTurn(t, i);
      turn.written >= r + 2 && n > 0 && BadData(t[r + 2..], n, turn.written - r - 2, turn.error)
  {
    hide FindCrlf, ChunkSize;
    var more, j := t[r + 2..], r + 2 + n;
    if j <= |t| {
      assert more[n..] == t[j..];
      var q := FindCrlf(t, j);
      if q == |t| {
        RestCutOff(t, j);
      } else if q != j {
        LineSplits(t, j, q);
        assert CrlfAt(t, q) && CrlfAt(t[j..], q - j) && !CrlfAt(t, j) && !CrlfAt(t[j..], 0);
      }
    }
  }

  lemma LastBreaks(t: Bytes, i: nat, r: nat)
    requires i <= |t| && r == FindCrlf(t, i) && r + 2 <= |t| && ChunkSize(t[i..r]) == Some(0)
    requires Trailers(t, r + 2).Broken?
    ensures Flaw(t[i..], Trailers(t, r + 2).written - i, Trailers(t, r + 2).error)
  {
    hide *;
    LineSplits(t, i, r);
    var c := Trailers(t, r + 2);
    var trailers := TrailersBreak(t, r + 2);
    LastIsFlawed(t[i..], t[i..r], t[r + 2..], trailers, c.written - r - 2, c.error);
  }

  lemma LastIsFlawed(rest: Bytes, line: Bytes, more: Bytes, trailers: seq<Bytes>, good: nat, error: HttpError)
    requires rest == line + CRLF + more && NoCrlf(line) && ChunkSize(line) == Some(0)
    requires BadTrailers(more, trailers, good, error)
    ensures Flaw(rest, |line| + 2 + good, error)
  {
    hide NoCrlf, ChunkSize, BadTrailers, CutOff, BadData;
    assert EndlessTrailers(more, good, error);
    assert BadChunk(line, more, |line| + 2 + good, error);
  }

  lemma LastSize(t: Bytes, i: nat, r: nat)
    requires i <= |t| && r == FindCrlf(t, i) && ChunkTurn(t, i).LastChunk?
    ensures r < |t| && ChunkTurn(t, i).next == r + 2 && ChunkSize(t[i..r]) == Some(0)
  {
    hide ChunkSize, FindCrlf;
  }

  /** A chunked body that breaks off is whole chunks and then a flaw; the chunks go upstream, and of the rest
      as much as the flaw leaves. */
  lemma {:induction false} ChunksBreak(t: Bytes, i: nat) returns (chunks: seq<Chunk>, rest: Bytes)
    requires i <= |t| && Chunks(t, i).Broken?
    ensures AllValid(chunks) && t[i..] == ChunkTexts(chunks) + rest && Chunks(t, i).written >= i + |ChunkTexts(chunks)|
    ensures Flaw(rest, Chunks(t, i).written - i - |ChunkTexts(chunks)|, Chunks(t, i).error)
    decreases |t| - i
  {
    hide ChunkTurn, Trailers, ChunkText, Flaw, SizeLine, NoCrlf, FindCrlf, ChunkSize;
    var turn := ChunkTurn(t, i);
    chunks, rest := [], t[i..];
    if turn.WholeChunk? {
      var c := TurnWritten(t, i);
      var more;
      more, rest := ChunksBreak(t, turn.next);
      chunks := [c] + more;
      assert chunks[1..] == more;
      assert t[i..] == t[i..turn.next] + t[turn.next..];
      assert ChunkTexts(chunks) == ChunkText(c) + ChunkTexts(more);
      assert ChunkText(c) + ChunkTexts(more) + rest == ChunkText(c) + (ChunkTexts(more) + rest);
    } else if turn.LastChunk? {
      LastSize(t, i, FindCrlf(t, i));
      LastBreaks(t, i, FindCrlf(t, i));
    } else {
      TurnBreaks(t, i);
    }
  }

  // ---- Requests ----

  /** How a turn of the request pump ends, from the stream and what is known of its head: what goes upstream,
      what is announced, and the end. */
  lemma TurnEndsExactly(s: Bytes, rewrites: seq<HeaderRewrite>, reply: Reply)
    ensures var x := OneRequest(s, rewrites, reply);
      && (s == [] ==> x == Finish([], [], Closed))
      && (s != [] && (forall i :: !BlankAt(s, i)) ==>
            x == Finish([], [], Failed(if |s| > 65536 then HeadTooLarge else UnexpectedEof)))
      && (forall e: nat :: BlankAt(s, e) && (forall i :: 0 <= i < e ==> !BlankAt(s, i)) ==>
            HeadEnds(x, s[..e + 4], s[e + 4..], rewrites, reply))
  {
    hide RewriteHead, FramingOf, MetaOf, AfterHead, ParseHead;
    var e := FindBlank(s, 0);
    if e < |s| { BehindHead(s, e, rewrites, reply); }
    forall k: nat | BlankAt(s, k) && (forall i :: 0 <= i < k ==> !BlankAt(s, i)) ensures k == e {
    }
  }

  /** With its head refused or misframed nothing goes upstream and nothing is announced, for the head's
      error first. Else the rewritten head goes, and of the body what there is. Behind a request that
      asked for a tunnel the whole rest goes too if it was accepted, and the pump goes on if it was
      declined. */
  ghost predicate HeadEnds(x: Exchange, block: Bytes, rest: Bytes, rewrites: seq<HeaderRewrite>, reply: Reply) {
    var head, framing, meta := RewriteHead(block, rewrites), FramingOf(block), MetaOf(block);
    if head.Err? then x == Finish([], [], Failed(head.error))
    else if framing.Err? then x == Finish([], [], Failed(framing.error))
    else if reply.Gone? then x == Finish([], [], Closed)
    else
      match CopyOf(rest, framing.value)
      case Broken(w, error) => x == Finish(head.value + rest[..w], [meta], Failed(error))
      case Whole(n) =>
        if !meta.connect && !meta.upgrade then x == Continue(head.value + rest[..n], meta, rest[n..])
        else
          match reply
          case Declined => x == Continue(head.value + rest[..n], meta, rest[n..])
          case Accepted => x == Finish(head.value + rest, [meta], Tunnelled)
          case _ => x == Finish(head.value + rest[..n], [meta], Closed)
  }

  lemma BehindHead(s: Bytes, e: nat, rewrites: seq<HeaderRewrite>, reply: Reply)
    requires s != [] && e == FindBlank(s, 0) < |s|
    ensures HeadEnds(OneRequest(s, rewrites, reply), s[..e + 4], s[e + 4..], rewrites, reply)
  {
    hide RewriteHead, FramingOf, MetaOf, ParseHead, FindBlank, CopyOf;
    var block, rest := s[..e + 4], s[e + 4..];
    var head, framing := RewriteHead(block, rewrites), FramingOf(block);
    if head.Ok? && framing.Ok? {
      var c := CopyOf(rest, framing.value);
      if c.Whole? { assert head.value + rest[..c.end] + rest[c.end..] == head.value + rest; }
    }
  }

  /** A head of one line, a line that never ends behind it, and none at all. */
  lemma HeadEdges(line: Bytes, rest: Bytes, rewrites: seq<HeaderRewrite>)
    requires NoCrlf(line) && NoCrlf(rest) && rest != []
    ensures RewriteHead(line, rewrites) == Err(MalformedRequestLine)
    ensures RewriteHead(line + CRLF, rewrites) == Ok(Insert(line + CRLF, rewrites))
    ensures RewriteHead(line + CRLF + rest, rewrites) == Err(UnterminatedLine)
  {
    hide Insert;
    assert line + CRLF == [] + line + CRLF + [] && line + CRLF + rest == [] + line + CRLF + rest;
    assert (line + CRLF)[..|line| + 2] == line + CRLF;
    FindCrlfAfter([], line, []);
    FindCrlfAfter([], line, rest);
    var s, n := line + CRLF + rest, |line| + 2;
    assert forall j :: n <= j < |s| ==> (CrlfAt(s, j) <==> CrlfAt(rest, j - n));
  }

  /** A body with a length is whole if and only if the stream holds it; else all there is goes. */
  lemma LengthBreaks(t: Bytes, n: nat)
    ensures CopyOf(t, Length(n)) == if |t| < n then Broken(|t|, UnexpectedEof) else Whole(n)
    ensures CopyOf(t, NoBody) == Whole(0)
  {
  }
}
