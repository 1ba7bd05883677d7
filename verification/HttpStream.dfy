/** The request half of the HTTP/1 rewriting proxy: body framing, and what
    `rewrite_request_stream` writes for a whole client stream. */
module HttpStream {
  import opened Wrappers
  import opened Bytes
  import opened Text
  import opened HttpHead

  const MAX_HEADER_SIZE: nat := 64 * 1024
  const MAX_CHUNK_LINE: nat := 1024

  const TRANSFER_ENCODING: Bytes := [116, 114, 97, 110, 115, 102, 101, 114, 45, 101, 110, 99, 111, 100, 105, 110, 103]
  const CONTENT_LENGTH: Bytes := [99, 111, 110, 116, 101, 110, 116, 45, 108, 101, 110, 103, 116, 104]
  const CONNECTION: Bytes := [99, 111, 110, 110, 101, 99, 116, 105, 111, 110]
  const UPGRADE: Bytes := [117, 112, 103, 114, 97, 100, 101]
  const CHUNKED: Bytes := [99, 104, 117, 110, 107, 101, 100]
  const CONNECT: Bytes := [67, 79, 78, 78, 69, 67, 84]
  const HEAD: Bytes := [72, 69, 65, 68]

  // ---- request_body ----

  datatype Framing = NoBody | Length(n: nat) | Chunked

  predicate FinalChunked(value: Bytes) {
    var tokens := Split(value, COMMA);
    EqIgnoreCase(Trim(tokens[|tokens| - 1]), CHUNKED)
  }

  /** `request_body`'s loop over the fields. A value `from_utf8` refuses has a byte no digit
      string has, so `ParseU64` refuses it as well. */
  function FramingFrom(fields: seq<Bytes>, te: bool, chunked: bool, length: Option<nat>)
    : Result<Framing, HttpError>
    decreases |fields|
  {
    if fields == [] then
      if te then
        if length.Some? then Err(LengthWithTransferEncoding)
        else if !chunked then Err(UnsupportedTransferEncoding)
        else Ok(Chunked)
      else if length.None? || length.value == 0 then Ok(NoBody)
      else Ok(Length(length.value))
    else if Names(fields[0], TRANSFER_ENCODING) then
      FramingFrom(fields[1..], true, FinalChunked(FieldValue(fields[0])), length)
    else if Names(fields[0], CONTENT_LENGTH) then
      var n := ParseU64(FieldValue(fields[0]), 10);
      if n.None? then Err(MalformedLength)
      else if length.Some? && length.value != n.value then Err(ConflictingLength)
      else FramingFrom(fields[1..], te, chunked, n)
    else FramingFrom(fields[1..], te, chunked, length)
  }

  // ---- request_method, is_upgrade ----

  function Method(block: Bytes): Bytes {
    var i := FindByte(block, SP);
    if i == |block| then [] else block[..i]
  }

  predicate AnyNamed(fields: seq<Bytes>, name: Bytes) {
    fields != [] && (Names(fields[0], name) || AnyNamed(fields[1..], name))
  }

  predicate HasToken(tokens: seq<Bytes>, token: Bytes) {
    tokens != [] && (EqIgnoreCase(Trim(tokens[0]), token) || HasToken(tokens[1..], token))
  }

  predicate ConnectionHas(fields: seq<Bytes>, token: Bytes) {
    fields != [] &&
    ((Names(fields[0], CONNECTION) && HasToken(Split(FieldValue(fields[0]), COMMA), token))
     || ConnectionHas(fields[1..], token))
  }

  predicate IsUpgrade(fields: seq<Bytes>) {
    AnyNamed(fields, UPGRADE) && ConnectionHas(fields, UPGRADE)
  }

  /** What the request pump tells the response pump about a request. */
  datatype Meta = Meta(headOnly: bool, connect: bool, upgrade: bool) {
    predicate TunnelCandidate() { connect || upgrade }
  }

  function MetaOf(block: Bytes): Meta {
    var connect := EqIgnoreCase(Method(block), CONNECT);
    Meta(EqIgnoreCase(Method(block), HEAD), connect, !connect && IsUpgrade(ParseHead(block).fields))
  }

  /** CONNECT has no body; every other request is framed by its fields. */
  function FramingOf(block: Bytes): Result<Framing, HttpError> {
    if MetaOf(block).connect then Ok(NoBody)
    else FramingFrom(ParseHead(block).fields, false, false, None)
  }

  // ---- Bodies ----

  /** How copying a body ends: all of it, up to offset `end`, or an error after `written`. */
  datatype Copied = Whole(end: nat) | Broken(written: nat, error: HttpError)

  function ChunkSize(line: Bytes): Option<nat> {
    var field := line[..FindByte(line, SEMICOLON)];
    if Utf8(field) then ParseU64(TrimText(field), 16) else None
  }

  /** A control line that never ends: too long, or cut off by the end of the stream. */
  function LineCutOff(left: nat): HttpError {
    if left > MAX_CHUNK_LINE then LineTooLong else UnexpectedEof
  }

  function Trailers(t: Bytes, i: nat): (c: Copied)
    requires i <= |t|
    ensures c.Whole? ==> i < c.end <= |t|
    ensures c.Broken? ==> i <= c.written <= |t|
    decreases |t| - i
  {
    var r := FindCrlf(t, i);
    if r == |t| then Broken(i, LineCutOff(|t| - i))
    else if r == i then Whole(i + 2)
    else Trailers(t, r + 2)
  }

  /** One turn of `copy_chunked_body`: the last chunk's size line, a whole chunk, or an error. */
  datatype Turn = LastChunk(next: nat) | WholeChunk(next: nat) | BrokenChunk(written: nat, error: HttpError)

  function ChunkTurn(t: Bytes, i: nat): (c: Turn)
    requires i <= |t|
    ensures c.BrokenChunk? ==> i <= c.written <= |t|
    ensures !c.BrokenChunk? ==> i < c.next <= |t|
  {
    var r := FindCrlf(t, i);
    if r == |t| then BrokenChunk(i, LineCutOff(|t| - i))
    else
      var size := ChunkSize(t[i..r]);
      if size.None? then BrokenChunk(i, MalformedChunkSize)
      else if size.value == 0 then LastChunk(r + 2)
      else
        var j := r + 2 + size.value;
        if j > |t| then BrokenChunk(|t|, UnexpectedEof)
        else
          var q := FindCrlf(t, j);
          if q == |t| then BrokenChunk(j, LineCutOff(|t| - j))
          else if q != j then BrokenChunk(j, MissingChunkCrlf)
          else WholeChunk(j + 2)
  }

  /** `copy_chunked_body` on the stream `t` from offset `i`. */
  function Chunks(t: Bytes, i: nat): (c: Copied)
    requires i <= |t|
    ensures c.Whole? ==> i < c.end <= |t|
    ensures c.Broken? ==> i <= c.written <= |t|
    decreases |t| - i
  {
    match ChunkTurn(t, i)
    case LastChunk(next) => Trailers(t, next)
    case WholeChunk(next) => Chunks(t, next)
    case BrokenChunk(written, error) => Broken(written, error)
  }

  function CopyOf(t: Bytes, framing: Framing): (c: Copied)
    ensures c.Whole? ==> c.end <= |t|
    ensures c.Broken? ==> c.written <= |t|
  {
    match framing
    case NoBody => Whole(0)
    case Length(n) => if n <= |t| then Whole(n) else Broken(|t|, UnexpectedEof)
    case Chunked => Chunks(t, 0)
  }

  // ---- rewrite_request_stream ----

  /** What the response pump does about the k-th request: it is already gone when the request is
      announced, or it accepts or declines the tunnel, or it goes away without a verdict. */
  datatype Reply = Gone | Accepted | Declined | Dropped

  datatype End = Closed | Tunnelled | Failed(error: HttpError)

  datatype Pumped = Pumped(out: Bytes, metas: seq<Meta>, end: End)

  /** One turn of the request pump: what it writes and announces, and then either how it ends or
      the stream left for the next turn. */
  datatype Exchange =
    | Finish(bytes: Bytes, metas: seq<Meta>, end: End)
    | Continue(bytes: Bytes, meta: Meta, rest: Bytes)

  /** A turn from its rewritten head on: the body behind it in `rest`, and the verdict. */
  function AfterHead(rest: Bytes, head: Bytes, framing: Framing, meta: Meta, reply: Reply): (x: Exchange)
    ensures x.Continue? ==> |x.rest| <= |rest|
  {
    match CopyOf(rest, framing)
    case Broken(w, error) => Finish(head + rest[..w], [meta], Failed(error))
    case Whole(n) =>
      if !meta.TunnelCandidate() || reply.Declined? then Continue(head + rest[..n], meta, rest[n..])
      else if reply.Accepted? then Finish(head + rest[..n] + rest[n..], [meta], Tunnelled)
      else Finish(head + rest[..n], [meta], Closed)
  }

  function OneRequest(s: Bytes, rewrites: seq<HeaderRewrite>, reply: Reply): (x: Exchange)
    ensures x.Continue? ==> |x.rest| < |s|
  {
    if s == [] then Finish([], [], Closed)
    else
      var e := FindBlank(s, 0);
      if e == |s| then
        Finish([], [], Failed(if |s| > MAX_HEADER_SIZE then HeadTooLarge else UnexpectedEof))
      else
        var block, rest := s[..e + 4], s[e + 4..];
        var head, framing, meta := RewriteHead(block, rewrites), FramingOf(block), MetaOf(block);
        if head.Err? then Finish([], [], Failed(head.error))
        else if framing.Err? then Finish([], [], Failed(framing.error))
        else if reply.Gone? then Finish([], [], Closed)
        else AfterHead(rest, head.value, framing.value, meta, reply)
  }

  /** What the request pump does with a whole client stream `s`, from its k-th request on, with
      `out` written and `metas` announced already. */
  function Pump(s: Bytes, rewrites: seq<HeaderRewrite>, reply: nat -> Reply, k: nat,
                out: Bytes, metas: seq<Meta>): (p: Pumped)
    ensures out <= p.out
    decreases |s|
  {
    match OneRequest(s, rewrites, reply(k))
    case Finish(bytes, ms, end) => Pumped(out + bytes, metas + ms, end)
    case Continue(bytes, meta, rest) =>
      Pump(rest, rewrites, reply, k + 1, out + bytes, metas + [meta])
  }

  /** What is written and announced stays written and announced. */
  lemma {:induction false} PumpExtends(s: Bytes, rewrites: seq<HeaderRewrite>, reply: nat -> Reply, k: nat,
                                       out: Bytes, metas: seq<Meta>)
    ensures out <= Pump(s, rewrites, reply, k, out, metas).out
    ensures metas <= Pump(s, rewrites, reply, k, out, metas).metas
    decreases |s|
  {
    hide OneRequest;
    var x := OneRequest(s, rewrites, reply(k));
    if x.Continue? {
      PumpExtends(x.rest, rewrites, reply, k + 1, out + x.bytes, metas + [x.meta]);
      PrefixTrans(metas, metas + [x.meta], Pump(s, rewrites, reply, k, out, metas).metas);
    }
  }

  lemma PrefixTrans<T>(a: seq<T>, b: seq<T>, c: seq<T>)
    requires a <= b && b <= c
    ensures a <= c
  {
  }
}
