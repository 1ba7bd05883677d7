/** Request heads: what `rewrite_request_head`, `header_fields` and `request_body` do to a
    complete header block, and what a head is apart from its bytes. */
module HttpHead {
  import opened Wrappers
  import opened Bytes

  datatype HttpError =
    | HeadTooLarge
    | LineTooLong
    | UnexpectedEof
    | MalformedRequestLine
    | UnterminatedLine
    | ObsFold
    | NoColon
    | MalformedName
    | MalformedLength
    | ConflictingLength
    | LengthWithTransferEncoding
    | UnsupportedTransferEncoding
    | MalformedChunkSize
    | MissingChunkCrlf

  /** A header symphony owns: every client copy is dropped; `value`, if any, is inserted. */
  datatype HeaderRewrite = HeaderRewrite(name: Bytes, value: Option<Bytes>)

  /** A head apart from its bytes: the request line and the field lines, without their CRLFs. */
  datatype Head = Head(line: Bytes, fields: seq<Bytes>)

  function PrintFields(fields: seq<Bytes>): Bytes {
    if fields == [] then CRLF else fields[0] + CRLF + PrintFields(fields[1..])
  }

  function PrintHead(h: Head): Bytes {
    h.line + CRLF + PrintFields(h.fields)
  }

  predicate WellFormedField(f: Bytes) { f != [] && NoCrlf(f) }

  predicate AllWellFormed(fields: seq<Bytes>) {
    forall i :: 0 <= i < |fields| ==> WellFormedField(fields[i])
  }

  predicate WellFormed(h: Head) {
    NoCrlf(h.line) && AllWellFormed(h.fields)
  }

  /** The field lines from offset `i` to the blank line. */
  function ParseFields(s: Bytes, i: nat): seq<Bytes>
    requires i <= |s|
    decreases |s| - i
  {
    var r := FindCrlf(s, i);
    if r == |s| || r == i then [] else [s[i..r]] + ParseFields(s, r + 2)
  }

  /** The head of a block: its request line, and the lines `header_fields` iterates over. */
  function ParseHead(s: Bytes): Head {
    var r := FindCrlf(s, 0);
    if r == |s| then Head(s, []) else Head(s[..r], ParseFields(s, r + 2))
  }

  /** A complete header block: it ends with its first blank line. */
  predicate IsBlock(s: Bytes) {
    |s| >= 4 && FindBlank(s, 0) == |s| - 4
  }

  // ---- Field lines ----

  function Name(f: Bytes): Bytes { f[..FindByte(f, COLON)] }

  /** The trimmed value of a field line with a colon. */
  function FieldValue(f: Bytes): Bytes
    requires FindByte(f, COLON) < |f|
  {
    Trim(f[FindByte(f, COLON) + 1..])
  }

  /** `header_fields` yields this line, under a name equal to `name`. */
  predicate Names(f: Bytes, name: Bytes) {
    FindByte(f, COLON) < |f| && EqIgnoreCase(Trim(Name(f)), name)
  }

  predicate Owned(name: Bytes, rewrites: seq<HeaderRewrite>) {
    rewrites != [] && (EqIgnoreCase(rewrites[0].name, name) || Owned(name, rewrites[1..]))
  }

  /** Why `rewrite_request_head` refuses a field line, if it does. */
  function LineError(f: Bytes): Option<HttpError>
    requires f != []
  {
    if f[0] == SP || f[0] == TAB then Some(ObsFold)
    else if FindByte(f, COLON) == |f| then Some(NoColon)
    else if Name(f) == [] || HasWhitespace(Name(f)) then Some(MalformedName)
    else None
  }

  // ---- rewrite_request_head ----

  /** The lines inserted after the request line, as `name: value`. */
  function Insertions(rewrites: seq<HeaderRewrite>): seq<Bytes> {
    if rewrites == [] then []
    else if rewrites[0].value.None? then Insertions(rewrites[1..])
    else [rewrites[0].name + [COLON, SP] + rewrites[0].value.value] + Insertions(rewrites[1..])
  }

  function Insert(out: Bytes, rewrites: seq<HeaderRewrite>): Bytes
    decreases |rewrites|
  {
    if rewrites == [] then out
    else
      Insert(if rewrites[0].value.Some?
             then out + rewrites[0].name + [COLON, SP] + rewrites[0].value.value + CRLF else out,
             rewrites[1..])
  }

  /** The rewriter's walk over the field lines from offset `i`, with `out` written so far. */
  function RewriteFields(s: Bytes, i: nat, rewrites: seq<HeaderRewrite>, out: Bytes)
    : Result<Bytes, HttpError>
    requires i <= |s|
    decreases |s| - i
  {
    if i == |s| then Ok(out)
    else
      var r := FindCrlf(s, i);
      if r == |s| then Err(UnterminatedLine)
      else if r == i then Ok(out + CRLF)
      else if LineError(s[i..r]).Some? then Err(LineError(s[i..r]).value)
      else
        RewriteFields(s, r + 2, rewrites,
                      if Owned(Name(s[i..r]), rewrites) then out else out + s[i..r + 2])
  }

  function RewriteHead(block: Bytes, rewrites: seq<HeaderRewrite>): Result<Bytes, HttpError> {
    var r := FindCrlf(block, 0);
    if r == |block| then Err(MalformedRequestLine)
    else RewriteFields(block, r + 2, rewrites, Insert(block[..r + 2], rewrites))
  }

  /** The output loops of `rewrite_request_head`: `InsertOwned`, then the kept field lines. */
  method RewriteRequestHead(block: Bytes, rewrites: seq<HeaderRewrite>)
    returns (result: Result<Bytes, HttpError>)
    ensures result == RewriteHead(block, rewrites)
  {
    hide LineError, Owned, Name, Insert;
    var i := FindCrlf(block, 0);
    if i == |block| {
      return Err(MalformedRequestLine);
    }
    i := i + 2;
    var out := InsertOwned(block[..i], rewrites);
    ghost var goal := RewriteFields(block, i, rewrites, out);
    while i < |block|
      invariant 2 <= i <= |block|
      invariant RewriteFields(block, i, rewrites, out) == goal
    {
      var r := FindCrlf(block, i);
      if r == |block| {
        return Err(UnterminatedLine);
      }
      if r == i {
        out := out + CRLF;
        break;
      }
      var line := block[i..r];
      var refusal := LineError(line);
      if refusal.Some? {
        return Err(refusal.value);
      }
      if !Owned(Name(line), rewrites) {
        out := out + block[i..r + 2];
      }
      i := r + 2;
    }
    return Ok(out);
  }

  method InsertOwned(pre: Bytes, rewrites: seq<HeaderRewrite>) returns (out: Bytes)
    ensures out == Insert(pre, rewrites)
  {
    out := pre;
    var k := 0;
    while k < |rewrites|
      invariant 0 <= k <= |rewrites|
      invariant Insert(out, rewrites[k..]) == Insert(pre, rewrites)
    {
      assert rewrites[k..][1..] == rewrites[k + 1..];
      if rewrites[k].value.Some? {
        out := out + rewrites[k].name + [COLON, SP] + rewrites[k].value.value + CRLF;
      }
      k := k + 1;
    }
  }
}
