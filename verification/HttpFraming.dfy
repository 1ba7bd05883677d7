/** Body framing against independent definitions: which header fields frame a body how, and that a
    chunked body as the standard writes it is found whole. */
module HttpFraming {
  import opened Basics
  import opened Wrappers
  import opened Bytes
  import opened Text
  import opened TextLaws
  import opened Utf8Laws
  import opened HttpHead
  import opened HttpStream

  // ---- What the fields say ----

  /** All the codings the Transfer-Encoding fields list, in order. */
  function Codings(fields: seq<Bytes>): seq<Bytes> {
    if fields == [] then []
    else if Names(fields[0], TRANSFER_ENCODING) then Cells(FieldValue(fields[0]), COMMA) + Codings(fields[1..])
    else Codings(fields[1..])
  }

  predicate IsChunked(coding: Bytes) { EqIgnoreCase(Trim(coding), Ascii("chunked")) }

  /** The value of each Content-Length field, if it is a number. */
  function Lengths(fields: seq<Bytes>): seq<Option<nat>> {
    if fields == [] then []
    else if Names(fields[0], CONTENT_LENGTH) && !Names(fields[0], TRANSFER_ENCODING) then
      [ParseU64(FieldValue(fields[0]), 10)] + Lengths(fields[1..])
    else Lengths(fields[1..])
  }

  /** All of them are numbers, and the same number. */
  predicate Agree(lengths: seq<Option<nat>>) {
    forall i :: 0 <= i < |lengths| ==> lengths[i].Some? && lengths[i] == lengths[0]
  }

  /** A request is framed if and only if its lengths agree and, with a transfer coding, there is no
      length and the last coding of all is chunked. Then a transfer coding means chunks, a length that
      many bytes, and neither or a zero length no body. */
  predicate Framed(codings: seq<Bytes>, lengths: seq<Option<nat>>) {
    Agree(lengths) && (codings != [] ==> lengths == [] && IsChunked(codings[|codings| - 1]))
  }

  function FramingBy(codings: seq<Bytes>, lengths: seq<Option<nat>>): Framing
    requires Framed(codings, lengths)
  {
    if codings != [] then Chunked
    else if lengths == [] || lengths[0].value == 0 then NoBody
    else Length(lengths[0].value)
  }

  /** The k-th length is the first that is no number, or another than the one before. */
  ghost predicate BadAt(lengths: seq<Option<nat>>, k: int) {
    0 <= k < |lengths| && Agree(lengths[..k]) && !Agree(lengths[..k + 1])
  }

  /** Why a request is not framed: its first bad length if it has one; then a length beside a transfer
      coding; else a transfer coding that does not end in chunked. */
  ghost predicate RefusedFor(codings: seq<Bytes>, lengths: seq<Option<nat>>, error: HttpError) {
    && (forall k :: BadAt(lengths, k) ==> error == if lengths[k].None? then MalformedLength else ConflictingLength)
    && (Agree(lengths) ==> error == if lengths != [] then LengthWithTransferEncoding else UnsupportedTransferEncoding)
  }

  lemma BadIsFirst(lengths: seq<Option<nat>>, n: Option<nat>, more: seq<Option<nat>>, k: int)
    requires Agree(lengths) && !Agree(lengths + [n]) && BadAt(lengths + [n] + more, k)
    ensures k == |lengths| && (lengths + [n] + more)[k] == n
  {
    var l := lengths + [n] + more;
    assert l[..|lengths|] == lengths && l[..|lengths| + 1] == lengths + [n];
    if k > |lengths| {
      assert l[..k] == (lengths + [n]) + l[|lengths| + 1..k];
      AgreeMore(lengths + [n], l[|lengths| + 1..k]);
    }
  }

  /** The loop's state stands for the fields it has passed. */
  ghost predicate StandsFor(te: bool, chunked: bool, length: Option<nat>, codings: seq<Bytes>,
                            lengths: seq<Option<nat>>) {
    && (te <==> codings != []) && (te ==> chunked == IsChunked(codings[|codings| - 1]))
    && Agree(lengths) && (length.None? <==> lengths == []) && (lengths != [] ==> length == lengths[0])
  }

  lemma AgreeMore(lengths: seq<Option<nat>>, more: seq<Option<nat>>)
    requires !Agree(lengths)
    ensures !Agree(lengths + more)
  {
    var i :| 0 <= i < |lengths| && !(lengths[i].Some? && lengths[i] == lengths[0]);
    assert (lengths + more)[i] == lengths[i] && (lengths + more)[0] == lengths[0];
  }

  /** A length the loop goes on with, and one it stops at. */
  lemma LengthStep(te: bool, chunked: bool, length: Option<nat>, codings: seq<Bytes>, lengths: seq<Option<nat>>,
                   n: Option<nat>, more: seq<Option<nat>>)
    requires StandsFor(te, chunked, length, codings, lengths)
    ensures n.Some? && (length.None? || length == n) ==> StandsFor(te, chunked, n, codings, lengths + [n])
    ensures !(n.Some? && (length.None? || length == n)) ==> !Agree(lengths + [n]) && !Agree(lengths + [n] + more)
  {
    var l := lengths + [n];
    assert l[|lengths|] == n && (lengths != [] ==> l[0] == lengths[0]);
    if !(n.Some? && (length.None? || length == n)) {
      AgreeMore(l, more);
    }
  }

  lemma FinalIsLast(value: Bytes)
    ensures var listed := Cells(value, COMMA); FinalChunked(value) <==> IsChunked(listed[|listed| - 1])
  {
    SplitIsCells(value, COMMA);
    hide Split, Cells;
    assert CHUNKED == Ascii("chunked");
  }

  lemma {:induction false} FramingFromExact(fields: seq<Bytes>, te: bool, chunked: bool, length: Option<nat>,
                                            codings: seq<Bytes>, lengths: seq<Option<nat>>)
    requires StandsFor(te, chunked, length, codings, lengths)
    ensures var r := FramingFrom(fields, te, chunked, length);
      var c, l := codings + Codings(fields), lengths + Lengths(fields);
      && (r.Ok? <==> Framed(c, l))
      && (r.Ok? ==> r.value == FramingBy(c, l))
      && (r.Err? ==> RefusedFor(c, l, r.error))
    decreases |fields|
  {
    hide FinalChunked, FieldValue, ParseU64, FindByte, EqIgnoreCase, Trim, Name, Cells, IsChunked;
    if fields == [] {
      assert codings + Codings(fields) == codings && lengths + Lengths(fields) == lengths;
    } else if Names(fields[0], TRANSFER_ENCODING) {
      var value := FieldValue(fields[0]);
      var listed := Cells(value, COMMA);
      FinalIsLast(value);
      assert codings + Codings(fields) == codings + listed + Codings(fields[1..]);
      FramingFromExact(fields[1..], true, FinalChunked(value), length, codings + listed, lengths);
    } else if Names(fields[0], CONTENT_LENGTH) {
      var n := ParseU64(FieldValue(fields[0]), 10);
      assert lengths + Lengths(fields) == lengths + [n] + Lengths(fields[1..]);
      LengthStep(te, chunked, length, codings, lengths, n, Lengths(fields[1..]));
      if n.Some? && (length.None? || length == n) {
        FramingFromExact(fields[1..], te, chunked, n, codings, lengths + [n]);
      } else {
        forall k | BadAt(lengths + [n] + Lengths(fields[1..]), k) ensures k == |lengths| {
          BadIsFirst(lengths, n, Lengths(fields[1..]), k);
        }
      }
    } else {
      FramingFromExact(fields[1..], te, chunked, length, codings, lengths);
    }
  }

  /** Framing, exactly, for every list of fields. In particular a head with a length and a transfer
      coding, or with two different lengths, is never framed; and why a head is not framed. */
  lemma FramingIsExact(fields: seq<Bytes>)
    ensures var r := FramingFrom(fields, false, false, None);
      && (r.Ok? <==> Framed(Codings(fields), Lengths(fields)))
      && (r.Ok? ==> r.value == FramingBy(Codings(fields), Lengths(fields)))
      && (r.Err? ==> RefusedFor(Codings(fields), Lengths(fields), r.error))
  {
    hide Codings, Lengths, FramingFrom;
    var c: seq<Bytes>, l: seq<Option<nat>> := [], [];
    FramingFromExact(fields, false, false, None, c, l);
    assert c + Codings(fields) == Codings(fields) && l + Lengths(fields) == Lengths(fields);
  }

  /** For example: with anything before a comma, only what is behind the last one counts. */
  lemma LastCodingCounts(before: Bytes, last: Bytes)
    requires COMMA !in last
    ensures FinalChunked(before + [COMMA] + last) <==> IsChunked(last)
    ensures FinalChunked(last) <==> IsChunked(last)
  {
    hide Cells, FinalChunked, IsChunked;
    FinalIsLast(before + [COMMA] + last);
    FinalIsLast(last);
    LastCell(before, COMMA, last);
  }

  // ---- Chunked bodies as they are written ----

  /** The first line of a chunk of `n` bytes: a hexadecimal numeral, with white space around it and a
      plus sign before it if need be, and behind it anything that starts with a semicolon. */
  ghost predicate SizeLine(line: Bytes, n: nat) {
    exists text, extension :: line == text + extension && SizeParts(text, extension, n)
  }

  ghost predicate SizeParts(text: Bytes, extension: Bytes, n: nat) {
    && SEMICOLON !in text && (extension != [] ==> extension[0] == SEMICOLON)
    && exists lead, cs, trail :: Spaced(text, lead, cs, trail) && HexNumeral(EncodeAll(cs), n)
  }

  /** The text is these characters with white space around them. */
  ghost predicate Spaced(text: Bytes, lead: seq<nat>, cs: seq<nat>, trail: seq<nat>) {
    && Scalars(lead + cs + trail) && Scalars(cs) && text == EncodeAll(lead + cs + trail)
    && AllWhite(lead) && Plain(cs) && AllWhite(trail)
  }

  predicate HexNumeral(s: Bytes, n: nat) {
    n <= U64_MAX && (Numeral(s, 16, n) || (s != [] && s[0] == '+' as int && Numeral(s[1..], 16, n)))
  }

  lemma SpacedTrims(text: Bytes, lead: seq<nat>, cs: seq<nat>, trail: seq<nat>)
    requires Spaced(text, lead, cs, trail)
    ensures Utf8(text) && TrimText(text) == EncodeAll(cs)
  {
    hide TrimText, EncodeAll, AllWhite, Plain;
    EncodedIsUtf8(lead + cs + trail);
    TrimTextExactly(lead, cs, trail);
  }

  /** Every text is some characters with white space around them. */
  lemma SpacedSomehow(text: Bytes) returns (lead: seq<nat>, cs: seq<nat>, trail: seq<nat>)
    requires Utf8(text)
    ensures Spaced(text, lead, cs, trail)
  {
    hide EncodeAll, White;
    var all := Utf8IsEncoded(text);
    var i := 0;
    while i < |all| && White(all[i])
      invariant i <= |all| && AllWhite(all[..i])
    {
      i := i + 1;
    }
    var j := |all|;
    while i < j && White(all[j - 1])
      invariant i <= j <= |all| && AllWhite(all[j..])
    {
      j := j - 1;
    }
    lead, cs, trail := all[..i], all[i..j], all[j..];
    assert lead + cs + trail == all;
  }

  lemma SizeIsWritten(line: Bytes, n: nat)
    requires ChunkSize(line) == Some(n)
    ensures SizeLine(line, n)
  {
    hide TrimText, Utf8, ParseU64, EncodeAll, Numeral, AllWhite, Plain;
    var i := FindByte(line, SEMICOLON);
    var field, rest := line[..i], line[i..];
    assert line == field + rest && SEMICOLON !in field;
    var lead, cs, trail := SpacedSomehow(field);
    SpacedTrims(field, lead, cs, trail);
    ParseU64Exactly(EncodeAll(cs), 16, n);
    assert SizeParts(field, rest, n);
  }

  lemma SizeIsRead(text: Bytes, extension: Bytes, n: nat)
    requires SizeParts(text, extension, n)
    ensures ChunkSize(text + extension) == Some(n)
  {
    hide TrimText, Utf8, ParseU64, EncodeAll, Numeral, AllWhite, Plain, FindByte;
    FirstSemicolon(text, extension);
    var lead, cs, trail :| Spaced(text, lead, cs, trail) && HexNumeral(EncodeAll(cs), n);
    SpacedTrims(text, lead, cs, trail);
    ParseU64Exactly(EncodeAll(cs), 16, n);
  }

  /** A chunk's size is read if and only if its line is such a line. */
  lemma ChunkSizeExactly(line: Bytes, n: nat)
    ensures ChunkSize(line) == Some(n) <==> SizeLine(line, n)
  {
    hide ChunkSize, SizeParts;
    if ChunkSize(line) == Some(n) { SizeIsWritten(line, n); }
    if text, extension :| line == text + extension && SizeParts(text, extension, n) { SizeIsRead(text, extension, n); }
  }

  lemma FirstSemicolon(text: Bytes, extension: Bytes)
    requires SEMICOLON !in text && (extension != [] ==> extension[0] == SEMICOLON)
    ensures (text + extension)[..FindByte(text + extension, SEMICOLON)] == text
  {
    var s := text + extension;
    assert forall k :: 0 <= k < |text| ==> s[k] == text[k];
    assert extension != [] ==> s[|text|] == SEMICOLON;
    assert FindByte(s, SEMICOLON) == |text|;
  }

  datatype Chunk = Chunk(line: Bytes, data: Bytes) {
    ghost predicate Valid() { NoCrlf(line) && data != [] && SizeLine(line, |data|) }
  }

  datatype ChunkedBody = ChunkedBody(chunks: seq<Chunk>, lastLine: Bytes, trailers: seq<Bytes>) {
    ghost predicate Valid() {
      && (forall i :: 0 <= i < |chunks| ==> chunks[i].Valid())
      && NoCrlf(lastLine) && SizeLine(lastLine, 0) && AllWellFormed(trailers)
    }
  }

  function ChunkText(c: Chunk): Bytes { c.line + CRLF + c.data + CRLF }

  /** The chunks from the i-th on, the last-chunk line, the trailers and the empty line. */
  function BodyText(b: ChunkedBody, i: nat): Bytes
    requires i <= |b.chunks|
    decreases |b.chunks| - i
  {
    if i == |b.chunks| then b.lastLine + CRLF + PrintFields(b.trailers)
    else ChunkText(b.chunks[i]) + BodyText(b, i + 1)
  }

  lemma LineAt(pre: Bytes, line: Bytes, post: Bytes)
    requires NoCrlf(line)
    ensures var t := pre + line + CRLF + post; FindCrlf(t, |pre|) == |pre| + |line| && t[|pre|..|pre| + |line|] == line
  {
    hide FindCrlf, NoCrlf;
    FindCrlfAfter(pre, line, post);
    Assoc(pre + line, CRLF, post);
    Middle(pre, line, CRLF + post);
  }

  lemma Middle(a: Bytes, b: Bytes, c: Bytes)
    ensures (a + b + c)[|a|..|a| + |b|] == b
  {
  }

  /** A chunk in place is one turn of the copy. */
  lemma ChunkInPlace(pre: Bytes, c: Chunk, post: Bytes)
    requires c.Valid()
    ensures ChunkTurn(pre + ChunkText(c) + post, |pre|) == WholeChunk(|pre| + |ChunkText(c)|)
  {
    hide ChunkSize, FindCrlf, SizeLine, NoCrlf;
    ChunkSizeExactly(c.line, |c.data|);
    var t := pre + ChunkText(c) + post;
    assert t == pre + c.line + CRLF + (c.data + CRLF + post);
    LineAt(pre, c.line, c.data + CRLF + post);
    var before := pre + c.line + CRLF + c.data;
    assert t == before + [] + CRLF + post;
    assert NoCrlf([]) by { NothingIsOneLine(); }
    FindCrlfAfter(before, [], post);
  }

  lemma NothingIsOneLine()
    ensures NoCrlf([])
  {
  }

  lemma LastChunkInPlace(pre: Bytes, line: Bytes, post: Bytes)
    requires NoCrlf(line) && SizeLine(line, 0)
    ensures ChunkTurn(pre + (line + CRLF) + post, |pre|) == LastChunk(|pre| + |line| + 2)
  {
    hide ChunkSize, FindCrlf, SizeLine, NoCrlf;
    ChunkSizeExactly(line, 0);
    assert pre + (line + CRLF) + post == pre + line + CRLF + post;
    LineAt(pre, line, post);
  }

  lemma {:induction false} TrailersInPlace(pre: Bytes, trailers: seq<Bytes>, post: Bytes)
    requires AllWellFormed(trailers)
    ensures Trailers(pre + PrintFields(trailers) + post, |pre|) == Whole(|pre| + |PrintFields(trailers)|)
    decreases |trailers|
  {
    hide FindCrlf;
    var t := pre + PrintFields(trailers) + post;
    if trailers == [] {
      assert t == pre + [] + CRLF + post;
      FindCrlfAfter(pre, [], post);
    } else {
      var line, rest := trailers[0], PrintFields(trailers[1..]);
      assert t == pre + line + CRLF + (rest + post);
      FindCrlfAfter(pre, line, rest + post);
      var next := pre + line + CRLF;
      assert t == next + rest + post;
      TrailersInPlace(next, trailers[1..], post);
    }
  }

  lemma {:induction false} BodyInPlace(pre: Bytes, b: ChunkedBody, i: nat, post: Bytes)
    requires b.Valid() && i <= |b.chunks|
    ensures Chunks(pre + BodyText(b, i) + post, |pre|) == Whole(|pre| + |BodyText(b, i)|)
    decreases |b.chunks| - i
  {
    hide ChunkTurn, Trailers, ChunkText, PrintFields, SizeLine;
    var t := pre + BodyText(b, i) + post;
    if i == |b.chunks| {
      var line, trailers := b.lastLine, PrintFields(b.trailers);
      assert t == pre + (line + CRLF) + (trailers + post);
      LastChunkInPlace(pre, line, trailers + post);
      assert t == (pre + line + CRLF) + trailers + post;
      TrailersInPlace(pre + line + CRLF, b.trailers, post);
    } else {
      var c, rest := ChunkText(b.chunks[i]), BodyText(b, i + 1);
      assert t == pre + c + (rest + post);
      ChunkInPlace(pre, b.chunks[i], rest + post);
      assert t == (pre + c) + rest + post;
      BodyInPlace(pre + c, b, i + 1, post);
    }
  }

  // ---- And what is found whole was written that way ----

  lemma OneLine(t: Bytes, i: nat, r: nat)
    requires i <= r <= |t| && forall j :: i <= j < r ==> !CrlfAt(t, j)
    ensures NoCrlf(t[i..r])
  {
    forall j | 0 <= j < r - i ensures !CrlfAt(t[i..r], j) {
      assert !CrlfAt(t, i + j);
    }
  }

  lemma {:induction false} TrailersWritten(t: Bytes, i: nat) returns (trailers: seq<Bytes>)
    requires i <= |t| && Trailers(t, i).Whole?
    ensures AllWellFormed(trailers) && t[i..Trailers(t, i).end] == PrintFields(trailers)
    decreases |t| - i
  {
    var r := FindCrlf(t, i);
    var n := Trailers(t, i).end;
    assert t[r..r + 2] == CRLF;
    if r == i {
      trailers := [];
    } else {
      var rest := TrailersWritten(t, r + 2);
      OneLine(t, i, r);
      trailers := [t[i..r]] + rest;
      assert trailers[1..] == rest;
      assert t[i..n] == t[i..r] + t[r..r + 2] + t[r + 2..n];
    }
  }

  lemma TurnWritten(t: Bytes, i: nat) returns (c: Chunk)
    requires i <= |t| && ChunkTurn(t, i).WholeChunk?
    ensures c.Valid() && t[i..ChunkTurn(t, i).next] == ChunkText(c)
  {
    hide ChunkSize, SizeLine, NoCrlf;
    var r := FindCrlf(t, i);
    var n := ChunkSize(t[i..r]).value;
    ChunkSizeExactly(t[i..r], n);
    OneLine(t, i, r);
    var j := r + 2 + n;
    c := Chunk(t[i..r], t[r + 2..j]);
    assert t[r..r + 2] == CRLF && t[j..j + 2] == CRLF;
    assert t[i..j + 2] == t[i..r] + t[r..r + 2] + t[r + 2..j] + t[j..j + 2];
  }

  lemma LastWritten(t: Bytes, i: nat) returns (line: Bytes)
    requires i <= |t| && ChunkTurn(t, i).LastChunk?
    ensures NoCrlf(line) && SizeLine(line, 0) && t[i..ChunkTurn(t, i).next] == line + CRLF
  {
    hide ChunkSize, SizeLine, NoCrlf;
    var r := FindCrlf(t, i);
    line := t[i..r];
    ChunkSizeExactly(line, 0);
    OneLine(t, i, r);
    assert t[r..r + 2] == CRLF && t[i..r + 2] == t[i..r] + t[r..r + 2];
  }

  lemma BodyCons(c: Chunk, b: ChunkedBody, i: nat)
    requires i <= |b.chunks|
    ensures BodyText(b.(chunks := [c] + b.chunks), i + 1) == BodyText(b, i)
    decreases |b.chunks| - i
  {
    var b' := b.(chunks := [c] + b.chunks);
    if i < |b.chunks| {
      BodyCons(c, b, i + 1);
      assert b'.chunks[i + 1] == b.chunks[i];
    }
  }

  lemma {:induction false} BodyWritten(t: Bytes, i: nat) returns (b: ChunkedBody)
    requires i <= |t| && Chunks(t, i).Whole?
    ensures b.Valid() && t[i..Chunks(t, i).end] == BodyText(b, 0)
    decreases |t| - i
  {
    hide ChunkTurn, Trailers, ChunkText, PrintFields, SizeLine, NoCrlf;
    var turn, n := ChunkTurn(t, i), Chunks(t, i).end;
    if turn.LastChunk? {
      var line := LastWritten(t, i);
      var trailers := TrailersWritten(t, turn.next);
      b := ChunkedBody([], line, trailers);
      assert t[i..n] == t[i..turn.next] + t[turn.next..n];
    } else {
      var c := TurnWritten(t, i);
      var rest := BodyWritten(t, turn.next);
      b := rest.(chunks := [c] + rest.chunks);
      BodyCons(c, rest, 0);
      assert t[i..n] == t[i..turn.next] + t[turn.next..n];
    }
  }

  /** Where a chunked body ends: at `n` if and only if the bytes before it are a chunked body, as the
      standard writes one, with any extensions and trailers; whatever follows. */
  lemma ChunkedBodyIsFramed(t: Bytes, n: nat)
    ensures CopyOf(t, Chunked) == Whole(n) <==>
      n <= |t| && exists b: ChunkedBody :: b.Valid() && t[..n] == BodyText(b, 0)
  {
    hide BodyText, Chunks, SizeLine, NoCrlf, AllWellFormed;
    if Chunks(t, 0) == Whole(n) {
      var b := BodyWritten(t, 0);
      assert t[..n] == t[0..n];
      assert b.Valid() && t[..n] == BodyText(b, 0);
    }
    if n <= |t| {
      if b: ChunkedBody :| b.Valid() && t[..n] == BodyText(b, 0) {
        BodyInPlace([], b, 0, t[n..]);
        assert [] + BodyText(b, 0) + t[n..] == t;
      }
    }
  }
}
