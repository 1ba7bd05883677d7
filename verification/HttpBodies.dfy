/** Copying bodies as the pumps do, over reads of any size and a carried-over buffer. Every method is
    specified by the stream alone as long as control lines respect their limits, and past them by what
    is known of the cut. */
module HttpBodies {
  import opened Wrappers
  import opened Bytes
  import opened HttpHead
  import opened HttpStream
  import opened HttpReads
  import opened HttpCuts

  // ---- Body copies ----

  lemma Advance(t: Bytes, done: nat, data: Bytes, rest: Bytes)
    requires done <= |t| && t[done..] == data + rest
    ensures done + |data| <= |t|
    ensures t[..done] + data == t[..done + |data|]
    ensures t[done + |data|..] == rest
  {
    assert t[done..][..|data|] == data && t[done..][|data|..] == rest;
  }

  /** `copy_exact`: the next `n` bytes, or all there are and an error. */
  method CopyExact(reader: Reader, writer: Writer, n: nat) returns (r: Result<(), HttpError>)
    requires reader.Valid()
    modifies reader, writer
    ensures reader.Valid()
    ensures var t := old(reader.Rest());
      if n <= |t| then r == Ok(()) && writer.out == old(writer.out) + t[..n] && reader.Rest() == t[n..]
      else r == Err(UnexpectedEof) && writer.out == old(writer.out) + t && reader.Rest() == []
    ensures r.Ok? ==> reader.chunks == SkipBytes(old(reader.chunks), n)
  {
    hide Flatten, SkipBytes, ReadOne;
    SkipNone(reader.chunks);
    var remaining := n;
    ghost var t := reader.Rest();
    while remaining > 0
      invariant reader.Valid() && 0 <= remaining <= n && n - remaining <= |t|
      invariant writer.out == old(writer.out) + t[..n - remaining]
      invariant reader.Rest() == t[n - remaining..]
      invariant reader.chunks == SkipBytes(old(reader.chunks), n - remaining)
    {
      if reader.chunks != [] {
        FlattenSome(reader.chunks);
        SkipMore(old(reader.chunks), n - remaining, if remaining < 8192 then remaining else 8192);
      }
      var data := reader.Read(if remaining < 8192 then remaining else 8192);
      if data == [] {
        return Err(UnexpectedEof);
      }
      Advance(t, n - remaining, data, reader.Rest());
      writer.Write(data);
      remaining := remaining - |data|;
    }
    return Ok(());
  }

  /** `copy_body`: `copy_exact` over the carried-over bytes and then the reader. */
  method CopyBody(reader: Reader, writer: Writer, carried: Bytes, n: nat)
    returns (r: Result<(), HttpError>, carry: Bytes)
    requires reader.Valid()
    modifies reader, writer
    ensures reader.Valid()
    ensures var t := carried + old(reader.Rest());
      if n <= |t| then r == Ok(()) && writer.out == old(writer.out) + t[..n] && carry + reader.Rest() == t[n..]
      else r == Err(UnexpectedEof) && writer.out == old(writer.out) + t
    ensures r.Ok? && n <= |carried| ==> |carry| == |carried| - n && reader.chunks == old(reader.chunks)
    ensures r.Ok? && n > |carried| ==> carry == [] && reader.chunks == SkipBytes(old(reader.chunks), n - |carried|)
  {
    hide Flatten, SkipBytes;
    var buffered := if |carried| < n then |carried| else n;
    ghost var t := carried + reader.Rest();
    writer.Write(carried[..buffered]);
    carry := carried[buffered..];
    r := Ok(());
    assert t[..buffered] == carried[..buffered];
    if n > buffered {
      assert carry == [] && t[buffered..] == reader.Rest();
      assert n <= |t| ==> t[..n] == t[..buffered] + t[buffered..][..n - buffered];
      assert n <= |t| ==> t[buffered..][n - buffered..] == t[n..];
      assert t == t[..buffered] + t[buffered..];
      r := CopyExact(reader, writer, n - buffered);
    } else {
      assert t[n..] == carry + reader.Rest();
    }
  }

  /** `tokio::io::copy`: everything up to the end of the stream. */
  method CopyToEnd(reader: Reader, writer: Writer)
    requires reader.Valid()
    modifies reader, writer
    ensures reader.Valid() && reader.Rest() == []
    ensures writer.out == old(writer.out) + old(reader.Rest())
  {
    hide Flatten;
    ghost var t := reader.Rest();
    ghost var done: nat := 0;
    assert t[..0] == [] && t[0..] == t;
    while true
      invariant reader.Valid() && done <= |t|
      invariant writer.out == old(writer.out) + t[..done] && reader.Rest() == t[done..]
      decreases |reader.Rest()|
    {
      var data := reader.Read(8192);
      if data == [] {
        assert t[..done] == t;
        return;
      }
      Advance(t, done, data, reader.Rest());
      writer.Write(data);
      done := done + |data|;
    }
  }

  // ---- copy_chunked_body ----

  /** Where the copy of a part of a body stops under every such cut: at its first line past the limit, if
      that one is refused. */
  function LineStop(t: Bytes, i: nat, mode: Mode): (r: Option<nat>)
    requires i <= |t|
    ensures r.Some? ==> r.value <= |t|
  {
    var r := FindCrlf(t, i);
    if r < |t| && LineRefused(mode, i, r + 2 - i) then Some(i) else None
  }

  function TrailersStop(t: Bytes, i: nat, mode: Mode): (r: Option<nat>)
    requires i <= |t|
    ensures r.Some? ==> r.value <= |t|
    decreases |t| - i
  {
    var r := FindCrlf(t, i);
    if r == |t| || !LineFits(r + 2 - i) then LineStop(t, i, mode)
    else if r == i then None
    else TrailersStop(t, r + 2, mode)
  }

  function TurnStop(t: Bytes, i: nat, mode: Mode): (r: Option<nat>)
    requires i <= |t|
    ensures r.Some? ==> r.value <= |t|
  {
    var r := FindCrlf(t, i);
    if r == |t| || !LineFits(r + 2 - i) then LineStop(t, i, mode)
    else
      var size := ChunkSize(t[i..r]);
      if size.Some? && size.value > 0 && r + 2 + size.value <= |t| then LineStop(t, r + 2 + size.value, mode) else None
  }

  function ChunksStop(t: Bytes, i: nat, mode: Mode): (r: Option<nat>)
    requires i <= |t|
    ensures r.Some? ==> r.value <= |t|
    decreases |t| - i
  {
    if !TurnFits(t, i) then TurnStop(t, i, mode)
    else
      match ChunkTurn(t, i)
      case LastChunk(next) => TrailersStop(t, next, mode)
      case WholeChunk(next) => ChunksStop(t, next, mode)
      case BrokenChunk(_, _) => None
  }

  /** Every trailer line read from offset `i` on is within the limit. */
  predicate TrailersFit(t: Bytes, i: nat)
    requires i <= |t|
    decreases |t| - i
  {
    var r := FindCrlf(t, i);
    r == |t| || (LineFits(r + 2 - i) && (r == i || TrailersFit(t, r + 2)))
  }

  /** The control lines one turn reads are within the limit. */
  predicate TurnFits(t: Bytes, i: nat)
    requires i <= |t|
  {
    var r := FindCrlf(t, i);
    r == |t| ||
    (LineFits(r + 2 - i) &&
     var size := ChunkSize(t[i..r]);
     (size.Some? && size.value > 0 && r + 2 + size.value <= |t| ==>
        var j := r + 2 + size.value;
        var q := FindCrlf(t, j);
        q == |t| || LineFits(q + 2 - j)))
  }

  predicate ChunksFit(t: Bytes, i: nat)
    requires i <= |t|
    decreases |t| - i
  {
    TurnFits(t, i) &&
    match ChunkTurn(t, i)
    case LastChunk(next) => TrailersFit(t, next)
    case WholeChunk(next) => ChunksFit(t, next)
    case BrokenChunk(_, _) => true
  }

  /** How much of the stream a body copy writes. */
  function CopyExtent(c: Copied): nat {
    if c.Whole? then c.end else c.written
  }

  lemma {:induction false} FindCrlfShift(t: Bytes, i: nat, j: nat)
    requires i + j <= |t|
    ensures FindCrlf(t[i..], j) + i == FindCrlf(t, i + j)
    decreases |t| - j
  {
    assert CrlfAt(t[i..], j) <==> CrlfAt(t, i + j);
    if i + j < |t| && !CrlfAt(t, i + j) { FindCrlfShift(t, i, j + 1); }
  }

  /** Mid-copy: of the stream `t`, `written` bytes are written behind `base` and `taken` bytes are
      taken from the carried-over buffer and the reader. */
  ghost predicate Copying(reader: Reader, writer: Writer, carry: Bytes,
                          base: Bytes, t: Bytes, written: nat, taken: nat, mode: Mode)
    reads reader, writer
  {
    && taken <= |t| && carry + reader.Rest() == t[taken..] && Wrote(writer, base, t, written)
    && Holds(mode, |carry|, reader.chunks, taken, t)
  }

  ghost predicate Wrote(writer: Writer, base: Bytes, t: Bytes, n: nat)
    reads writer
  {
    n <= |t| && writer.out == base + t[..n]
  }

  /** The line at `i`, if there is a whole one, need not be read. */
  predicate Refusable(t: Bytes, i: nat, mode: Mode) {
    i <= |t| && (FindCrlf(t, i) < |t| ==> !LineForced(mode, i, FindCrlf(t, i) + 2 - i))
  }

  /** The next control line, taken but not yet written. */
  method TakeLine(reader: Reader, ghost writer: Writer, carried: Bytes, ghost base: Bytes, ghost t: Bytes, ghost i: nat,
                  ghost mode: Mode)
    returns (r: Result<Bytes, HttpError>, carry: Bytes)
    requires Copying(reader, writer, carried, base, t, i, i, mode)
    modifies reader
    ensures i <= |t|
    ensures var e := FindCrlf(t, i);
      match r
      case Ok(line) => e + 2 <= |t| && line == t[i..e + 2] && Copying(reader, writer, carry, base, t, i, e + 2, mode)
      case Err(error) =>
        && Wrote(writer, base, t, i)
        && if e == |t| then error == LineCutOff(|t| - i)
           else error == LineTooLong && !LineFits(e + 2 - i)
    ensures LineStop(t, i, mode).Some? ==> r == Err(LineTooLong)
    ensures r == Err(LineTooLong) ==> Refusable(t, i, mode)
  {
    hide Flatten, FindCrlf, Reaches, Reached, Shape, LineForced, LineRefused;
    FindCrlfShift(t, i, 0);
    ghost var n := FindCrlf(t, i) + 2 - i;
    if FindCrlf(t, i) < |t| {
      if LineForced(mode, i, n) { ForcedReaches(mode, |carried|, reader.chunks, i, t, n); }
      if LineRefused(mode, i, n) { RefusedStops(mode, |carried|, reader.chunks, i, t, n); }
      if Reaches(|carried|, reader.chunks, n, MAX_CHUNK_LINE, LINE_READ) {
        LineHolds(mode, |carried|, reader.chunks, i, t, n);
      }
      FitsIsForced(mode, i, n);
    }
    r, carry := ReadControlLine(reader, carried);
    if r.Ok? {
      assert |r.value| == n;
      assert t[i..][..n] == t[i..i + n] && t[i..][n..] == t[i + n..];
    }
  }

  lemma FitsIsForced(mode: Mode, i: nat, n: nat)
    ensures LineFits(n) ==> LineForced(mode, i, n)
  {
  }

  /** Write the bytes taken since the last write. */
  method Emit(ghost reader: Reader, writer: Writer, data: Bytes, ghost carry: Bytes,
              ghost base: Bytes, ghost t: Bytes, ghost i: nat, ghost n: nat, ghost mode: Mode)
    requires i <= n <= |t| && data == t[i..n] && Copying(reader, writer, carry, base, t, i, n, mode)
    modifies writer
    ensures Copying(reader, writer, carry, base, t, n, n, mode)
  {
    hide Flatten;
    writer.Write(data);
    assert t[..i] + t[i..n] == t[..n];
    assert base + t[..i] + t[i..n] == base + (t[..i] + t[i..n]);
  }

  /** The next `size` bytes, taken and written. */
  method CopyNext(reader: Reader, writer: Writer, carried: Bytes, size: nat,
                  ghost base: Bytes, ghost t: Bytes, ghost i: nat, ghost mode: Mode)
    returns (r: Result<(), HttpError>, carry: Bytes)
    requires Copying(reader, writer, carried, base, t, i, i, mode)
    modifies reader, writer
    ensures i <= |t|
    ensures if i + size <= |t| then r == Ok(()) && Copying(reader, writer, carry, base, t, i + size, i + size, mode)
            else r == Err(UnexpectedEof) && Wrote(writer, base, t, |t|)
  {
    hide Flatten, Shape, SkipBytes;
    CopySlices(base, t, i, if i + size <= |t| then i + size else |t|);
    if i + size <= |t| { DataHolds(mode, |carried|, reader.chunks, i, t, size); }
    r, carry := CopyBody(reader, writer, carried, size);
  }

  lemma CopySlices(base: Bytes, t: Bytes, i: nat, n: nat)
    requires i <= n <= |t|
    ensures base + t[..i] + t[i..][..n - i] == base + t[..n]
    ensures t[i..][n - i..] == t[n..]
    ensures n == |t| ==> t[i..][..n - i] == t[i..]
  {
    assert t[i..][..n - i] == t[i..n] && t[..i] + t[i..n] == t[..n];
    assert base + t[..i] + t[i..n] == base + (t[..i] + t[i..n]);
  }

  lemma TrailerTurn(t: Bytes, i: nat, mode: Mode)
    requires i <= |t| && FindCrlf(t, i) < |t|
    ensures var next := FindCrlf(t, i) + 2;
      && (TrailersStop(t, i, mode).Some? ==> LineFits(next - i) || LineStop(t, i, mode) == TrailersStop(t, i, mode))
      && if t[i..next] == CRLF then Trailers(t, i) == Whole(next) && TrailersStop(t, i, mode).None?
         else
           && Trailers(t, i) == Trailers(t, next) && (TrailersFit(t, i) ==> TrailersFit(t, next))
           && (LineFits(next - i) ==> TrailersStop(t, i, mode) == TrailersStop(t, next, mode))
  {
    var r := FindCrlf(t, i);
    if r == i {
      var two := t[i..i + 2];
      assert two[0] == t[i] == CRLF[0] && two[1] == t[i + 1] == CRLF[1];
      assert two == CRLF;
    }
  }

  lemma TrailersHalt(t: Bytes, i: nat, mode: Mode)
    requires i <= |t|
    ensures FindCrlf(t, i) == |t| ==> Trailers(t, i) == Broken(i, LineCutOff(|t| - i))
    ensures FindCrlf(t, i) < |t| && !LineFits(FindCrlf(t, i) + 2 - i) ==> !TrailersFit(t, i)
    ensures FindCrlf(t, i) == |t| ==> TrailersStop(t, i, mode).None?
    ensures FindCrlf(t, i) < |t| && !LineFits(FindCrlf(t, i) + 2 - i) ==>
      TrailersStop(t, i, mode) == LineStop(t, i, mode)
    ensures LineStop(t, i, mode).Some? ==> LineStop(t, i, mode) == Some(i)
  {
  }

  /** The trailer section of a chunked body. */
  method CopyTrailers(reader: Reader, writer: Writer, carried: Bytes, ghost base: Bytes, ghost t: Bytes,
                      ghost start: nat, ghost mode: Mode)
    returns (r: Result<(), HttpError>, carry: Bytes, ghost done: nat)
    requires start <= |t| && Copying(reader, writer, carried, base, t, start, start, mode)
    modifies reader, writer
    ensures Wrote(writer, base, t, done)
    ensures r.Ok? ==> Copying(reader, writer, carry, base, t, done, done, mode)
    ensures
      || (done == CopyExtent(Trailers(t, start)) &&
          r == if Trailers(t, start).Whole? then Ok(()) else Err(Trailers(t, start).error))
      || (r == Err(LineTooLong) && !TrailersFit(t, start) && done <= CopyExtent(Trailers(t, start)))
    ensures TrailersStop(t, start, mode).Some? ==> r == Err(LineTooLong) && done == TrailersStop(t, start, mode).value
    ensures r == Err(LineTooLong) ==> Refusable(t, done, mode)
  {
    hide Trailers, TrailersFit, FindCrlf, LineCutOff, Copying, Wrote, TrailersStop, LineStop, LineFits, Refusable;
    carry := carried;
    done := start;
    while true
      invariant done <= |t| && Copying(reader, writer, carry, base, t, done, done, mode)
      invariant Trailers(t, start) == Trailers(t, done)
      invariant TrailersFit(t, start) ==> TrailersFit(t, done)
      invariant TrailersStop(t, start, mode).Some? ==> TrailersStop(t, done, mode) == TrailersStop(t, start, mode)
      decreases |t| - done
    {
      TrailersHalt(t, done, mode);
      var line;
      line, carry := TakeLine(reader, writer, carry, base, t, done, mode);
      if line.Err? {
        return Err(line.error), carry, done;
      }
      TrailerTurn(t, done, mode);
      ghost var next := FindCrlf(t, done) + 2;
      Emit(reader, writer, line.value, carry, base, t, done, next, mode);
      CopyingWrote(reader, writer, carry, base, t, next, mode);
      done := next;
      if line.value == CRLF {
        return Ok(()), carry, done;
      }
    }
  }

  lemma CopyingWrote(reader: Reader, writer: Writer, carry: Bytes, base: Bytes, t: Bytes, n: nat, mode: Mode)
    requires Copying(reader, writer, carry, base, t, n, n, mode)
    ensures Wrote(writer, base, t, n)
  {
  }

  function Extent(turn: Turn): nat {
    if turn.BrokenChunk? then turn.written else turn.next
  }

  ghost predicate TurnDid(t: Bytes, i: nat, r: Result<bool, HttpError>, done: nat)
    requires i <= |t|
  {
    var turn := ChunkTurn(t, i);
    done == Extent(turn) &&
    match turn
    case LastChunk(_) => r == Ok(true)
    case WholeChunk(_) => r == Ok(false)
    case BrokenChunk(_, error) => r == Err(error)
  }

  ghost predicate TurnCutOff(t: Bytes, i: nat, r: Result<bool, HttpError>, done: nat)
    requires i <= |t|
  {
    r == Err(LineTooLong) && !TurnFits(t, i) && done <= Extent(ChunkTurn(t, i))
  }

  /** What a turn does after its size line, in terms of that line and the bytes behind it. */
  lemma SizeLine(t: Bytes, i: nat, mode: Mode)
    requires i <= |t|
    ensures var r := FindCrlf(t, i);
      if r == |t| then ChunkTurn(t, i) == BrokenChunk(i, LineCutOff(|t| - i)) && TurnStop(t, i, mode).None?
      else
        && r + 2 <= |t| && (LineStop(t, i, mode).Some? ==> !LineFits(r + 2 - i) && LineStop(t, i, mode) == Some(i))
        && (!LineFits(r + 2 - i) ==> !TurnFits(t, i) && TurnStop(t, i, mode) == LineStop(t, i, mode))
        && var size := ChunkSize(t[i..r]);
          (LineFits(r + 2 - i) && (size.None? || size.value == 0 || r + 2 + size.value > |t|) ==>
             TurnStop(t, i, mode).None?) &&
          (size.None? ==> ChunkTurn(t, i) == BrokenChunk(i, MalformedChunkSize)) &&
          (size.Some? ==>
            && (size.value == 0 ==> ChunkTurn(t, i) == LastChunk(r + 2))
            && (size.value > 0 && r + 2 + size.value > |t| ==>
                ChunkTurn(t, i) == BrokenChunk(|t|, UnexpectedEof)))
  {
    hide ChunkSize;
  }

  lemma ChunkEnd(t: Bytes, i: nat, j: nat, mode: Mode)
    requires i <= |t| && FindCrlf(t, i) < |t| && ChunkSize(t[i..FindCrlf(t, i)]).Some?
    requires ChunkSize(t[i..FindCrlf(t, i)]).value > 0
    requires j == FindCrlf(t, i) + 2 + ChunkSize(t[i..FindCrlf(t, i)]).value <= |t|
    ensures LineFits(FindCrlf(t, i) + 2 - i) ==> TurnStop(t, i, mode) == LineStop(t, j, mode)
    ensures LineStop(t, j, mode).Some? ==> LineStop(t, j, mode) == Some(j)
    ensures var q := FindCrlf(t, j);
      if q == |t| then ChunkTurn(t, i) == BrokenChunk(j, LineCutOff(|t| - j))
      else
        && q + 2 <= |t|
        && (!LineFits(q + 2 - j) ==> !TurnFits(t, i))
        && j <= Extent(ChunkTurn(t, i))
        && ChunkTurn(t, i) == if t[j..q + 2] == CRLF then WholeChunk(q + 2)
                              else BrokenChunk(j, MissingChunkCrlf)
  {
    hide ChunkSize;
    var q := FindCrlf(t, j);
    if q == j < |t| { assert t[j..j + 2] == [t[j], t[j + 1]] == CRLF; }
  }

  /** One turn of `copy_chunked_body`; `Ok(true)` once the last chunk's size line is through. */
  method CopyChunk(reader: Reader, writer: Writer, carried: Bytes, ghost base: Bytes, ghost t: Bytes, ghost i: nat,
                   ghost mode: Mode)
    returns (r: Result<bool, HttpError>, carry: Bytes, ghost done: nat)
    requires i <= |t| && Copying(reader, writer, carried, base, t, i, i, mode)
    modifies reader, writer
    ensures Wrote(writer, base, t, done)
    ensures r.Ok? ==> i < done && Copying(reader, writer, carry, base, t, done, done, mode)
    ensures TurnDid(t, i, r, done) || TurnCutOff(t, i, r, done)
    ensures TurnStop(t, i, mode).Some? ==> r == Err(LineTooLong) && done == TurnStop(t, i, mode).value
    ensures r == Err(LineTooLong) ==> Refusable(t, done, mode)
  {
    hide ChunkTurn, TurnFits, TurnStop, FindCrlf, LineCutOff, ChunkSize, Copying, Wrote, Refusable;
    SizeLine(t, i, mode);
    var line;
    line, carry := TakeLine(reader, writer, carried, base, t, i, mode);
    if line.Err? {
      return Err(line.error), carry, i;
    }
    ghost var next := FindCrlf(t, i) + 2;
    assert line.value[..|line.value| - 2] == t[i..next - 2];
    var size := ChunkSize(line.value[..|line.value| - 2]);
    if size.None? {
      CopyingTaken(reader, writer, carry, base, t, i, next, mode);
      return Err(MalformedChunkSize), carry, i;
    }
    Emit(reader, writer, line.value, carry, base, t, i, next, mode);
    CopyingWrote(reader, writer, carry, base, t, next, mode);
    if size.value == 0 {
      return Ok(true), carry, next;
    }
    r, carry, done := CopyData(reader, writer, carry, size.value, base, t, i, next, mode);
  }

  lemma CopyingTaken(reader: Reader, writer: Writer, carry: Bytes, base: Bytes, t: Bytes, n: nat, taken: nat,
                     mode: Mode)
    requires Copying(reader, writer, carry, base, t, n, taken, mode)
    ensures Wrote(writer, base, t, n)
  {
  }

  /** The data of a chunk and the CRLF behind it. */
  method CopyData(reader: Reader, writer: Writer, carried: Bytes, size: nat,
                  ghost base: Bytes, ghost t: Bytes, ghost i: nat, ghost from: nat, ghost mode: Mode)
    returns (r: Result<bool, HttpError>, carry: Bytes, ghost done: nat)
    requires i <= from <= |t| && Copying(reader, writer, carried, base, t, from, from, mode)
    requires FindCrlf(t, i) + 2 == from && ChunkSize(t[i..from - 2]) == Some(size) && size > 0
    modifies reader, writer
    ensures Wrote(writer, base, t, done)
    ensures r.Ok? ==> i < done && Copying(reader, writer, carry, base, t, done, done, mode)
    ensures TurnDid(t, i, r, done) || TurnCutOff(t, i, r, done)
    ensures LineFits(from - i) && TurnStop(t, i, mode).Some? ==>
      r == Err(LineTooLong) && done == TurnStop(t, i, mode).value
    ensures r == Err(LineTooLong) ==> Refusable(t, done, mode)
  {
    hide ChunkTurn, TurnFits, TurnStop, FindCrlf, LineCutOff, ChunkSize, Copying, Wrote, Refusable;
    SizeLine(t, i, mode);
    var body;
    body, carry := CopyNext(reader, writer, carried, size, base, t, from, mode);
    if body.Err? {
      return Err(body.error), carry, |t|;
    }
    done := from + size;
    ChunkEnd(t, i, done, mode);
    var crlf;
    crlf, carry := TakeLine(reader, writer, carry, base, t, done, mode);
    if crlf.Err? {
      return Err(crlf.error), carry, done;
    }
    ghost var next := FindCrlf(t, done) + 2;
    if crlf.value != CRLF {
      CopyingTaken(reader, writer, carry, base, t, done, next, mode);
      return Err(MissingChunkCrlf), carry, done;
    }
    Emit(reader, writer, crlf.value, carry, base, t, done, next, mode);
    CopyingWrote(reader, writer, carry, base, t, next, mode);
    return Ok(false), carry, next;
  }

  /** A turn that goes on leaves the rest of the body; one that ends decides the body. */
  lemma ChunksTurn(t: Bytes, i: nat, mode: Mode)
    requires i <= |t|
    ensures match ChunkTurn(t, i)
      case LastChunk(n) => Chunks(t, i) == Trailers(t, n) && (ChunksFit(t, i) ==> TrailersFit(t, n))
      case WholeChunk(n) => Chunks(t, i) == Chunks(t, n) && (ChunksFit(t, i) ==> ChunksFit(t, n))
      case BrokenChunk(w, error) => Chunks(t, i) == Broken(w, error)
    ensures !TurnFits(t, i) ==> !ChunksFit(t, i)
    ensures !TurnFits(t, i) ==> ChunksStop(t, i, mode) == TurnStop(t, i, mode)
    ensures TurnFits(t, i) ==>
      var turn, stop := ChunkTurn(t, i), ChunksStop(t, i, mode);
      stop == if turn.LastChunk? then TrailersStop(t, turn.next, mode)
              else if turn.WholeChunk? then ChunksStop(t, turn.next, mode) else None
    ensures Extent(ChunkTurn(t, i)) <= CopyExtent(Chunks(t, i)) <= |t|
  {
    hide ChunkTurn, TurnFits, Trailers, TrailersFit, TurnStop, TrailersStop;
  }

  lemma StoppedTurn(t: Bytes, i: nat, mode: Mode)
    requires i <= |t|
    ensures TurnStop(t, i, mode).Some? ==> !TurnFits(t, i)
  {
    hide ChunkSize, FindCrlf;
  }

  ghost predicate ChunksDid(t: Bytes, r: Result<(), HttpError>, done: nat) {
    done == CopyExtent(Chunks(t, 0)) <= |t| &&
    r == if Chunks(t, 0).Whole? then Ok(()) else Err(Chunks(t, 0).error)
  }

  ghost predicate ChunksCutOff(t: Bytes, r: Result<(), HttpError>, done: nat) {
    r == Err(LineTooLong) && !ChunksFit(t, 0) && done <= CopyExtent(Chunks(t, 0)) <= |t|
  }

  /** `copy_chunked_body`: the body verbatim, exactly as far as its framing holds. */
  method CopyChunkedBody(reader: Reader, writer: Writer, carried: Bytes, ghost base: Bytes, ghost t: Bytes,
                         ghost mode: Mode)
    returns (r: Result<(), HttpError>, carry: Bytes, ghost done: nat)
    requires Copying(reader, writer, carried, base, t, 0, 0, mode)
    modifies reader, writer
    ensures Wrote(writer, base, t, done)
    ensures r.Ok? ==> Copying(reader, writer, carry, base, t, done, done, mode)
    ensures ChunksDid(t, r, done) || ChunksCutOff(t, r, done)
    ensures ChunksStop(t, 0, mode).Some? ==> r == Err(LineTooLong) && done == ChunksStop(t, 0, mode).value
    ensures r == Err(LineTooLong) ==> Refusable(t, done, mode)
  {
    hide ChunkTurn, TurnFits, Trailers, TrailersFit, Chunks, ChunksFit, Copying, Wrote, TurnStop,
      TrailersStop, ChunksStop;
    carry := carried;
    done := 0;
    while true
      invariant done <= |t| && Copying(reader, writer, carry, base, t, done, done, mode)
      invariant Chunks(t, 0) == Chunks(t, done)
      invariant ChunksFit(t, 0) ==> ChunksFit(t, done)
      invariant ChunksStop(t, 0, mode).Some? ==> ChunksStop(t, done, mode) == ChunksStop(t, 0, mode)
      decreases |t| - done
    {
      ChunksTurn(t, done, mode);
      StoppedTurn(t, done, mode);
      var last;
      last, carry, done := CopyChunk(reader, writer, carry, base, t, done, mode);
      if last.Err? {
        return Err(last.error), carry, done;
      }
      if last.value {
        r, carry, done := CopyTrailers(reader, writer, carry, base, t, done, mode);
        return;
      }
    }
  }

  // ---- Byte by byte ----

  /** A whole line at `j` that is past its limit; whether any cut reaches it is another matter. */
  predicate LongLine(t: Bytes, j: nat) {
    j <= |t| && FindCrlf(t, j) < |t| && !LineFits(FindCrlf(t, j) + 2 - j)
  }

  predicate LongHopeless(t: Bytes, j: nat)
    requires LongLine(t, j)
  {
    LineHopeless(j, FindCrlf(t, j) + 2 - j)
  }

  lemma LongStops(t: Bytes, j: nat)
    requires LongLine(t, j)
    ensures LineStop(t, j, Until(|t|)) == Some(j)
    ensures LineStop(t, j, Any) == if LongHopeless(t, j) then Some(j) else None
  {
    hide FindCrlf;
  }

  lemma {:induction false} TrailersStrict(t: Bytes, i: nat)
    requires i <= |t|
    ensures var at := TrailersStop(t, i, Until(|t|));
      && (at.Some? <==> !TrailersFit(t, i))
      && (at.Some? ==> LongLine(t, at.value) && i <= at.value)
      && (at.Some? && Trailers(t, i).Whole? ==> at.value < Trailers(t, i).end)
      && (at.Some? ==> TrailersStop(t, i, Any) == if LongHopeless(t, at.value) then at else None)
    decreases |t| - i
  {
    hide FindCrlf;
    var r := FindCrlf(t, i);
    if r < |t| {
      if !LineFits(r + 2 - i) {
        LongStops(t, i);
      } else if r > i {
        TrailersStrict(t, r + 2);
      }
    }
  }

  lemma TurnStrict(t: Bytes, i: nat)
    requires i <= |t|
    ensures var at := TurnStop(t, i, Until(|t|));
      && (at.Some? <==> !TurnFits(t, i))
      && (at.Some? ==> LongLine(t, at.value))
      && (at.Some? && !ChunkTurn(t, i).BrokenChunk? ==> at.value < ChunkTurn(t, i).next)
      && (at.Some? ==> TurnStop(t, i, Any) == if LongHopeless(t, at.value) then at else None)
  {
    hide FindCrlf, ChunkSize;
    var r := FindCrlf(t, i);
    if r < |t| {
      if !LineFits(r + 2 - i) {
        LongStops(t, i);
      } else {
        var size := ChunkSize(t[i..r]);
        if size.Some? && size.value > 0 && r + 2 + size.value <= |t| {
          var j := r + 2 + size.value;
          if LongLine(t, j) { LongStops(t, j); }
        }
      }
    }
  }

  /** Read byte by byte, a chunked body stops at its first line past the limit, inside the body; under
      every cut, exactly if that line is hopeless. */
  lemma {:induction false} ChunksStrict(t: Bytes, i: nat)
    requires i <= |t|
    ensures var at := ChunksStop(t, i, Until(|t|));
      && (at.Some? <==> !ChunksFit(t, i))
      && (at.Some? ==> LongLine(t, at.value))
      && (at.Some? && Chunks(t, i).Whole? ==> at.value < Chunks(t, i).end)
      && (at.Some? ==> ChunksStop(t, i, Any) == if LongHopeless(t, at.value) then at else None)
    decreases |t| - i
  {
    hide LongLine, LongHopeless, TurnFits, TurnStop, ChunkTurn, Trailers, TrailersFit, TrailersStop;
    TurnStrict(t, i);
    var turn := ChunkTurn(t, i);
    if turn.WholeChunk? {
      ChunksStrict(t, turn.next);
    } else if turn.LastChunk? {
      TrailersStrict(t, turn.next);
    }
  }

  // ---- A body of any framing ----

  ghost predicate BodyDid(t: Bytes, framing: Framing, r: Result<(), HttpError>, done: nat) {
    done == CopyExtent(CopyOf(t, framing)) &&
    r == if CopyOf(t, framing).Whole? then Ok(()) else Err(CopyOf(t, framing).error)
  }

  ghost predicate BodyCutOff(t: Bytes, framing: Framing, r: Result<(), HttpError>, done: nat) {
    r == Err(LineTooLong) && framing.Chunked? && !ChunksFit(t, 0) && done <= CopyExtent(CopyOf(t, framing))
  }

  /** Where the copy of a body stops under every cut, short of its end. */
  function BodyStop(t: Bytes, framing: Framing, mode: Mode): (r: Option<nat>)
    ensures r.Some? ==> r.value <= |t|
  {
    if framing.Chunked? then ChunksStop(t, 0, mode) else None
  }

  method CopyFramed(reader: Reader, writer: Writer, carried: Bytes, framing: Framing, ghost base: Bytes,
                         ghost t: Bytes, ghost mode: Mode)
    returns (r: Result<(), HttpError>, carry: Bytes, ghost done: nat)
    requires Copying(reader, writer, carried, base, t, 0, 0, mode)
    modifies reader, writer
    ensures Wrote(writer, base, t, done)
    ensures r.Ok? ==> Copying(reader, writer, carry, base, t, done, done, mode)
    ensures BodyDid(t, framing, r, done) || BodyCutOff(t, framing, r, done)
    ensures BodyStop(t, framing, mode).Some? ==> r == Err(LineTooLong) && done == BodyStop(t, framing, mode).value
    ensures r == Err(LineTooLong) ==> Refusable(t, done, mode)
  {
    hide Chunks, ChunksFit, ChunksStop, Copying, Wrote;
    match framing {
      case NoBody =>
        CopyingWrote(reader, writer, carried, base, t, 0, mode);
        return Ok(()), carried, 0;
      case Length(n) =>
        r, carry := CopyNext(reader, writer, carried, n, base, t, 0, mode);
        done := if n <= |t| then n else |t|;
        if r.Ok? {
          CopyingWrote(reader, writer, carry, base, t, n, mode);
        }
      case Chunked =>
        r, carry, done := CopyChunkedBody(reader, writer, carried, base, t, mode);
    }
  }

  /** A head, and the body behind it. */
  method CopyMessage(reader: Reader, writer: Writer, carried: Bytes, head: Bytes, framing: Framing, ghost mode: Mode)
    returns (r: Result<(), HttpError>, carry: Bytes, ghost done: nat)
    requires Holds(mode, |carried|, reader.chunks, 0, carried + reader.Rest())
    modifies reader, writer
    ensures var t := carried + old(reader.Rest());
      && done <= |t| && writer.out == old(writer.out) + (head + t[..done])
      && (r.Ok? ==> carry + reader.Rest() == t[done..] && Holds(mode, |carry|, reader.chunks, done, t))
      && (BodyDid(t, framing, r, done) || BodyCutOff(t, framing, r, done))
      && (BodyStop(t, framing, mode).Some? ==> r == Err(LineTooLong) && done == BodyStop(t, framing, mode).value)
      && (r == Err(LineTooLong) ==> Refusable(t, done, mode))
  {
    hide Flatten, CopyOf, ChunksFit, BodyStop, BodyDid, BodyCutOff, Shape, Refusable;
    ghost var t := carried + reader.Rest();
    writer.Write(head);
    ghost var base := writer.out;
    assert t[..0] == [] && t[0..] == t && base + [] == base;
    r, carry, done := CopyFramed(reader, writer, carried, framing, base, t, mode);
    assert writer.out == old(writer.out) + head + t[..done];
  }

  lemma StopInside(t: Bytes, framing: Framing)
    ensures var at := BodyStop(t, framing, Until(|t|));
      at.Some? && CopyOf(t, framing).Whole? ==> at.value < CopyOf(t, framing).end
  {
    hide Chunks, ChunksStop;
    ChunksStrict(t, 0);
  }
}
