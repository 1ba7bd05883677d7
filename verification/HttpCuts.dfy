/** Where a stream's cut into reads decides whether a head or a control line is framed: what the request
    pump can be holding at any point, and two kinds of cut for which it is known exactly. */
module HttpCuts {
  import opened Basics
  import opened Bytes
  import opened HttpStream
  import opened HttpReads

  /** What is known of the cut, from some point of the stream on: nothing; that the first `x` bytes come
      one at a time and the rest at once; or, in a body, that the head's last read brought as much of
      it as one read can. */
  datatype Mode = Any | Until(x: nat) | Ample

  /** A control line of `n` bytes is read under every cut. */
  predicate LineFits(n: nat) { n <= MAX_CHUNK_LINE + 1 }

  /** One that begins `i` bytes into a body is read under no cut: the reads for it do not reach so far,
      and the last read of the head did not either. */
  predicate LineHopeless(i: nat, n: nat) { n > MAX_CHUNK_LINE + LINE_READ && i + n >= HEAD_READ }

  /** Under such a cut it is read. */
  predicate LineForced(mode: Mode, i: nat, n: nat) {
    || LineFits(n)
    || (mode == Until(i + MAX_CHUNK_LINE) && n <= MAX_CHUNK_LINE + LINE_READ)
    || (mode.Ample? && i + n < HEAD_READ)
  }

  /** Under such a cut it is refused. */
  predicate LineRefused(mode: Mode, i: nat, n: nat) {
    LineHopeless(i, n) || (mode.Until? && i + n <= mode.x && !LineFits(n))
  }

  predicate Shape(mode: Mode, held: nat, chunks: seq<Bytes>, taken: nat, t: Bytes)
    requires taken <= |t|
  {
    match mode
    case Any => true
    case Until(x) => x <= |t| && (taken <= x ==> held == 0 && chunks == ByteCut(t[taken..], x - taken))
    case Ample => taken < HEAD_READ ==> held + taken >= Min(HEAD_READ - 1, |t|)
  }

  /** `taken` bytes into a body `t`, with `held` bytes of it in the buffer and the rest still to come: the
      buffer is what is left of the head's last read or of a line's. */
  predicate Holds(mode: Mode, held: nat, chunks: seq<Bytes>, taken: nat, t: Bytes) {
    && Pieces(chunks) && taken + held + |Flatten(chunks)| == |t|
    && (held + taken < HEAD_READ || held < LINE_READ) && Shape(mode, held, chunks, taken, t)
  }

  lemma ForcedReaches(mode: Mode, held: nat, chunks: seq<Bytes>, taken: nat, t: Bytes, n: nat)
    requires Holds(mode, held, chunks, taken, t) && taken + n <= |t| && LineForced(mode, taken, n)
    ensures Reaches(held, chunks, n, MAX_CHUNK_LINE, LINE_READ)
  {
    hide Flatten, Reaches, ByteCut;
    if n <= held {
      ReachStep(held, chunks, n, MAX_CHUNK_LINE, LINE_READ);
    } else if LineFits(n) {
      ReachesAlways(held, chunks, n, MAX_CHUNK_LINE, LINE_READ);
    } else if mode.Until? {
      ByteAcross(0, t[taken..], MAX_CHUNK_LINE, n, MAX_CHUNK_LINE, LINE_READ);
    }
  }

  lemma RefusedStops(mode: Mode, held: nat, chunks: seq<Bytes>, taken: nat, t: Bytes, n: nat)
    requires Holds(mode, held, chunks, taken, t) && taken + n <= |t| && LineRefused(mode, taken, n)
    ensures !Reaches(held, chunks, n, MAX_CHUNK_LINE, LINE_READ)
  {
    hide Flatten, Reaches, ByteCut;
    if LineHopeless(taken, n) {
      if Reaches(held, chunks, n, MAX_CHUNK_LINE, LINE_READ) {
        ReachesAtMost(held, chunks, n, MAX_CHUNK_LINE, LINE_READ);
      }
    } else {
      ByteReach(0, t[taken..], mode.x - taken, n, MAX_CHUNK_LINE, LINE_READ);
    }
  }

  /** Taking a line keeps what is known. */
  lemma LineHolds(mode: Mode, held: nat, chunks: seq<Bytes>, taken: nat, t: Bytes, n: nat)
    requires Holds(mode, held, chunks, taken, t) && 0 < n && taken + n <= |t|
    requires Reaches(held, chunks, n, MAX_CHUNK_LINE, LINE_READ)
    ensures var (held', chunks') := Reached(held, chunks, n, MAX_CHUNK_LINE, LINE_READ);
      Holds(mode, held' - n, chunks', taken + n, t)
  {
    hide Flatten, Reaches, Reached, ByteCut;
    if mode.Until? && taken + n <= mode.x {
      ByteReach(0, t[taken..], mode.x - taken, n, MAX_CHUNK_LINE, LINE_READ);
      assert t[taken..][n..] == t[taken + n..];
    }
  }

  /** So does taking `n` bytes of data. */
  lemma DataHolds(mode: Mode, held: nat, chunks: seq<Bytes>, taken: nat, t: Bytes, n: nat)
    requires Holds(mode, held, chunks, taken, t) && taken + n <= |t|
    ensures if n <= held then Holds(mode, held - n, chunks, taken + n, t)
            else Holds(mode, 0, SkipBytes(chunks, n - held), taken + n, t)
  {
    hide Flatten, ByteCut, SkipBytes;
    if mode.Until? && taken + n <= mode.x {
      SkipSingles(t[taken..], mode.x - taken, n);
      assert t[taken..][n..] == t[taken + n..];
    }
  }

  // ---- Heads ----

  predicate HeadFits(end: nat) { end <= MAX_HEADER_SIZE + 1 }

  predicate HeadForced(mode: Mode, end: nat) {
    HeadFits(end) || (mode == Until(MAX_HEADER_SIZE) && end <= MAX_HEADER_SIZE + HEAD_READ)
  }

  predicate HeadRefused(mode: Mode, end: nat) {
    end > MAX_HEADER_SIZE + HEAD_READ || (mode.Until? && end <= mode.x && !HeadFits(end))
  }

  /** What is known of the cut of a body, behind a head that ends at `end`. */
  function BodyMode(mode: Mode, end: nat): Mode {
    if mode.Until? && end <= mode.x then Until(mode.x - end)
    else if mode.Until? && end == mode.x + 1 && HeadFits(end) then Ample
    else Any
  }

  /** What is known `n` bytes further on. */
  function RestMode(mode: Mode, n: nat): Mode {
    if mode.Until? && n <= mode.x then Until(mode.x - n) else Any
  }

  /** Between messages: less than one read is held. */
  predicate Between(mode: Mode, held: nat, chunks: seq<Bytes>, s: Bytes) {
    && Pieces(chunks) && held + |Flatten(chunks)| == |s| && held < HEAD_READ
    && !mode.Ample? && Shape(mode, held, chunks, 0, s)
  }

  lemma HeadJudged(mode: Mode, held: nat, chunks: seq<Bytes>, s: Bytes, end: nat)
    requires Between(mode, held, chunks, s) && 0 < end <= |s|
    ensures HeadForced(mode, end) ==> Reaches(held, chunks, end, MAX_HEADER_SIZE, HEAD_READ)
    ensures HeadRefused(mode, end) ==> !Reaches(held, chunks, end, MAX_HEADER_SIZE, HEAD_READ)
  {
    hide Flatten, Reaches, ByteCut;
    assert s[0..] == s;
    if HeadFits(end) {
      if end <= held {
        ReachStep(held, chunks, end, MAX_HEADER_SIZE, HEAD_READ);
      } else {
        ReachesAlways(held, chunks, end, MAX_HEADER_SIZE, HEAD_READ);
      }
    } else if HeadForced(mode, end) {
      ByteAcross(0, s, MAX_HEADER_SIZE, end, MAX_HEADER_SIZE, HEAD_READ);
    } else if end > MAX_HEADER_SIZE + HEAD_READ {
      if Reaches(held, chunks, end, MAX_HEADER_SIZE, HEAD_READ) {
        ReachesAtMost(held, chunks, end, MAX_HEADER_SIZE, HEAD_READ);
      }
    } else if HeadRefused(mode, end) {
      ByteReach(0, s, mode.x, end, MAX_HEADER_SIZE, HEAD_READ);
    }
  }

  lemma HeadHolds(mode: Mode, held: nat, chunks: seq<Bytes>, s: Bytes, end: nat)
    requires Between(mode, held, chunks, s) && 0 < end <= |s|
    requires Reaches(held, chunks, end, MAX_HEADER_SIZE, HEAD_READ)
    ensures var (held', chunks') := Reached(held, chunks, end, MAX_HEADER_SIZE, HEAD_READ);
      Holds(BodyMode(mode, end), held' - end, chunks', 0, s[end..])
  {
    hide Flatten, Reaches, Reached, ByteCut;
    assert s[0..] == s && s[end..][0..] == s[end..];
    if mode.Until? && end <= mode.x {
      ByteReach(0, s, mode.x, end, MAX_HEADER_SIZE, HEAD_READ);
    } else if BodyMode(mode, end).Ample? {
      ByteAcross(0, s, mode.x, end, MAX_HEADER_SIZE, HEAD_READ);
    }
  }

  lemma RestHolds(mode: Mode, held: nat, chunks: seq<Bytes>, taken: nat, t: Bytes)
    requires Holds(mode, held, chunks, taken, t)
    ensures Between(RestMode(mode, taken), held, chunks, t[taken..])
  {
    hide Flatten, ByteCut;
    assert t[taken..][0..] == t[taken..];
  }
}
