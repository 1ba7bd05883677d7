/** Reads of any size: the carried-over buffer, the incremental searches for the end of a head and of a
    control line, and exactly how far their limits reach. */
module HttpReads {
  import opened Basics
  import opened Wrappers
  import opened Bytes
  import opened HttpHead
  import opened HttpStream

  /** The most one read adds to a head and to a control line. */
  const HEAD_READ: nat := 4096
  const LINE_READ: nat := 256

  // ---- Streams cut into pieces ----

  function Flatten(chunks: seq<Bytes>): Bytes {
    if chunks == [] then [] else chunks[0] + Flatten(chunks[1..])
  }

  predicate Pieces(chunks: seq<Bytes>) { forall i :: 0 <= i < |chunks| ==> chunks[i] != [] }

  /** A cut of `s` into the pieces in which it arrives. */
  predicate Cut(chunks: seq<Bytes>, s: Bytes) { Pieces(chunks) && Flatten(chunks) == s }

  /** One read: the next piece, or the first `cap` bytes of it. */
  function ReadOne(chunks: seq<Bytes>, cap: nat): (r: (Bytes, seq<Bytes>))
    requires Pieces(chunks) && chunks != [] && cap > 0
    ensures 0 < |r.0| <= cap && Pieces(r.1) && Flatten(chunks) == r.0 + Flatten(r.1)
  {
    var front, others := chunks[0], chunks[1..];
    if |front| <= cap then (front, others)
    else
      var r := [front[cap..]] + others;
      assert r[1..] == others && front == front[..cap] + front[cap..];
      (front[..cap], r)
  }

  /** A source delivering its bytes in pieces of its own choosing; one read returns at most one. */
  class Reader {
    var chunks: seq<Bytes>

    ghost predicate Valid()
      reads this
    {
      Pieces(chunks)
    }

    ghost function Rest(): Bytes
      reads this
    {
      Flatten(chunks)
    }

    constructor (chunks: seq<Bytes>)
      requires Pieces(chunks)
      ensures Valid() && this.chunks == chunks && Rest() == Flatten(chunks)
    {
      this.chunks := chunks;
    }

    /** Empty only at the end of the stream. */
    method Read(cap: nat) returns (data: Bytes)
      requires Valid() && cap > 0
      modifies this
      ensures Valid() && old(Rest()) == data + Rest()
      ensures |data| <= cap && (data == [] <==> old(chunks) == []) && (data == [] <==> old(Rest()) == [])
      ensures old(chunks) == [] ==> chunks == []
      ensures old(chunks) != [] ==> (data, chunks) == ReadOne(old(chunks), cap)
    {
      if chunks == [] {
        return [];
      }
      var (piece, left) := ReadOne(chunks, cap);
      chunks := left;
      return piece;
    }
  }

  class Writer {
    var out: Bytes

    constructor ()
      ensures out == []
    {
      out := [];
    }

    method Write(data: Bytes)
      modifies this
      ensures out == old(out) + data
    {
      out := out + data;
    }
  }

  // ---- How far reads reach ----

  /** Reading on, `cap` bytes at a time, as long as no more than `max` are held, gets from `n` bytes held
      to `end`. */
  predicate Reaches(n: nat, chunks: seq<Bytes>, end: nat, max: nat, cap: nat)
    requires Pieces(chunks) && cap > 0
    decreases |Flatten(chunks)|
  {
    end <= n ||
    (n <= max && chunks != [] &&
     var (data, rest) := ReadOne(chunks, cap);
     Reaches(n + |data|, rest, end, max, cap))
  }

  /** What is held, and what is still to come, once `end` is reached. */
  function Reached(n: nat, chunks: seq<Bytes>, end: nat, max: nat, cap: nat): (r: (nat, seq<Bytes>))
    requires Pieces(chunks) && cap > 0 && Reaches(n, chunks, end, max, cap)
    ensures Pieces(r.1) && end <= r.0 && n <= r.0 && r.0 + |Flatten(r.1)| == n + |Flatten(chunks)|
    ensures r.0 == n || r.0 < end + cap
    decreases |Flatten(chunks)|
  {
    if end <= n then (n, chunks)
    else
      var (data, rest) := ReadOne(chunks, cap);
      assert Reaches(n + |data|, rest, end, max, cap);
      Reached(n + |data|, rest, end, max, cap)
  }

  /** One read further, or none. */
  lemma ReachStep(n: nat, chunks: seq<Bytes>, end: nat, max: nat, cap: nat)
    requires Pieces(chunks) && cap > 0
    ensures end <= n ==> Reaches(n, chunks, end, max, cap) && Reached(n, chunks, end, max, cap) == (n, chunks)
    ensures n < end && (n > max || chunks == []) ==> !Reaches(n, chunks, end, max, cap)
    ensures n < end && n <= max && chunks != [] ==>
      var (data, rest) := ReadOne(chunks, cap);
      && Reaches(n, chunks, end, max, cap) == Reaches(n + |data|, rest, end, max, cap)
      && (Reaches(n, chunks, end, max, cap) ==>
            Reached(n, chunks, end, max, cap) == Reached(n + |data|, rest, end, max, cap))
  {
    hide ReadOne, Flatten;
  }

  lemma {:induction false} ReachesAlways(n: nat, chunks: seq<Bytes>, end: nat, max: nat, cap: nat)
    requires Pieces(chunks) && cap > 0 && n <= max && end <= max + 1 && end <= n + |Flatten(chunks)|
    ensures Reaches(n, chunks, end, max, cap)
    decreases |Flatten(chunks)|
  {
    if n < end {
      var (data, rest) := ReadOne(chunks, cap);
      if n + |data| < end { ReachesAlways(n + |data|, rest, end, max, cap); }
    }
  }

  lemma {:induction false} ReachesAtMost(n: nat, chunks: seq<Bytes>, end: nat, max: nat, cap: nat)
    requires Pieces(chunks) && cap > 0 && Reaches(n, chunks, end, max, cap)
    ensures end <= n || (n <= max && end <= max + cap)
    decreases |Flatten(chunks)|
  {
    if n < end {
      var (data, rest) := ReadOne(chunks, cap);
      ReachesAtMost(n + |data|, rest, end, max, cap);
    }
  }

  /** A piece that does not take the buffer past `max + 1` is read whole. */
  lemma {:induction false} ReadWhole(n: nat, a: Bytes, more: seq<Bytes>, end: nat, max: nat, cap: nat)
    requires a != [] && Pieces(more) && cap > 0 && n + |a| <= max + 1 && n + |a| < end
    ensures Reaches(n, [a] + more, end, max, cap) == Reaches(n + |a|, more, end, max, cap)
    decreases |a|
  {
    var chunks := [a] + more;
    assert chunks[1..] == more;
    if |a| > cap {
      ReadWhole(n + cap, a[cap..], more, end, max, cap);
    }
  }

  /** The two cuts that tell: up to `max` bytes first, or one more. */
  function CutAfter(n: nat, rest: Bytes, size: nat): (r: seq<Bytes>)
    requires n <= size < n + |rest|
    ensures Cut(r, rest)
  {
    var a, b := rest[..size - n], rest[size - n..];
    FlattenTwo(a, b);
    assert a + b == rest;
    if a == [] then [b] else [a, b]
  }

  lemma FlattenTwo(a: Bytes, b: Bytes)
    ensures Flatten([b]) == b && Flatten([a, b]) == a + b
  {
    var one, two := [b], [a, b];
    assert one[1..] == [] && two[1..] == one;
  }

  lemma FrontReaches(n: nat, rest: Bytes, size: nat, end: nat, max: nat, cap: nat)
    requires n <= size && max <= size <= max + 1 && size < end <= n + |rest| && cap > 0
    ensures Reaches(n, CutAfter(n, rest, size), end, max, cap) == (size <= max && end <= size + cap)
  {
    var a, b := rest[..size - n], rest[size - n..];
    if a != [] {
      assert [a] + [b] == [a, b];
      ReadWhole(n, a, [b], end, max, cap);
    }
    LastPiece(size, b, end, max, cap);
  }

  lemma LastPiece(n: nat, b: Bytes, end: nat, max: nat, cap: nat)
    requires n < end <= n + |b| && cap > 0 && n + cap > max
    ensures Reaches(n, [b], end, max, cap) == (n <= max && end <= n + cap)
  {
  }

  /** Exactly: `end` is reached under every cut of what is still to come if and only if it is held
      already, or at most one past `max`; and under some cut if and only if it is held already, or at
      most a whole read past `max`. In between the cut decides. */
  lemma ReachExactly(n: nat, rest: Bytes, end: nat, max: nat, cap: nat)
    requires end <= n + |rest| && 0 < cap
    ensures (forall chunks :: Cut(chunks, rest) ==> Reaches(n, chunks, end, max, cap))
       <==> (end <= n || (n <= max && end <= max + 1))
    ensures (exists chunks :: Cut(chunks, rest) && Reaches(n, chunks, end, max, cap))
       <==> (end <= n || (n <= max && end <= max + cap))
  {
    forall chunks | Cut(chunks, rest) && (end <= n || (n <= max && end <= max + 1))
      ensures Reaches(n, chunks, end, max, cap)
    {
      if n < end { ReachesAlways(n, chunks, end, max, cap); }
    }
    forall chunks | Cut(chunks, rest) && Reaches(n, chunks, end, max, cap)
      ensures end <= n || (n <= max && end <= max + cap)
    {
      ReachesAtMost(n, chunks, end, max, cap);
    }
    var whole := Uncut(rest);
    assert Cut(whole, rest);
    if n < end && n <= max && max + 1 < end {
      FrontReaches(n, rest, max + 1, end, max, cap);
      FrontReaches(n, rest, max, end, max, cap);
      assert Cut(CutAfter(n, rest, max), rest) && Cut(CutAfter(n, rest, max + 1), rest);
    }
  }

  function Uncut(rest: Bytes): (r: seq<Bytes>)
    ensures Cut(r, rest)
  {
    FlattenTwo([], rest);
    if rest == [] then [] else [rest]
  }

  // ---- A cut byte by byte, and then all at once ----

  /** `x` bytes of the stream one at a time, and then the rest in one piece. */
  function ByteCut(s: Bytes, x: nat): (r: seq<Bytes>)
    requires x <= |s|
    ensures Cut(r, s)
    decreases x
  {
    if x == 0 then Uncut(s) else [[s[0]]] + ByteCut(s[1..], x - 1)
  }

  lemma ByteRead(s: Bytes, x: nat, cap: nat)
    requires 0 < x <= |s| && cap > 0
    ensures ByteCut(s, x) != [] && ReadOne(ByteCut(s, x), cap) == ([s[0]], ByteCut(s[1..], x - 1))
  {
    assert ByteCut(s, x)[1..] == ByteCut(s[1..], x - 1);
  }

  /** While the bytes come one at a time, what is reached is reached exactly, and the limit is strict. */
  lemma {:induction false} ByteReach(n: nat, s: Bytes, x: nat, end: nat, max: nat, cap: nat)
    requires x <= |s| && n < end <= n + x && n <= max + 1 && cap > 0
    ensures Reaches(n, ByteCut(s, x), end, max, cap) == (end <= max + 1)
    ensures end <= max + 1 ==>
      Reached(n, ByteCut(s, x), end, max, cap) == (end, ByteCut(s[end - n..], x - (end - n)))
    decreases x
  {
    hide Reaches, Reached, ByteCut, ReadOne, Flatten;
    ByteRead(s, x, cap);
    ReachStep(n, ByteCut(s, x), end, max, cap);
    if n <= max {
      if n + 1 < end {
        ByteReach(n + 1, s[1..], x - 1, end, max, cap);
      } else {
        ReachStep(n + 1, ByteCut(s[1..], x - 1), end, max, cap);
      }
      assert s[1..][end - n - 1..] == s[end - n..];
    }
  }

  /** When the limit comes just where the bytes stop coming one at a time, a whole read goes past it. */
  lemma {:induction false} ByteAcross(n: nat, s: Bytes, x: nat, end: nat, max: nat, cap: nat)
    requires x <= |s| && n + x <= max && n + x < end <= n + x + cap && end <= n + |s| && cap > 0
    ensures Reaches(n, ByteCut(s, x), end, max, cap)
    ensures Reached(n, ByteCut(s, x), end, max, cap).0 == n + Min(x + cap, |s|)
    decreases x
  {
    hide Reaches, Reached, Flatten;
    ReachStep(n, ByteCut(s, x), end, max, cap);
    if x == 0 {
      assert ByteCut(s, x) == [s];
      var (data, rest) := ReadOne([s], cap);
      ReachStep(n + |data|, rest, end, max, cap);
    } else {
      ByteRead(s, x, cap);
      ByteAcross(n + 1, s[1..], x - 1, end, max, cap);
    }
  }

  /** The pieces left after `n` bytes. */
  function SkipBytes(chunks: seq<Bytes>, n: nat): (r: seq<Bytes>)
    requires Pieces(chunks) && n <= |Flatten(chunks)|
    ensures Cut(r, Flatten(chunks)[n..])
  {
    if n == 0 then chunks
    else
      var front, others := chunks[0], chunks[1..];
      if n < |front| then
        var r := [front[n..]] + others;
        assert r[1..] == others && Flatten(chunks)[n..] == front[n..] + Flatten(others);
        r
      else
        assert Flatten(chunks)[n..] == Flatten(others)[n - |front|..];
        SkipBytes(others, n - |front|)
  }

  lemma SkipNone(chunks: seq<Bytes>)
    requires Pieces(chunks)
    ensures SkipBytes(chunks, 0) == chunks
  {
  }

  lemma FlattenSome(chunks: seq<Bytes>)
    requires Pieces(chunks) && chunks != []
    ensures |Flatten(chunks)| > 0
  {
  }

  lemma {:induction false} SkipMore(chunks: seq<Bytes>, a: nat, cap: nat)
    requires Pieces(chunks) && a < |Flatten(chunks)| && cap > 0 && SkipBytes(chunks, a) != []
    ensures var (data, rest) := ReadOne(SkipBytes(chunks, a), cap);
      a + |data| <= |Flatten(chunks)| && rest == SkipBytes(chunks, a + |data|)
    decreases |chunks|
  {
    var front, others := chunks[0], chunks[1..];
    if a >= |front| {
      SkipMore(others, a - |front|, cap);
    }
  }

  lemma {:induction false} SkipSingles(s: Bytes, x: nat, n: nat)
    requires n <= x <= |s|
    ensures SkipBytes(ByteCut(s, x), n) == ByteCut(s[n..], x - n)
    decreases x
  {
    if n > 0 {
      assert ByteCut(s, x)[1..] == ByteCut(s[1..], x - 1);
      SkipSingles(s[1..], x - 1, n - 1);
      assert s[1..][n - 1..] == s[n..];
    }
  }

  // ---- Framing reads ----

  /** `read_header_block`: where the head ends is where the first blank line of the stream ends, if the
      reads reach that far. */
  method ReadHeaderBlock(reader: Reader, carried: Bytes)
    returns (r: Result<Option<nat>, HttpError>, carry: Bytes)
    requires reader.Valid()
    modifies reader
    ensures reader.Valid() && carry + reader.Rest() == carried + old(reader.Rest())
    ensures var s := carried + old(reader.Rest()); var e := FindBlank(s, 0);
      if s == [] then r == Ok(None)
      else if e == |s| then r == Err(if |s| > MAX_HEADER_SIZE then HeadTooLarge else UnexpectedEof)
      else if Reaches(|carried|, old(reader.chunks), e + 4, MAX_HEADER_SIZE, HEAD_READ) then
        r == Ok(Some(e + 4)) && e + 4 <= |carry|
      else r == Err(HeadTooLarge)
    ensures r.Ok? && r.value.Some? ==>
      Reaches(|carried|, old(reader.chunks), r.value.value, MAX_HEADER_SIZE, HEAD_READ) &&
      (|carry|, reader.chunks) == Reached(|carried|, old(reader.chunks), r.value.value, MAX_HEADER_SIZE, HEAD_READ)
  {
    hide Flatten, Reaches, Reached, ReadOne;
    carry := carried;
    var scanned: nat := 0;
    ghost var s := carried + reader.Rest();
    ghost var e0 := FindBlank(s, 0);
    ghost var reached := Reaches(|carried|, reader.chunks, e0 + 4, MAX_HEADER_SIZE, HEAD_READ);
    while true
      invariant reader.Valid() && carry + reader.Rest() == s
      invariant scanned <= |carry| && forall j :: 0 <= j < scanned ==> !BlankAt(s, j)
      invariant reached == Reaches(|carry|, reader.chunks, e0 + 4, MAX_HEADER_SIZE, HEAD_READ)
      invariant reached ==>
        Reached(|carry|, reader.chunks, e0 + 4, MAX_HEADER_SIZE, HEAD_READ) ==
        Reached(|carried|, old(reader.chunks), e0 + 4, MAX_HEADER_SIZE, HEAD_READ)
      decreases |reader.Rest()|
    {
      ReachStep(|carry|, reader.chunks, e0 + 4, MAX_HEADER_SIZE, HEAD_READ);
      var e := FindBlank(carry, scanned);
      if e < |carry| {
        FoundBlank(s, carry, scanned);
        return Ok(Some(e + 4)), carry;
      }
      NoBlank(s, carry, scanned);
      scanned := if |carry| < 3 then 0 else |carry| - 3;
      if |carry| > MAX_HEADER_SIZE {
        return Err(HeadTooLarge), carry;
      }
      var data := reader.Read(HEAD_READ);
      if data == [] {
        return if carry == [] then Ok(None) else Err(UnexpectedEof), carry;
      }
      ghost var before := carry;
      carry := carry + data;
      assert carry + reader.Rest() == before + (data + reader.Rest());
    }
  }

  /** The incremental search finds what a search from the start of the stream finds. */
  lemma FoundBlank(s: Bytes, carry: Bytes, scanned: nat)
    requires carry <= s && scanned <= |carry| && FindBlank(carry, scanned) < |carry|
    requires forall j :: 0 <= j < scanned ==> !BlankAt(s, j)
    ensures FindBlank(s, 0) == FindBlank(carry, scanned)
    ensures FindBlank(carry, scanned) + 4 <= |carry|
  {
    var e, q := FindBlank(carry, scanned), FindBlank(s, 0);
    assert BlankAt(carry, e) && BlankAt(s, e);
    assert q < e ==> BlankAt(carry, q);
  }

  /** After a failed search, only the last three bytes can still begin a blank line. */
  lemma NoBlank(s: Bytes, carry: Bytes, scanned: nat)
    requires carry <= s && scanned <= |carry| && FindBlank(carry, scanned) == |carry|
    requires forall j :: 0 <= j < scanned ==> !BlankAt(s, j)
    ensures forall j :: 0 <= j < |carry| - 3 ==> !BlankAt(s, j)
    ensures FindBlank(s, 0) + 3 >= |carry|
  {
    forall j | 0 <= j < |carry| - 3 ensures !BlankAt(s, j) {
      assert BlankAt(s, j) ==> BlankAt(carry, j);
    }
  }

  /** `read_control_line`, likewise. */
  method ReadControlLine(reader: Reader, carried: Bytes)
    returns (r: Result<Bytes, HttpError>, carry: Bytes)
    requires reader.Valid()
    modifies reader
    ensures reader.Valid()
    ensures var t := carried + old(reader.Rest()); var e := FindCrlf(t, 0);
      if e == |t| then r == Err(LineCutOff(|t|))
      else if Reaches(|carried|, old(reader.chunks), e + 2, MAX_CHUNK_LINE, LINE_READ) then
        r == Ok(t[..e + 2]) && carry + reader.Rest() == t[e + 2..]
      else r == Err(LineTooLong)
    ensures r.Ok? ==>
      Reaches(|carried|, old(reader.chunks), |r.value|, MAX_CHUNK_LINE, LINE_READ) &&
      (|carry| + |r.value|, reader.chunks) ==
        Reached(|carried|, old(reader.chunks), |r.value|, MAX_CHUNK_LINE, LINE_READ)
  {
    hide Flatten, Reaches, Reached, ReadOne, FindCrlf;
    carry := carried;
    var scanned: nat := 0;
    ghost var t := carried + reader.Rest();
    ghost var e0 := FindCrlf(t, 0);
    ghost var reached := Reaches(|carried|, reader.chunks, e0 + 2, MAX_CHUNK_LINE, LINE_READ);
    while true
      invariant reader.Valid() && carry + reader.Rest() == t
      invariant scanned <= |carry| && forall j :: 0 <= j < scanned ==> !CrlfAt(t, j)
      invariant reached == Reaches(|carry|, reader.chunks, e0 + 2, MAX_CHUNK_LINE, LINE_READ)
      invariant reached ==>
        Reached(|carry|, reader.chunks, e0 + 2, MAX_CHUNK_LINE, LINE_READ) ==
        Reached(|carried|, old(reader.chunks), e0 + 2, MAX_CHUNK_LINE, LINE_READ)
      decreases |reader.Rest()|
    {
      ReachStep(|carry|, reader.chunks, e0 + 2, MAX_CHUNK_LINE, LINE_READ);
      var e := FindCrlf(carry, scanned);
      if e < |carry| {
        FoundCrlf(t, carry, scanned);
        LineTaken(carry, reader.Rest(), e + 2);
        return Ok(carry[..e + 2]), carry[e + 2..];
      }
      NoCrlfYet(t, carry, scanned);
      scanned := if |carry| < 1 then 0 else |carry| - 1;
      if |carry| > MAX_CHUNK_LINE {
        return Err(LineTooLong), carry;
      }
      var data := reader.Read(LINE_READ);
      if data == [] {
        return Err(UnexpectedEof), carry;
      }
      Assoc(carry, data, reader.Rest());
      carry := carry + data;
    }
  }

  lemma LineTaken(carry: Bytes, rest: Bytes, n: nat)
    requires n <= |carry|
    ensures carry[..n] == (carry + rest)[..n] && carry[n..] + rest == (carry + rest)[n..]
  {
  }

  lemma FoundCrlf(t: Bytes, carry: Bytes, scanned: nat)
    requires carry <= t && scanned <= |carry| && FindCrlf(carry, scanned) < |carry|
    requires forall j :: 0 <= j < scanned ==> !CrlfAt(t, j)
    ensures FindCrlf(t, 0) == FindCrlf(carry, scanned)
    ensures FindCrlf(carry, scanned) + 2 <= |carry|
  {
    var e, q := FindCrlf(carry, scanned), FindCrlf(t, 0);
    assert CrlfAt(carry, e) && CrlfAt(t, e);
    assert q < e ==> CrlfAt(carry, q);
  }

  lemma NoCrlfYet(t: Bytes, carry: Bytes, scanned: nat)
    requires carry <= t && scanned <= |carry| && FindCrlf(carry, scanned) == |carry|
    requires forall j :: 0 <= j < scanned ==> !CrlfAt(t, j)
    ensures forall j :: 0 <= j < |carry| - 1 ==> !CrlfAt(t, j)
    ensures FindCrlf(t, 0) + 1 >= |carry|
  {
    forall j | 0 <= j < |carry| - 1 ensures !CrlfAt(t, j) {
      assert CrlfAt(t, j) ==> CrlfAt(carry, j);
    }
  }

  // ---- The limits ----

  /** The first head of a connection: framed under every cut of the stream if and only if it ends by one
      byte past the limit, and under none if and only if it ends more than a read past it. */
  lemma HeadLimitIsExact(s: Bytes)
    requires FindBlank(s, 0) < |s|
    ensures var end := FindBlank(s, 0) + 4;
      && ((forall c :: Cut(c, s) ==> Reaches(0, c, end, MAX_HEADER_SIZE, HEAD_READ)) <==> end <= MAX_HEADER_SIZE + 1)
      && ((forall c :: Cut(c, s) ==> !Reaches(0, c, end, MAX_HEADER_SIZE, HEAD_READ))
          <==> end > MAX_HEADER_SIZE + HEAD_READ)
  {
    hide FindBlank, Flatten, Reaches;
    ReachExactly(0, s, FindBlank(s, 0) + 4, MAX_HEADER_SIZE, HEAD_READ);
  }

  /** A control line, with `carried` bytes held when it begins: the same, unless it is held already. */
  lemma LineLimitIsExact(carried: Bytes, rest: Bytes)
    requires FindCrlf(carried + rest, 0) < |carried + rest|
    ensures var end, n := FindCrlf(carried + rest, 0) + 2, |carried|;
      && ((forall c :: Cut(c, rest) ==> Reaches(n, c, end, MAX_CHUNK_LINE, LINE_READ))
          <==> (end <= n || (n <= MAX_CHUNK_LINE && end <= MAX_CHUNK_LINE + 1)))
      && ((forall c :: Cut(c, rest) ==> !Reaches(n, c, end, MAX_CHUNK_LINE, LINE_READ))
          <==> end > n && (n > MAX_CHUNK_LINE || end > MAX_CHUNK_LINE + LINE_READ))
  {
    hide FindCrlf, Flatten, Reaches;
    ReachExactly(|carried|, rest, FindCrlf(carried + rest, 0) + 2, MAX_CHUNK_LINE, LINE_READ);
  }
}
