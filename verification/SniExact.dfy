/** What the scan and the parser make of any bytes at all, exactly. */
module SniExact {
  import opened Wrappers
  import opened Bytes
  import opened TextLaws
  import opened Sni
  import opened SniLaws

  // ---- The scan ----

  /** Handshake records one behind the other: type 0x16, a version, a length, the payload. */
  function Written(records: seq<Record>): Bytes
    requires Fits(records)
  {
    if records == [] then []
    else
      var last := |records| - 1;
      var r := records[last];
      Written(records[..last]) + [0x16, r.major, r.minor, |r.payload| / 256, |r.payload| % 256] + r.payload
  }

  function Carried(records: seq<Record>): Bytes {
    if records == [] then [] else Carried(records[..|records| - 1]) + records[|records| - 1].payload
  }

  function Length(hs: Bytes): (r: nat)
    requires |hs| >= 4
    ensures r >= 4
  {
    4 + 65536 * (hs[1] as nat) + 256 * (hs[2] as nat) + hs[3]
  }

  /** The beginning of a ClientHello, not yet all of it. */
  ghost predicate Unfinished(hs: Bytes) { (hs != [] ==> hs[0] == 0x01) && (|hs| >= 4 ==> |hs| < Length(hs)) }

  /** What the scan answers when it has come to `rest` behind these records. */
  ghost predicate Answer(scan: Scan, records: seq<Record>, rest: Bytes)
    requires Fits(records)
  {
    var hs, last := Carried(records), |records| - 1;
    match scan
    case Complete(msg, n) =>
      && n == |Written(records)| && msg <= hs && 4 <= |msg| == Length(msg) && msg[0] == 0x01
      && records != [] && |Carried(records[..last])| < |msg|
    case NeedMoreRaw(target) =>
      && Unfinished(hs) && (rest != [] ==> rest[0] == 0x16)
      && target == |Written(records)| + (if |rest| < 5 then 5 else 5 + Word(rest[3], rest[4]))
      && target > |Written(records)| + |rest|
    case Invalid =>
      || (Unfinished(hs) && rest != [] && rest[0] != 0x16)
      || (hs != [] && hs[0] != 0x01 && Carried(records[..last]) == [])
  }

  lemma RecordWritten(records: seq<Record>, r: Record)
    requires Fits(records) && |r.payload| < 0x1_0000
    ensures var more := records + [r];
      && Fits(more) && more[..|records|] == records && Carried(more) == Carried(records) + r.payload
      && Written(more) == Written(records) + [0x16, r.major, r.minor, |r.payload| / 256, |r.payload| % 256] + r.payload
  {
    assert (records + [r])[..|records|] == records;
  }

  /** The same, from the front. */
  lemma {:induction false} WireIsWritten(records: seq<Record>)
    requires Fits(records)
    ensures Wire(records) == Written(records) && Payload(records) == Carried(records)
    decreases |records|
  {
    if records != [] {
      var last := |records| - 1;
      var init, r := records[..last], records[last];
      WireIsWritten(init);
      WireMore(init, r);
      assert init + [r] == records;
    }
  }

  lemma {:induction false} WireMore(records: seq<Record>, r: Record)
    requires Fits(records) && |r.payload| < 0x1_0000
    ensures Fits(records + [r]) && Payload(records + [r]) == Payload(records) + r.payload
    ensures Wire(records + [r]) ==
      Wire(records) + [0x16, r.major, r.minor, |r.payload| / 256, |r.payload| % 256] + r.payload
    decreases |records|
  {
    var all := records + [r];
    if records == [] {
      assert all[1..] == [];
    } else {
      assert all[1..] == records[1..] + [r];
      WireMore(records[1..], r);
    }
  }

  lemma RecordRead(raw: Bytes, at: nat, records: seq<Record>) returns (more: seq<Record>)
    requires Fits(records) && at + 5 <= |raw| && raw[..at] == Written(records) && raw[at] == 0x16
    requires at + 5 + U16(raw, at + 3) <= |raw|
    ensures var end := at + 5 + U16(raw, at + 3);
      && Fits(more) && |more| == |records| + 1 && more[..|records|] == records
      && raw[..end] == Written(more) && Carried(more) == Carried(records) + raw[at + 5..end]
  {
    var n := U16(raw, at + 3);
    var r := Record(raw[at + 1], raw[at + 2], raw[at + 5..at + 5 + n]);
    more := records + [r];
    RecordWritten(records, r);
    hide Written, Carried;
    assert [raw[at], raw[at + 1], raw[at + 2], raw[at + 3], raw[at + 4]]
      == [0x16, r.major, r.minor, |r.payload| / 256, |r.payload| % 256];
    assert raw[..at + 5 + n] == raw[..at] + [raw[at], raw[at + 1], raw[at + 2], raw[at + 3], raw[at + 4]]
      + raw[at + 5..at + 5 + n];
  }

  /** The scan holds all of a hello, and did not before the last record. */
  ghost predicate JustFinished(records: seq<Record>)
    requires Fits(records)
  {
    var hs := Carried(records);
    && records != [] && |hs| >= 4 && hs[0] == 0x01 && |hs| >= Length(hs)
    && |Carried(records[..|records| - 1])| < Length(hs)
  }

  /** A whole handshake record at `at`. */
  ghost predicate WholeAt(raw: Bytes, at: nat) {
    at + 5 <= |raw| && raw[at] == 0x16 && at + 5 + U16(raw, at + 3) <= |raw|
  }

  lemma Finished(raw: Bytes, at: nat, records: seq<Record>)
    requires at <= |raw| && Fits(records) && raw[..at] == Written(records) && JustFinished(records)
    ensures Answer(ScanFrom(raw, at, Carried(records)), records, raw[at..])
  {
    hide Written, Carried;
    assert |raw[..at]| == at;
    var hs := Carried(records);
    DeclaredExactly(hs);
    var msg := hs[..Length(hs)];
    assert Length(msg) == Length(hs) && msg[0] == hs[0];
  }

  lemma StopsShort(raw: Bytes, at: nat, records: seq<Record>)
    requires at <= |raw| && Fits(records) && raw[..at] == Written(records) && Unfinished(Carried(records))
    requires !WholeAt(raw, at)
    ensures Answer(ScanFrom(raw, at, Carried(records)), records, raw[at..])
  {
    hide Written, Carried;
    assert |raw[..at]| == at;
    DeclaredExactly(Carried(records));
  }

  lemma GoesOn(raw: Bytes, at: nat, hs: Bytes)
    requires Unfinished(hs) && WholeAt(raw, at)
    ensures var end := at + 5 + U16(raw, at + 3); var now := hs + raw[at + 5..end];
      ScanFrom(raw, at, hs) == if now != [] && now[0] != 0x01 then Invalid else ScanFrom(raw, end, now)
  {
    DeclaredExactly(hs);
    hide U16, Length;
  }

  lemma {:induction false} ScanFromIsExact(raw: Bytes, at: nat, records: seq<Record>)
    returns (all: seq<Record>, rest: Bytes)
    requires at <= |raw| && Fits(records) && raw[..at] == Written(records)
    requires Unfinished(Carried(records)) || JustFinished(records)
    ensures Fits(all) && raw == Written(all) + rest && Answer(ScanFrom(raw, at, Carried(records)), all, rest)
    decreases |raw| - at
  {
    hide Written, Carried, ScanFrom, Length, U16;
    var hs := Carried(records);
    if JustFinished(records) || !WholeAt(raw, at) {
      if JustFinished(records) { Finished(raw, at, records); } else { StopsShort(raw, at, records); }
      all, rest := records, raw[at..];
      assert raw == raw[..at] + raw[at..];
    } else {
      var end := at + 5 + U16(raw, at + 3);
      GoesOn(raw, at, hs);
      all := RecordRead(raw, at, records);
      rest := raw[end..];
      assert raw == raw[..end] + raw[end..];
      var now := Carried(all);
      LengthStays(hs, raw[at + 5..end]);
      if now == [] || now[0] == 0x01 {
        assert Unfinished(now) || JustFinished(all);
        all, rest := ScanFromIsExact(raw, end, all);
      }
    }
  }

  lemma DeclaredExactly(hs: Bytes)
    ensures Declared(hs) == if |hs| >= 4 then Some(Length(hs)) else None
  {
  }

  lemma LengthStays(hs: Bytes, more: Bytes)
    ensures |hs| >= 4 ==> Length(hs + more) == Length(hs)
    ensures hs != [] ==> (hs + more)[0] == hs[0]
  {
  }

  /** The scan of any bytes: they are some records and then what is no whole record, or a record that is
      none of a hello, or whatever follows a hello; and the answer is as this leaves it. */
  lemma ScanIsExact(raw: Bytes) returns (records: seq<Record>, rest: Bytes)
    ensures Fits(records) && raw == Written(records) + rest && Answer(ScanOf(raw), records, rest)
  {
    assert raw[..0] == Written([]);
    records, rest := ScanFromIsExact(raw, 0, []);
  }

  /** How many peeks found enough, one by one. */
  lemma AtLeastExactly(arrivals: seq<nat>, last: nat, n: nat)
    ensures AtLeast([], n) == 0
    ensures AtLeast(arrivals + [last], n) == AtLeast(arrivals, n) + if n <= last then 1 else 0
  {
    assert (arrivals + [last])[..|arrivals|] == arrivals;
  }

  // ---- The parser ----

  /** A hello in one record, piece by piece, and whatever is behind its compression methods. */
  datatype Pieces = Pieces(header: Bytes, length: Bytes, version: nat, random: Bytes, session: Bytes, suites: Bytes,
                           methods: Bytes, tail: Bytes) {
    predicate Valid() {
      && |header| == 5 && header[0] == 0x16 && |length| == 3 && version < 0x1_0000 && |random| == 32
      && |session| < 256 && |suites| < 0x1_0000 && |methods| < 256
    }
  }

  function Laid(p: Pieces): Bytes
    requires p.Valid()
  {
    p.header + [0x01] + p.length + [p.version / 256, p.version % 256] + p.random + FromSession(p)
  }

  function FromSession(p: Pieces): Bytes
    requires p.Valid()
  {
    [|p.session|] + p.session + FromSuites(p)
  }

  function FromSuites(p: Pieces): Bytes
    requires p.Valid()
  {
    [|p.suites| / 256, |p.suites| % 256] + p.suites + FromMethods(p)
  }

  function FromMethods(p: Pieces): Bytes
    requires p.Valid()
  {
    [|p.methods|] + p.methods + p.tail
  }

  /** The extensions: two bytes of length and then that many, or as many as there are. */
  function Extensions(tail: Bytes): Bytes {
    if |tail| < 2 then []
    else
      var n := Word(tail[0], tail[1]);
      if n <= |tail| - 2 then tail[2..2 + n] else tail[2..]
  }

  ghost predicate Holds(buf: Bytes, p: Pieces, hello: Hello) {
    p.Valid() && buf == Laid(p) && hello == Hello(p.version, p.suites, Extensions(p.tail))
  }

  lemma ExtensionsExactly(buf: Bytes, at: nat)
    requires at <= |buf|
    ensures ExtensionsAt(buf, at) == Extensions(buf[at..])
  {
  }

  lemma LaidIsRead(p: Pieces)
    requires p.Valid()
    ensures HelloOf(Laid(p)) == Some(Hello(p.version, p.suites, Extensions(p.tail)))
  {
    hide HelloOf, ExtensionsAt, Extensions, FromSession, FromSuites, FromMethods, U16;
    var buf := Laid(p);
    AtHeader(p);
    hide Laid;
    var at := 44 + |p.session|;
    AtSession(buf, p);
    AtSuites(buf, at, p);
    var next := at + 2 + |p.suites|;
    AtMethods(buf, next, p);
    ExtensionsExactly(buf, next + 1 + |p.methods|);
    Assembled(buf, at, next);
  }

  lemma AtHeader(p: Pieces)
    requires p.Valid()
    ensures var buf := Laid(p);
      |buf| >= 43 && buf[0] == 0x16 && buf[5] == 0x01 && U16(buf, 9) == p.version && buf[43..] == FromSession(p)
  {
    hide FromSession;
    var first := p.header + [0x01] + p.length + [p.version / 256, p.version % 256] + p.random;
    assert Laid(p) == first + FromSession(p);
    assert first[9] == p.version / 256 && first[10] == p.version % 256;
  }

  lemma AtSession(buf: Bytes, p: Pieces)
    requires p.Valid() && 43 <= |buf| && buf[43..] == FromSession(p)
    ensures var at := 44 + |p.session|; at <= |buf| && buf[43] == |p.session| && buf[at..] == FromSuites(p)
  {
    hide FromSuites;
    TailOf(buf, 43, [|p.session|] + p.session, FromSuites(p));
    assert buf[43 + 0] == |p.session|;
  }

  lemma AtSuites(buf: Bytes, at: nat, p: Pieces)
    requires p.Valid() && at <= |buf| && buf[at..] == FromSuites(p)
    ensures var next := at + 2 + |p.suites|;
      next <= |buf| && U16(buf, at) == |p.suites| && buf[at + 2..next] == p.suites && buf[next..] == FromMethods(p)
  {
    hide FromMethods;
    var n := |p.suites|;
    assert FromSuites(p) == [n / 256, n % 256] + (p.suites + FromMethods(p));
    TailOf(buf, at, [n / 256, n % 256], p.suites + FromMethods(p));
    assert buf[at + 0] == n / 256 && buf[at + 1] == n % 256;
    TailOf(buf, at + 2, p.suites, FromMethods(p));
  }

  lemma AtMethods(buf: Bytes, at: nat, p: Pieces)
    requires p.Valid() && at <= |buf| && buf[at..] == FromMethods(p)
    ensures var end := at + 1 + |p.methods|; end <= |buf| && buf[at] == |p.methods| && buf[end..] == p.tail
  {
    TailOf(buf, at, [|p.methods|] + p.methods, p.tail);
    assert buf[at + 0] == |p.methods|;
  }

  lemma Assembled(buf: Bytes, at: nat, next: nat)
    requires 44 <= |buf| && buf[0] == 0x16 && buf[5] == 0x01 && at == 44 + (buf[43] as int)
    requires at + 2 <= |buf| && next == at + 2 + U16(buf, at) && next < |buf| && next + 1 + (buf[next] as int) <= |buf|
    ensures HelloOf(buf)
      == Some(Hello(U16(buf, 9), buf[at + 2..next], ExtensionsAt(buf, next + 1 + (buf[next] as int))))
  {
    hide ExtensionsAt;
  }

  lemma ReadIsLaid(buf: Bytes) returns (p: Pieces)
    requires HelloOf(buf).Some?
    ensures Holds(buf, p, HelloOf(buf).value)
  {
    hide ExtensionsAt, Extensions;
    var at := 44 + (buf[43] as int);
    var next := at + 2 + U16(buf, at);
    var end := next + 1 + (buf[next] as int);
    p := Pieces(buf[..5], buf[6..9], U16(buf, 9), buf[11..43], buf[44..at], buf[at + 2..next], buf[next + 1..end],
                buf[end..]);
    ExtensionsExactly(buf, end);
    Assembled(buf, at, next);
    hide HelloOf, Laid;
    PiecesOf(buf, at, next, end);
  }

  lemma PiecesOf(buf: Bytes, at: nat, next: nat, end: nat)
    requires 44 <= at <= at + 2 <= next < end <= |buf| && buf[5] == 0x01 && buf[0] == 0x16
    requires at == 44 + (buf[43] as int) && next == at + 2 + U16(buf, at) && end == next + 1 + (buf[next] as int)
    ensures var p := Pieces(buf[..5], buf[6..9], U16(buf, 9), buf[11..43], buf[44..at], buf[at + 2..next],
                            buf[next + 1..end], buf[end..]);
      p.Valid() && buf == Laid(p)
  {
    hide FromSession, FromSuites, FromMethods;
    var p := Pieces(buf[..5], buf[6..9], U16(buf, 9), buf[11..43], buf[44..at], buf[at + 2..next],
                    buf[next + 1..end], buf[end..]);
    MethodsFrom(buf, next, end, p);
    SuitesFrom(buf, at, next, p);
    SessionFrom(buf, at, p);
    assert buf[..43] == buf[..5] + [0x01] + buf[6..9] + [buf[9], buf[10]] + buf[11..43];
    assert buf == buf[..43] + buf[43..];
  }

  lemma MethodsFrom(buf: Bytes, at: nat, end: nat, p: Pieces)
    requires p.Valid() && at < |buf| && end == at + 1 + (buf[at] as int) <= |buf|
    requires p.methods == buf[at + 1..end] && p.tail == buf[end..]
    ensures FromMethods(p) == buf[at..]
  {
    assert buf[at..] == [buf[at]] + buf[at + 1..end] + buf[end..];
  }

  lemma SuitesFrom(buf: Bytes, at: nat, next: nat, p: Pieces)
    requires p.Valid() && at + 2 <= |buf| && next == at + 2 + U16(buf, at) <= |buf|
    requires p.suites == buf[at + 2..next] && FromMethods(p) == buf[next..]
    ensures FromSuites(p) == buf[at..]
  {
    hide FromMethods;
    assert buf[at..] == [buf[at], buf[at + 1]] + buf[at + 2..next] + buf[next..];
    assert |p.suites| == U16(buf, at);
  }

  lemma SessionFrom(buf: Bytes, at: nat, p: Pieces)
    requires p.Valid() && 43 < |buf| && at == 44 + (buf[43] as int) <= |buf|
    requires p.session == buf[44..at] && FromSuites(p) == buf[at..]
    ensures FromSession(p) == buf[43..]
  {
    hide FromSuites;
    assert buf[43..] == [buf[43]] + buf[44..at] + buf[at..];
  }

  /** Exactly the bytes that are a hello piece by piece are parsed as one, to their own version, ciphers and
      extensions. */
  lemma HelloIsExact(buf: Bytes, hello: Hello)
    ensures HelloOf(buf) == Some(hello) <==> exists p :: Holds(buf, p, hello)
  {
    hide HelloOf, Laid, Extensions;
    if HelloOf(buf) == Some(hello) {
      var p := ReadIsLaid(buf);
      assert Holds(buf, p, hello);
    }
    if p :| Holds(buf, p, hello) { LaidIsRead(p); }
  }
}
