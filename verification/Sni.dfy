/** Finding a TLS ClientHello in peeked bytes: records are taken apart and the handshake message put
    back together, however the client cut it up. */
module Sni {
  import opened Wrappers
  import opened Bytes

  const HANDSHAKE: Byte := 0x16
  const CLIENT_HELLO: Byte := 0x01
  const MAX_CLIENT_HELLO: nat := 16384
  const INITIAL_PEEK: nat := 4096

  datatype Scan = Invalid | NeedMoreRaw(target: nat) | Complete(hs: Bytes, wireLen: nat)

  function U24(s: Bytes, i: nat): nat
    requires i + 3 <= |s|
  {
    0x1_0000 * (s[i] as int) + 256 * (s[i + 1] as int) + s[i + 2]
  }

  /** The declared length of the handshake message that starts `hs`, header included, once known. */
  function Declared(hs: Bytes): Option<nat> {
    if |hs| >= 4 then Some(4 + U24(hs, 1)) else None
  }

  /** What one record at `offset` does to the scan. */
  datatype Turn = Stop(scan: Scan) | Next(offset: nat, hs: Bytes)

  function ScanTurn(raw: Bytes, offset: nat, hs: Bytes): (t: Turn)
    ensures t.Next? ==> offset + 5 <= t.offset <= |raw|
  {
    var declared := Declared(hs);
    if declared.Some? && |hs| >= declared.value then Stop(Complete(hs[..declared.value], offset))
    else if |raw| > offset && raw[offset] != HANDSHAKE then Stop(Invalid)
    else if |raw| < offset + 5 then Stop(NeedMoreRaw(offset + 5))
    else
      var end := offset + 5 + U16(raw, offset + 3);
      if |raw| < end then Stop(NeedMoreRaw(end))
      else
        var more := hs + raw[offset + 5..end];
        if more != [] && more[0] != CLIENT_HELLO then Stop(Invalid) else Next(end, more)
  }

  function ScanFrom(raw: Bytes, offset: nat, hs: Bytes): Scan
    requires offset <= |raw|
    decreases |raw| - offset
  {
    var t := ScanTurn(raw, offset, hs);
    if t.Stop? then t.scan else ScanFrom(raw, t.offset, t.hs)
  }

  function ScanOf(raw: Bytes): Scan { ScanFrom(raw, 0, []) }

  lemma DeclaredStays(hs: Bytes, more: Bytes)
    ensures Declared(hs).Some? ==> Declared(hs + more) == Declared(hs)
    ensures hs != [] ==> (hs + more)[0] == hs[0]
  {
  }

  method ScanHandshakeRecords(raw: Bytes) returns (r: Scan)
    ensures r == ScanOf(raw)
  {
    var offset, hs := 0, [];
    var declared: Option<nat> := None;
    while true
      invariant offset <= |raw| && declared == Declared(hs)
      invariant hs != [] ==> hs[0] == CLIENT_HELLO
      invariant ScanOf(raw) == ScanFrom(raw, offset, hs)
      decreases |raw| - offset
    {
      if declared.Some? && |hs| >= declared.value {
        return Complete(hs[..declared.value], offset);
      }
      if |raw| > offset && raw[offset] != HANDSHAKE {
        return Invalid;
      }
      if |raw| < offset + 5 {
        return NeedMoreRaw(offset + 5);
      }
      var end := offset + 5 + U16(raw, offset + 3);
      if |raw| < end {
        return NeedMoreRaw(end);
      }
      DeclaredStays(hs, raw[offset + 5..end]);
      ghost var t := ScanTurn(raw, offset, hs);
      hs := hs + raw[offset + 5..end];
      offset := end;
      if declared.None? && hs != [] {
        if hs[0] != CLIENT_HELLO {
          return Invalid;
        }
        if |hs| >= 4 {
          declared := Some(4 + U24(hs, 1));
        }
      }
      assert t == Next(offset, hs);
    }
  }

  // ---- Any split into records gives the message back ----

  datatype Record = Record(major: Byte, minor: Byte, payload: Bytes)

  predicate Fits(records: seq<Record>) {
    forall i :: 0 <= i < |records| ==> |records[i].payload| < 0x1_0000
  }

  function OnWire(r: Record): Bytes
    requires |r.payload| < 0x1_0000
  {
    [HANDSHAKE, r.major, r.minor] + U16Bytes(|r.payload|) + r.payload
  }

  function Wire(records: seq<Record>): Bytes
    requires Fits(records)
  {
    if records == [] then [] else OnWire(records[0]) + Wire(records[1..])
  }

  function Payload(records: seq<Record>): Bytes {
    if records == [] then [] else records[0].payload + Payload(records[1..])
  }

  /** Wire bytes through the end of the record that brings the payload to `need` bytes. */
  function Through(records: seq<Record>, need: nat): nat {
    if need == 0 || records == [] then 0
    else
      var n := |records[0].payload|;
      5 + n + Through(records[1..], if n < need then need - n else 0)
  }

  predicate IsClientHello(msg: Bytes) {
    |msg| >= 4 && msg[0] == CLIENT_HELLO && |msg| == 4 + U24(msg, 1)
  }

  /** One record, read where it stands. */
  lemma RecordTurn(raw: Bytes, offset: nat, hs: Bytes, r: Record, rest: Bytes)
    requires offset <= |raw| && |r.payload| < 0x1_0000 && raw[offset..] == OnWire(r) + rest
    requires Declared(hs).Some? ==> |hs| < Declared(hs).value
    requires hs + r.payload != [] ==> (hs + r.payload)[0] == CLIENT_HELLO
    ensures ScanTurn(raw, offset, hs) == Next(offset + 5 + |r.payload|, hs + r.payload)
    ensures offset + 5 + |r.payload| <= |raw| && raw[offset + 5 + |r.payload|..] == rest
  {
    var tail := raw[offset..];
    assert tail[0] == HANDSHAKE && tail[3] == |r.payload| / 256 && tail[4] == |r.payload| % 256;
    assert raw[offset] == tail[0] && raw[offset + 3] == tail[3] && raw[offset + 4] == tail[4];
    assert U16(raw, offset + 3) == |r.payload|;
    var end := offset + 5 + |r.payload|;
    assert raw[offset + 5..end] == tail[5..5 + |r.payload|] == r.payload;
    assert raw[end..] == tail[5 + |r.payload|..] == rest;
  }

  lemma DeclaredOfPart(part: Bytes, msg: Bytes)
    requires IsClientHello(msg) && |part| < |msg| && part <= msg
    ensures Declared(part).Some? ==> Declared(part).value == |msg|
    ensures part != [] ==> part[0] == CLIENT_HELLO
  {
  }

  lemma DeclaredOfWhole(whole: Bytes, msg: Bytes)
    requires IsClientHello(msg) && msg <= whole
    ensures Declared(whole) == Some(|msg|) && whole[..|msg|] == msg && whole[0] == CLIENT_HELLO
  {
  }

  lemma {:induction false} ReassemblesFrom(raw: Bytes, offset: nat, hs: Bytes, records: seq<Record>, suffix: Bytes,
                                           msg: Bytes)
    requires offset <= |raw| && Fits(records) && raw[offset..] == Wire(records) + suffix
    requires IsClientHello(msg) && msg <= hs + Payload(records) && |hs| < |msg|
    ensures ScanFrom(raw, offset, hs) == Complete(msg, offset + Through(records, |msg| - |hs|))
    decreases |records|
  {
    hide ScanTurn, IsClientHello, Declared;
    assert hs <= msg;
    DeclaredOfPart(hs, msg);
    assert records == [] ==> hs + Payload(records) == hs;
    if records != [] {
      var r := records[0];
      var rest := Wire(records[1..]) + suffix;
      assert Wire(records) + suffix == OnWire(r) + rest;
      var more := hs + r.payload;
      assert hs + Payload(records) == more + Payload(records[1..]);
      assert (if |more| < |msg| then more <= msg else msg <= more);
      if |more| < |msg| {
        DeclaredOfPart(more, msg);
        RecordTurn(raw, offset, hs, r, rest);
        ReassemblesFrom(raw, offset + 5 + |r.payload|, more, records[1..], suffix, msg);
      } else {
        DeclaredOfWhole(more, msg);
        RecordTurn(raw, offset, hs, r, rest);
        Finishes(raw, offset + 5 + |r.payload|, more, msg);
      }
    }
  }

  lemma Finishes(raw: Bytes, offset: nat, hs: Bytes, msg: Bytes)
    requires offset <= |raw| && IsClientHello(msg) && msg <= hs
    ensures ScanFrom(raw, offset, hs) == Complete(msg, offset)
  {
    DeclaredOfWhole(hs, msg);
  }

  /** However a ClientHello is split into handshake records (empty ones included), and whatever
      follows it, in its last record or after, the scan returns exactly that message and stops at
      the end of the record that completes it. */
  lemma Reassembles(records: seq<Record>, suffix: Bytes, msg: Bytes)
    requires Fits(records) && IsClientHello(msg) && msg <= Payload(records)
    ensures ScanOf(Wire(records) + suffix) == Complete(msg, Through(records, |msg|))
  {
    var raw := Wire(records) + suffix;
    assert raw[0..] == raw;
    assert [] + Payload(records) == Payload(records);
    ReassemblesFrom(raw, 0, [], records, suffix, msg);
  }

  // ---- More bytes never change an answer ----

  /** The part of a scan's answer that later bytes can still change. */
  lemma TurnStable(raw: Bytes, more: Bytes, offset: nat, hs: Bytes)
    requires offset <= |raw|
    ensures var t := ScanTurn(raw, offset, hs); var u := ScanTurn(raw + more, offset, hs);
      && (t.Next? || !t.scan.NeedMoreRaw? ==> u == t)
      && (t.Stop? && t.scan.Complete? ==> t.scan.wireLen == offset)
      && (t.Stop? && t.scan.NeedMoreRaw? ==> t.scan.target > |raw|)
      && (t.Stop? && t.scan.NeedMoreRaw? && u.Stop? ==> !u.scan.Complete?)
      && (t.Stop? && t.scan.NeedMoreRaw? && |raw + more| < t.scan.target ==> u == t || u == Stop(Invalid))
      && (t.Stop? && t.scan.NeedMoreRaw? && u.Next? ==> t.scan.target <= u.offset)
  {
    var longer := raw + more;
    assert forall i :: 0 <= i < |raw| ==> longer[i] == raw[i];
    if |raw| >= offset + 5 {
      var end := offset + 5 + U16(raw, offset + 3);
      assert U16(longer, offset + 3) == U16(raw, offset + 3);
      if |raw| >= end { assert longer[offset + 5..end] == raw[offset + 5..end]; }
    }
  }

  lemma {:induction false} StableFrom(raw: Bytes, more: Bytes, offset: nat, hs: Bytes)
    requires offset <= |raw|
    ensures var r := ScanFrom(raw, offset, hs); var l := ScanFrom(raw + more, offset, hs);
      && (!r.NeedMoreRaw? ==> l == r)
      && (r.Complete? ==> offset <= r.wireLen <= |raw|)
      && (r.NeedMoreRaw? ==> r.target > |raw|)
      && (r.NeedMoreRaw? && |raw + more| < r.target ==> l == r || l == Invalid)
      && (r.NeedMoreRaw? && l.Complete? ==> r.target <= l.wireLen)
    decreases |raw| - offset
  {
    TurnStable(raw, more, offset, hs);
    var t := ScanTurn(raw, offset, hs);
    hide ScanTurn;
    if t.Next? {
      StableFrom(raw, more, t.offset, t.hs);
    } else {
      var u := ScanTurn(raw + more, offset, hs);
      if t.scan.NeedMoreRaw? && u.Next? { WireLenFrom(raw + more, u.offset, u.hs); }
    }
  }

  lemma {:induction false} WireLenFrom(raw: Bytes, offset: nat, hs: Bytes)
    requires offset <= |raw|
    ensures var r := ScanFrom(raw, offset, hs); r.Complete? ==> offset <= r.wireLen <= |raw|
    decreases |raw| - offset
  {
    TurnStable(raw, [], offset, hs);
    var t := ScanTurn(raw, offset, hs);
    hide ScanTurn;
    if t.Next? { WireLenFrom(raw, t.offset, t.hs); }
  }

  /** A complete hello and a refusal stay what they are whatever arrives later; a request for more
      always asks for more than is held, nothing short of it helps, and it never asks for more than
      the hello needs. */
  lemma ScanStable(raw: Bytes, more: Bytes)
    ensures var r := ScanOf(raw); var l := ScanOf(raw + more);
      && (!r.NeedMoreRaw? ==> l == r)
      && (r.Complete? ==> r.wireLen <= |raw|)
      && (r.NeedMoreRaw? ==> r.target > |raw|)
      && (r.NeedMoreRaw? && |raw + more| < r.target ==> l == r || l == Invalid)
      && (r.NeedMoreRaw? && l.Complete? ==> r.target <= l.wireLen)
  {
    StableFrom(raw, more, 0, []);
  }

  // ---- Peeking until the hello is there ----

  datatype Peek = NotTls | TimedOut | Truncated(bytes: Bytes) | Found(hs: Bytes, helloLen: nat)

  /** How many peeks found at least `n` bytes. */
  function AtLeast(arrivals: seq<nat>, n: nat): (r: nat)
    ensures r <= |arrivals|
  {
    if arrivals == [] then 0
    else AtLeast(arrivals[..|arrivals| - 1], n) + (if arrivals[|arrivals| - 1] >= n then 1 else 0)
  }

  /** Peek again and again, each time at what has arrived by then; when the list of arrivals ends the
      time is up. However the bytes arrive, a hello that is found is the one the whole stream starts
      with, in at most 16384 bytes, and such a hello is never taken for anything else. It is found at
      the first peek it has arrived by if it fits the first buffer, and otherwise at the latest after
      as many more peeks as it has bytes over that. */
  method PeekReassemble(stream: Bytes, arrivals: seq<nat>) returns (r: Peek)
    requires forall i :: 0 <= i < |arrivals| ==> arrivals[i] <= |stream|
    ensures r.Found? ==> ScanOf(stream) == Complete(r.hs, r.helloLen) && r.helloLen <= MAX_CLIENT_HELLO
    ensures r.Truncated? ==> ScanOf(stream).Complete? ==> ScanOf(stream).wireLen > MAX_CLIENT_HELLO
    ensures r.Truncated? ==>
      r.bytes <= stream && ScanOf(r.bytes).NeedMoreRaw? && ScanOf(r.bytes).target > MAX_CLIENT_HELLO
    ensures r.NotTls? ==> ScanOf(stream) == Invalid || 0 in arrivals
    ensures r.TimedOut? ==> 0 !in arrivals
    ensures r.TimedOut? ==> forall n :: n in arrivals && n <= INITIAL_PEEK ==> ScanOf(stream[..n]).NeedMoreRaw?
    ensures r.TimedOut? && ScanOf(stream).Complete? ==>
      AtLeast(arrivals, ScanOf(stream).wireLen) <=
        if ScanOf(stream).wireLen <= INITIAL_PEEK then 0 else ScanOf(stream).wireLen - INITIAL_PEEK
  {
    hide ScanOf;
    var size := INITIAL_PEEK;
    ghost var whole := ScanOf(stream);
    for i := 0 to |arrivals|
      invariant INITIAL_PEEK <= size <= MAX_CLIENT_HELLO
      invariant whole.Complete? ==> INITIAL_PEEK + AtLeast(arrivals[..i], whole.wireLen) <= size
      invariant whole.Complete? ==> size == INITIAL_PEEK || size <= whole.wireLen
      invariant 0 !in arrivals[..i]
      invariant forall n :: n in arrivals[..i] && n <= INITIAL_PEEK ==> ScanOf(stream[..n]).NeedMoreRaw?
    {
      assert arrivals[..i + 1][..i] == arrivals[..i];
      var n := if arrivals[i] < size then arrivals[i] else size;
      if n == 0 {
        return NotTls;
      }
      var raw := stream[..n];
      assert raw + stream[n..] == stream;
      ScanStable(raw, stream[n..]);
      var scan := ScanHandshakeRecords(raw);
      match scan {
        case Invalid =>
          return NotTls;
        case Complete(hs, wireLen) =>
          return Found(hs, wireLen);
        case NeedMoreRaw(target) =>
          if target > MAX_CLIENT_HELLO {
            return Truncated(raw);
          }
          if size < target {
            size := target;
          }
      }
    }
    assert arrivals[..|arrivals|] == arrivals;
    return TimedOut;
  }

  // ---- Parsing the hello ----

  datatype Hello = Hello(legacyVersion: nat, cipherSuites: Bytes, extensions: Bytes)

  /** The message in a single-record form, as the parser expects it. */
  function WrapAsRecord(hs: Bytes): Bytes {
    [HANDSHAKE, 3, 1] + U16Bytes(|hs| % 0x1_0000) + hs
  }

  function HelloOf(buf: Bytes): Option<Hello> {
    if |buf| < 44 || buf[0] != HANDSHAKE || buf[5] != CLIENT_HELLO then None else SuitesAt(buf, 44 + (buf[43] as int))
  }

  function SuitesAt(buf: Bytes, at: nat): Option<Hello>
    requires |buf| >= 44
  {
    if |buf| < at + 2 then None else MethodsAt(buf, at + 2, at + 2 + U16(buf, at))
  }

  function MethodsAt(buf: Bytes, suites: nat, at: nat): Option<Hello>
    requires |buf| >= 44 && suites <= at
  {
    if |buf| < at + 1 then None
    else
      var extensions := at + 1 + (buf[at] as int);
      if |buf| < extensions then None
      else Some(Hello(U16(buf, 9), buf[suites..at], ExtensionsAt(buf, extensions)))
  }

  /** The extensions' bytes: absent when there is no room for a length, cut short by the buffer. */
  function ExtensionsAt(buf: Bytes, at: nat): Bytes
    requires at <= |buf|
  {
    if |buf| < at + 2 then []
    else
      var end := at + 2 + U16(buf, at);
      buf[at + 2..if end < |buf| then end else |buf|]
  }

  class Parser {
    const buf: Bytes
    var pos: nat

    constructor (buf: Bytes)
      ensures this.buf == buf && pos == 0
    {
      this.buf := buf;
      pos := 0;
    }

    method ReadU8() returns (r: Option<Byte>)
      requires pos <= |buf|
      modifies this
      ensures if old(pos) < |buf| then r == Some(buf[old(pos)]) && pos == old(pos) + 1 else r.None? && pos == old(pos)
    {
      if pos == |buf| {
        return None;
      }
      r := Some(buf[pos]);
      pos := pos + 1;
    }

    method ReadU16() returns (r: Option<nat>)
      requires pos <= |buf|
      modifies this
      ensures if old(pos) + 2 <= |buf| then r == Some(U16(buf, old(pos))) && pos == old(pos) + 2
        else r.None? && pos == old(pos)
    {
      if |buf| - pos < 2 {
        return None;
      }
      r := Some(U16(buf, pos));
      pos := pos + 2;
    }

    method ReadBytes(n: nat) returns (r: Option<Bytes>)
      requires pos <= |buf|
      modifies this
      ensures if old(pos) + n <= |buf| then r == Some(buf[old(pos)..old(pos) + n]) && pos == old(pos) + n
        else r.None? && pos == old(pos)
    {
      if |buf| - pos < n {
        return None;
      }
      r := Some(buf[pos..pos + n]);
      pos := pos + n;
    }

    method ParseClientHello() returns (r: Option<Hello>)
      requires pos == 0
      modifies this
      ensures r == HelloOf(buf)
    {
      var contentType := ReadU8();
      if contentType != Some(HANDSHAKE) { return None; }
      var header := ReadBytes(4);
      if header.None? { return None; }
      var msgType := ReadU8();
      if msgType != Some(CLIENT_HELLO) { return None; }
      var length := ReadBytes(3);
      if length.None? { return None; }
      var version := ReadU16();
      if version.None? { return None; }
      var random := ReadBytes(32);
      if random.None? { return None; }
      r := ParseBody(version.value);
    }

    /** From the session id on. */
    method ParseBody(version: nat) returns (r: Option<Hello>)
      requires pos == 43 <= |buf| && buf[0] == HANDSHAKE && buf[5] == CLIENT_HELLO && version == U16(buf, 9)
      modifies this
      ensures r == HelloOf(buf)
    {
      hide MethodsAt;
      var session := ReadU8();
      if session.None? { return None; }
      var sessionId := ReadBytes(session.value);
      if sessionId.None? { return None; }
      var suitesLen := ReadU16();
      if suitesLen.None? { return None; }
      ghost var start := pos;
      var suites := ReadBytes(suitesLen.value);
      if suites.None? {
        assert MethodsAt(buf, start, start + suitesLen.value) == None by {
          NoMethods(buf, start, start + suitesLen.value);
        }
        return None;
      }
      r := ParseMethods(version, suites.value, start);
    }

    /** From the compression methods on. */
    method ParseMethods(version: nat, suites: Bytes, ghost start: nat) returns (r: Option<Hello>)
      requires 44 <= start <= pos <= |buf| && version == U16(buf, 9) && suites == buf[start..pos]
      modifies this
      ensures r == MethodsAt(buf, start, old(pos))
    {
      hide ExtensionsAt;
      var methodsLen := ReadU8();
      if methodsLen.None? { return None; }
      var methods := ReadBytes(methodsLen.value);
      if methods.None? { return None; }
      var extensions := ParseExtensions();
      return Some(Hello(version, suites, extensions));
    }

    /** The extensions, as many of their bytes as there are. */
    method ParseExtensions() returns (r: Bytes)
      requires pos <= |buf|
      modifies this
      ensures r == ExtensionsAt(buf, old(pos))
    {
      if |buf| - pos < 2 {
        return [];
      }
      var extLen := ReadU16();
      var available := if extLen.value < |buf| - pos then extLen.value else |buf| - pos;
      var extensions := ReadBytes(available);
      return extensions.value;
    }
  }

  lemma NoMethods(buf: Bytes, suites: nat, at: nat)
    requires |buf| >= 44 && suites <= at && |buf| < at
    ensures MethodsAt(buf, suites, at) == None
  {
  }

  /** The parser looks at a record header only for its type. */
  lemma HeaderIgnored(a: Bytes, b: Bytes, msg: Bytes)
    requires |a| == 5 == |b| && a[0] == HANDSHAKE == b[0]
    ensures HelloOf(a + msg) == HelloOf(b + msg)
  {
    hide MethodsAt;
    var x, y := a + msg, b + msg;
    assert forall i :: 5 <= i < |x| ==> x[i] == y[i];
    if |x| >= 44 {
      var at := 44 + (x[43] as int);
      if |x| >= at + 2 { MethodsAlike(x, y, at + 2, at + 2 + U16(x, at)); }
    }
  }

  lemma MethodsAlike(x: Bytes, y: Bytes, suites: nat, at: nat)
    requires |x| == |y| >= 44 && 44 <= suites <= at && forall i :: 5 <= i < |x| ==> x[i] == y[i]
    ensures MethodsAt(x, suites, at) == MethodsAt(y, suites, at)
  {
    hide ExtensionsAt;
    if at < |x| {
      assert x[suites..at] == y[suites..at];
      var extensions := at + 1 + (x[at] as int);
      if extensions <= |x| { ExtensionsAlike(x, y, extensions); }
    }
  }

  lemma ExtensionsAlike(x: Bytes, y: Bytes, at: nat)
    requires 5 <= at <= |x| == |y| && forall i :: 5 <= i < |x| ==> x[i] == y[i]
    ensures ExtensionsAt(x, at) == ExtensionsAt(y, at)
  {
  }

  /** So a hello that was split gives the same parse, and with it the same server name and the same
      fingerprints, as the same message sent in one record with any header. */
  lemma SplitParsesAlike(records: seq<Record>, suffix: Bytes, msg: Bytes, header: Bytes)
    requires Fits(records) && IsClientHello(msg) && msg <= Payload(records)
    requires |header| == 5 && header[0] == HANDSHAKE
    ensures var scan := ScanOf(Wire(records) + suffix);
      scan.Complete? && HelloOf(WrapAsRecord(scan.hs)) == HelloOf(header + msg)
  {
    Reassembles(records, suffix, msg);
    HeaderIgnored([HANDSHAKE, 3, 1] + U16Bytes(|msg| % 0x1_0000), header, msg);
  }
}
