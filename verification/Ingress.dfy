/** The failover ingress: PROXY v2 headers, load queries and load answers, as bytes. */
module Ingress {
  import opened Wrappers
  import opened Bytes
  import opened Text

  const SIGNATURE: Bytes := [0x0D, 0x0A, 0x0D, 0x0A, 0x00, 0x0D, 0x0A, 0x51, 0x55, 0x49, 0x54, 0x0A]
  const MAX_PAYLOAD: nat := 512
  const LOAD_QUERY_TLV: Byte := 0xE3
  const MAX_QUERY_NAMES: nat := 64
  const MAX_NAME_LEN: nat := 253
  const MAX_LOCAL_PAYLOAD: nat := 16384
  /** "PROXY ", how a version 1 header starts. */
  const V1_START: Bytes := [80, 82, 79, 88, 89, 32]

  datatype Address = Address(ip: Bytes, port: nat)

  datatype Header = Proxy(source: Address) | LoadQuery(names: seq<Option<Bytes>>)

  datatype Reject = BadHeader | LocalHealthCheck | Version1

  datatype Command = ProxyCommand(len: nat) | LocalCommand(len: nat)

  function AddressLen(family: Byte): Option<nat> {
    if family == 0x00 then Some(0) else if family == 0x11 then Some(12) else if family == 0x21 then Some(36) else None
  }

  function ParseFixed(fixed: Bytes): (r: Result<Command, Reject>)
    requires |fixed| == 16
    ensures r.Ok? && r.value.LocalCommand? ==>
      AddressLen(fixed[13]).Some? && AddressLen(fixed[13]).value <= r.value.len <= MAX_LOCAL_PAYLOAD
    ensures r.Ok? && r.value.ProxyCommand? ==>
      fixed[13] in [0x11, 0x21] && AddressLen(fixed[13]).value <= r.value.len <= MAX_PAYLOAD
  {
    if V1_START <= fixed then Err(Version1)
    else if fixed[..12] != SIGNATURE || fixed[12] / 16 != 2 then Err(BadHeader)
    else
      var len := U16(fixed, 14);
      if fixed[12] % 16 == 0 then
        if AddressLen(fixed[13]).Some? && AddressLen(fixed[13]).value <= len <= MAX_LOCAL_PAYLOAD then
          Ok(LocalCommand(len))
        else Err(BadHeader)
      else if fixed[12] % 16 != 1 || fixed[13] !in [0x11, 0x21] then Err(BadHeader)
      else if len < AddressLen(fixed[13]).value || len > MAX_PAYLOAD then Err(BadHeader)
      else Ok(ProxyCommand(len))
  }

  function ValidName(value: Bytes): Option<Bytes> {
    if 1 <= |value| <= MAX_NAME_LEN && Utf8(value) then Some(value) else None
  }

  // ---- Load queries ----

  /** The names in the TLVs from `at` on, after those already found. */
  function TlvNames(tlvs: Bytes, at: nat, names: seq<Option<Bytes>>): Result<seq<Option<Bytes>>, Reject>
    requires at <= |tlvs|
    decreases |tlvs| - at
  {
    if at == |tlvs| then Ok(names)
    else if |tlvs| < at + 3 then Err(BadHeader)
    else
      var end := at + 3 + U16(tlvs, at + 1);
      if |tlvs| < end then Err(BadHeader)
      else if tlvs[at] != LOAD_QUERY_TLV then TlvNames(tlvs, end, names)
      else if |names| == MAX_QUERY_NAMES then Err(BadHeader)
      else TlvNames(tlvs, end, names + [ValidName(tlvs[at + 3..end])])
  }

  function QueryNames(family: Byte, payload: Bytes): Result<seq<Option<Bytes>>, Reject> {
    if AddressLen(family).None? || |payload| < AddressLen(family).value then Err(BadHeader)
    else
      var names := TlvNames(payload[AddressLen(family).value..], 0, []);
      if names == Ok([]) then Err(LocalHealthCheck) else names
  }

  method ParseLoadQuery(family: Byte, payload: Bytes) returns (r: Result<seq<Option<Bytes>>, Reject>)
    requires AddressLen(family).Some? ==> AddressLen(family).value <= |payload|
    ensures r == QueryNames(family, payload)
  {
    hide ValidName;
    if AddressLen(family).None? {
      return Err(BadHeader);
    }
    var tlvs := payload[AddressLen(family).value..];
    var names: seq<Option<Bytes>> := [];
    var at := 0;
    ghost var goal := TlvNames(tlvs, 0, []);
    while at < |tlvs|
      invariant at <= |tlvs| && TlvNames(tlvs, at, names) == goal
    {
      if |tlvs| - at < 3 {
        return Err(BadHeader);
      }
      var end := at + 3 + U16(tlvs, at + 1);
      if |tlvs| < end {
        return Err(BadHeader);
      }
      if tlvs[at] == LOAD_QUERY_TLV {
        if |names| == MAX_QUERY_NAMES {
          return Err(BadHeader);
        }
        names := names + [ValidName(tlvs[at + 3..end])];
      }
      at := end;
    }
    if names == [] {
      return Err(LocalHealthCheck);
    }
    return Ok(names);
  }

  function Sent(name: Bytes): (r: Bytes)
    ensures |r| <= MAX_NAME_LEN
  {
    if |name| <= MAX_NAME_LEN then name else []
  }

  function NameTlv(name: Bytes): (r: Bytes)
    ensures 3 <= |r| <= 256
  {
    [LOAD_QUERY_TLV] + U16Bytes(|Sent(name)|) + Sent(name)
  }

  function NameTlvs(names: seq<Bytes>): (r: Bytes)
    ensures |r| <= 256 * |names|
  {
    if names == [] then [] else NameTlv(names[0]) + NameTlvs(names[1..])
  }

  /** The fixed part of a LOCAL header with no addresses; the length keeps its low 16 bits. */
  function LocalFixed(len: nat): (r: Bytes)
    ensures |r| == 16
  {
    SIGNATURE + [0x20, 0x00] + U16Bytes(len % 0x1_0000)
  }

  method EncodeLoadQuery(names: seq<Bytes>) returns (out: Bytes)
    ensures out == LocalFixed(|NameTlvs(names)|) + NameTlvs(names)
  {
    hide NameTlv;
    var tlvs: Bytes := [];
    for i := 0 to |names|
      invariant tlvs + NameTlvs(names[i..]) == NameTlvs(names)
    {
      assert names[i..][1..] == names[i + 1..];
      assert tlvs + (NameTlv(names[i]) + NameTlvs(names[i + 1..]))
        == tlvs + NameTlv(names[i]) + NameTlvs(names[i + 1..]);
      tlvs := tlvs + NameTlv(names[i]);
    }
    assert tlvs + [] == tlvs;
    out := LocalFixed(|tlvs|) + tlvs;
  }

  // ---- Reading a header off a stream ----

  /** An IPv4 address written as an IPv6 one. */
  predicate Mapped(ip: Bytes) {
    |ip| == 16 && (forall i :: 0 <= i < 10 ==> ip[i] == 0) && ip[10] == 0xFF && ip[11] == 0xFF
  }

  function Canonical(ip: Bytes): Bytes { if Mapped(ip) then ip[12..] else ip }

  function SourceOf(family: Byte, addresses: Bytes): Address
    requires (family == 0x11 && |addresses| == 12) || (family == 0x21 && |addresses| == 36)
  {
    if family == 0x11 then Address(addresses[..4], U16(addresses, 8))
    else Address(Canonical(addresses[..16]), U16(addresses, 32))
  }

  const LOOPBACK4: Bytes := [127, 0, 0, 1]
  const LOOPBACK6: Bytes := [0, 0, 0, 0, 0, 0, 0, 0, 0, 0, 0, 0, 0, 0, 0, 1]

  predicate IsAddress(a: Address) { (|a.ip| == 4 || |a.ip| == 16) && a.port < 0x1_0000 }

  /** The address the client connected to, or the loopback of the client's own family. */
  function Destination(src: Bytes, local: Option<Address>): (r: Bytes)
    requires |src| == 4 || |src| == 16
    ensures |r| == |src|
  {
    if local.Some? && |Canonical(local.value.ip)| == |src| then Canonical(local.value.ip)
    else if |src| == 4 then LOOPBACK4 else LOOPBACK6
  }

  /** Addresses and ports of a forwarded connection. */
  function AddressBlock(peer: Address, local: Option<Address>): (r: Bytes)
    requires IsAddress(peer) && (local.Some? ==> IsAddress(local.value))
    ensures |r| == if |Canonical(peer.ip)| == 4 then 12 else 36
  {
    var src := Canonical(peer.ip);
    src + Destination(src, local) + U16Bytes(peer.port) + U16Bytes(if local.Some? then local.value.port else 0)
  }

  /** The PROXY v2 header, without TLVs, that goes ahead of a forwarded connection. */
  function ProxyHeader(peer: Address, local: Option<Address>): Bytes
    requires IsAddress(peer) && (local.Some? ==> IsAddress(local.value))
  {
    var block := AddressBlock(peer, local);
    SIGNATURE + [0x21, if |block| == 12 then 0x11 else 0x21] + U16Bytes(|block|) + block
  }

  /** The header a stream starts with, and how much of the stream it takes; a refused header takes
      what was read of it. */
  datatype HeaderRead = HeaderRead(result: Result<Header, Reject>, consumed: nat)

  function ReadHeader(stream: Bytes): (r: HeaderRead)
    ensures r.consumed <= |stream|
  {
    if |stream| < 16 then HeaderRead(Err(BadHeader), |stream|)
    else
      var fixed := stream[..16];
      match ParseFixed(fixed)
      case Err(e) => HeaderRead(Err(e), 16)
      case Ok(command) =>
        if |stream| < 16 + command.len then HeaderRead(Err(BadHeader), |stream|)
        else if command.LocalCommand? then
          var names := QueryNames(fixed[13], stream[16..16 + command.len]);
          HeaderRead(if names.Ok? then Ok(LoadQuery(names.value)) else Err(names.error), 16 + command.len)
        else
          var addresses := stream[16..16 + AddressLen(fixed[13]).value];
          HeaderRead(Ok(Proxy(SourceOf(fixed[13], addresses))), 16 + command.len)
  }

  class Socket {
    var unread: Bytes

    constructor (bytes: Bytes)
      ensures unread == bytes
    {
      unread := bytes;
    }

    /** Read exactly `n` bytes, or everything there is and fail. */
    method ReadExact(n: nat) returns (r: Option<Bytes>)
      modifies this
      ensures if n <= |old(unread)| then r == Some(old(unread)[..n]) && unread == old(unread)[n..]
        else r == None && unread == []
    {
      if |unread| < n {
        unread := [];
        return None;
      }
      r := Some(unread[..n]);
      unread := unread[n..];
    }

    /** Read past `n` bytes, 64 at a time. */
    method Discard(n: nat) returns (ok: bool)
      modifies this
      ensures ok == (n <= |old(unread)|)
      ensures unread == if ok then old(unread)[n..] else []
    {
      var left := n;
      while left > 0
        invariant 0 <= left <= n <= |old(unread)| + left && unread == old(unread)[n - left..]
      {
        var chunk := if left < 64 then left else 64;
        var r := ReadExact(chunk);
        if r.None? {
          return false;
        }
        left := left - chunk;
      }
      return true;
    }

    /** The names asked for, after the fixed part of a query. */
    method ReadQuery(family: Byte, len: nat) returns (r: Result<Header, Reject>)
      requires AddressLen(family).Some? ==> AddressLen(family).value <= len
      modifies this
      ensures |old(unread)| < len ==> r == Err(BadHeader) && unread == []
      ensures len <= |old(unread)| ==> var names := QueryNames(family, old(unread)[..len]);
        r == (if names.Ok? then Ok(LoadQuery(names.value)) else Err(names.error)) && unread == old(unread)[len..]
    {
      hide QueryNames;
      var payload := ReadExact(len);
      if payload.None? {
        return Err(BadHeader);
      }
      var names := ParseLoadQuery(family, payload.value);
      return if names.Ok? then Ok(LoadQuery(names.value)) else Err(names.error);
    }

    /** The addresses after the fixed part of a forwarded connection, and past any TLVs. */
    method ReadAddresses(family: Byte, len: nat) returns (r: Result<Header, Reject>)
      requires (family == 0x11 && len >= 12) || (family == 0x21 && len >= 36)
      modifies this
      ensures |old(unread)| < len ==> r == Err(BadHeader) && unread == []
      ensures len <= |old(unread)| ==>
        r == Ok(Proxy(SourceOf(family, old(unread)[..AddressLen(family).value]))) && unread == old(unread)[len..]
    {
      hide SourceOf;
      var addrLen := if family == 0x11 then 12 else 36;
      var addresses := ReadExact(addrLen);
      if addresses.None? {
        return Err(BadHeader);
      }
      var ok := Discard(len - addrLen);
      if !ok {
        return Err(BadHeader);
      }
      return Ok(Proxy(SourceOf(family, addresses.value)));
    }

    method ReadProxyV2() returns (r: Result<Header, Reject>)
      modifies this
      ensures var h := ReadHeader(old(unread)); r == h.result && unread == old(unread)[h.consumed..]
    {
      hide ParseFixed, QueryNames, SourceOf;
      var fixed := ReadExact(16);
      if fixed.None? {
        return Err(BadHeader);
      }
      var command := ParseFixed(fixed.value);
      if command.Err? {
        return Err(command.error);
      }
      var len, family := command.value.len, fixed.value[13];
      ghost var rest := unread;
      assert len <= |rest| ==> rest[..len] == old(unread)[16..16 + len];
      if command.value.LocalCommand? {
        r := ReadQuery(family, len);
      } else {
        assert len <= |rest| ==> var n := AddressLen(family).value; rest[..n] == old(unread)[16..16 + n];
        r := ReadAddresses(family, len);
      }
    }
  }

  // ---- Load answers ----

  /** "SYMPHONY-LOAD/1" and a newline. */
  const MAGIC: Bytes := [83, 89, 77, 80, 72, 79, 78, 89, 45, 76, 79, 65, 68, 47, 49, 10]
  const DASH: Byte := 45

  function Decimal(n: nat): (r: Bytes)
    ensures r != []
  {
    if n < 10 then [48 + n] else Decimal(n / 10) + [48 + n % 10]
  }

  function Clamped(load: Option<nat>): Option<nat> {
    if load.Some? && load.value > 1000 then Some(1000) else load
  }

  function LoadLine(load: Option<nat>): Bytes {
    if load.None? then [DASH] else Decimal(Clamped(load).value)
  }

  /** Each line with its newline. */
  function Lines(lines: seq<Bytes>): Bytes {
    if lines == [] then [] else lines[0] + [LF] + Lines(lines[1..])
  }

  function LoadLines(loads: seq<Option<nat>>): (r: seq<Bytes>)
    ensures |r| == |loads| && forall i :: 0 <= i < |r| ==> r[i] == LoadLine(loads[i])
  {
    if loads == [] then [] else [LoadLine(loads[0])] + LoadLines(loads[1..])
  }

  method EncodeLoadAnswer(loads: seq<Option<nat>>) returns (out: Bytes)
    ensures out == MAGIC + Lines(LoadLines(loads))
  {
    hide LoadLine;
    out := MAGIC;
    for i := 0 to |loads|
      invariant out + Lines(LoadLines(loads[i..])) == MAGIC + Lines(LoadLines(loads))
    {
      assert loads[i..][1..] == loads[i + 1..];
      var line := LoadLine(loads[i]);
      assert LoadLines(loads[i..])[1..] == LoadLines(loads[i + 1..]);
      assert out + (line + [LF] + Lines(LoadLines(loads[i + 1..])))
        == (out + line + [LF]) + Lines(LoadLines(loads[i + 1..]));
      out := out + line + [LF];
    }
    assert out + [] == out;
  }

  function ParseLine(line: Bytes): Option<Option<nat>> {
    if line == [DASH] then Some(None)
    else if 1 <= |line| <= 4 && Digits(line, 10) && Value(line, 10) <= 1000 then Some(Some(Value(line, 10)))
    else None
  }

  function ParseLines(lines: seq<Bytes>): Option<seq<Option<nat>>> {
    if lines == [] then Some([])
    else
      var first, rest := ParseLine(lines[0]), ParseLines(lines[1..]);
      if first.None? || rest.None? then None else Some([first.value] + rest.value)
  }

  function BodyLines(body: Bytes): seq<Bytes> {
    var stripped := if body != [] && body[|body| - 1] == LF then body[..|body| - 1] else body;
    if stripped == [] then [] else Split(stripped, LF)
  }

  function ParseLoadAnswer(answer: Bytes, expected: nat): Option<seq<Option<nat>>> {
    if |answer| > |MAGIC| + 5 * expected || !(MAGIC <= answer) then None
    else
      var body := answer[|MAGIC|..];
      if !Utf8(body) || |BodyLines(body)| != expected || answer[|answer| - 1] != LF then None
      else ParseLines(BodyLines(body))
  }
}
