/** What one node writes another reads back: load queries, load answers, and the PROXY v2 header of
    a connection that was handed over. */
module IngressLaws {
  import opened Basics
  import opened Wrappers
  import opened Bytes
  import opened Text
  import opened Ingress
  import opened Forwarding
  import opened ForwardingLaws

  // ---- Load queries ----

  /** What the receiver makes of a name. */
  function AskedName(name: Bytes): Option<Bytes> {
    if 1 <= |name| <= MAX_NAME_LEN then Some(name) else None
  }

  function Asked(names: seq<Bytes>): (r: seq<Option<Bytes>>)
    ensures |r| == |names| && forall i :: 0 <= i < |r| ==> r[i] == AskedName(names[i])
  {
    if names == [] then [] else [AskedName(names[0])] + Asked(names[1..])
  }

  ghost predicate AllUtf8(names: seq<Bytes>) { forall i :: 0 <= i < |names| ==> Utf8(names[i]) }

  /** One name, read where it stands. */
  lemma NameAt(tlvs: Bytes, at: nat, name: Bytes, rest: Bytes)
    requires at <= |tlvs| && tlvs[at..] == NameTlv(name) + rest
    ensures var n := |Sent(name)|; var end := at + 3 + n;
      && end <= |tlvs| && tlvs[at] == LOAD_QUERY_TLV && U16(tlvs, at + 1) == n
      && tlvs[at + 3..end] == Sent(name) && tlvs[end..] == rest && end == at + |NameTlv(name)|
  {
    var tail, n := tlvs[at..], |Sent(name)|;
    assert tail[0] == LOAD_QUERY_TLV && tail[1] == n / 256 && tail[2] == n % 256;
    assert tlvs[at] == tail[0] && tlvs[at + 1] == tail[1] && tlvs[at + 2] == tail[2];
    assert tlvs[at + 3..at + 3 + n] == tail[3..3 + n] == Sent(name);
    assert tlvs[at + 3 + n..] == tail[3 + n..] == rest;
  }

  lemma SentIsAsked(name: Bytes)
    requires Utf8(name)
    ensures ValidName(Sent(name)) == AskedName(name)
  {
  }

  lemma NameStep(tlvs: Bytes, at: nat, found: seq<Option<Bytes>>, name: Bytes, rest: Bytes)
    requires at <= |tlvs| && tlvs[at..] == NameTlv(name) + rest && Utf8(name) && |found| < MAX_QUERY_NAMES
    ensures var end := at + |NameTlv(name)|;
      end <= |tlvs| && tlvs[end..] == rest &&
      TlvNames(tlvs, at, found) == TlvNames(tlvs, end, found + [AskedName(name)])
  {
    NameAt(tlvs, at, name, rest);
    SentIsAsked(name);
    hide NameTlv, ValidName, Utf8, AskedName, Sent, U16;
  }

  lemma NoMoreNames(tlvs: Bytes, found: seq<Option<Bytes>>)
    ensures TlvNames(tlvs, |tlvs|, found) == Ok(found)
  {
  }

  lemma AskedCons(found: seq<Option<Bytes>>, names: seq<Bytes>)
    requires names != []
    ensures found + [AskedName(names[0])] + Asked(names[1..]) == found + Asked(names)
  {
    hide AskedName;
  }

  lemma {:induction false} NamesFrom(tlvs: Bytes, at: nat, found: seq<Option<Bytes>>, names: seq<Bytes>)
    requires at <= |tlvs| && tlvs[at..] == NameTlvs(names) && AllUtf8(names) && |found| + |names| <= MAX_QUERY_NAMES
    ensures TlvNames(tlvs, at, found) == Ok(found + Asked(names))
    decreases |names|
  {
    hide NameTlv, AskedName, Utf8, TlvNames, Asked;
    if names == [] {
      assert |tlvs[at..]| == 0;
      NoMoreNames(tlvs, found);
      assert found + Asked(names) == found;
    } else {
      NameStep(tlvs, at, found, names[0], NameTlvs(names[1..]));
      hide NameTlvs;
      NamesFrom(tlvs, at + |NameTlv(names[0])|, found + [AskedName(names[0])], names[1..]);
      AskedCons(found, names);
    }
  }

  /** The receiver gets back the very list that was asked about, in order, with "not available" for
      a name that is empty or too long, and reads exactly the query. */
  lemma QueryRoundTrip(names: seq<Bytes>, rest: Bytes)
    requires 1 <= |names| <= MAX_QUERY_NAMES && AllUtf8(names)
    ensures var query := LocalFixed(|NameTlvs(names)|) + NameTlvs(names);
      ReadHeader(query + rest) == HeaderRead(Ok(LoadQuery(Asked(names))), |query|)
  {
    hide NameTlvs, TlvNames, Asked;
    var tlvs := NameTlvs(names);
    var fixed := LocalFixed(|tlvs|);
    var stream := fixed + tlvs + rest;
    assert stream[..16] == fixed;
    LocalFixedParses(|tlvs|);
    assert stream[16..16 + |tlvs|] == tlvs;
    QueryNamesOf(names);
  }

  lemma LocalFixedParses(len: nat)
    requires len <= MAX_LOCAL_PAYLOAD
    ensures ParseFixed(LocalFixed(len)) == Ok(LocalCommand(len)) && LocalFixed(len)[13] == 0
  {
    var fixed := LocalFixed(len);
    assert fixed[..12] == SIGNATURE;
    assert fixed[12] == 0x20 && fixed[14] == len / 256 && fixed[15] == len % 256;
    assert V1_START[0] != fixed[0];
  }

  lemma QueryNamesOf(names: seq<Bytes>)
    requires 1 <= |names| <= MAX_QUERY_NAMES && AllUtf8(names)
    ensures QueryNames(0, NameTlvs(names)) == Ok(Asked(names))
  {
    var tlvs := NameTlvs(names);
    var none: seq<Option<Bytes>> := [];
    assert tlvs[0..] == tlvs && none + Asked(names) == Asked(names);
    NamesFrom(tlvs, 0, none, names);
  }

  // ---- Load answers ----

  lemma DecimalParses(n: nat)
    requires n <= 1000
    ensures ParseLine(Decimal(n)) == Some(Some(n)) && LF !in Decimal(n) && |Decimal(n)| <= 4
    ensures forall i :: 0 <= i < |Decimal(n)| ==> 48 <= Decimal(n)[i] <= 57
  {
    DecimalDigits(n);
    if n >= 10 {
      DecimalDigits(n / 10);
      if n >= 100 { DecimalDigits(n / 10 / 10); }
    }
  }

  lemma {:induction false} DecimalDigits(n: nat)
    ensures Value(Decimal(n), 10) == n && Digits(Decimal(n), 10)
    ensures forall i :: 0 <= i < |Decimal(n)| ==> 48 <= Decimal(n)[i] <= 57
  {
    if n >= 10 {
      DecimalDigits(n / 10);
      var d := Decimal(n);
      assert d[..|d| - 1] == Decimal(n / 10);
    } else {
      var d := Decimal(n);
      assert d[..|d| - 1] == [];
    }
  }

  lemma LineParses(load: Option<nat>)
    ensures ParseLine(LoadLine(load)) == Some(Clamped(load))
    ensures LF !in LoadLine(load) && 1 <= |LoadLine(load)| <= 4
    ensures forall i :: 0 <= i < |LoadLine(load)| ==> LoadLine(load)[i] < 0x80
  {
    if load.Some? { DecimalParses(Clamped(load).value); }
  }

  lemma SplitFirst(line: Bytes, rest: Bytes)
    requires LF !in line
    ensures Split(line + [LF] + rest, LF) == [line] + Split(rest, LF)
    ensures Split(line, LF) == [line]
  {
    var s := line + [LF] + rest;
    var i := FindByte(s, LF);
    assert s[|line|] == LF;
    assert forall k :: 0 <= k < |line| ==> s[k] == line[k];
    assert i == |line| && s[..i] == line && s[i + 1..] == rest;
  }

  lemma LinesCons(lines: seq<Bytes>)
    requires lines != []
    ensures Lines(lines) == lines[0] + [LF] + Lines(lines[1..]) && |Lines(lines)| >= |lines[0]| + 1
    ensures Lines(lines)[|Lines(lines)| - 1] == LF
    decreases |lines|
  {
    if |lines| > 1 { LinesCons(lines[1..]); }
  }

  /** Splitting is the inverse of putting lines together. */
  lemma {:induction false} SplitLines(lines: seq<Bytes>)
    requires lines != [] && forall i :: 0 <= i < |lines| ==> LF !in lines[i]
    ensures var s := Lines(lines); s != [] && Split(s[..|s| - 1], LF) == lines
    decreases |lines|
  {
    hide Split;
    var s := Lines(lines);
    LinesCons(lines);
    if |lines| == 1 {
      assert s == lines[0] + [LF];
      assert s[..|s| - 1] == lines[0];
      SplitFirst(lines[0], []);
    } else {
      var t := Lines(lines[1..]);
      LinesCons(lines[1..]);
      SplitLines(lines[1..]);
      assert s[..|s| - 1] == lines[0] + [LF] + t[..|t| - 1];
      SplitFirst(lines[0], t[..|t| - 1]);
      assert lines == [lines[0]] + lines[1..];
    }
  }

  /** And putting together is the inverse of splitting. */
  lemma {:induction false} LinesOfSplit(s: Bytes)
    ensures Lines(Split(s, LF)) == s + [LF]
    decreases |s|
  {
    var i := FindByte(s, LF);
    if i < |s| {
      var tail := s[i + 1..];
      LinesOfSplit(tail);
      assert Split(s, LF) == [s[..i]] + Split(tail, LF);
      hide Split, FindByte;
      assert ([s[..i]] + Split(tail, LF))[1..] == Split(tail, LF);
      assert s + [LF] == s[..i] + [LF] + (tail + [LF]);
    }
  }

  lemma {:induction false} LoadLinesFacts(loads: seq<Option<nat>>)
    ensures ParseLines(LoadLines(loads)) == Some(Clamp(loads))
    ensures forall i :: 0 <= i < |loads| ==> LF !in LoadLines(loads)[i] && LoadLines(loads)[i] != []
    ensures |Lines(LoadLines(loads))| <= 5 * |loads|
    ensures forall i :: 0 <= i < |Lines(LoadLines(loads))| ==> Lines(LoadLines(loads))[i] < 0x80
    decreases |loads|
  {
    hide LoadLine, ParseLine;
    if loads != [] {
      LoadLinesFacts(loads[1..]);
      LineParses(loads[0]);
      assert LoadLines(loads)[1..] == LoadLines(loads[1..]);
    }
  }

  function Clamp(loads: seq<Option<nat>>): seq<Option<nat>> {
    if loads == [] then [] else [Clamped(loads[0])] + Clamp(loads[1..])
  }

  lemma BodyLinesOf(lines: seq<Bytes>)
    requires forall i :: 0 <= i < |lines| ==> LF !in lines[i] && lines[i] != []
    ensures BodyLines(Lines(lines)) == lines
  {
    hide Split;
    if lines != [] {
      LinesCons(lines);
      SplitLines(lines);
    }
  }

  /** What the parser does with the magic line and a body. */
  lemma ParseBody(body: Bytes, expected: nat)
    requires Utf8(body) && |body| <= 5 * expected && (body != [] ==> body[|body| - 1] == LF)
    ensures ParseLoadAnswer(MAGIC + body, expected) ==
      if |BodyLines(body)| != expected then None else ParseLines(BodyLines(body))
  {
    hide BodyLines, ParseLines, Utf8;
    var answer := MAGIC + body;
    assert answer[|MAGIC|..] == body;
    assert answer[|answer| - 1] == LF;
  }

  /** An answer parses back to the loads it was made from, each at most 1000. */
  lemma AnswerRoundTrip(loads: seq<Option<nat>>)
    ensures ParseLoadAnswer(MAGIC + Lines(LoadLines(loads)), |loads|) == Some(Clamp(loads))
  {
    hide Lines, LoadLines, ParseLines, Utf8, Clamp, BodyLines, ParseLoadAnswer;
    var lines := LoadLines(loads);
    var body := Lines(lines);
    LoadLinesFacts(loads);
    BodyLinesOf(lines);
    AsciiIsUtf8(body);
    if lines == [] { NoLines(lines); } else { LinesCons(lines); }
    ParseBody(body, |loads|);
  }

  lemma NoLines(lines: seq<Bytes>)
    requires lines == []
    ensures Lines(lines) == []
  {
  }

  lemma {:induction false} ParsedLines(lines: seq<Bytes>)
    ensures var r := ParseLines(lines);
      r.Some? ==> |r.value| == |lines| && forall i :: 0 <= i < |lines| ==> ParseLine(lines[i]) == Some(r.value[i])
  {
    hide ParseLine;
    if lines != [] { ParsedLines(lines[1..]); }
  }

  /** The magic line and exactly one line per name, each `-` or a number of at most 1000 in at most
      four digits. */
  ghost predicate IsAnswer(answer: Bytes, lines: seq<Bytes>, expected: nat) {
    && |lines| == expected && answer == MAGIC + Lines(lines)
    && (forall i :: 0 <= i < |lines| ==> ParseLine(lines[i]).Some?)
  }

  /** Exactly such bytes are accepted as an answer, and each line is read as its own load. */
  lemma AcceptedAnswer(answer: Bytes, expected: nat)
    ensures var r := ParseLoadAnswer(answer, expected);
      && (r.Some? <==> exists lines :: IsAnswer(answer, lines, expected))
      && (r.Some? ==>
            && |r.value| == expected
            && (forall i :: 0 <= i < expected && r.value[i].Some? ==> r.value[i].value <= 1000)
            && var lines := BodyLines(answer[|MAGIC|..]);
            && IsAnswer(answer, lines, expected)
            && (forall i :: 0 <= i < expected ==> ParseLine(lines[i]) == Some(r.value[i])))
  {
    hide ParseLines, Split, Lines, Utf8;
    if ParseLoadAnswer(answer, expected).Some? {
      var body := answer[|MAGIC|..];
      assert answer == MAGIC + body;
      var lines := BodyLines(body);
      ParsedLines(lines);
      if body == [] {
        NoLines(lines);
      } else {
        LinesOfSplit(body[..|body| - 1]);
        assert body == body[..|body| - 1] + [LF];
      }
      assert IsAnswer(answer, lines, expected);
    }
    if lines :| IsAnswer(answer, lines, expected) {
      AnswerAccepted(lines);
    }
  }

  lemma LineFacts(line: Bytes)
    requires ParseLine(line).Some?
    ensures 1 <= |line| <= 4 && LF !in line && forall i :: 0 <= i < |line| ==> line[i] < 0x80
  {
  }

  lemma {:induction false} AnswerLines(lines: seq<Bytes>)
    requires forall i :: 0 <= i < |lines| ==> ParseLine(lines[i]).Some?
    ensures ParseLines(lines).Some? && |Lines(lines)| <= 5 * |lines|
    ensures forall i :: 0 <= i < |Lines(lines)| ==> Lines(lines)[i] < 0x80
    decreases |lines|
  {
    hide ParseLine;
    if lines != [] {
      AnswerLines(lines[1..]);
      LineFacts(lines[0]);
    }
  }

  lemma AnswerAccepted(lines: seq<Bytes>)
    requires forall i :: 0 <= i < |lines| ==> ParseLine(lines[i]).Some?
    ensures ParseLoadAnswer(MAGIC + Lines(lines), |lines|).Some?
  {
    hide Lines, ParseLines, Utf8, BodyLines, ParseLoadAnswer, ParseLine;
    var body := Lines(lines);
    AnswerLines(lines);
    forall i | 0 <= i < |lines| ensures LF !in lines[i] && lines[i] != [] { LineFacts(lines[i]); }
    BodyLinesOf(lines);
    AsciiIsUtf8(body);
    if lines == [] { NoLines(lines); } else { LinesCons(lines); }
    ParseBody(body, |lines|);
  }

  // ---- A connection handed over ----

  lemma ProxyFixedParses(block: Bytes)
    requires |block| == 12 || |block| == 36
    ensures var fixed := SIGNATURE + [0x21, if |block| == 12 then 0x11 else 0x21] + U16Bytes(|block|);
      |fixed| == 16 && ParseFixed(fixed) == Ok(ProxyCommand(|block|)) &&
      fixed[13] == (if |block| == 12 then 0x11 else 0x21)
  {
    var fixed := SIGNATURE + [0x21, if |block| == 12 then 0x11 else 0x21] + U16Bytes(|block|);
    assert fixed[..12] == SIGNATURE;
    assert fixed[12] == 0x21 && fixed[14] == 0 && fixed[15] == |block|;
    assert V1_START[0] != fixed[0];
  }

  lemma SourceOfBlock(peer: Address, local: Option<Address>)
    requires IsAddress(peer) && (local.Some? ==> IsAddress(local.value))
    ensures var block := AddressBlock(peer, local);
      SourceOf(if |block| == 12 then 0x11 else 0x21, block) == Address(Canonical(peer.ip), peer.port)
  {
    var block, src := AddressBlock(peer, local), Canonical(peer.ip);
    assert block[..|src|] == src;
    var at := 2 * |src|;
    assert block[at] == peer.port / 256 && block[at + 1] == peer.port % 256;
  }

  /** A peer reads off a forwarded connection the client's own address and port, and nothing but the
      header: what it sees next is the client's first byte. */
  lemma HeaderRoundTrip(peer: Address, local: Option<Address>, rest: Bytes)
    requires IsAddress(peer) && (local.Some? ==> IsAddress(local.value))
    ensures var header := ProxyHeader(peer, local);
      ReadHeader(header + rest) == HeaderRead(Ok(Proxy(Address(Canonical(peer.ip), peer.port))), |header|)
      && |header| <= 52
  {
    hide SourceOf, ParseFixed, QueryNames;
    var block := AddressBlock(peer, local);
    var fixed := SIGNATURE + [0x21, if |block| == 12 then 0x11 else 0x21] + U16Bytes(|block|);
    ProxyFixedParses(block);
    SourceOfBlock(peer, local);
    hide AddressBlock;
    var stream := ProxyHeader(peer, local) + rest;
    assert stream == fixed + block + rest;
    assert stream[..16] == fixed;
    assert stream[16..16 + |block|] == block;
  }

  /** From end to end: whenever a peer has answered a forwarded connection and the client is still
      there, the peer's ingress reads the client's address from it, and the bytes after the header,
      together with what is still unread, are exactly the client's stream. */
  lemma HandedOverIntact(st: State, stream: Bytes, complete: bool, helloLen: nat, mode: Mode, handshake: nat,
                         peer: Address, local: Option<Address>, w: World, b: Backoff, clock: nat)
    requires st.words != [] && IsAddress(peer) && (local.Some? ==> IsAddress(local.value)) && w.readOk
    ensures var o := Forward(st, stream, complete, helloLen, mode, handshake, ProxyHeader(peer, local), w, b, clock);
      forall i :: 0 <= i < |o.tries| && o.tries[i].answered ==>
        var h := ReadHeader(o.tries[i].received);
        && h.result == Ok(Proxy(Address(Canonical(peer.ip), peer.port)))
        && o.tries[i].received[h.consumed..] + o.unread == stream
  {
    hide Forward, ReadHeader, ProxyHeader, Canonical, Budget;
    var header := ProxyHeader(peer, local);
    var o := Forward(st, stream, complete, helloLen, mode, handshake, header, w, b, clock);
    ForwardIsSafe(st, stream, complete, helloLen, mode, handshake, header, w, b, clock);
    var prefix := header + stream[..Min(helloLen, |stream|)];
    if OneAnswered(o.tries, prefix, header, stream, o.unread, w.readOk) {
      var last := |o.tries| - 1;
      forall i | 0 <= i < last ensures !o.tries[i].answered { assert o.tries[..last][i] == o.tries[i]; }
      AfterHeader(peer, local, o.tries[last].received, stream, o.unread);
    }
  }

  lemma AfterHeader(peer: Address, local: Option<Address>, received: Bytes, stream: Bytes, unread: Bytes)
    requires IsAddress(peer) && (local.Some? ==> IsAddress(local.value))
    requires ProxyHeader(peer, local) <= received && received + unread == ProxyHeader(peer, local) + stream
    ensures var h := ReadHeader(received);
      h.result == Ok(Proxy(Address(Canonical(peer.ip), peer.port))) && received[h.consumed..] + unread == stream
  {
    hide ReadHeader, ProxyHeader, Canonical;
    var header := ProxyHeader(peer, local);
    var rest := received[|header|..];
    assert received == header + rest;
    HeaderRoundTrip(peer, local, rest);
    assert (received + unread)[|header|..] == rest + unread;
    assert (header + stream)[|header|..] == stream;
  }
}
