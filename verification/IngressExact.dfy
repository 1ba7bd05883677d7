/** Exactly which bytes are a header, a query and an answer of the failover ingress, and what they say. */
module IngressExact {
  import opened Wrappers
  import opened Bytes
  import opened Text
  import opened TextLaws
  import opened Utf8Laws
  import opened Ingress
  import opened IngressLaws

  // ---- Type, length and value ----

  datatype Tlv = Tlv(kind: Byte, value: Bytes)

  ghost predicate AllFit(items: seq<Tlv>) { forall i :: 0 <= i < |items| ==> |items[i].value| < 0x1_0000 }

  function Written(items: seq<Tlv>): Bytes
    requires AllFit(items)
  {
    if items == [] then []
    else
      var n := |items[0].value|;
      [items[0].kind, n / 256, n % 256] + items[0].value + Written(items[1..])
  }

  ghost predicate IsText(s: Bytes) { exists cs: seq<nat> :: Scalars(cs) && s == EncodeAll(cs) }

  ghost function NameIn(value: Bytes): Option<Bytes> {
    if 1 <= |value| <= 253 && IsText(value) then Some(value) else None
  }

  /** The names asked about: those of type 0xE3. */
  ghost function NamesIn(items: seq<Tlv>): seq<Option<Bytes>> {
    if items == [] then []
    else (if items[0].kind == 0xE3 then [NameIn(items[0].value)] else []) + NamesIn(items[1..])
  }

  lemma NameExactly(value: Bytes)
    ensures ValidName(value) == NameIn(value)
  {
    hide Utf8;
    Utf8Exactly(value);
  }

  lemma FirstItem(s: Bytes, items: seq<Tlv>)
    requires items != [] && AllFit(items) && s == Written(items)
    ensures var n := |items[0].value|;
      && |s| >= 3 + n && s[0] == items[0].kind && U16(s, 1) == n
      && s[3..3 + n] == items[0].value && s[3 + n..] == Written(items[1..])
  {
    var n := |items[0].value|;
    var head: Bytes := [items[0].kind, n / 256, n % 256];
    assert s == head + items[0].value + Written(items[1..]);
    assert s[0] == head[0] && s[1] == head[1] && s[2] == head[2];
  }

  /** Such a list is read as its names, if there are at most 64. */
  lemma {:induction false} WrittenIsRead(tlvs: Bytes, at: nat, found: seq<Option<Bytes>>, items: seq<Tlv>)
    requires at <= |tlvs| && AllFit(items) && tlvs[at..] == Written(items) && |found| <= 64
    ensures TlvNames(tlvs, at, found) ==
      if |found| + |NamesIn(items)| <= 64 then Ok(found + NamesIn(items)) else Err(BadHeader)
    decreases |items|
  {
    hide NameIn, ValidName, U16, Written;
    if items == [] {
      NothingWritten(tlvs[at..]);
      assert found + NamesIn(items) == found;
    } else {
      FirstItem(tlvs[at..], items);
      var n := |items[0].value|;
      Shifted(tlvs, at, n);
      NameExactly(items[0].value);
      var more := if items[0].kind == 0xE3 then found + [NameIn(items[0].value)] else found;
      if |more| <= 64 {
        WrittenIsRead(tlvs, at + 3 + n, more, items[1..]);
        assert more + NamesIn(items[1..]) == found + NamesIn(items);
      }
    }
  }

  lemma NothingWritten(s: Bytes)
    ensures Written([]) == []
  {
  }

  lemma Shifted(tlvs: Bytes, at: nat, n: nat)
    requires at + 3 + n <= |tlvs|
    ensures var s := tlvs[at..];
      && s[0] == tlvs[at] && U16(s, 1) == U16(tlvs, at + 1)
      && s[3..3 + n] == tlvs[at + 3..at + 3 + n] && s[3 + n..] == tlvs[at + 3 + n..]
  {
  }

  /** And whatever is read is such a list. */
  lemma {:induction false} ReadIsWritten(tlvs: Bytes, at: nat, found: seq<Option<Bytes>>) returns (items: seq<Tlv>)
    requires at <= |tlvs| && |found| <= 64 && TlvNames(tlvs, at, found).Ok?
    ensures AllFit(items) && tlvs[at..] == Written(items)
    ensures |found| + |NamesIn(items)| <= 64 && TlvNames(tlvs, at, found).value == found + NamesIn(items)
    decreases |tlvs| - at
  {
    hide NameIn, ValidName, U16, Written;
    if at == |tlvs| {
      items := [];
      NothingWritten([]);
      assert found + NamesIn(items) == found;
    } else {
      var n := U16(tlvs, at + 1);
      var end := at + 3 + n;
      var value := tlvs[at + 3..end];
      NameExactly(value);
      var more := if tlvs[at] == 0xE3 then found + [NameIn(value)] else found;
      var rest := ReadIsWritten(tlvs, end, more);
      items := [Tlv(tlvs[at], value)] + rest;
      assert items[1..] == rest;
      assert more + NamesIn(rest) == found + NamesIn(items);
      ItemBefore(tlvs, at, items);
    }
  }

  lemma ItemBefore(tlvs: Bytes, at: nat, items: seq<Tlv>)
    requires at + 3 <= |tlvs| && items != [] && AllFit(items[1..])
    requires var n := U16(tlvs, at + 1);
      && at + 3 + n <= |tlvs| && items[0] == Tlv(tlvs[at], tlvs[at + 3..at + 3 + n])
      && tlvs[at + 3 + n..] == Written(items[1..])
    ensures AllFit(items) && tlvs[at..] == Written(items)
  {
    var n := U16(tlvs, at + 1);
    assert |items[0].value| == n && tlvs[at + 1] == n / 256 && tlvs[at + 2] == n % 256;
    hide U16;
    FitsToo(items);
    ThreeParts(tlvs, at, n);
  }

  lemma FitsToo(items: seq<Tlv>)
    requires items != [] && |items[0].value| < 0x1_0000 && AllFit(items[1..])
    ensures AllFit(items)
  {
    forall i | 0 <= i < |items| ensures |items[i].value| < 0x1_0000 {
      if i > 0 { assert items[i] == items[1..][i - 1]; }
    }
  }

  lemma ThreeParts(s: Bytes, at: nat, n: nat)
    requires at + 3 + n <= |s|
    ensures s[at..] == [s[at], s[at + 1], s[at + 2]] + s[at + 3..at + 3 + n] + s[at + 3 + n..]
  {
  }

  // ---- Headers ----

  /** The signature of a version 2 header, then command, family and length. */
  ghost predicate Opens(s: Bytes, command: Byte, family: Byte, len: nat) {
    && |s| >= 16 && s[..12] == Ascii("\r\n\r\n\0\r\nQUIT\n")
    && s[12] == command && s[13] == family && Word(s[14], s[15]) == len
  }

  /** An IPv4 address for what it is, also when it is written as an IPv6 one. */
  function Plain(ip: Bytes): Bytes {
    if |ip| == 16 && ip[..12] == [0, 0, 0, 0, 0, 0, 0, 0, 0, 0, 255, 255] then ip[12..] else ip
  }

  ghost predicate OpensProxy(s: Bytes, len: nat) {
    (Opens(s, 0x21, 0x11, len) && 12 <= len <= 512) || (Opens(s, 0x21, 0x21, len) && 36 <= len <= 512)
  }

  /** How many bytes of addresses come before the TLVs of a query. */
  function Skip(family: Byte): nat { if family == 0x11 then 12 else if family == 0x21 then 36 else 0 }

  ghost predicate OpensQuery(s: Bytes, len: nat) {
    && (Opens(s, 0x20, 0x00, len) || Opens(s, 0x20, 0x11, len) || Opens(s, 0x20, 0x21, len))
    && Skip(s[13]) <= len <= 16384
  }

  /** The first `n` bytes are the header of a connection from this address, TLVs and all. */
  ghost predicate IsProxy(s: Bytes, n: nat, source: Address) {
    && 16 <= n <= |s| && OpensProxy(s, n - 16)
    && source == if s[13] == 0x11 then Address(s[16..20], Word(s[24], s[25]))
                 else Address(Plain(s[16..32]), Word(s[48], s[49]))
  }

  /** The first `n` bytes are a query with these items. */
  ghost predicate IsQuery(s: Bytes, n: nat, items: seq<Tlv>) {
    && 16 <= n <= |s| && AllFit(items)
    && OpensQuery(s, n - 16) && s[16 + Skip(s[13])..n] == Written(items)
  }

  lemma CanonicalExactly(ip: Bytes)
    ensures Canonical(ip) == Plain(ip)
  {
    var prefix: Bytes := [0, 0, 0, 0, 0, 0, 0, 0, 0, 0, 255, 255];
    if |ip| == 16 {
      assert ip[..12] == prefix <==> forall i :: 0 <= i < 12 ==> ip[i] == prefix[i];
    }
  }

  lemma SignatureSpelled()
    ensures SIGNATURE == Ascii("\r\n\r\n\0\r\nQUIT\n") && V1_START == Ascii("PROXY ")
  {
  }

  lemma FixedExactly(fixed: Bytes, len: nat)
    requires |fixed| == 16
    ensures ParseFixed(fixed) == Ok(ProxyCommand(len)) <==> OpensProxy(fixed, len)
    ensures ParseFixed(fixed) == Ok(LocalCommand(len)) <==> OpensQuery(fixed, len)
    ensures ParseFixed(fixed) == Err(Version1) <==> fixed[..6] == Ascii("PROXY ")
  {
    SignatureSpelled();
    hide Ascii;
    assert V1_START <= fixed <==> fixed[..6] == V1_START;
    assert fixed[..12] == SIGNATURE ==> fixed[0] == SIGNATURE[0];
  }

  /** The fixed part announces a header of this length. */
  ghost predicate Announces(s: Bytes, len: nat) { OpensProxy(s, len) || OpensQuery(s, len) }

  lemma SameOpening(s: Bytes, len: nat)
    requires |s| >= 16
    ensures OpensProxy(s[..16], len) == OpensProxy(s, len) && OpensQuery(s[..16], len) == OpensQuery(s, len)
  {
    assert s[..16][..12] == s[..12];
  }

  lemma SourceExactly(s: Bytes, n: nat)
    requires 16 <= n <= |s| && OpensProxy(s, n - 16)
    ensures IsProxy(s, n, SourceOf(s[13], s[16..16 + Skip(s[13])]))
  {
    hide Canonical, Plain;
    var addresses := s[16..16 + Skip(s[13])];
    if s[13] == 0x11 {
      assert addresses[..4] == s[16..20];
    } else {
      CanonicalExactly(s[16..32]);
      assert addresses[..16] == s[16..32];
    }
  }

  lemma AnnouncedExactly(s: Bytes, len: nat)
    requires |s| >= 16
    ensures ParseFixed(s[..16]) == Ok(ProxyCommand(len)) <==> OpensProxy(s, len)
    ensures ParseFixed(s[..16]) == Ok(LocalCommand(len)) <==> OpensQuery(s, len)
    ensures OpensProxy(s, len) ==> s[13] in [0x11, 0x21]
  {
    hide ParseFixed;
    FixedExactly(s[..16], len);
    SameOpening(s, len);
  }

  /** Exactly the bytes that start with a header of a connection are read as one, with its address, its
      length and no more. */
  lemma ProxyIsExact(s: Bytes, n: nat, source: Address)
    ensures ReadHeader(s) == HeaderRead(Ok(Proxy(source)), n) <==> IsProxy(s, n, source)
  {
    hide ParseFixed, QueryNames, SourceOf, Opens, Plain;
    if |s| >= 16 {
      var command := ParseFixed(s[..16]);
      if command.Ok? { AnnouncedExactly(s, command.value.len); }
      if n >= 16 { AnnouncedExactly(s, n - 16); }
      if 16 <= n <= |s| && OpensProxy(s, n - 16) { SourceExactly(s, n); }
    }
  }

  lemma NamesExactly(family: Byte, payload: Bytes, items: seq<Tlv>)
    requires family in [0x00, 0x11, 0x21] && Skip(family) <= |payload| && AllFit(items)
    requires payload[Skip(family)..] == Written(items)
    ensures QueryNames(family, payload) ==
      if NamesIn(items) == [] then Err(LocalHealthCheck)
      else if |NamesIn(items)| <= 64 then Ok(NamesIn(items)) else Err(BadHeader)
  {
    hide TlvNames, Written, NamesIn;
    var tlvs := payload[Skip(family)..];
    assert tlvs[0..] == tlvs;
    WrittenIsRead(tlvs, 0, [], items);
    assert [] + NamesIn(items) == NamesIn(items);
  }

  lemma NamesAreWritten(family: Byte, payload: Bytes) returns (items: seq<Tlv>)
    requires family in [0x00, 0x11, 0x21] && Skip(family) <= |payload|
    requires QueryNames(family, payload).Ok? || QueryNames(family, payload) == Err(LocalHealthCheck)
    ensures AllFit(items) && payload[Skip(family)..] == Written(items)
  {
    hide Written, NamesIn;
    var tlvs := payload[Skip(family)..];
    assert tlvs[0..] == tlvs;
    assert TlvNames(tlvs, 0, []).Ok? by { OnlyBad(tlvs, 0, []); }
    hide TlvNames;
    items := ReadIsWritten(tlvs, 0, []);
  }

  lemma {:induction false} OnlyBad(tlvs: Bytes, at: nat, found: seq<Option<Bytes>>)
    requires at <= |tlvs|
    ensures TlvNames(tlvs, at, found).Err? ==> TlvNames(tlvs, at, found).error == BadHeader
    decreases |tlvs| - at
  {
    hide ValidName, U16;
    if at + 3 <= |tlvs| {
      var end := at + 3 + U16(tlvs, at + 1);
      if end <= |tlvs| {
        OnlyBad(tlvs, end, found);
        OnlyBad(tlvs, end, found + [ValidName(tlvs[at + 3..end])]);
      }
    }
  }

  /** The stream starts with a query: its names are what is read, and without any it is a health check. */
  lemma QueryIsRead(s: Bytes, n: nat, items: seq<Tlv>)
    requires IsQuery(s, n, items)
    ensures ReadHeader(s) == HeaderRead(if NamesIn(items) == [] then Err(LocalHealthCheck)
                                        else if |NamesIn(items)| <= 64 then Ok(LoadQuery(NamesIn(items)))
                                        else Err(BadHeader), n)
  {
    hide ParseFixed, QueryNames, Written, NamesIn;
    AnnouncedExactly(s, n - 16);
    var payload := s[16..n];
    assert payload[Skip(s[13])..] == s[16 + Skip(s[13])..n];
    NamesExactly(s[13], payload, items);
  }

  /** And nothing else is read as one. */
  lemma ReadIsQuery(s: Bytes) returns (items: seq<Tlv>)
    requires var r := ReadHeader(s).result; r == Err(LocalHealthCheck) || (r.Ok? && r.value.LoadQuery?)
    ensures IsQuery(s, ReadHeader(s).consumed, items)
  {
    hide ParseFixed, QueryNames, Written, SourceOf, Opens;
    NoCheckInFixed(s[..16]);
    var len := ParseFixed(s[..16]).value.len;
    AnnouncedExactly(s, len);
    KnownFamily(s, len);
    var payload := s[16..16 + len];
    items := NamesAreWritten(s[13], payload);
    assert payload[Skip(s[13])..] == s[16 + Skip(s[13])..16 + len];
  }

  lemma KnownFamily(s: Bytes, len: nat)
    ensures OpensQuery(s, len) ==> s[13] in [0x00, 0x11, 0x21]
  {
  }

  lemma NoCheckInFixed(fixed: Bytes)
    requires |fixed| == 16
    ensures ParseFixed(fixed) != Err(LocalHealthCheck)
  {
  }

  /** A refused header: which refusals there are, and how much of the stream is gone with each. */
  lemma RefusalIsExact(s: Bytes)
    ensures var r := ReadHeader(s);
      && (r.result == Err(Version1) <==> |s| >= 16 && s[..6] == Ascii("PROXY "))
      && (r.result.Err? && |s| < 16 ==> r.consumed == |s|)
      && (forall len: nat :: r.result.Err? && Announces(s, len) ==>
            r.consumed == if |s| < 16 + len then |s| else 16 + len)
      && (r.result.Err? && |s| >= 16 && (forall len: nat :: !Announces(s, len)) ==> r.consumed == 16)
  {
    hide ParseFixed, QueryNames, SourceOf, Opens, Ascii;
    if |s| >= 16 {
      assert s[..16][..6] == s[..6];
      FixedExactly(s[..16], 0);
      forall len: nat ensures Announces(s, len) ==> ParseFixed(s[..16]).Ok? && ParseFixed(s[..16]).value.len == len {
        AnnouncedExactly(s, len);
      }
      if ParseFixed(s[..16]).Ok? {
        AnnouncedExactly(s, ParseFixed(s[..16]).value.len);
        assert Announces(s, ParseFixed(s[..16]).value.len);
      }
      NotVersion1(s[13]);
    }
  }

  lemma NotVersion1(family: Byte)
    ensures forall p :: QueryNames(family, p) != Err(Version1)
  {
    forall p ensures QueryNames(family, p) != Err(Version1) {
      if AddressLen(family).Some? && AddressLen(family).value <= |p| {
        OnlyBad(p[AddressLen(family).value..], 0, []);
      }
    }
  }

  // ---- What this node writes ----

  /** The header of a connection from `peer` that came in at `local`, byte for byte. */
  lemma HeaderIsWritten(peer: Address, local: Option<Address>)
    requires IsAddress(peer) && (local.Some? ==> IsAddress(local.value))
    ensures var src := Plain(peer.ip);
      var same := local.Some? && |Plain(local.value.ip)| == |src|;
      var dst := if same then Plain(local.value.ip)
                 else if |src| == 4 then [127, 0, 0, 1] else [0, 0, 0, 0, 0, 0, 0, 0, 0, 0, 0, 0, 0, 0, 0, 1];
      var port := if local.Some? then local.value.port else 0;
      ProxyHeader(peer, local) == Ascii("\r\n\r\n\0\r\nQUIT\n")
        + (if |src| == 4 then [0x21, 0x11, 0, 12] else [0x21, 0x21, 0, 36])
        + src + dst + [peer.port / 256, peer.port % 256, port / 256, port % 256]
  {
    SignatureSpelled();
    hide Ascii;
    CanonicalExactly(peer.ip);
    if local.Some? { CanonicalExactly(local.value.ip); }
    hide Canonical;
  }

  function Asking(names: seq<Bytes>): (r: seq<Tlv>)
    ensures |r| == |names|
    ensures forall i :: 0 <= i < |r| ==> r[i] == Tlv(0xE3, if |names[i]| <= 253 then names[i] else [])
  {
    seq(|names|, i requires 0 <= i < |names| => Tlv(0xE3, if |names[i]| <= 253 then names[i] else []))
  }

  lemma {:induction false} TlvsAreWritten(names: seq<Bytes>)
    ensures AllFit(Asking(names)) && NameTlvs(names) == Written(Asking(names))
  {
    if names != [] {
      TlvsAreWritten(names[1..]);
      assert Asking(names)[1..] == Asking(names[1..]);
    }
  }

  /** A query asks about its names in one item each; one that is too long goes without its text. */
  lemma QueryIsWritten(names: seq<Bytes>)
    ensures var tlvs := NameTlvs(names);
      && AllFit(Asking(names)) && tlvs == Written(Asking(names))
      && var low := |tlvs| % 0x1_0000;
         LocalFixed(|tlvs|) == Ascii("\r\n\r\n\0\r\nQUIT\n") + [0x20, 0x00, low / 256, low % 256]
  {
    TlvsAreWritten(names);
    FixedIsWritten(|NameTlvs(names)|);
  }

  lemma FixedIsWritten(len: nat)
    ensures var low := len % 0x1_0000;
      LocalFixed(len) == Ascii("\r\n\r\n\0\r\nQUIT\n") + [0x20, 0x00, low / 256, low % 256]
  {
    SignatureSpelled();
    hide Ascii;
  }

  // ---- Answers ----

  /** A line of an answer: a dash, or a load of at most 1000 in at most four digits. */
  ghost predicate Says(line: Bytes, load: Option<nat>) {
    match load
    case None => line == Ascii("-")
    case Some(n) => |line| <= 4 && n <= 1000 && Numeral(line, 10, n)
  }

  lemma LineExactly(line: Bytes, load: Option<nat>)
    ensures ParseLine(line) == Some(load) <==> Says(line, load)
  {
    hide Numeral, Digits, Value;
    assert [DASH] == Ascii("-");
    if load.Some? {
      NumeralExactly(line, 10, load.value);
      DashIsNoDigit();
    }
  }

  lemma DashIsNoDigit()
    ensures !Digits([DASH], 10)
  {
    assert Digit([DASH][0]) >= 10;
  }

  /** What this node says of a load: itself, but at most 1000, and without leading zeros. */
  lemma LoadIsSaid(load: Option<nat>)
    ensures match load
      case None => Says(LoadLine(load), None)
      case Some(n) =>
        && Says(LoadLine(load), Some(if n <= 1000 then n else 1000))
        && (|LoadLine(load)| > 1 ==> LoadLine(load)[0] != '0' as int)
  {
    LineParses(load);
    if load.Some? {
      var n := if load.value <= 1000 then load.value else 1000;
      LineExactly(LoadLine(load), Some(n));
      NoLeadingZero(n);
    }
  }

  lemma {:induction false} NoLeadingZero(n: nat)
    ensures |Decimal(n)| > 1 ==> Decimal(n)[0] != '0' as int
    ensures n > 0 ==> Decimal(n)[0] != '0' as int
  {
    if n >= 10 { NoLeadingZero(n / 10); }
  }

  /** The magic line, then a line for each load. */
  ghost predicate AnswerOf(answer: Bytes, lines: seq<Bytes>, loads: seq<Option<nat>>) {
    && |lines| == |loads| && answer == Ascii("SYMPHONY-LOAD/1\n") + Lines(lines)
    && (forall i :: 0 <= i < |lines| ==> Says(lines[i], loads[i]))
  }

  /** Exactly these bytes are read as an answer with these loads. */
  lemma AnswerIsExact(answer: Bytes, loads: seq<Option<nat>>)
    ensures ParseLoadAnswer(answer, |loads|) == Some(loads) <==> exists lines :: AnswerOf(answer, lines, loads)
  {
    hide ParseLine, Lines, Says, BodyLines, ParseLoadAnswer, Ascii;
    MagicSpelled();
    AcceptedAnswer(answer, |loads|);
    if ParseLoadAnswer(answer, |loads|) == Some(loads) {
      var lines := BodyLines(answer[|MAGIC|..]);
      forall i | 0 <= i < |lines| ensures Says(lines[i], loads[i]) { LineExactly(lines[i], loads[i]); }
      assert AnswerOf(answer, lines, loads);
    }
    if lines :| AnswerOf(answer, lines, loads) {
      forall i | 0 <= i < |lines| ensures ParseLine(lines[i]) == Some(loads[i]) { LineExactly(lines[i], loads[i]); }
      assert IsAnswer(answer, lines, |loads|);
      SaidLines(lines);
      assert answer[|MAGIC|..] == Lines(lines);
      var r := ParseLoadAnswer(answer, |loads|).value;
      assert forall i :: 0 <= i < |loads| ==> ParseLine(lines[i]) == Some(r[i]);
      assert r == loads;
    }
  }

  lemma MagicSpelled()
    ensures MAGIC == Ascii("SYMPHONY-LOAD/1\n")
  {
  }

  lemma SaidLines(lines: seq<Bytes>)
    requires forall i :: 0 <= i < |lines| ==> ParseLine(lines[i]).Some?
    ensures BodyLines(Lines(lines)) == lines
  {
    hide ParseLine;
    forall i | 0 <= i < |lines| ensures LF !in lines[i] && lines[i] != [] { LineFacts(lines[i]); }
    BodyLinesOf(lines);
  }
}
