/** A ClientHello written out field by field is read back, however it is cut into records. */
module SniLaws {
  import opened Wrappers
  import opened Bytes
  import opened Sni

  /** The fields of a ClientHello, in the order of section 4.1.2 of RFC 8446. */
  datatype Fields = Fields(version: nat, random: Bytes, session: Bytes, suites: Bytes, methods: Bytes,
                           extensions: Option<Bytes>) {
    predicate Valid() {
      && version < 0x1_0000 && |random| == 32 && |session| < 256 && |suites| < 0x1_0000 && |methods| < 256
      && (extensions.Some? ==> |extensions.value| < 0x1_0000)
    }
  }

  function U24Bytes(n: nat): Bytes
    requires n < 0x100_0000
  {
    [n / 0x1_0000, n / 256 % 256, n % 256]
  }

  function ExtensionsPart(f: Fields): Bytes
    requires f.Valid()
  {
    if f.extensions.None? then [] else U16Bytes(|f.extensions.value|) + f.extensions.value
  }

  function MethodsPart(f: Fields): Bytes
    requires f.Valid()
  {
    [|f.methods|] + f.methods + ExtensionsPart(f)
  }

  function SuitesPart(f: Fields): Bytes
    requires f.Valid()
  {
    U16Bytes(|f.suites|) + f.suites + MethodsPart(f)
  }

  function SessionPart(f: Fields): Bytes
    requires f.Valid()
  {
    [|f.session|] + f.session + SuitesPart(f)
  }

  function Body(f: Fields): (r: Bytes)
    requires f.Valid()
    ensures |r| < 0x100_0000
  {
    U16Bytes(f.version) + f.random + SessionPart(f)
  }

  /** The handshake message. */
  function Message(f: Fields): Bytes
    requires f.Valid()
  {
    [CLIENT_HELLO] + U24Bytes(|Body(f)|) + Body(f)
  }

  /** What the parser is to make of it. */
  function Parsed(f: Fields): Hello {
    Hello(f.version, f.suites, if f.extensions.None? then [] else f.extensions.value)
  }

  lemma MessageIsHello(f: Fields)
    requires f.Valid()
    ensures IsClientHello(Message(f))
  {
    hide Body;
    var n, msg := |Body(f)|, Message(f);
    assert msg[1] == n / 0x1_0000 && msg[2] == n / 256 % 256 && msg[3] == n % 256;
    U24Value(n);
  }

  lemma U24Value(n: nat)
    requires n < 0x100_0000
    ensures 0x1_0000 * (n / 0x1_0000) + 256 * (n / 256 % 256) + n % 256 == n
  {
    var high := n / 256;
    assert n == 256 * high + n % 256;
    assert high == 256 * (high / 256) + high % 256;
    assert high / 256 == n / 0x1_0000;
  }

  lemma TailOf(buf: Bytes, at: nat, part: Bytes, rest: Bytes)
    requires at <= |buf| && buf[at..] == part + rest
    ensures at + |part| <= |buf| && buf[at..at + |part|] == part && buf[at + |part|..] == rest
    ensures forall i :: 0 <= i < |part| ==> buf[at + i] == part[i]
  {
    var tail := buf[at..];
    assert forall i :: 0 <= i < |part| ==> buf[at + i] == tail[i];
  }

  lemma ExtensionsRead(buf: Bytes, at: nat, f: Fields)
    requires f.Valid() && at <= |buf| && buf[at..] == ExtensionsPart(f)
    ensures ExtensionsAt(buf, at) == Parsed(f).extensions
  {
    if f.extensions.None? {
      assert |buf[at..]| == 0;
    } else {
      var ext := f.extensions.value;
      TailOf(buf, at, U16Bytes(|ext|), ext);
      assert U16(buf, at) == |ext| by { assert buf[at + 0] == |ext| / 256 && buf[at + 1] == |ext| % 256; }
      assert at + 2 + |ext| == |buf|;
    }
  }

  lemma MethodsRead(buf: Bytes, at: nat, f: Fields)
    requires f.Valid() && 44 <= |buf| && at <= |buf| && buf[at..] == MethodsPart(f)
    ensures forall suites :: 0 <= suites <= at ==>
      MethodsAt(buf, suites, at) == Some(Hello(U16(buf, 9), buf[suites..at], Parsed(f).extensions))
  {
    hide ExtensionsAt;
    assert MethodsPart(f) == ([|f.methods|] + f.methods) + ExtensionsPart(f);
    TailOf(buf, at, [|f.methods|] + f.methods, ExtensionsPart(f));
    assert buf[at + 0] == |f.methods|;
    ExtensionsRead(buf, at + 1 + |f.methods|, f);
  }

  lemma SuitesRead(buf: Bytes, at: nat, f: Fields)
    requires f.Valid() && 44 <= at <= |buf| && buf[at..] == SuitesPart(f)
    ensures SuitesAt(buf, at) == Some(Hello(U16(buf, 9), f.suites, Parsed(f).extensions))
  {
    hide MethodsAt, MethodsPart;
    var n := |f.suites|;
    assert SuitesPart(f) == U16Bytes(n) + (f.suites + MethodsPart(f));
    TailOf(buf, at, U16Bytes(n), f.suites + MethodsPart(f));
    assert U16(buf, at) == n by { assert buf[at + 0] == n / 256 && buf[at + 1] == n % 256; }
    TailOf(buf, at + 2, f.suites, MethodsPart(f));
    MethodsRead(buf, at + 2 + n, f);
  }

  lemma SessionRead(buf: Bytes, f: Fields)
    requires f.Valid() && 43 <= |buf| && buf[43..] == SessionPart(f) && buf[0] == HANDSHAKE && buf[5] == CLIENT_HELLO
    ensures HelloOf(buf) == Some(Hello(U16(buf, 9), f.suites, Parsed(f).extensions))
  {
    hide SuitesAt, SuitesPart;
    var part := [|f.session|] + f.session;
    assert SessionPart(f) == part + SuitesPart(f);
    TailOf(buf, 43, part, SuitesPart(f));
    assert buf[43 + 0] == |f.session|;
    SuitesRead(buf, 44 + |f.session|, f);
  }

  /** A hello in one record, whatever the record's header, parses to its own version, ciphers and
      extensions. */
  lemma HelloRoundTrip(header: Bytes, f: Fields)
    requires f.Valid() && |header| == 5 && header[0] == HANDSHAKE
    ensures HelloOf(header + Message(f)) == Some(Parsed(f))
  {
    hide SessionPart, HelloOf;
    var buf, body := header + Message(f), Body(f);
    assert buf[9..] == body && buf[5] == CLIENT_HELLO;
    assert body == U16Bytes(f.version) + (f.random + SessionPart(f));
    TailOf(buf, 9, U16Bytes(f.version), f.random + SessionPart(f));
    assert U16(buf, 9) == f.version by { assert buf[9 + 0] == f.version / 256 && buf[9 + 1] == f.version % 256; }
    TailOf(buf, 11, f.random, SessionPart(f));
    SessionRead(buf, f);
  }

  /** From the wire: any hello, split into records in any way and followed by anything, is found,
      reassembled and parsed to its own version, ciphers and extensions. */
  lemma PeekedHelloIsTheClients(f: Fields, records: seq<Record>, suffix: Bytes)
    requires f.Valid() && Fits(records) && Message(f) <= Payload(records)
    ensures var scan := ScanOf(Wire(records) + suffix);
      scan.Complete? && HelloOf(WrapAsRecord(scan.hs)) == Some(Parsed(f))
  {
    hide ScanOf, HelloOf, Message, WrapAsRecord;
    MessageIsHello(f);
    var header: Bytes := [HANDSHAKE, 3, 1, 0, 0];
    SplitParsesAlike(records, suffix, Message(f), header);
    HelloRoundTrip(header, f);
  }
}
