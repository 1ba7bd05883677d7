/** The JA4 fingerprint of a ClientHello, and the changes to a hello that leave it as it is. */
module Ja4 {
  import opened Wrappers
  import opened Bytes
  import opened Sni

  // ---- Reading a hello ----

  /** GREASE values of RFC 8701: 0x0A0A, 0x1A1A and so on to 0xFAFA. */
  predicate IsGrease(v: nat) { v / 256 == v % 256 && v % 16 == 10 }

  function NonGrease(values: seq<nat>): (r: seq<nat>)
    ensures forall i :: 0 <= i < |r| ==> !IsGrease(r[i])
    ensures |r| <= |values|
  {
    if values == [] then []
    else if IsGrease(values[0]) then NonGrease(values[1..])
    else [values[0]] + NonGrease(values[1..])
  }

  /** The bytes as pairs, an odd one at the end left out. */
  function U16s(s: Bytes): seq<nat> {
    if |s| < 2 then [] else [U16(s, 0)] + U16s(s[2..])
  }

  /** `n` bytes from `at`, or as many as there are. */
  function Listed(s: Bytes, at: nat, n: nat): Bytes
    requires at <= |s|
  {
    s[at..if at + n < |s| then at + n else |s|]
  }

  datatype Ext = Ext(kind: nat, data: Bytes)

  const SERVER_NAME: nat := 0x0000
  const SIGNATURE_ALGORITHMS: nat := 0x000D
  const ALPN: nat := 0x0010
  const SUPPORTED_VERSIONS: nat := 0x002B

  function ParseExts(s: Bytes, at: nat): seq<Ext>
    requires at <= |s|
    decreases |s| - at
  {
    if |s| < at + 4 then []
    else
      var end := at + 4 + U16(s, at + 2);
      if |s| < end then [] else [Ext(U16(s, at), s[at + 4..end])] + ParseExts(s, end)
  }

  function Versions(data: Bytes): seq<nat> {
    if data == [] then [] else NonGrease(U16s(Listed(data, 1, data[0])))
  }

  function SigAlgs(data: Bytes): seq<nat> {
    if |data| < 2 then [] else NonGrease(U16s(Listed(data, 2, U16(data, 0))))
  }

  /** The first protocol of an ALPN list, when there is a whole one. */
  function FirstProtocol(data: Bytes): Option<Bytes> {
    if |data| < 2 then None
    else
      var list := Listed(data, 2, U16(data, 0));
      if list == [] || list[0] == 0 || |list| <= list[0] then None else Some(list[1..1 + (list[0] as int)])
  }

  /** What the fingerprint takes from the extensions. */
  datatype Facts = Facts(ids: seq<nat>, versions: seq<nat>, alpn: Option<Bytes>, sigAlgs: seq<nat>)

  function AddExt(f: Facts, e: Ext): Facts {
    if IsGrease(e.kind) then f
    else Facts(
      f.ids + [e.kind],
      if e.kind == SUPPORTED_VERSIONS then f.versions + Versions(e.data) else f.versions,
      if e.kind == ALPN && FirstProtocol(e.data).Some? then FirstProtocol(e.data) else f.alpn,
      if e.kind == SIGNATURE_ALGORITHMS then f.sigAlgs + SigAlgs(e.data) else f.sigAlgs)
  }

  function FactsFrom(f: Facts, exts: seq<Ext>): Facts
    decreases |exts|
  {
    if exts == [] then f else FactsFrom(AddExt(f, exts[0]), exts[1..])
  }

  const NO_FACTS: Facts := Facts([], [], None, [])

  method ReadExtensions(extensions: Bytes) returns (f: Facts)
    ensures f == FactsFrom(NO_FACTS, ParseExts(extensions, 0))
  {
    hide AddExt;
    f := NO_FACTS;
    var pos := 0;
    ghost var goal := FactsFrom(NO_FACTS, ParseExts(extensions, 0));
    while |extensions| - pos >= 4
      invariant pos <= |extensions|
      invariant FactsFrom(f, ParseExts(extensions, pos)) == goal
    {
      var end := pos + 4 + U16(extensions, pos + 2);
      if |extensions| < end {
        break;
      }
      var e := Ext(U16(extensions, pos), extensions[pos + 4..end]);
      assert ParseExts(extensions, pos)[1..] == ParseExts(extensions, end);
      f := AddExt(f, e);
      pos := end;
    }
  }

  // ---- The fingerprint ----

  predicate Ordered(s: seq<nat>) { forall i, j :: 0 <= i < j < |s| ==> s[i] <= s[j] }

  function Insert(x: nat, s: seq<nat>): (r: seq<nat>)
    requires Ordered(s)
    ensures Ordered(r) && |r| == |s| + 1 && forall i :: 0 <= i < |r| ==> r[i] == x || r[i] in s
  {
    if s == [] || x <= s[0] then [x] + s else [s[0]] + Insert(x, s[1..])
  }

  function Sort(s: seq<nat>): (r: seq<nat>)
    ensures Ordered(r) && |r| == |s|
  {
    if s == [] then [] else Insert(s[0], Sort(s[1..]))
  }

  function Digit(d: nat): char
    requires d < 16
  {
    "0123456789abcdef"[d]
  }

  function Hex2(b: Byte): string { [Digit(b / 16), Digit(b % 16)] }

  function Hex4(v: nat): string { Hex2(v / 256 % 256) + Hex2(v % 256) }

  function JoinHex4(values: seq<nat>): string {
    if values == [] then ""
    else if |values| == 1 then Hex4(values[0])
    else Hex4(values[0]) + "," + JoinHex4(values[1..])
  }

  function Max(values: seq<nat>): (r: nat)
    requires values != []
    ensures r in values && forall i :: 0 <= i < |values| ==> values[i] <= r
  {
    if |values| == 1 then values[0]
    else
      var m := Max(values[1..]);
      if m < values[0] then values[0] else m
  }

  function VersionText(v: nat): string {
    if v == 0x0304 then "13"
    else if v == 0x0303 then "12"
    else if v == 0x0302 then "11"
    else if v == 0x0301 then "10"
    else "00"
  }

  /** A count in two digits, 99 at most. */
  function Count(n: nat): string {
    var c := if n < 99 then n else 99;
    [Digit(c / 10), Digit(c % 10)]
  }

  predicate Alphanumeric(b: Byte) { 48 <= b <= 57 || 65 <= b <= 90 || 97 <= b <= 122 }

  function LowerChar(b: Byte): char
    requires Alphanumeric(b)
  {
    if 65 <= b <= 90 then (b + 32) as char else b as char
  }

  function AlpnText(alpn: Option<Bytes>): string {
    if alpn.None? || alpn.value == [] then "00"
    else
      var first, last := alpn.value[0], alpn.value[|alpn.value| - 1];
      if Alphanumeric(first) && Alphanumeric(last) then [LowerChar(first), LowerChar(last)]
      else [Hex2(first)[0], Hex2(last)[1]]
  }

  function WithoutNameAndAlpn(ids: seq<nat>): seq<nat> {
    if ids == [] then []
    else (if ids[0] == SERVER_NAME || ids[0] == ALPN then [] else [ids[0]]) + WithoutNameAndAlpn(ids[1..])
  }

  const NO_HASH: string := "000000000000"

  function PartA(legacyVersion: nat, ciphers: nat, f: Facts): string {
    "t" + VersionText(if f.versions == [] then legacyVersion else Max(f.versions))
    + (if SERVER_NAME in f.ids then "d" else "i") + Count(ciphers) + Count(|f.ids|) + AlpnText(f.alpn)
  }

  function PartB(ciphers: seq<nat>, sha: string -> string): string {
    if ciphers == [] then NO_HASH else sha(JoinHex4(Sort(ciphers)))
  }

  function PartC(f: Facts, sha: string -> string): string {
    var ids := JoinHex4(Sort(WithoutNameAndAlpn(f.ids)));
    var input := if f.sigAlgs == [] then ids else ids + "_" + JoinHex4(f.sigAlgs);
    if input == "" then NO_HASH else sha(input)
  }

  function Ja4Of(legacyVersion: nat, ciphers: seq<nat>, f: Facts, sha: string -> string): string {
    PartA(legacyVersion, |ciphers|, f) + "_" + PartB(ciphers, sha) + "_" + PartC(f, sha)
  }

  /** The fingerprint of a parsed hello; `sha` is the first 12 hex digits of SHA-256. */
  function Fingerprint(h: Hello, sha: string -> string): string {
    Ja4Of(h.legacyVersion, NonGrease(U16s(h.cipherSuites)), FactsFrom(NO_FACTS, ParseExts(h.extensions, 0)), sha)
  }

  method ComputeJa4(h: Hello, sha: string -> string) returns (r: string)
    ensures r == Fingerprint(h, sha)
  {
    var f := ReadExtensions(h.extensions);
    var ciphers := NonGrease(U16s(h.cipherSuites));
    var partA := PartA(h.legacyVersion, |ciphers|, f);
    var partB := PartB(ciphers, sha);
    var partC := PartC(f, sha);
    return partA + "_" + partB + "_" + partC;
  }
}
