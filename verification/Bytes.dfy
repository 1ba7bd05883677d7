/** Byte strings and the searches the framing code is built on. */
module Bytes {
  type Byte = b: int | 0 <= b < 256
  type Bytes = seq<Byte>

  const CR: Byte := 13
  const LF: Byte := 10
  const TAB: Byte := 9
  const SP: Byte := 32
  const COLON: Byte := 58
  const COMMA: Byte := 44
  const SEMICOLON: Byte := 59
  const CRLF: Bytes := [CR, LF]

  predicate CrlfAt(s: Bytes, i: int) {
    0 <= i && i + 2 <= |s| && s[i] == CR && s[i + 1] == LF
  }

  predicate BlankAt(s: Bytes, i: int) {
    CrlfAt(s, i) && CrlfAt(s, i + 2)
  }

  /** Offset of the first CRLF at or after `from`, or `|s|` when there is none. */
  function FindCrlf(s: Bytes, from: nat): (r: nat)
    requires from <= |s|
    ensures from <= r <= |s|
    ensures r < |s| ==> CrlfAt(s, r)
    ensures forall j :: from <= j < r ==> !CrlfAt(s, j)
    decreases |s| - from
  {
    if from == |s| || CrlfAt(s, from) then from else FindCrlf(s, from + 1)
  }

  /** Offset of the first CRLF CRLF at or after `from`, or `|s|` when there is none. */
  function FindBlank(s: Bytes, from: nat): (r: nat)
    requires from <= |s|
    ensures from <= r <= |s|
    ensures r < |s| ==> BlankAt(s, r)
    ensures forall j :: from <= j < r ==> !BlankAt(s, j)
    decreases |s| - from
  {
    if from == |s| || BlankAt(s, from) then from else FindBlank(s, from + 1)
  }

  /** Offset of the first `b`, or `|s|` when there is none. */
  function FindByte(s: Bytes, b: Byte): (r: nat)
    ensures r <= |s|
    ensures r < |s| ==> s[r] == b
    ensures forall j :: 0 <= j < r ==> s[j] != b
  {
    if s == [] || s[0] == b then 0 else 1 + FindByte(s[1..], b)
  }

  predicate NoCrlf(s: Bytes) {
    forall i :: 0 <= i < |s| ==> !CrlfAt(s, i)
  }

  /** Bytes that agree up to the end of the first CRLF agree on where it is. */
  lemma FindCrlfStable(s: Bytes, t: Bytes, from: nat, n: nat)
    requires from <= n <= |s| && n <= |t| && s[..n] == t[..n]
    requires FindCrlf(s, from) + 2 <= n
    ensures FindCrlf(t, from) == FindCrlf(s, from)
  {
    var r := FindCrlf(s, from);
    assert forall j :: 0 <= j < n ==> s[j] == s[..n][j] == t[j];
    assert CrlfAt(t, r);
    var q := FindCrlf(t, from);
    assert q < r ==> CrlfAt(s, q);
  }

  /** A CRLF-free line ends at its own terminator, whatever comes before and after it. */
  lemma FindCrlfAfter(pre: Bytes, line: Bytes, post: Bytes)
    requires NoCrlf(line)
    ensures FindCrlf(pre + line + CRLF + post, |pre|) == |pre| + |line|
  {
    var s := pre + line + CRLF + post;
    var r := FindCrlf(s, |pre|);
    assert CrlfAt(s, |pre| + |line|);
    assert r + 1 < |pre| + |line| ==> CrlfAt(line, r - |pre|);
  }

  predicate AsciiWhitespace(b: Byte) {
    b == 9 || b == 10 || b == 12 || b == 13 || b == 32
  }

  predicate HasWhitespace(s: Bytes) {
    s != [] && (AsciiWhitespace(s[0]) || HasWhitespace(s[1..]))
  }

  /** ASCII lower-casing, as in `to_ascii_lowercase`. */
  function Lower(b: Byte): Byte {
    if 65 <= b <= 90 then b + 32 else b
  }

  predicate EqIgnoreCase(a: Bytes, b: Bytes) {
    |a| == |b| && forall i :: 0 <= i < |a| ==> Lower(a[i]) == Lower(b[i])
  }

  function TrimStart(s: Bytes): Bytes {
    if s != [] && AsciiWhitespace(s[0]) then TrimStart(s[1..]) else s
  }

  function TrimEnd(s: Bytes): Bytes {
    if s != [] && AsciiWhitespace(s[|s| - 1]) then TrimEnd(s[..|s| - 1]) else s
  }

  function Trim(s: Bytes): Bytes {
    TrimEnd(TrimStart(s))
  }

  /** `slice::split(|&b| b == sep)`: always at least one piece. */
  function Split(s: Bytes, sep: Byte): (r: seq<Bytes>)
    ensures |r| > 0
    decreases |s|
  {
    var i := FindByte(s, sep);
    if i == |s| then [s] else [s[..i]] + Split(s[i + 1..], sep)
  }

  /** The big-endian 16-bit number at offset `i`. */
  function U16(s: Bytes, i: nat): (r: nat)
    requires i + 2 <= |s|
    ensures r < 0x1_0000
  {
    256 * (s[i] as int) + s[i + 1]
  }

  /** And the two bytes of one. */
  function U16Bytes(n: nat): Bytes
    requires n < 0x1_0000
  {
    [n / 256, n % 256]
  }
}
