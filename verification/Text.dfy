/** The text decoding the Rust standard library does for the framing code: UTF-8 validity,
    Unicode trimming, and unsigned parsing with overflow. */
module Text {
  import opened Basics
  import opened Wrappers
  import opened Bytes

  predicate Continuation(b: Byte) { 0x80 <= b <= 0xBF }

  /** Length of the well-formed UTF-8 sequence `s` starts with, 0 when it starts with none. */
  function Utf8Len(s: Bytes): (n: nat)
    ensures n <= |s|
  {
    if |s| >= 1 && s[0] < 0x80 then 1
    else if |s| >= 2 && 0xC2 <= s[0] <= 0xDF && Continuation(s[1]) then 2
    else if |s| >= 3 && Continuation(s[2]) &&
            ((s[0] == 0xE0 && 0xA0 <= s[1] <= 0xBF) ||
             (s[0] == 0xED && 0x80 <= s[1] <= 0x9F) ||
             (0xE1 <= s[0] <= 0xEF && s[0] != 0xED && Continuation(s[1]))) then 3
    else if |s| >= 4 && Continuation(s[2]) && Continuation(s[3]) &&
            ((s[0] == 0xF0 && 0x90 <= s[1] <= 0xBF) ||
             (s[0] == 0xF4 && 0x80 <= s[1] <= 0x8F) ||
             (0xF1 <= s[0] <= 0xF3 && Continuation(s[1]))) then 4
    else 0
  }

  predicate Utf8(s: Bytes)
    decreases |s|
  {
    s == [] || (Utf8Len(s) > 0 && Utf8(s[Utf8Len(s)..]))
  }

  lemma {:induction false} AsciiIsUtf8(s: Bytes)
    requires forall i :: 0 <= i < |s| ==> s[i] < 0x80
    ensures Utf8(s)
  {
    if s != [] { AsciiIsUtf8(s[1..]); }
  }

  /** Exactly the encoding of one Unicode White_Space character. */
  predicate UnicodeSpace(s: Bytes) {
    || (|s| == 1 && (9 <= s[0] <= 13 || s[0] == 32))
    || s == [0xC2, 0x85] || s == [0xC2, 0xA0]
    || s == [0xE1, 0x9A, 0x80] || s == [0xE3, 0x80, 0x80] || s == [0xE2, 0x81, 0x9F]
    || (|s| == 3 && s[0] == 0xE2 && s[1] == 0x80 &&
        (0x80 <= s[2] <= 0x8A || s[2] == 0xA8 || s[2] == 0xA9 || s[2] == 0xAF))
  }

  /** `str::trim` on the UTF-8 encoding of a string. */
  function TrimText(s: Bytes): Bytes
    decreases |s|
  {
    if |s| >= 1 && UnicodeSpace(s[..1]) then TrimText(s[1..])
    else if |s| >= 2 && UnicodeSpace(s[..2]) then TrimText(s[2..])
    else if |s| >= 3 && UnicodeSpace(s[..3]) then TrimText(s[3..])
    else if |s| >= 1 && UnicodeSpace(s[|s| - 1..]) then TrimText(s[..|s| - 1])
    else if |s| >= 2 && UnicodeSpace(s[|s| - 2..]) then TrimText(s[..|s| - 2])
    else if |s| >= 3 && UnicodeSpace(s[|s| - 3..]) then TrimText(s[..|s| - 3])
    else s
  }

  /** Value of an alphanumeric digit, 36 for any other byte. */
  function Digit(b: Byte): nat {
    if 48 <= b <= 57 then b - 48
    else if 97 <= b <= 122 then b - 87
    else if 65 <= b <= 90 then b - 55
    else 36
  }

  predicate Digits(s: Bytes, radix: nat) {
    forall i :: 0 <= i < |s| ==> Digit(s[i]) < radix
  }

  function Value(s: Bytes, radix: nat): nat {
    if s == [] then 0 else Value(s[..|s| - 1], radix) * radix + Digit(s[|s| - 1])
  }

  /** `u64::from_str_radix`: an optional `+`, at least one digit, nothing else, no overflow. */
  function ParseU64(s: Bytes, radix: nat): Option<nat> {
    var digits := if |s| > 1 && s[0] == 43 then s[1..] else s;
    if digits != [] && Digits(digits, radix) && Value(digits, radix) <= U64_MAX
    then Some(Value(digits, radix)) else None
  }
}
