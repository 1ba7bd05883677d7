/** What the text helpers compute, said without the searches and recursions they are made of. */
module TextLaws {
  import opened Basics
  import opened Wrappers
  import opened Bytes
  import opened Text

  /** The bytes of an ASCII text. */
  function Ascii(s: string): (r: Bytes)
    requires forall i :: 0 <= i < |s| ==> s[i] < 128 as char
    ensures |r| == |s| && forall i :: 0 <= i < |r| ==> r[i] == s[i] as int
  {
    seq(|s|, i requires 0 <= i < |s| => s[i] as int)
  }

  // ---- Upper and lower case ----

  /** `a` is a capital letter and `b` the same letter in lower case. */
  predicate Capital(a: Byte, b: Byte) { 'A' as int <= a <= 'Z' as int && b - a == 'a' as int - 'A' as int }

  /** Two texts are equal ignoring case if and only if, byte by byte, they are equal or the same letter. */
  lemma EqIgnoreCaseExactly(a: Bytes, b: Bytes)
    ensures EqIgnoreCase(a, b) <==>
      |a| == |b| && forall i :: 0 <= i < |a| ==> a[i] == b[i] || Capital(a[i], b[i]) || Capital(b[i], a[i])
  {
    assert forall x: Byte, y: Byte {:trigger Lower(x), Lower(y)} ::
      Lower(x) == Lower(y) <==> x == y || Capital(x, y) || Capital(y, x);
  }

  // ---- White space ----

  /** Space, tab, line feed, form feed, carriage return. */
  const SPACES: string := " \t\n\U{000C}\r"

  ghost predicate Spaces(s: Bytes) { forall i :: 0 <= i < |s| ==> s[i] as char in SPACES }

  /** Nothing to trim at either end. */
  ghost predicate Trimmed(s: Bytes) {
    s != [] ==> s[0] as char !in SPACES && s[|s| - 1] as char !in SPACES
  }

  lemma SpaceExactly(b: Byte)
    ensures AsciiWhitespace(b) <==> b as char in SPACES
  {
    assert SPACES == [' ', '\t', '\n', '\U{000C}', '\r'];
  }

  lemma {:induction false} HasWhitespaceExactly(s: Bytes)
    ensures HasWhitespace(s) <==> exists i :: 0 <= i < |s| && s[i] as char in SPACES
  {
    if s != [] {
      SpaceExactly(s[0]);
      HasWhitespaceExactly(s[1..]);
      assert forall i :: 0 < i < |s| ==> s[i] == s[1..][i - 1];
      if HasWhitespace(s[1..]) {
        var i :| 0 <= i < |s[1..]| && s[1..][i] as char in SPACES;
        assert s[i + 1] as char in SPACES;
      }
    }
  }

  lemma {:induction false} TrimStartDrops(lead: Bytes, s: Bytes)
    requires Spaces(lead) && (s != [] ==> s[0] as char !in SPACES)
    ensures TrimStart(lead + s) == s
    decreases |lead|
  {
    if lead == [] {
      assert lead + s == s;
      if s != [] { SpaceExactly(s[0]); }
    } else {
      SpaceExactly(lead[0]);
      assert (lead + s)[1..] == lead[1..] + s;
      TrimStartDrops(lead[1..], s);
    }
  }

  lemma {:induction false} TrimEndDrops(s: Bytes, trail: Bytes)
    requires Spaces(trail) && (s != [] ==> s[|s| - 1] as char !in SPACES)
    ensures TrimEnd(s + trail) == s
    decreases |trail|
  {
    if trail == [] {
      assert s + trail == s;
      if s != [] { SpaceExactly(s[|s| - 1]); }
    } else {
      var n := |trail| - 1;
      SpaceExactly(trail[n]);
      assert (s + trail)[..|s + trail| - 1] == s + trail[..n];
      TrimEndDrops(s, trail[..n]);
    }
  }

  /** Trimming takes white space off both ends, all of it and nothing else. */
  lemma TrimExactly(lead: Bytes, s: Bytes, trail: Bytes)
    requires Spaces(lead) && Trimmed(s) && Spaces(trail)
    ensures Trim(lead + s + trail) == s
  {
    if s == [] {
      assert lead + s + trail == (lead + trail) + [];
      TrimStartDrops(lead + trail, []);
    } else {
      assert lead + s + trail == lead + (s + trail);
      TrimStartDrops(lead, s + trail);
      TrimEndDrops(s, trail);
    }
  }

  /** Every text is such white space around what trimming leaves. */
  lemma TrimParts(s: Bytes) returns (lead: Bytes, trail: Bytes)
    ensures s == lead + Trim(s) + trail && Spaces(lead) && Trimmed(Trim(s)) && Spaces(trail)
  {
    var i := 0;
    while i < |s| && s[i] as char in SPACES
      invariant i <= |s| && Spaces(s[..i])
    {
      i := i + 1;
    }
    var j := |s|;
    while i < j && s[j - 1] as char in SPACES
      invariant i <= j <= |s| && Spaces(s[j..])
    {
      j := j - 1;
    }
    lead, trail := s[..i], s[j..];
    assert s == lead + s[i..j] + trail;
    TrimExactly(lead, s[i..j], trail);
  }

  // ---- Lists ----

  /** The pieces with a separator between each two. */
  function Joined(pieces: seq<Bytes>, sep: Byte): Bytes
    requires pieces != []
  {
    if |pieces| == 1 then pieces[0] else pieces[0] + [sep] + Joined(pieces[1..], sep)
  }

  ghost predicate NoneHolds(pieces: seq<Bytes>, sep: Byte) { forall i :: 0 <= i < |pieces| ==> sep !in pieces[i] }

  lemma FindFirst(a: Bytes, sep: Byte, b: Bytes)
    requires sep !in a
    ensures FindByte(a + [sep] + b, sep) == |a| && FindByte(a, sep) == |a|
  {
    var s := a + [sep] + b;
    assert s[|a|] == sep && forall j :: 0 <= j < |a| ==> s[j] == a[j];
  }

  /** Splitting finds the pieces a text was joined from. */
  lemma {:induction false} SplitJoined(pieces: seq<Bytes>, sep: Byte)
    requires pieces != [] && NoneHolds(pieces, sep)
    ensures Split(Joined(pieces, sep), sep) == pieces
  {
    hide FindByte;
    var s := Joined(pieces, sep);
    assert pieces == [pieces[0]] + pieces[1..];
    if |pieces| == 1 {
      FindFirst(pieces[0], sep, []);
    } else {
      var rest := Joined(pieces[1..], sep);
      FindFirst(pieces[0], sep, rest);
      SplitJoined(pieces[1..], sep);
      assert s[..|pieces[0]|] == pieces[0] && s[|pieces[0]| + 1..] == rest;
    }
  }

  /** And every text is joined from the pieces splitting finds. */
  lemma {:induction false} JoinedSplit(s: Bytes, sep: Byte)
    ensures Joined(Split(s, sep), sep) == s && NoneHolds(Split(s, sep), sep)
    decreases |s|
  {
    hide FindByte;
    var i := FindByte(s, sep);
    if i < |s| {
      JoinedSplit(s[i + 1..], sep);
      assert Split(s, sep)[1..] == Split(s[i + 1..], sep);
      assert s == s[..i] + [sep] + s[i + 1..];
    }
  }

  /** The pieces, read off byte by byte. */
  function Cells(s: Bytes, sep: Byte): (r: seq<Bytes>)
    ensures |r| > 0
  {
    if s == [] then [[]]
    else
      var rest := Cells(s[1..], sep);
      if s[0] == sep then [[]] + rest else [[s[0]] + rest[0]] + rest[1..]
  }

  lemma {:induction false} CellsOfPiece(a: Bytes, sep: Byte, b: Bytes)
    requires sep !in a
    ensures Cells(a, sep) == [a] && Cells(a + [sep] + b, sep) == [a] + Cells(b, sep)
    decreases |a|
  {
    var s := a + [sep] + b;
    if a == [] {
      assert s[1..] == b;
    } else {
      CellsOfPiece(a[1..], sep, b);
      assert s[1..] == a[1..] + [sep] + b && a == [a[0]] + a[1..];
    }
  }

  lemma {:induction false} SplitIsCells(s: Bytes, sep: Byte)
    ensures Split(s, sep) == Cells(s, sep)
    decreases |s|
  {
    hide FindByte, Cells;
    var i := FindByte(s, sep);
    assert sep !in s[..i];
    if i < |s| {
      SplitIsCells(s[i + 1..], sep);
      CellsOfPiece(s[..i], sep, s[i + 1..]);
      assert s == s[..i] + [sep] + s[i + 1..];
    } else {
      CellsOfPiece(s, sep, []);
      assert s[..i] == s;
    }
  }

  /** The last piece is what is behind the last separator. */
  lemma {:induction false} LastCell(a: Bytes, sep: Byte, b: Bytes)
    requires sep !in b
    ensures var r := Cells(a + [sep] + b, sep); r[|r| - 1] == b
    ensures Cells(b, sep) == [b]
    decreases |a|
  {
    var s := a + [sep] + b;
    CellsOfPiece(b, sep, []);
    if a == [] {
      assert s[1..] == b;
    } else {
      assert s[1..] == a[1..] + [sep] + b;
      LastCell(a[1..], sep, b);
      LongerCells(a[1..], sep, b);
    }
  }

  lemma {:induction false} LongerCells(a: Bytes, sep: Byte, b: Bytes)
    ensures |Cells(a + [sep] + b, sep)| > 1
    decreases |a|
  {
    var s := a + [sep] + b;
    if a == [] {
      assert s[1..] == b;
    } else {
      assert s[1..] == a[1..] + [sep] + b;
      LongerCells(a[1..], sep, b);
    }
  }

  // ---- Numbers ----

  /** Two bytes as one number, the high one first. */
  function Word(high: Byte, low: Byte): (r: nat)
    ensures r < 0x1_0000
  {
    256 * (high as nat) + low
  }

  /** The byte of a digit, a letter in either case. */
  predicate IsDigit(b: Byte, d: nat) {
    || (d < 10 && b == '0' as int + d)
    || (10 <= d < 36 && (b == 'a' as int + (d - 10) || b == 'A' as int + (d - 10)))
  }

  /** The text is a numeral of `n` in this base, leading zeros allowed. */
  predicate Numeral(s: Bytes, base: nat, n: nat)
    requires base > 0
    decreases |s|
  {
    s != [] && IsDigit(s[|s| - 1], n % base) && (if |s| == 1 then n < base else Numeral(s[..|s| - 1], base, n / base))
  }

  lemma DigitExactly(b: Byte, d: nat)
    requires d < 36
    ensures IsDigit(b, d) <==> Digit(b) == d
  {
  }

  lemma {:induction false} NumeralExactly(s: Bytes, base: nat, n: nat)
    requires 0 < base <= 36
    ensures Numeral(s, base, n) <==> s != [] && Digits(s, base) && Value(s, base) == n
    decreases |s|
  {
    hide IsDigit, Digit;
    if s != [] {
      var init, last := s[..|s| - 1], s[|s| - 1];
      DigitExactly(last, n % base);
      if |s| == 1 {
        OneDigit(s, base, n);
      } else {
        NumeralExactly(init, base, n / base);
        assert Digits(s, base) <==> Digits(init, base) && Digit(last) < base by {
          assert forall i :: 0 <= i < |init| ==> s[i] == init[i];
        }
        if Digit(last) < base { DivideOut(Value(init, base), Digit(last), base, n); }
      }
    }
  }

  lemma OneDigit(s: Bytes, base: nat, n: nat)
    requires |s| == 1 && 0 < base <= 36
    ensures (IsDigit(s[0], n % base) && n < base) <==> Digits(s, base) && Value(s, base) == n
  {
    hide IsDigit, Digit;
    DigitExactly(s[0], n % base);
    assert s[..0] == [] && Value(s, base) == Digit(s[0]);
    if n < base { assert n % base == n; }
  }

  lemma DivideOut(v: nat, d: nat, base: nat, n: nat)
    requires d < base
    ensures v * base + d == n <==> v == n / base && d == n % base
  {
    var q, r := n / base, n % base;
    assert n == q * base + r;
    if v * base + d == n {
      assert (v - q) * base == r - d;
      if v > q { MulGrows(1, v - q, base); }
      if v < q { MulGrows(1, q - v, base); }
    }
  }

  /** A number is read if and only if the text is a numeral of it that fits in 64 bits, with at most a
      plus sign before it. */
  lemma ParseU64Exactly(s: Bytes, base: nat, n: nat)
    requires 0 < base <= 36
    ensures ParseU64(s, base) == Some(n) <==>
      n <= U64_MAX && (Numeral(s, base, n) || (s != [] && s[0] == '+' as int && Numeral(s[1..], base, n)))
  {
    hide Digit, Value, Numeral;
    NumeralExactly(s, base, n);
    if s != [] {
      NumeralExactly(s[1..], base, n);
      if s[0] == 43 { assert Digit(s[0]) == 36 by { PlusIsNoDigit(); } }
    }
  }

  lemma PlusIsNoDigit()
    ensures Digit(43) == 36
  {
  }
}
