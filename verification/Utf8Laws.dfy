/** UTF-8 by code points: which bytes are a text, and what trimming a text leaves of it. */
module Utf8Laws {
  import opened Bytes
  import opened Text

  /** A Unicode scalar value. */
  predicate Scalar(c: nat) { c < 0x11_0000 && !(0xD800 <= c < 0xE000) }

  predicate Scalars(cs: seq<nat>) { forall i :: 0 <= i < |cs| ==> Scalar(cs[i]) }

  function Encode(c: nat): (r: Bytes)
    requires Scalar(c)
    ensures 1 <= |r| <= 4
  {
    if c < 0x80 then [c]
    else if c < 0x800 then [0xC0 + c / 0x40, 0x80 + c % 0x40]
    else if c < 0x1_0000 then [0xE0 + c / 0x1000, 0x80 + c / 0x40 % 0x40, 0x80 + c % 0x40]
    else [0xF0 + c / 0x4_0000, 0x80 + c / 0x1000 % 0x40, 0x80 + c / 0x40 % 0x40, 0x80 + c % 0x40]
  }

  function EncodeAll(cs: seq<nat>): Bytes
    requires Scalars(cs)
  {
    if cs == [] then [] else Encode(cs[0]) + EncodeAll(cs[1..])
  }

  // ---- Which bytes are a text ----

  lemma EncodedLen(c: nat, rest: Bytes)
    requires Scalar(c)
    ensures Utf8Len(Encode(c) + rest) == |Encode(c)|
  {
    hide Utf8Len;
    var e := Encode(c);
    var s := e + rest;
    assert forall i :: 0 <= i < |e| ==> s[i] == e[i];
    if c < 0x80 {
      LenOne(s);
    } else if c < 0x800 {
      LenTwo(s);
    } else if c < 0x1_0000 {
      ThreeRange(c);
      LenThree(s);
    } else {
      FourRange(c);
      LenFour(s);
    }
  }

  lemma LenOne(s: Bytes)
    requires |s| >= 1 && s[0] < 0x80
    ensures Utf8Len(s) == 1
  {
  }

  lemma LenTwo(s: Bytes)
    requires |s| >= 2 && 0xC2 <= s[0] <= 0xDF && 0x80 <= s[1] <= 0xBF
    ensures Utf8Len(s) == 2
  {
  }

  lemma LenThree(s: Bytes)
    requires |s| >= 3 && 0xE0 <= s[0] <= 0xEF && 0x80 <= s[1] <= 0xBF && 0x80 <= s[2] <= 0xBF
    requires (s[0] == 0xE0 ==> s[1] >= 0xA0) && (s[0] == 0xED ==> s[1] <= 0x9F)
    ensures Utf8Len(s) == 3
  {
  }

  lemma LenFour(s: Bytes)
    requires |s| >= 4 && 0xF0 <= s[0] <= 0xF4 && 0x80 <= s[1] <= 0xBF && 0x80 <= s[2] <= 0xBF && 0x80 <= s[3] <= 0xBF
    requires (s[0] == 0xF0 ==> s[1] >= 0x90) && (s[0] == 0xF4 ==> s[1] <= 0x8F)
    ensures Utf8Len(s) == 4
  {
  }

  lemma ThreeRange(c: nat)
    requires 0x800 <= c < 0x1_0000 && Scalar(c)
    ensures c / 0x1000 <= 0xF && (c / 0x1000 == 0 ==> c / 0x40 % 0x40 >= 0x20)
    ensures c / 0x1000 == 0xD ==> c / 0x40 % 0x40 < 0x20
  {
  }

  lemma FourRange(c: nat)
    requires 0x1_0000 <= c < 0x11_0000
    ensures c / 0x4_0000 <= 4 && (c / 0x4_0000 == 0 ==> c / 0x1000 % 0x40 >= 0x10)
    ensures c / 0x4_0000 == 4 ==> c / 0x1000 % 0x40 < 0x10
  {
  }

  lemma LenIsEncoded(s: Bytes) returns (c: nat)
    requires Utf8Len(s) > 0
    ensures Scalar(c) && s[..Utf8Len(s)] == Encode(c)
  {
    var n := Utf8Len(s);
    if n == 1 {
      c := s[0];
    } else if n == 2 {
      var a: nat, b: nat := s[0] - 0xC0, s[1] - 0x80;
      c := a * 0x40 + b;
      assert c / 0x40 == a && c % 0x40 == b;
    } else if n == 3 {
      c := Three(s[0] - 0xE0, s[1] - 0x80, s[2] - 0x80);
    } else {
      c := Four(s[0] - 0xF0, s[1] - 0x80, s[2] - 0x80, s[3] - 0x80);
    }
  }

  lemma Three(a: nat, b: nat, d: nat) returns (c: nat)
    requires a < 0x10 && b < 0x40 && d < 0x40
    ensures c == a * 0x1000 + b * 0x40 + d
    ensures c / 0x1000 == a && c / 0x40 % 0x40 == b && c % 0x40 == d
  {
    c := a * 0x1000 + b * 0x40 + d;
    assert c / 0x40 == a * 0x40 + b;
  }

  lemma Four(a: nat, b: nat, d: nat, e: nat) returns (c: nat)
    requires a < 8 && b < 0x40 && d < 0x40 && e < 0x40
    ensures c == a * 0x4_0000 + b * 0x1000 + d * 0x40 + e
    ensures c / 0x4_0000 == a && c / 0x1000 % 0x40 == b && c / 0x40 % 0x40 == d && c % 0x40 == e
  {
    c := a * 0x4_0000 + b * 0x1000 + d * 0x40 + e;
    assert c / 0x1000 == a * 0x40 + b;
    assert c / 0x40 == (a * 0x40 + b) * 0x40 + d;
  }

  lemma {:induction false} EncodedIsUtf8(cs: seq<nat>)
    requires Scalars(cs)
    ensures Utf8(EncodeAll(cs))
  {
    hide Encode, Utf8Len;
    if cs != [] {
      var rest := EncodeAll(cs[1..]);
      EncodedLen(cs[0], rest);
      EncodedIsUtf8(cs[1..]);
      assert (Encode(cs[0]) + rest)[|Encode(cs[0])|..] == rest;
    }
  }

  lemma {:induction false} Utf8IsEncoded(s: Bytes) returns (cs: seq<nat>)
    requires Utf8(s)
    ensures Scalars(cs) && s == EncodeAll(cs)
    decreases |s|
  {
    hide Encode, Utf8Len;
    if s == [] {
      cs := [];
    } else {
      var n := Utf8Len(s);
      var c := LenIsEncoded(s);
      var rest := Utf8IsEncoded(s[n..]);
      cs := [c] + rest;
      assert cs[1..] == rest && s == s[..n] + s[n..];
    }
  }

  /** Bytes are a text if and only if they are scalar values, each in its encoding. */
  lemma Utf8Exactly(s: Bytes)
    ensures Utf8(s) <==> exists cs: seq<nat> :: Scalars(cs) && s == EncodeAll(cs)
  {
    if Utf8(s) {
      var cs := Utf8IsEncoded(s);
      assert Scalars(cs) && s == EncodeAll(cs);
    }
    if cs: seq<nat> :| Scalars(cs) && s == EncodeAll(cs) {
      EncodedIsUtf8(cs);
    }
  }

  // ---- Trimming ----

  /** Unicode's White_Space property. */
  predicate White(c: nat) {
    || 0x9 <= c <= 0xD || c == 0x20 || c == 0x85 || c == 0xA0 || c == 0x1680 || 0x2000 <= c <= 0x200A
    || c == 0x2028 || c == 0x2029 || c == 0x202F || c == 0x205F || c == 0x3000
  }

  lemma WhiteIsScalar(c: nat)
    requires White(c)
    ensures Scalar(c)
  {
  }

  lemma WhiteExactly(c: nat)
    requires Scalar(c)
    ensures UnicodeSpace(Encode(c)) <==> White(c)
  {
    var s := Encode(c);
    if |s| == 2 {
      assert s == [0xC2, 0x85] <==> c == 0x85;
      assert s == [0xC2, 0xA0] <==> c == 0xA0;
    } else if |s| == 3 {
      ThreeExactly(c);
    }
  }

  lemma ThreeExactly(c: nat)
    requires 0x800 <= c < 0x1_0000 && Scalar(c)
    ensures UnicodeSpace(Encode(c)) <==> White(c)
  {
    var s, a, b, d := Encode(c), c / 0x1000, c / 0x40 % 0x40, c % 0x40;
    assert c == a * 0x1000 + b * 0x40 + d by { assert c / 0x40 == a * 0x40 + b; }
    assert s[0] == 0xE0 + a && s[1] == 0x80 + b && s[2] == 0x80 + d;
    assert s == [0xE1, 0x9A, 0x80] <==> a == 1 && b == 0x1A && d == 0;
    assert s == [0xE3, 0x80, 0x80] <==> a == 3 && b == 0 && d == 0;
    assert s == [0xE2, 0x81, 0x9F] <==> a == 2 && b == 1 && d == 0x1F;
  }

  /** What a space in front, or at the back, of a text is. */
  lemma SpaceInFront(c: nat, rest: Bytes, k: nat)
    requires Scalar(c) && 1 <= k <= 3 && k <= |Encode(c) + rest| && UnicodeSpace((Encode(c) + rest)[..k])
    ensures |Encode(c)| == k && (Encode(c) + rest)[..k] == Encode(c)
  {
    var s := Encode(c) + rest;
    var x := s[..k];
    assert x[0] == s[0] == Encode(c)[0];
    assert x == [0xC2, 0x85] || x == [0xC2, 0xA0] ==> x[0] == 0xC2;
    assert x == [0xE1, 0x9A, 0x80] || x == [0xE3, 0x80, 0x80] || x == [0xE2, 0x81, 0x9F] ==> 0xE1 <= x[0] <= 0xE3;
  }

  lemma SpaceAtBack(init: Bytes, c: nat, k: nat)
    requires Scalar(c) && 1 <= k <= 3 && k <= |init + Encode(c)|
    requires UnicodeSpace((init + Encode(c))[|init + Encode(c)| - k..])
    ensures |Encode(c)| == k && (init + Encode(c))[|init + Encode(c)| - k..] == Encode(c)
  {
    var s, e := init + Encode(c), Encode(c);
    var x := s[|s| - k..];
    assert x == [0xC2, 0x85] || x == [0xC2, 0xA0] ==> x[0] == 0xC2 && x[1] >= 0x80;
    assert x == [0xE1, 0x9A, 0x80] || x == [0xE3, 0x80, 0x80] || x == [0xE2, 0x81, 0x9F] ==>
      0xE1 <= x[0] <= 0xE3 && 0x80 <= x[1] < 0xC0 && 0x80 <= x[2] < 0xC0;
    assert x[k - 1] == s[|s| - 1] == e[|e| - 1];
    if k >= 2 && |e| >= 2 { assert x[k - 2] == s[|s| - 2] == e[|e| - 2]; }
    if k >= 3 && |e| >= 3 { assert x[k - 3] == s[|s| - 3] == e[|e| - 3]; }
  }

  lemma {:induction false} EncodeLast(cs: seq<nat>)
    requires Scalars(cs) && cs != []
    ensures EncodeAll(cs) == EncodeAll(cs[..|cs| - 1]) + Encode(cs[|cs| - 1])
  {
    hide Encode;
    var n := |cs| - 1;
    if n > 0 {
      EncodeLast(cs[1..]);
      assert cs[..n][1..] == cs[1..][..n - 1];
    } else {
      assert cs[1..] == [];
    }
  }

  ghost predicate AllWhite(cs: seq<nat>) { forall i :: 0 <= i < |cs| ==> White(cs[i]) }

  ghost predicate Plain(cs: seq<nat>) { cs != [] ==> !White(cs[0]) && !White(cs[|cs| - 1]) }

  predicate SpaceFirst(s: Bytes, k: nat) { k <= |s| && UnicodeSpace(s[..k]) }

  predicate SpaceLast(s: Bytes, k: nat) { k <= |s| && UnicodeSpace(s[|s| - k..]) }

  /** Trimming, one character at a time. */
  lemma TrimStep(s: Bytes, k: nat)
    requires 1 <= k <= 3
    requires forall j :: 1 <= j <= 3 && j != k ==> !SpaceFirst(s, j) && !SpaceLast(s, j)
    ensures SpaceFirst(s, k) ==> TrimText(s) == TrimText(s[k..])
    ensures !SpaceFirst(s, k) && SpaceLast(s, k) ==> TrimText(s) == TrimText(s[..|s| - k])
    ensures !SpaceFirst(s, k) && !SpaceLast(s, k) ==> TrimText(s) == s
  {
    hide UnicodeSpace;
    assert SpaceFirst(s, 1) || !SpaceFirst(s, 1);
    assert SpaceFirst(s, 2) || !SpaceFirst(s, 2);
    assert SpaceFirst(s, 3) || !SpaceFirst(s, 3);
    assert SpaceLast(s, 1) || !SpaceLast(s, 1);
    assert SpaceLast(s, 2) || !SpaceLast(s, 2);
    assert SpaceLast(s, 3) || !SpaceLast(s, 3);
  }

  lemma FrontOnly(s: Bytes, k: nat)
    requires 1 <= k <= 3 && SpaceFirst(s, k) && forall j :: 1 <= j <= 3 && j != k ==> !SpaceFirst(s, j)
    ensures TrimText(s) == TrimText(s[k..])
  {
    assert k == 1 || !SpaceFirst(s, 1);
    assert k == 2 || !SpaceFirst(s, 2);
    hide UnicodeSpace;
    if k == 1 {
      assert TrimText(s) == TrimText(s[1..]);
    } else if k == 2 {
      assert TrimText(s) == TrimText(s[2..]);
    } else {
      assert TrimText(s) == TrimText(s[3..]);
    }
  }

  /** What is taken for a space in front of a text is one. */
  lemma FrontIs(cs: seq<nat>)
    requires Scalars(cs) && cs != []
    ensures var s := EncodeAll(cs); forall k :: 1 <= k <= 3 ==>
      (SpaceFirst(s, k) <==> White(cs[0]) && k == |Encode(cs[0])|)
  {
    var s, e := EncodeAll(cs), Encode(cs[0]);
    WhiteExactly(cs[0]);
    hide Encode, UnicodeSpace, White;
    assert s[..|e|] == e;
    forall k | 1 <= k <= 3 && SpaceFirst(s, k) ensures k == |e| && UnicodeSpace(e) {
      SpaceInFront(cs[0], EncodeAll(cs[1..]), k);
    }
  }

  lemma BackIs(cs: seq<nat>)
    requires Scalars(cs) && cs != []
    ensures var s, c := EncodeAll(cs), cs[|cs| - 1];
      forall k :: 1 <= k <= 3 ==> (SpaceLast(s, k) <==> White(c) && k == |Encode(c)|)
  {
    hide Encode, UnicodeSpace, EncodeAll, White;
    var n := |cs| - 1;
    var s, e, init := EncodeAll(cs), Encode(cs[n]), EncodeAll(cs[..n]);
    EncodeLast(cs);
    WhiteExactly(cs[n]);
    assert s[|s| - |e|..] == e;
    forall k | 1 <= k <= 3 && SpaceLast(s, k) ensures k == |e| && UnicodeSpace(e) {
      SpaceAtBack(init, cs[n], k);
    }
  }

  lemma WhiteIsShort(c: nat)
    requires White(c)
    ensures Scalar(c) && |Encode(c)| <= 3
  {
  }

  lemma FrontTrim(cs: seq<nat>)
    requires Scalars(cs) && cs != [] && White(cs[0])
    ensures TrimText(EncodeAll(cs)) == TrimText(EncodeAll(cs[1..]))
  {
    hide TrimText, UnicodeSpace, Encode, White, EncodeAll, SpaceFirst;
    FrontIs(cs);
    WhiteIsShort(cs[0]);
    EncodeCons(cs);
    FrontOnly(EncodeAll(cs), |Encode(cs[0])|);
  }

  lemma EncodeCons(cs: seq<nat>)
    requires Scalars(cs) && cs != []
    ensures EncodeAll(cs)[|Encode(cs[0])|..] == EncodeAll(cs[1..]) && EncodeAll(cs)[..|Encode(cs[0])|] == Encode(cs[0])
  {
    hide Encode;
  }

  lemma BackTrim(cs: seq<nat>)
    requires Scalars(cs) && cs != [] && !White(cs[0])
    ensures var s, n := EncodeAll(cs), |cs| - 1;
      && (White(cs[n]) ==> TrimText(s) == TrimText(EncodeAll(cs[..n])))
      && (!White(cs[n]) ==> TrimText(s) == s)
  {
    hide TrimText, UnicodeSpace, Encode, White, EncodeAll, SpaceFirst, SpaceLast;
    FrontIs(cs);
    BackIs(cs);
    EncodeLast(cs);
    var s, n := EncodeAll(cs), |cs| - 1;
    var k := |Encode(cs[n])|;
    if White(cs[n]) {
      WhiteIsShort(cs[n]);
      TrimStep(s, k);
      assert s[..|s| - k] == EncodeAll(cs[..n]);
    } else {
      TrimStep(s, 1);
    }
  }

  lemma NothingToTrim()
    ensures TrimText([]) == []
  {
  }

  /** Trimming a text takes white space off both ends, all of it and nothing else. */
  lemma {:induction false} TrimTextExactly(lead: seq<nat>, cs: seq<nat>, trail: seq<nat>)
    requires Scalars(lead + cs + trail) && AllWhite(lead) && Plain(cs) && AllWhite(trail)
    ensures Scalars(cs) && TrimText(EncodeAll(lead + cs + trail)) == EncodeAll(cs)
    decreases |lead| + |trail|
  {
    hide TrimText, White;
    var all := lead + cs + trail;
    assert Scalars(cs) by { assert forall i :: 0 <= i < |cs| ==> cs[i] == all[|lead| + i]; }
    if lead != [] {
      FrontTrim(all);
      assert all[1..] == lead[1..] + cs + trail;
      TrimTextExactly(lead[1..], cs, trail);
    } else if cs == [] && trail != [] {
      FrontTrim(all);
      assert all[1..] == [] + cs + trail[1..];
      TrimTextExactly([], cs, trail[1..]);
    } else if trail != [] {
      BackTrim(all);
      assert all[..|all| - 1] == lead + cs + trail[..|trail| - 1];
      TrimTextExactly(lead, cs, trail[..|trail| - 1]);
    } else if cs == [] {
      NothingToTrim();
      assert all == [];
    } else {
      assert all == cs;
      BackTrim(all);
    }
  }
}
