/** The other direction: as long as the hash does not collide on them, hellos with the same JA4 agree on
    everything the fingerprint is meant to tell apart. */
module Ja4Separation {
  import opened Wrappers
  import opened Bytes
  import opened Sni
  import opened Ja4
  import opened Ja4Laws

  /** On these inputs the hash gives twelve characters, different ones for different inputs, and
      never the mark for "nothing hashed". */
  ghost predicate NoCollision(sha: string -> string, inputs: set<string>) {
    && (forall x :: x in inputs ==> |sha(x)| == 12 && sha(x) != NO_HASH)
    && (forall x, y :: x in inputs && y in inputs && sha(x) == sha(y) ==> x == y)
  }

  /** What part B hashes. */
  function CipherInput(ciphers: seq<nat>): string { JoinHex4(Sort(ciphers)) }

  /** What part C hashes. */
  function HashInput(ids: string, sigs: seq<nat>): string {
    if sigs == [] then ids else ids + "_" + JoinHex4(sigs)
  }

  function ExtensionInput(f: Facts): string { HashInput(JoinHex4(Sort(WithoutNameAndAlpn(f.ids))), f.sigAlgs) }

  function Inputs(c: seq<nat>, f: Facts, d: seq<nat>, g: Facts): set<string> {
    {CipherInput(c), CipherInput(d), ExtensionInput(f), ExtensionInput(g)}
  }

  lemma DigitInjective(a: nat, b: nat)
    requires a < 16 && b < 16 && Digit(a) == Digit(b)
    ensures a == b
  {
  }

  lemma DigitIsHex(d: nat)
    requires d < 16
    ensures Digit(d) != '_' && Digit(d) != ','
  {
  }

  lemma Hex2Injective(a: Byte, b: Byte)
    requires Hex2(a) == Hex2(b)
    ensures a == b
  {
    assert Hex2(a)[0] == Hex2(b)[0] && Hex2(a)[1] == Hex2(b)[1];
    DigitInjective(a / 16, b / 16);
    DigitInjective(a % 16, b % 16);
  }

  lemma Hex2Plain(b: Byte)
    ensures |Hex2(b)| == 2 && '_' !in Hex2(b)
  {
    DigitIsHex(b / 16);
    DigitIsHex(b % 16);
  }

  lemma Hex4Injective(v: nat, w: nat)
    requires v < 0x1_0000 && w < 0x1_0000 && Hex4(v) == Hex4(w)
    ensures v == w
  {
    hide Hex2;
    var a, b, c, d := v / 256 % 256, v % 256, w / 256 % 256, w % 256;
    Hex2Plain(a);
    Hex2Plain(b);
    Hex2Plain(c);
    Hex2Plain(d);
    assert Hex2(a) == Hex4(v)[..2] == Hex4(w)[..2] == Hex2(c);
    assert Hex2(b) == Hex4(v)[2..] == Hex4(w)[2..] == Hex2(d);
    Hex2Injective(a, c);
    Hex2Injective(b, d);
  }

  lemma Hex4Plain(v: nat)
    ensures |Hex4(v)| == 4 && '_' !in Hex4(v)
  {
    hide Hex2;
    Hex2Plain(v / 256 % 256);
    Hex2Plain(v % 256);
  }

  lemma {:induction false} JoinPlain(values: seq<nat>)
    ensures '_' !in JoinHex4(values)
    ensures |JoinHex4(values)| == if values == [] then 0 else 5 * |values| - 1
  {
    hide Hex4;
    if values != [] {
      Hex4Plain(values[0]);
      JoinPlain(values[1..]);
    }
  }

  lemma {:induction false} JoinInjective(a: seq<nat>, b: seq<nat>)
    requires U16Values(a) && U16Values(b) && JoinHex4(a) == JoinHex4(b)
    ensures a == b
  {
    hide Hex4;
    JoinPlain(a);
    JoinPlain(b);
    if a != [] {
      Hex4Plain(a[0]);
      Hex4Plain(b[0]);
      assert Hex4(a[0]) == JoinHex4(a)[..4] == JoinHex4(b)[..4] == Hex4(b[0]);
      Hex4Injective(a[0], b[0]);
      if |a| > 1 {
        assert JoinHex4(a[1..]) == JoinHex4(a)[5..] == JoinHex4(b)[5..] == JoinHex4(b[1..]);
        JoinInjective(a[1..], b[1..]);
      }
      assert a == [a[0]] + a[1..] && b == [b[0]] + b[1..];
    }
  }

  lemma SortStaysU16(s: seq<nat>)
    requires U16Values(s)
    ensures U16Values(Sort(s))
  {
    SortPermutes(s);
    hide Sort;
    var r := Sort(s);
    forall i | 0 <= i < |r| ensures r[i] < 0x1_0000 {
      assert r[i] in multiset(r) && r[i] in multiset(s) && r[i] in s;
    }
  }

  lemma {:induction false} WithoutStaysU16(ids: seq<nat>)
    requires U16Values(ids)
    ensures U16Values(WithoutNameAndAlpn(ids))
  {
    if ids != [] { WithoutStaysU16(ids[1..]); }
  }

  /** The ciphers' part tells apart any two different sets of ciphers. */
  lemma PartBSeparates(c: seq<nat>, d: seq<nat>, sha: string -> string)
    requires NoCollision(sha, {CipherInput(c), CipherInput(d)}) && U16Values(c) && U16Values(d)
    requires PartB(c, sha) == PartB(d, sha)
    ensures Permuted(c, d)
  {
    if c != [] && d != [] {
      SortStaysU16(c);
      SortStaysU16(d);
      assert CipherInput(c) == CipherInput(d);
      JoinInjective(Sort(c), Sort(d));
      SortForgetsOrder(c, d);
    }
  }

  /** The first underscore of a hashed input, if it has one, ends the extension types. */
  lemma UnderscoreEnds(x: string, s: seq<nat>)
    requires '_' !in x
    ensures var a := HashInput(x, s);
      && (s == [] ==> '_' !in a && a == x)
      && (s != [] ==> |x| < |a| && a[|x|] == '_' && a[..|x|] == x && a[|x| + 1..] == JoinHex4(s))
      && (forall i :: 0 <= i < |x| ==> a[i] != '_')
  {
    hide JoinHex4;
    var a := HashInput(x, s);
    forall i | 0 <= i < |x| ensures a[i] != '_' { assert a[i] == x[i] && x[i] in x; }
  }

  lemma InputSeparates(x: string, s: seq<nat>, y: string, t: seq<nat>)
    requires '_' !in x && '_' !in y && U16Values(s) && U16Values(t) && HashInput(x, s) == HashInput(y, t)
    ensures x == y && s == t
  {
    UnderscoreEnds(x, s);
    UnderscoreEnds(y, t);
    hide HashInput, JoinHex4;
    assert s == [] <==> t == [];
    if s != [] {
      assert |x| == |y|;
      JoinInjective(s, t);
    }
  }

  /** The extensions' part tells apart any two different sets of extension types, server name and
      ALPN aside, and any two different lists of signature algorithms. */
  lemma PartCSeparates(f: Facts, g: Facts, sha: string -> string)
    requires U16Values(f.ids) && U16Values(g.ids) && U16Values(f.sigAlgs) && U16Values(g.sigAlgs)
    requires NoCollision(sha, {ExtensionInput(f), ExtensionInput(g)}) && PartC(f, sha) == PartC(g, sha)
    ensures Permuted(WithoutNameAndAlpn(f.ids), WithoutNameAndAlpn(g.ids)) && f.sigAlgs == g.sigAlgs
  {
    hide Sort, WithoutNameAndAlpn, Permuted;
    var x, y := WithoutNameAndAlpn(f.ids), WithoutNameAndAlpn(g.ids);
    WithoutStaysU16(f.ids);
    WithoutStaysU16(g.ids);
    SortStaysU16(x);
    SortStaysU16(y);
    var s, t := JoinHex4(Sort(x)), JoinHex4(Sort(y));
    JoinPlain(Sort(x));
    JoinPlain(Sort(y));
    assert HashInput(s, f.sigAlgs) == HashInput(t, g.sigAlgs);
    hide JoinHex4;
    InputSeparates(s, f.sigAlgs, t, g.sigAlgs);
    JoinInjective(Sort(x), Sort(y));
    SameSort(x, y);
  }

  lemma SameSort(x: seq<nat>, y: seq<nat>)
    requires Sort(x) == Sort(y)
    ensures Permuted(x, y)
  {
    SortForgetsOrder(x, y);
  }

  lemma TextLengths(v: nat, n: nat, alpn: Option<Bytes>)
    ensures |VersionText(v)| == 2 && |Count(n)| == 2 && |AlpnText(alpn)| == 2
  {
  }

  lemma CountSeparates(m: nat, n: nat)
    requires Count(m) == Count(n)
    ensures Capped(m) == Capped(n)
  {
    var a, b := Capped(m), Capped(n);
    assert Count(m)[0] == Count(n)[0] && Count(m)[1] == Count(n)[1];
    DigitInjective(a / 10, b / 10);
    DigitInjective(a % 10, b % 10);
  }

  /** Part A tells apart the version, the presence of a server name, the counts up to 99 and the
      protocol's two characters. */
  lemma PartASeparates(v: nat, m: nat, f: Facts, w: nat, n: nat, g: Facts)
    requires PartA(v, m, f) == PartA(w, n, g)
    ensures VersionText(VersionOf(v, f)) == VersionText(VersionOf(w, g)) && AlpnText(f.alpn) == AlpnText(g.alpn)
    ensures SERVER_NAME in f.ids <==> SERVER_NAME in g.ids
    ensures Capped(m) == Capped(n) && Capped(|f.ids|) == Capped(|g.ids|)
  {
    TextLengths(VersionOf(v, f), m, f.alpn);
    TextLengths(VersionOf(w, g), n, g.alpn);
    TextLengths(0, |f.ids|, None);
    TextLengths(0, |g.ids|, None);
    hide VersionText, Count, AlpnText, Max;
    var a, b := PartA(v, m, f), PartA(w, n, g);
    assert a[1..3] == VersionText(VersionOf(v, f)) && b[1..3] == VersionText(VersionOf(w, g));
    assert a[3] == (if SERVER_NAME in f.ids then 'd' else 'i') && b[3] == (if SERVER_NAME in g.ids then 'd' else 'i');
    assert a[4..6] == Count(m) && b[4..6] == Count(n);
    assert a[6..8] == Count(|f.ids|) && b[6..8] == Count(|g.ids|);
    CountSeparates(m, n);
    CountSeparates(|f.ids|, |g.ids|);
    assert a[8..10] == AlpnText(f.alpn) && b[8..10] == AlpnText(g.alpn);
  }

  lemma PartLengths(v: nat, c: seq<nat>, f: Facts, sha: string -> string)
    requires NoCollision(sha, {CipherInput(c)})
    ensures |PartA(v, |c|, f)| == 10 && |PartB(c, sha)| == 12
  {
    TextLengths(VersionOf(v, f), |c|, f.alpn);
    TextLengths(0, |f.ids|, None);
    hide VersionText, Count, AlpnText, Max, JoinHex4, Sort;
  }

  lemma FewerInputs(sha: string -> string, inputs: set<string>, some: set<string>)
    requires NoCollision(sha, inputs) && some <= inputs
    ensures NoCollision(sha, some)
  {
  }

  lemma SplitParts(a: string, b: string, c: string, x: string, y: string, z: string)
    requires |a| == |x| && |b| == |y| && a + "_" + b + "_" + c == x + "_" + y + "_" + z
    ensures a == x && b == y && c == z
  {
    var s, t := a + "_" + b + "_" + c, x + "_" + y + "_" + z;
    assert a == s[..|a|] && x == t[..|x|];
    assert b == s[|a| + 1..|a| + 1 + |b|] && y == t[|x| + 1..|x| + 1 + |y|];
    assert c == s[|a| + |b| + 2..] && z == t[|x| + |y| + 2..];
  }

  lemma PartsSeparate(v: nat, c: seq<nat>, f: Facts, w: nat, d: seq<nat>, g: Facts, sha: string -> string)
    requires NoCollision(sha, Inputs(c, f, d, g)) && U16Values(c) && U16Values(d)
    requires U16Values(f.ids) && U16Values(g.ids) && U16Values(f.sigAlgs) && U16Values(g.sigAlgs)
    requires Ja4Of(v, c, f, sha) == Ja4Of(w, d, g, sha)
    ensures SameShown(v, c, f, w, d, g)
  {
    hide PartA, PartB, PartC, Permuted, WithoutNameAndAlpn, VersionText, AlpnText, CipherInput, ExtensionInput;
    FewerInputs(sha, Inputs(c, f, d, g), {CipherInput(c)});
    FewerInputs(sha, Inputs(c, f, d, g), {CipherInput(d)});
    FewerInputs(sha, Inputs(c, f, d, g), {CipherInput(c), CipherInput(d)});
    FewerInputs(sha, Inputs(c, f, d, g), {ExtensionInput(f), ExtensionInput(g)});
    hide NoCollision;
    PartLengths(v, c, f, sha);
    PartLengths(w, d, g, sha);
    SplitParts(PartA(v, |c|, f), PartB(c, sha), PartC(f, sha), PartA(w, |d|, g), PartB(d, sha), PartC(g, sha));
    PartASeparates(v, |c|, f, w, |d|, g);
    PartBSeparates(c, d, sha);
    PartCSeparates(f, g, sha);
  }

  // ---- Hellos as they were read ----

  lemma {:induction false} ReadU16s(s: Bytes)
    ensures U16Values(U16s(s)) && U16Values(NonGrease(U16s(s)))
    decreases |s|
  {
    if |s| >= 2 { ReadU16s(s[2..]); }
    NonGreaseFixed(U16s(s));
  }

  lemma JoinU16(a: seq<nat>, b: seq<nat>)
    requires U16Values(a) && U16Values(b)
    ensures U16Values(a + b)
  {
  }

  lemma AddedU16(f: Facts, e: Ext)
    requires U16Values(f.ids) && U16Values(f.sigAlgs) && e.kind < 0x1_0000
    ensures U16Values(AddExt(f, e).ids) && U16Values(AddExt(f, e).sigAlgs)
  {
    hide NonGrease, U16s, U16Values, Versions, FirstProtocol, IsGrease;
    assert U16Values([e.kind]) by { OneU16(e.kind); }
    JoinU16(f.ids, [e.kind]);
    NoU16();
    if |e.data| >= 2 { ReadU16s(Listed(e.data, 2, U16(e.data, 0))); }
    JoinU16(f.sigAlgs, SigAlgs(e.data));
  }

  lemma OneU16(v: nat)
    requires v < 0x1_0000
    ensures U16Values([v])
  {
  }

  lemma NoU16()
    ensures U16Values([])
  {
  }

  lemma {:induction false} FactsU16(f: Facts, s: Bytes, at: nat)
    requires at <= |s| && U16Values(f.ids) && U16Values(f.sigAlgs)
    ensures var r := FactsFrom(f, ParseExts(s, at)); U16Values(r.ids) && U16Values(r.sigAlgs)
    decreases |s| - at
  {
    hide AddExt, U16Values;
    if |s| >= at + 4 {
      var end := at + 4 + U16(s, at + 2);
      if end <= |s| {
        var e := Ext(U16(s, at), s[at + 4..end]);
        AddedU16(f, e);
        FactsU16(AddExt(f, e), s, end);
        assert ParseExts(s, at)[1..] == ParseExts(s, end);
      }
    }
  }

  function CiphersOf(h: Hello): seq<nat> { NonGrease(U16s(h.cipherSuites)) }

  function FactsOf(h: Hello): Facts { FactsFrom(NO_FACTS, ParseExts(h.extensions, 0)) }

  /** JA4, exactly: as long as the hash does not collide on what is hashed, two hellos have the same
      fingerprint if and only if they agree on all it is meant to show. */
  lemma Ja4Exactly(g: Hello, h: Hello, sha: string -> string)
    requires NoCollision(sha, Inputs(CiphersOf(g), FactsOf(g), CiphersOf(h), FactsOf(h)))
    ensures Fingerprint(g, sha) == Fingerprint(h, sha) <==>
      SameShown(g.legacyVersion, CiphersOf(g), FactsOf(g), h.legacyVersion, CiphersOf(h), FactsOf(h))
  {
    hide NoCollision, Inputs, SameShown, Ja4Of, FactsFrom, ParseExts, NonGrease, U16s, U16Values;
    var c, f, d, e := CiphersOf(g), FactsOf(g), CiphersOf(h), FactsOf(h);
    ReadU16s(g.cipherSuites);
    ReadU16s(h.cipherSuites);
    NoU16();
    FactsU16(NO_FACTS, g.extensions, 0);
    FactsU16(NO_FACTS, h.extensions, 0);
    if SameShown(g.legacyVersion, c, f, h.legacyVersion, d, e) {
      ShownDecides(g.legacyVersion, c, f, h.legacyVersion, d, e, sha);
    }
    if Fingerprint(g, sha) == Fingerprint(h, sha) {
      PartsSeparate(g.legacyVersion, c, f, h.legacyVersion, d, e, sha);
    }
  }

  /** What two hellos with the same fingerprint have in common, in terms of their contents: the same
      ciphers up to order and GREASE, and all that the fingerprint shows of their extensions once
      GREASE is left out. */
  lemma Ja4Separates(g: HelloSpec, h: HelloSpec, sha: string -> string)
    requires HelloEncodable(g) && HelloEncodable(h)
    requires var a, b := OnTheWire(g), OnTheWire(h);
      NoCollision(sha, Inputs(CiphersOf(a), FactsOf(a), CiphersOf(b), FactsOf(b)))
      && Fingerprint(a, sha) == Fingerprint(b, sha)
    ensures AllEncodable(Clean(g.extensions)) && AllEncodable(Clean(h.extensions))
    ensures var f := FactsFrom(NO_FACTS, EncodedAll(Clean(g.extensions)));
      var e := FactsFrom(NO_FACTS, EncodedAll(Clean(h.extensions)));
      SameShown(g.legacyVersion, NonGrease(g.ciphers), f, h.legacyVersion, NonGrease(h.ciphers), e)
  {
    hide FactsFrom, ParseExts, EncodedAll, Clean, Ja4Of, NonGrease, U16s, AllEncodable, Permuted, NoCollision, Inputs,
      VersionOf, WithoutNameAndAlpn, Fingerprint;
    Ja4Exactly(OnTheWire(g), OnTheWire(h), sha);
    U16sRoundTrip(g.ciphers);
    U16sRoundTrip(h.ciphers);
    FactsOfWire(g.extensions);
    FactsOfWire(h.extensions);
  }
}
