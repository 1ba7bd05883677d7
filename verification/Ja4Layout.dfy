/** How a JA4 fingerprint reads, character by character, from the bytes of the hello. */
module Ja4Layout {
  import opened Wrappers
  import opened Bytes
  import opened Sni
  import opened Ja4
  import opened Ja4Laws
  import opened TextLaws

  // ---- What a hello offers ----

  const GREASE: set<nat> := {
    0x0A0A, 0x1A1A, 0x2A2A, 0x3A3A, 0x4A4A, 0x5A5A, 0x6A6A, 0x7A7A,
    0x8A8A, 0x9A9A, 0xAAAA, 0xBABA, 0xCACA, 0xDADA, 0xEAEA, 0xFAFA
  }

  /** The 16-bit values of a list, an odd byte at its end left out. */
  function Pairs(s: Bytes): (r: seq<nat>)
    ensures U16Values(r)
  {
    seq(|s| / 2, k requires 0 <= k < |s| / 2 => Word(s[2 * k], s[2 * k + 1]))
  }

  /** The values that are not GREASE, in their order. */
  function Kept(values: seq<nat>): seq<nat> {
    if values == [] then []
    else
      var last := |values| - 1;
      Kept(values[..last]) + if values[last] in GREASE then [] else [values[last]]
  }

  ghost predicate AllFit(exts: seq<Ext>) {
    forall i :: 0 <= i < |exts| ==> exts[i].kind < 0x1_0000 && |exts[i].data| < 0x1_0000
  }

  /** Extensions one behind the other, each with its type, its length and its data. */
  function Written(exts: seq<Ext>): Bytes
    requires AllFit(exts)
  {
    if exts == [] then []
    else
      var e := exts[0];
      [e.kind / 256, e.kind % 256, |e.data| / 256, |e.data| % 256] + e.data + Written(exts[1..])
  }

  /** Bytes that do not begin with a whole extension. */
  predicate Stops(rest: Bytes) { |rest| < 4 || |rest| < 4 + Word(rest[2], rest[3]) }

  /** The bytes are these extensions and then something that is none. */
  ghost predicate Holds(s: Bytes, exts: seq<Ext>) {
    AllFit(exts) && Written(exts) <= s && Stops(s[|Written(exts)|..])
  }

  /** The k-th entry of a supported_versions list, within its one length byte and its data. */
  predicate VersionAt(data: Bytes, k: nat, v: nat) {
    && 2 * k + 3 <= |data| && 2 * k + 2 <= data[0] as int
    && v == Word(data[2 * k + 1], data[2 * k + 2]) && v !in GREASE
  }

  ghost predicate OffersIn(e: Ext, v: nat) { e.kind == 0x002B && exists k: nat :: VersionAt(e.data, k, v) }

  ghost predicate Offers(exts: seq<Ext>, v: nat) {
    exists i :: 0 <= i < |exts| && OffersIn(exts[i], v)
  }

  /** The highest version offered, or the one in the hello itself when none is. */
  ghost predicate IsVersion(v: nat, legacyVersion: nat, exts: seq<Ext>) {
    && (Offers(exts, v) || v == legacyVersion)
    && (forall w: nat :: Offers(exts, w) ==> Offers(exts, v) && w <= v)
  }

  /** The entries of a signature_algorithms list, within its two length bytes and its data. */
  function Algorithms(data: Bytes): seq<nat> {
    if |data| < 2 then []
    else
      var n := Word(data[0], data[1]);
      Kept(Pairs(if n <= |data| - 2 then data[2..2 + n] else data[2..]))
  }

  function AllAlgorithms(exts: seq<Ext>): seq<nat> {
    if exts == [] then []
    else
      var last := |exts| - 1;
      AllAlgorithms(exts[..last]) + if exts[last].kind == 0x000D then Algorithms(exts[last].data) else []
  }

  /** The first protocol of an ALPN list: not empty, and whole within the list and the data. */
  function Protocol(data: Bytes): Option<Bytes> {
    if |data| >= 3 && 1 <= data[2] && Word(data[0], data[1]) >= 1 + (data[2] as int) && |data| >= 3 + (data[2] as int)
    then Some(data[3..3 + (data[2] as int)])
    else None
  }

  function LastProtocol(exts: seq<Ext>): Option<Bytes> {
    if exts == [] then None
    else
      var last := |exts| - 1;
      if exts[last].kind == 0x0010 && Protocol(exts[last].data).Some? then Protocol(exts[last].data)
      else LastProtocol(exts[..last])
  }

  /** The extensions that are hashed: neither server_name nor ALPN. */
  function Hashed(ids: seq<nat>): seq<nat> {
    if ids == [] then []
    else
      var last := |ids| - 1;
      Hashed(ids[..last]) + if ids[last] in {0x0000, 0x0010} then [] else [ids[last]]
  }

  // ---- How it is written down ----

  function HexOf(c: char): (r: nat)
    ensures r <= 16
  {
    if '0' <= c <= '9' then c as nat - 48 else if 'a' <= c <= 'f' then c as nat - 87 else 16
  }

  /** Four lower-case hexadecimal digits that read as this value. */
  predicate ReadsHex(text: string, v: nat) {
    && |text| == 4 && (forall i :: 0 <= i < 4 ==> HexOf(text[i]) < 16)
    && v == 4096 * HexOf(text[0]) + 256 * HexOf(text[1]) + 16 * HexOf(text[2]) + HexOf(text[3])
  }

  /** The values in four digits each, with commas between them. */
  ghost predicate HexList(text: string, values: seq<nat>) {
    if values == [] then text == ""
    else
      && |text| == 5 * |values| - 1
      && (forall i :: 0 <= i < |values| ==> ReadsHex(text[5 * i..5 * i + 4], values[i]))
      && (forall i :: 0 <= i < |values| - 1 ==> text[5 * i + 4] == ',')
  }

  ghost predicate Ascending(values: seq<nat>) { forall i, j :: 0 <= i < j < |values| ==> values[i] <= values[j] }

  /** The values in ascending order, so written. */
  ghost predicate SortedList(text: string, values: seq<nat>) {
    exists sorted: seq<nat> :: Ascending(sorted) && multiset(sorted) == multiset(values) && HexList(text, sorted)
  }

  /** Two decimal digits that read as `n`, or 99 when it is more. */
  predicate ReadsCount(text: string, n: nat) {
    && |text| == 2 && '0' <= text[0] <= '9' && '0' <= text[1] <= '9'
    && 10 * (text[0] as int - 48) + (text[1] as int - 48) == if n <= 99 then n else 99
  }

  predicate ReadsVersion(text: string, v: nat) {
    && (text == "13" <==> v == 0x0304) && (text == "12" <==> v == 0x0303)
    && (text == "11" <==> v == 0x0302) && (text == "10" <==> v == 0x0301)
    && (text == "00" <==> v !in {0x0301, 0x0302, 0x0303, 0x0304})
  }

  predicate LetterOrDigit(b: Byte) {
    '0' <= b as char <= '9' || 'A' <= b as char <= 'Z' || 'a' <= b as char <= 'z'
  }

  predicate LowerCase(c: char, b: Byte) { c as int == b as int + if 'A' <= b as char <= 'Z' then 32 else 0 }

  /** First and last character of the protocol in lower case, or of its hexadecimal form when either is
      no letter or digit. */
  predicate ReadsProtocol(text: string, protocol: Option<Bytes>) {
    |text| == 2 &&
    match protocol
    case None => text == "00"
    case Some(p) =>
      p != [] &&
      var first, last := p[0], p[|p| - 1];
      if LetterOrDigit(first) && LetterOrDigit(last) then LowerCase(text[0], first) && LowerCase(text[1], last)
      else HexOf(text[0]) == first as int / 16 && HexOf(text[1]) == last as int % 16
  }

  // ---- The fingerprint ----

  ghost predicate ReadsA(text: string, legacyVersion: nat, ciphers: seq<nat>, exts: seq<Ext>) {
    && |text| == 10 && text[0] == 't'
    && (exists v :: IsVersion(v, legacyVersion, exts) && ReadsVersion(text[1..3], v))
    && text[3] == (if 0x0000 in Kinds(exts) then 'd' else 'i')
    && ReadsCount(text[4..6], |ciphers|) && ReadsCount(text[6..8], |Kept(Kinds(exts))|)
    && ReadsProtocol(text[8..10], LastProtocol(exts))
  }

  ghost predicate ReadsB(text: string, ciphers: seq<nat>, sha: string -> string) {
    if ciphers == [] then text == "000000000000"
    else exists input :: SortedList(input, ciphers) && text == sha(input)
  }

  ghost predicate ReadsC(text: string, exts: seq<Ext>, sha: string -> string) {
    var ids, algorithms := Hashed(Kept(Kinds(exts))), AllAlgorithms(exts);
    if ids == [] && algorithms == [] then text == "000000000000"
    else
      exists list, more ::
        && SortedList(list, ids) && HexList(more, algorithms)
        && text == sha(if algorithms == [] then list else list + "_" + more)
  }

  /** The three parts of a fingerprint, read off a hello with these extensions. */
  ghost predicate Reads(text: string, h: Hello, exts: seq<Ext>, sha: string -> string) {
    var ciphers := Kept(Pairs(h.cipherSuites));
    exists a, b, c ::
      && text == a + "_" + b + "_" + c
      && ReadsA(a, h.legacyVersion, ciphers, exts) && ReadsB(b, ciphers, sha) && ReadsC(c, exts, sha)
  }

  // ---- Lists ----

  lemma GreaseExactly(v: nat)
    requires v < 0x1_0000
    ensures IsGrease(v) <==> v in GREASE
  {
    if IsGrease(v) { GreaseListed(v, v % 256, v % 256 / 16); }
  }

  lemma GreaseListed(v: nat, low: nat, m: nat)
    requires m < 16 && low == 16 * m + 10 && v == 257 * low
    ensures v in GREASE
  {
  }

  lemma {:induction false} KeptMore(values: seq<nat>)
    requires values != []
    ensures Kept(values) == (if values[0] in GREASE then [] else [values[0]]) + Kept(values[1..])
  {
    if |values| > 1 {
      var last := |values| - 1;
      KeptMore(values[..last]);
      assert values[..last][1..] == values[1..][..last - 1];
    }
  }

  lemma {:induction false} KeptExactly(values: seq<nat>)
    requires U16Values(values)
    ensures NonGrease(values) == Kept(values)
  {
    if values != [] {
      GreaseExactly(values[0]);
      KeptMore(values);
      KeptExactly(values[1..]);
    }
  }

  lemma PairsMore(s: Bytes)
    requires |s| >= 2
    ensures Pairs(s) == [Word(s[0], s[1])] + Pairs(s[2..])
  {
    hide Word;
    var rest := s[2..];
    var all, more := Pairs(s), Pairs(rest);
    assert |all| == |more| + 1;
    forall k | 0 <= k < |more| ensures all[k + 1] == more[k] {
      var j := k + 1;
      assert all[j] == Word(s[2 * j], s[2 * j + 1]);
      assert rest[2 * k] == s[2 * j] && rest[2 * k + 1] == s[2 * j + 1];
    }
  }

  lemma {:induction false} PairsExactly(s: Bytes)
    ensures U16s(s) == Pairs(s)
  {
    if |s| >= 2 {
      PairsMore(s);
      PairsExactly(s[2..]);
      hide Pairs;
    }
  }

  lemma KeptPairs(s: Bytes)
    ensures NonGrease(U16s(s)) == Kept(Pairs(s))
  {
    PairsExactly(s);
    KeptExactly(Pairs(s));
  }

  lemma {:induction false} KeptHas(values: seq<nat>, v: nat)
    ensures v in Kept(values) <==> v in values && v !in GREASE
  {
    if values != [] { KeptHas(values[..|values| - 1], v); }
  }

  lemma {:induction false} HashedMore(ids: seq<nat>)
    requires ids != []
    ensures Hashed(ids) == (if ids[0] in {0x0000, 0x0010} then [] else [ids[0]]) + Hashed(ids[1..])
  {
    if |ids| > 1 {
      var last := |ids| - 1;
      HashedMore(ids[..last]);
      assert ids[..last][1..] == ids[1..][..last - 1];
    }
  }

  lemma {:induction false} HashedExactly(ids: seq<nat>)
    ensures WithoutNameAndAlpn(ids) == Hashed(ids)
  {
    if ids != [] {
      HashedMore(ids);
      HashedExactly(ids[1..]);
    }
  }

  // ---- The extensions ----

  lemma HoldsFirst(s: Bytes, exts: seq<Ext>)
    requires !Stops(s)
    ensures var n := Word(s[2], s[3]);
      Holds(s, exts) <==>
        exts != [] && exts[0] == Ext(Word(s[0], s[1]), s[4..4 + n]) && Holds(s[4 + n..], exts[1..])
  {
    if exts == [] {
      assert s[0..] == s;
    } else {
      if Holds(s, exts) { WrittenFirst(s, exts); }
      var n := Word(s[2], s[3]);
      if exts[0] == Ext(Word(s[0], s[1]), s[4..4 + n]) && Holds(s[4 + n..], exts[1..]) { HoldsBefore(s, exts); }
    }
  }

  lemma HoldsBefore(s: Bytes, exts: seq<Ext>)
    requires !Stops(s) && exts != []
    requires var n := Word(s[2], s[3]); exts[0] == Ext(Word(s[0], s[1]), s[4..4 + n]) && Holds(s[4 + n..], exts[1..])
    ensures Holds(s, exts)
  {
    var e, more := exts[0], Written(exts[1..]);
    var rest, head := s[4 + |e.data|..], [s[0], s[1], s[2], s[3]];
    assert AllFit(exts);
    assert Written(exts) == head + e.data + more by { hide Stops; }
    Behind(s, head, e.data, more, rest);
  }

  lemma Behind(s: Bytes, head: Bytes, data: Bytes, more: Bytes, rest: Bytes)
    requires |head| == 4 <= 4 + |data| <= |s| && s[..4] == head && s[4..4 + |data|] == data && s[4 + |data|..] == rest
    requires more <= rest
    ensures head + data + more <= s && s[|head + data + more|..] == rest[|more|..]
  {
    assert s == head + data + rest;
  }

  lemma WrittenFirst(s: Bytes, exts: seq<Ext>)
    requires !Stops(s) && exts != [] && Holds(s, exts)
    ensures var n := Word(s[2], s[3]); exts[0] == Ext(Word(s[0], s[1]), s[4..4 + n]) && Holds(s[4 + n..], exts[1..])
  {
    var e, more := exts[0], Written(exts[1..]);
    var head: Bytes := [e.kind / 256, e.kind % 256, |e.data| / 256, |e.data| % 256];
    var w := Written(exts);
    assert w == head + e.data + more;
    assert s == w + s[|w|..];
    assert s[0] == w[0] && s[1] == w[1] && s[2] == w[2] && s[3] == w[3];
    var n := Word(s[2], s[3]);
    assert n == |e.data| && s[4..4 + n] == w[4..4 + n] == e.data;
    assert s[4 + n..] == more + s[|w|..];
    assert s[4 + n..][|more|..] == s[|w|..];
  }

  /** Parsing the extensions, exactly. */
  lemma {:induction false} ParseIsExact(s: Bytes, at: nat, exts: seq<Ext>)
    requires at <= |s|
    ensures ParseExts(s, at) == exts <==> Holds(s[at..], exts)
    decreases |s| - at
  {
    hide Holds;
    var rest := s[at..];
    if Stops(rest) {
      StoppedHoldsNone(rest, exts);
    } else {
      var n := Word(rest[2], rest[3]);
      HoldsFirst(rest, exts);
      assert s[at + 4 + n..] == rest[4 + n..];
      assert s[at + 4..at + 4 + n] == rest[4..4 + n];
      var all := ParseExts(s, at);
      assert all == [Ext(Word(rest[0], rest[1]), rest[4..4 + n])] + ParseExts(s, at + 4 + n);
      if exts != [] {
        assert exts == [exts[0]] + exts[1..];
        ParseIsExact(s, at + 4 + n, exts[1..]);
      }
    }
  }

  lemma StoppedHoldsNone(s: Bytes, exts: seq<Ext>)
    requires Stops(s)
    ensures Holds(s, exts) <==> exts == []
  {
    assert s[0..] == s;
  }

  function FactsIn(exts: seq<Ext>): Facts { FactsFrom(NO_FACTS, exts) }

  lemma {:induction false} FactsMore(f: Facts, exts: seq<Ext>, e: Ext)
    ensures FactsFrom(f, exts + [e]) == AddExt(FactsFrom(f, exts), e)
    decreases |exts|
  {
    hide AddExt;
    var all := exts + [e];
    if exts == [] {
      assert all[1..] == [];
    } else {
      assert all[1..] == exts[1..] + [e];
      FactsMore(AddExt(f, exts[0]), exts[1..], e);
    }
  }

  lemma {:induction false} FactsExactly(exts: seq<Ext>)
    requires AllFit(exts)
    ensures var f := FactsIn(exts);
      && f.ids == Kept(Kinds(exts)) && f.sigAlgs == AllAlgorithms(exts) && f.alpn == LastProtocol(exts)
      && VersionsOffered(f, exts)
  {
    hide IsGrease, VersionsOffered, Algorithms, Protocol, SigAlgs, FirstProtocol, Versions;
    if exts == [] {
      NoVersions();
    } else {
      var last := |exts| - 1;
      var init, e := exts[..last], exts[last];
      assert exts == init + [e];
      FactsExactly(init);
      FactsMore(NO_FACTS, init, e);
      GreaseExactly(e.kind);
      KindsMore(init, e);
      AlgorithmsExactly(e.data);
      ProtocolExactly(e.data);
      VersionsMore(FactsIn(init), init, e);
    }
  }

  ghost predicate VersionsOffered(f: Facts, exts: seq<Ext>) {
    forall v: nat :: v in f.versions <==> Offers(exts, v)
  }

  lemma NoVersions()
    ensures VersionsOffered(NO_FACTS, [])
  {
  }

  lemma VersionsMore(f: Facts, exts: seq<Ext>, e: Ext)
    requires VersionsOffered(f, exts) && e.kind < 0x1_0000
    ensures VersionsOffered(AddExt(f, e), exts + [e])
  {
    hide Offers, OffersIn;
    GreaseExactly(e.kind);
    forall v: nat ensures v in AddExt(f, e).versions <==> Offers(exts + [e], v) {
      VersionsExactly(e, v);
      OffersMore(exts, e, v);
    }
  }

  lemma KindsMore(exts: seq<Ext>, e: Ext)
    ensures Kept(Kinds(exts + [e])) == Kept(Kinds(exts)) + if e.kind in GREASE then [] else [e.kind]
  {
    assert Kinds(exts + [e])[..|exts|] == Kinds(exts);
  }

  lemma OffersMore(exts: seq<Ext>, e: Ext, v: nat)
    ensures Offers(exts + [e], v) <==> Offers(exts, v) || OffersIn(e, v)
  {
    hide OffersIn;
    var all := exts + [e];
    if Offers(exts, v) {
      var i :| 0 <= i < |exts| && OffersIn(exts[i], v);
      assert OffersIn(all[i], v);
    }
    if OffersIn(e, v) { assert OffersIn(all[|exts|], v); }
  }

  lemma AlgorithmsExactly(data: Bytes)
    ensures SigAlgs(data) == Algorithms(data)
  {
    if |data| >= 2 {
      var n := Word(data[0], data[1]);
      assert Listed(data, 2, n) == if n <= |data| - 2 then data[2..2 + n] else data[2..];
      KeptPairs(Listed(data, 2, n));
    }
  }

  lemma ProtocolExactly(data: Bytes)
    ensures FirstProtocol(data) == Protocol(data)
  {
    if |data| >= 3 {
      var list := Listed(data, 2, U16(data, 0));
      if list != [] && |list| > list[0] as int { FirstOfList(data, list, list[0] as int); }
    }
  }

  lemma FirstOfList(data: Bytes, list: Bytes, k: nat)
    requires 2 + |list| <= |data| && list == data[2..2 + |list|] && k < |list|
    ensures list[0] == data[2] && list[1..1 + k] == data[3..3 + k]
  {
    var first, there := list[1..1 + k], data[3..3 + k];
    forall i | 0 <= i < k ensures first[i] == there[i] {
      assert list[1 + i] == data[2 + (1 + i)];
    }
  }

  lemma VersionsExactly(e: Ext, v: nat)
    ensures OffersIn(e, v) <==> e.kind == 0x002B && v in Versions(e.data)
  {
    hide NonGrease, U16s, Kept;
    if e.data != [] {
      var list := Listed(e.data, 1, e.data[0]);
      KeptPairs(list);
      KeptHas(Pairs(list), v);
      forall k: nat ensures VersionAt(e.data, k, v) <==> k < |Pairs(list)| && Pairs(list)[k] == v && v !in GREASE {
        PairAt(e.data, list, k);
      }
    }
  }

  lemma PairAt(data: Bytes, list: Bytes, k: nat)
    requires data != [] && list == Listed(data, 1, data[0])
    ensures k < |Pairs(list)| <==> 2 * k + 3 <= |data| && 2 * k + 2 <= data[0] as int
    ensures k < |Pairs(list)| ==> Pairs(list)[k] == Word(data[2 * k + 1], data[2 * k + 2])
  {
    assert |Pairs(list)| == |list| / 2;
    if k < |Pairs(list)| { assert list[2 * k] == data[2 * k + 1] && list[2 * k + 1] == data[2 * k + 2]; }
  }

  // ---- The text ----

  lemma DigitReads(d: nat)
    requires d < 16
    ensures HexOf(Digit(d)) == d && (d < 10 ==> '0' <= Digit(d) <= '9' && Digit(d) as int == 48 + d)
  {
  }

  lemma Hex4Reads(v: nat)
    requires v < 0x1_0000
    ensures ReadsHex(Hex4(v), v)
  {
    hide Digit, HexOf;
    var high, low := v / 256, v % 256;
    DigitReads(high / 16);
    DigitReads(high % 16);
    DigitReads(low / 16);
    DigitReads(low % 16);
    assert Hex4(v) == [Digit(high / 16), Digit(high % 16), Digit(low / 16), Digit(low % 16)];
  }

  lemma {:induction false} JoinReads(values: seq<nat>)
    requires U16Values(values)
    ensures HexList(JoinHex4(values), values)
  {
    hide Hex4, ReadsHex;
    if values != [] {
      Hex4Reads(values[0]);
      var text := JoinHex4(values);
      var first := Hex4(values[0]);
      FourDigits(first, values[0]);
      if |values| == 1 {
        assert text[0..4] == first;
      } else {
        var rest := values[1..];
        JoinReads(rest);
        var more := JoinHex4(rest);
        assert text == first + "," + more;
        forall i | 0 <= i < |values| ensures ReadsHex(text[5 * i..5 * i + 4], values[i]) {
          if i == 0 { assert text[0..4] == first; }
          else { assert text[5 * i..5 * i + 4] == more[5 * (i - 1)..5 * (i - 1) + 4]; }
        }
        forall i | 0 <= i < |values| - 1 ensures text[5 * i + 4] == ',' {
          if i > 0 { assert text[5 * i + 4] == more[5 * (i - 1) + 4]; }
        }
      }
    }
  }

  lemma FourDigits(text: string, v: nat)
    requires ReadsHex(text, v)
    ensures |text| == 4
  {
  }

  lemma SortReads(values: seq<nat>)
    requires U16Values(values)
    ensures SortedList(JoinHex4(Sort(values)), values)
  {
    hide Sort, JoinHex4, HexList;
    var sorted := Sort(values);
    SortPermutes(values);
    forall i | 0 <= i < |sorted| ensures sorted[i] < 0x1_0000 {
      assert sorted[i] in multiset(values);
    }
    JoinReads(sorted);
  }

  lemma CountReads(n: nat)
    ensures ReadsCount(Count(n), n)
  {
    var c := if n < 99 then n else 99;
    DigitReads(c / 10);
    DigitReads(c % 10);
  }

  lemma ProtocolReads(exts: seq<Ext>)
    ensures ReadsProtocol(AlpnText(LastProtocol(exts)), LastProtocol(exts))
  {
    ProtocolNotEmpty(exts);
    hide LastProtocol;
    var protocol := LastProtocol(exts);
    if protocol.Some? {
      var p := protocol.value;
      DigitReads(p[0] as int / 16);
      DigitReads(p[|p| - 1] as int % 16);
    }
  }

  lemma {:induction false} ProtocolNotEmpty(exts: seq<Ext>)
    ensures LastProtocol(exts).Some? ==> LastProtocol(exts).value != []
  {
    if exts != [] { ProtocolNotEmpty(exts[..|exts| - 1]); }
  }

  lemma {:induction false} KeptFits(values: seq<nat>)
    requires U16Values(values)
    ensures U16Values(Kept(values)) && U16Values(Hashed(values))
  {
    if values != [] { KeptFits(values[..|values| - 1]); }
  }

  lemma AlgorithmFits(data: Bytes)
    ensures U16Values(Algorithms(data))
  {
    if |data| >= 2 {
      var n := Word(data[0], data[1]);
      KeptFits(Pairs(if n <= |data| - 2 then data[2..2 + n] else data[2..]));
    }
  }

  lemma {:induction false} AlgorithmsFit(exts: seq<Ext>)
    ensures U16Values(AllAlgorithms(exts))
  {
    hide Algorithms;
    if exts != [] {
      AlgorithmsFit(exts[..|exts| - 1]);
      AlgorithmFits(exts[|exts| - 1].data);
    }
  }

  lemma PartAReads(legacyVersion: nat, ciphers: seq<nat>, exts: seq<Ext>)
    requires AllFit(exts)
    ensures ReadsA(PartA(legacyVersion, |ciphers|, FactsIn(exts)), legacyVersion, ciphers, exts)
  {
    hide Count, AlpnText, ReadsCount, ReadsProtocol, Kept, LastProtocol, FactsFrom, IsVersion, VersionText,
      VersionsOffered, ReadsVersion;
    var f := FactsIn(exts);
    FactsExactly(exts);
    CountReads(|ciphers|);
    CountReads(|f.ids|);
    ProtocolReads(exts);
    HighestOffered(legacyVersion, f, exts);
    var v := if f.versions == [] then legacyVersion else Max(f.versions);
    TextSizes(v, |ciphers|, f.alpn);
    TextSizes(v, |f.ids|, f.alpn);
    KeptHas(Kinds(exts), 0x0000);
    Laid(VersionText(v), if SERVER_NAME in f.ids then "d" else "i", Count(|ciphers|), Count(|f.ids|), AlpnText(f.alpn));
  }

  lemma HighestOffered(legacyVersion: nat, f: Facts, exts: seq<Ext>)
    requires VersionsOffered(f, exts)
    ensures IsVersion(if f.versions == [] then legacyVersion else Max(f.versions), legacyVersion, exts)
  {
    hide Offers;
    var v := if f.versions == [] then legacyVersion else Max(f.versions);
    assert f.versions != [] ==> v in f.versions;
  }

  lemma Laid(version: string, name: string, ciphers: string, extensions: string, protocol: string)
    requires |version| == |ciphers| == |extensions| == |protocol| == 2 && |name| == 1
    ensures var a := "t" + version + name + ciphers + extensions + protocol;
      && |a| == 10 && a[0] == 't' && a[1..3] == version && a[3] == name[0]
      && a[4..6] == ciphers && a[6..8] == extensions && a[8..10] == protocol
  {
  }

  lemma TextSizes(v: nat, n: nat, alpn: Option<Bytes>)
    ensures |VersionText(v)| == 2 && ReadsVersion(VersionText(v), v) && |Count(n)| == 2 && |AlpnText(alpn)| == 2
  {
  }

  lemma PartBReads(ciphers: seq<nat>, sha: string -> string)
    requires U16Values(ciphers)
    ensures ReadsB(PartB(ciphers, sha), ciphers, sha)
  {
    hide SortedList, JoinHex4, Sort;
    SortReads(ciphers);
  }

  lemma PartCReads(exts: seq<Ext>, sha: string -> string)
    requires AllFit(exts)
    ensures ReadsC(PartC(FactsIn(exts), sha), exts, sha)
  {
    hide SortedList, HexList, Sort, Kept, Hashed, FactsFrom;
    var f := FactsIn(exts);
    FactsExactly(exts);
    HashedExactly(f.ids);
    KeptFits(Kinds(exts));
    KeptFits(f.ids);
    AlgorithmsFit(exts);
    var ids := Hashed(f.ids);
    SortReads(ids);
    JoinReads(f.sigAlgs);
    assert JoinHex4(Sort(ids)) == "" <==> ids == [];
    assert JoinHex4(f.sigAlgs) == "" <==> f.sigAlgs == [];
  }

  /** The fingerprint of any hello, read off its bytes. */
  lemma FingerprintReads(h: Hello, sha: string -> string)
    ensures exists exts :: Holds(h.extensions, exts) && Reads(Fingerprint(h, sha), h, exts, sha)
  {
    hide PartA, PartB, PartC, ReadsA, ReadsB, ReadsC, Kept, FactsFrom, Holds;
    var exts, ciphers := ParseExts(h.extensions, 0), Kept(Pairs(h.cipherSuites));
    ParseIsExact(h.extensions, 0, exts);
    assert h.extensions[0..] == h.extensions;
    HeldFit(h.extensions, exts);
    KeptPairs(h.cipherSuites);
    KeptFits(Pairs(h.cipherSuites));
    PartAReads(h.legacyVersion, ciphers, exts);
    PartBReads(ciphers, sha);
    PartCReads(exts, sha);
  }

  lemma HeldFit(s: Bytes, exts: seq<Ext>)
    requires Holds(s, exts)
    ensures AllFit(exts)
  {
  }
}
