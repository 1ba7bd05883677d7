/** JA4 does not depend on the order of cipher suites and extensions, nor on GREASE. */
module Ja4Laws {
  import Basics
  import opened Wrappers
  import opened Bytes
  import opened Sni
  import opened Ja4

  // ---- Sorting ----

  lemma {:induction false} InsertAdds(x: nat, s: seq<nat>)
    requires Ordered(s)
    ensures multiset(Insert(x, s)) == multiset(s) + multiset{x}
  {
    if s != [] && x > s[0] {
      InsertAdds(x, s[1..]);
      assert s == [s[0]] + s[1..];
    }
  }

  lemma {:induction false} SortPermutes(s: seq<nat>)
    ensures multiset(Sort(s)) == multiset(s)
  {
    if s != [] {
      hide Ordered, Insert;
      var rest := s[1..];
      SortPermutes(rest);
      InsertAdds(s[0], Sort(rest));
      assert s == [] + [s[0]] + rest && rest == [] + rest;
      OneMore([], s[0], rest);
    }
  }

  predicate Permuted<T(==)>(s: seq<T>, t: seq<T>) { multiset(s) == multiset(t) }

  lemma SameHead(s: seq<nat>, t: seq<nat>)
    requires Ordered(s) && Ordered(t) && Permuted(s, t)
    ensures s == [] <==> t == []
    ensures s != [] ==> s[0] == t[0]
  {
    if s != [] {
      assert s[0] in multiset(t);
      assert s[0] in t;
    }
    if t != [] {
      assert t[0] in multiset(s);
      assert t[0] in s;
    }
  }

  function Map<T, U>(f: T --> U, s: seq<T>): (r: seq<U>)
    requires forall i :: 0 <= i < |s| ==> f.requires(s[i])
    ensures |r| == |s| && forall i :: 0 <= i < |r| ==> r[i] == f(s[i])
  {
    if s == [] then [] else [f(s[0])] + Map(f, s[1..])
  }

  function Without<T>(s: seq<T>, j: nat): seq<T>
    requires j < |s|
  {
    if j == 0 then s[1..] else [s[0]] + Without(s[1..], j - 1)
  }

  lemma {:induction false} WithoutLacks<T>(s: seq<T>, j: nat)
    requires j < |s|
    ensures multiset(s) == multiset(Without(s, j)) + multiset{s[j]}
    ensures forall i :: 0 <= i < |Without(s, j)| ==> Without(s, j)[i] in s
  {
    assert s == [s[0]] + s[1..];
    if j > 0 { WithoutLacks(s[1..], j - 1); }
  }

  lemma {:induction false} MapWithout<T, U>(f: T --> U, s: seq<T>, j: nat)
    requires j < |s| && forall i :: 0 <= i < |s| ==> f.requires(s[i])
    ensures forall i :: 0 <= i < |Without(s, j)| ==> f.requires(Without(s, j)[i])
    ensures Map(f, Without(s, j)) == Without(Map(f, s), j)
  {
    assert Map(f, s)[1..] == Map(f, s[1..]);
    if j > 0 {
      MapWithout(f, s[1..], j - 1);
      assert Without(s, j)[1..] == Without(s[1..], j - 1);
    }
  }

  /** Taking an element out of both lists, or putting one into both, keeps them permutations. */
  lemma PermutedWithout<T>(s: seq<T>, i: nat, t: seq<T>, j: nat)
    requires i < |s| && j < |t| && s[i] == t[j]
    ensures Permuted(s, t) <==> Permuted(Without(s, i), Without(t, j))
  {
    WithoutLacks(s, i);
    WithoutLacks(t, j);
    var a, b := multiset(Without(s, i)), multiset(Without(t, j));
    assert a == multiset(s) - multiset{s[i]};
    assert b == multiset(t) - multiset{s[i]};
  }

  lemma IndexIn<T>(s: seq<T>, t: seq<T>) returns (j: nat)
    requires s != [] && Permuted(s, t)
    ensures j < |t| && t[j] == s[0]
  {
    assert s[0] in multiset(s) && s[0] in multiset(t);
    j :| 0 <= j < |t| && t[j] == s[0];
  }

  lemma EmptyPermuted<T>(s: seq<T>, t: seq<T>)
    requires s == [] && Permuted(s, t)
    ensures t == []
  {
    assert |multiset(t)| == |t|;
  }

  /** Reordering a list reorders what is made of its elements. */
  lemma {:induction false} MapForgetsOrder<T, U>(f: T --> U, s: seq<T>, t: seq<T>)
    requires forall i :: 0 <= i < |s| ==> f.requires(s[i])
    requires forall i :: 0 <= i < |t| ==> f.requires(t[i])
    requires Permuted(s, t)
    ensures Permuted(Map(f, s), Map(f, t))
    decreases |s|
  {
    hide Permuted, Map;
    if s == [] {
      EmptyPermuted(s, t);
      assert Map(f, s) == Map(f, t);
      SelfPermuted(Map(f, s));
    } else {
      var j := IndexIn(s, t);
      PermutedWithout(s, 0, t, j);
      MapWithout(f, s, 0);
      MapWithout(f, t, j);
      MapForgetsOrder(f, Without(s, 0), Without(t, j));
      PermutedWithout(Map(f, s), 0, Map(f, t), j);
    }
  }

  lemma SelfPermuted<T>(s: seq<T>)
    ensures Permuted(s, s)
  {
  }

  lemma SameRest(s: seq<nat>, t: seq<nat>)
    requires Permuted(s, t) && s != [] && t != [] && s[0] == t[0]
    ensures Permuted(s[1..], t[1..])
  {
    hide Permuted;
    PermutedWithout(s, 0, t, 0);
  }

  lemma {:induction false} OrderedUnique(s: seq<nat>, t: seq<nat>)
    requires Ordered(s) && Ordered(t) && Permuted(s, t)
    ensures s == t
  {
    hide Permuted;
    SameHead(s, t);
    if s != [] {
      SameRest(s, t);
      OrderedUnique(s[1..], t[1..]);
      assert s == [s[0]] + s[1..] && t == [t[0]] + t[1..];
    }
  }

  /** Sorting forgets exactly the order. */
  lemma SortForgetsOrder(s: seq<nat>, t: seq<nat>)
    ensures Sort(s) == Sort(t) <==> multiset(s) == multiset(t)
  {
    SortPermutes(s);
    SortPermutes(t);
    if multiset(s) == multiset(t) { OrderedUnique(Sort(s), Sort(t)); }
  }

  lemma {:induction false} WithoutCounts(ids: seq<nat>, v: nat)
    ensures multiset(WithoutNameAndAlpn(ids))[v] == if v == SERVER_NAME || v == ALPN then 0 else multiset(ids)[v]
  {
    if ids != [] {
      assert ids == [ids[0]] + ids[1..];
      WithoutCounts(ids[1..], v);
    }
  }

  lemma WithoutForgetsOrder(s: seq<nat>, t: seq<nat>)
    requires multiset(s) == multiset(t)
    ensures multiset(WithoutNameAndAlpn(s)) == multiset(WithoutNameAndAlpn(t))
  {
    forall v: nat ensures multiset(WithoutNameAndAlpn(s))[v] == multiset(WithoutNameAndAlpn(t))[v] {
      WithoutCounts(s, v);
      WithoutCounts(t, v);
    }
  }

  // ---- What the fingerprint shows ----

  function VersionOf(legacyVersion: nat, f: Facts): nat {
    if f.versions == [] then legacyVersion else Max(f.versions)
  }

  function Capped(n: nat): nat { if n < 99 then n else 99 }

  /** Two hellos agree on all the fingerprint is meant to show: the version, whether there is a server
      name, how many extensions there are up to 99, the protocol's two characters, the ciphers and,
      server name and ALPN aside, the extension types, each in any order, and the signature
      algorithms in their order. */
  ghost predicate SameShown(v: nat, c: seq<nat>, f: Facts, w: nat, d: seq<nat>, g: Facts) {
    && VersionText(VersionOf(v, f)) == VersionText(VersionOf(w, g)) && AlpnText(f.alpn) == AlpnText(g.alpn)
    && (SERVER_NAME in f.ids <==> SERVER_NAME in g.ids) && Capped(|f.ids|) == Capped(|g.ids|)
    && Permuted(c, d) && Permuted(WithoutNameAndAlpn(f.ids), WithoutNameAndAlpn(g.ids)) && f.sigAlgs == g.sigAlgs
  }

  /** Nothing else is in the fingerprint. */
  lemma ShownDecides(v: nat, c: seq<nat>, f: Facts, w: nat, d: seq<nat>, g: Facts, sha: string -> string)
    requires SameShown(v, c, f, w, d, g)
    ensures Ja4Of(v, c, f, sha) == Ja4Of(w, d, g, sha)
  {
    hide Sort, JoinHex4, WithoutNameAndAlpn, VersionText, AlpnText, Max;
    assert |c| == |multiset(c)| == |multiset(d)| == |d|;
    SortForgetsOrder(c, d);
    SortForgetsOrder(WithoutNameAndAlpn(f.ids), WithoutNameAndAlpn(g.ids));
  }

  lemma MaxForgetsOrder(s: seq<nat>, t: seq<nat>)
    requires Permuted(s, t) && s != [] && t != []
    ensures Max(s) == Max(t)
  {
    var a, b := Max(s), Max(t);
    assert a in multiset(s) && a in multiset(t) && a in t;
    assert b in multiset(t) && b in multiset(s) && b in s;
  }

  lemma VersionForgetsOrder(legacyVersion: nat, f: Facts, g: Facts)
    requires Permuted(f.versions, g.versions)
    ensures VersionOf(legacyVersion, f) == VersionOf(legacyVersion, g)
  {
    assert |f.versions| == |multiset(f.versions)| == |multiset(g.versions)| == |g.versions|;
    if f.versions != [] { MaxForgetsOrder(f.versions, g.versions); }
  }

  lemma IdsForgetOrder(s: seq<nat>, t: seq<nat>)
    requires Permuted(s, t)
    ensures |s| == |t| && (SERVER_NAME in s <==> SERVER_NAME in t)
    ensures Permuted(WithoutNameAndAlpn(s), WithoutNameAndAlpn(t))
  {
    WithoutForgetsOrder(s, t);
    hide WithoutNameAndAlpn;
    assert |s| == |multiset(s)| == |multiset(t)| == |t|;
    assert SERVER_NAME in s <==> SERVER_NAME in multiset(s);
    assert SERVER_NAME in t <==> SERVER_NAME in multiset(t);
  }

  // ---- Hellos by their contents ----

  /** An extension: the two that hold a list of two-byte values, or any other. */
  datatype Extension =
    | SupportedVersions(versions: seq<nat>)
    | SignatureAlgorithms(algs: seq<nat>)
    | Other(kind: nat, data: Bytes)

  datatype HelloSpec = HelloSpec(legacyVersion: nat, ciphers: seq<nat>, extensions: seq<Extension>)

  predicate U16Values(values: seq<nat>) { forall i :: 0 <= i < |values| ==> values[i] < 0x1_0000 }

  predicate Encodable(e: Extension) {
    match e
    case SupportedVersions(v) => U16Values(v) && 2 * |v| < 256
    case SignatureAlgorithms(a) => U16Values(a) && 2 * |a| + 2 < 0x1_0000
    case Other(kind, data) => kind < 0x1_0000 && |data| < 0x1_0000
  }

  predicate AllEncodable(exts: seq<Extension>) { forall i :: 0 <= i < |exts| ==> Encodable(exts[i]) }

  predicate HelloEncodable(h: HelloSpec) { U16Values(h.ciphers) && AllEncodable(h.extensions) }

  function EncodeU16s(values: seq<nat>): (r: Bytes)
    requires U16Values(values)
    ensures |r| == 2 * |values|
  {
    if values == [] then [] else U16Bytes(values[0]) + EncodeU16s(values[1..])
  }

  function Encoded(e: Extension): Ext
    requires Encodable(e)
  {
    match e
    case SupportedVersions(v) => Ext(SUPPORTED_VERSIONS, [2 * |v|] + EncodeU16s(v))
    case SignatureAlgorithms(a) => Ext(SIGNATURE_ALGORITHMS, U16Bytes(2 * |a|) + EncodeU16s(a))
    case Other(kind, data) => Ext(kind, data)
  }

  function EncodedAll(exts: seq<Extension>): (r: seq<Ext>)
    requires AllEncodable(exts)
    ensures |r| == |exts| && forall i :: 0 <= i < |r| ==> r[i] == Encoded(exts[i])
  {
    if exts == [] then [] else [Encoded(exts[0])] + EncodedAll(exts[1..])
  }

  function ExtBytes(e: Ext): Bytes
    requires e.kind < 0x1_0000 && |e.data| < 0x1_0000
  {
    U16Bytes(e.kind) + U16Bytes(|e.data|) + e.data
  }

  function ExtensionBytes(exts: seq<Extension>): Bytes
    requires AllEncodable(exts)
  {
    if exts == [] then [] else ExtBytes(Encoded(exts[0])) + ExtensionBytes(exts[1..])
  }

  function OnTheWire(h: HelloSpec): Hello
    requires HelloEncodable(h)
  {
    Hello(h.legacyVersion, EncodeU16s(h.ciphers), ExtensionBytes(h.extensions))
  }

  lemma {:induction false} U16sRoundTrip(values: seq<nat>)
    requires U16Values(values)
    ensures U16s(EncodeU16s(values)) == values
  {
    if values != [] {
      var s := EncodeU16s(values);
      assert U16(s, 0) == values[0];
      assert s[2..] == EncodeU16s(values[1..]);
      U16sRoundTrip(values[1..]);
    }
  }

  lemma ListRoundTrip(e: Extension)
    requires Encodable(e)
    ensures e.SupportedVersions? ==> Versions(Encoded(e).data) == NonGrease(e.versions)
    ensures e.SignatureAlgorithms? ==> SigAlgs(Encoded(e).data) == NonGrease(e.algs)
  {
    hide NonGrease, U16s, EncodeU16s;
    match e
    case SupportedVersions(v) =>
      U16sRoundTrip(v);
      assert Listed(Encoded(e).data, 1, 2 * |v|) == EncodeU16s(v);
    case SignatureAlgorithms(a) =>
      U16sRoundTrip(a);
      assert U16(Encoded(e).data, 0) == 2 * |a|;
      assert Listed(Encoded(e).data, 2, 2 * |a|) == EncodeU16s(a);
    case Other(_, _) =>
  }

  /** One extension, read where it stands. */
  lemma ExtAt(s: Bytes, at: nat, e: Ext, rest: Bytes)
    requires at <= |s| && e.kind < 0x1_0000 && |e.data| < 0x1_0000 && s[at..] == ExtBytes(e) + rest
    ensures var end := at + 4 + |e.data|;
      end <= |s| && U16(s, at) == e.kind && U16(s, at + 2) == |e.data| && s[at + 4..end] == e.data && s[end..] == rest
  {
    var tail, end := s[at..], at + 4 + |e.data|;
    assert tail[0] == e.kind / 256 && tail[1] == e.kind % 256;
    assert tail[2] == |e.data| / 256 && tail[3] == |e.data| % 256;
    assert s[at] == tail[0] && s[at + 1] == tail[1] && s[at + 2] == tail[2] && s[at + 3] == tail[3];
    assert s[at + 4..end] == tail[4..4 + |e.data|] == e.data;
    assert s[end..] == tail[4 + |e.data|..] == rest;
  }

  lemma ParseStep(s: Bytes, at: nat, e: Ext, rest: Bytes)
    requires at <= |s| && e.kind < 0x1_0000 && |e.data| < 0x1_0000 && s[at..] == ExtBytes(e) + rest
    ensures var end := at + 4 + |e.data|; end <= |s| && s[end..] == rest && ParseExts(s, at) == [e] + ParseExts(s, end)
  {
    ExtAt(s, at, e, rest);
    hide ExtBytes, U16;
  }

  lemma EncodedCons(exts: seq<Extension>)
    requires exts != [] && AllEncodable(exts)
    ensures var e, rest := exts[0], exts[1..];
      && Encodable(e) && AllEncodable(rest) && Encoded(e).kind < 0x1_0000 && |Encoded(e).data| < 0x1_0000
      && EncodedAll(exts) == [Encoded(e)] + EncodedAll(rest)
      && ExtensionBytes(exts) == ExtBytes(Encoded(e)) + ExtensionBytes(rest)
  {
    hide Encoded, Encodable, ExtBytes;
    EncodedFits(exts[0]);
  }

  lemma NothingToParse(s: Bytes, exts: seq<Extension>)
    requires exts == []
    ensures ParseExts(s, |s|) == EncodedAll(exts) && ExtensionBytes(exts) == []
  {
  }

  lemma {:induction false} ExtensionsRoundTrip(s: Bytes, at: nat, exts: seq<Extension>)
    requires at <= |s| && AllEncodable(exts) && s[at..] == ExtensionBytes(exts)
    ensures ParseExts(s, at) == EncodedAll(exts)
    decreases |exts|
  {
    hide ParseExts, Encoded, Encodable, ExtBytes, ExtensionBytes, EncodedAll, AllEncodable;
    if exts == [] {
      NothingToParse(s, exts);
      assert |s[at..]| == 0;
    } else {
      EncodedCons(exts);
      var e := Encoded(exts[0]);
      ParseStep(s, at, e, ExtensionBytes(exts[1..]));
      ExtensionsRoundTrip(s, at + 4 + |e.data|, exts[1..]);
    }
  }

  lemma EncodedFits(e: Extension)
    requires Encodable(e)
    ensures Encoded(e).kind < 0x1_0000 && |Encoded(e).data| < 0x1_0000
  {
  }

  // ---- Leaving GREASE out ----

  function Kind(e: Extension): nat {
    match e
    case SupportedVersions(_) => SUPPORTED_VERSIONS
    case SignatureAlgorithms(_) => SIGNATURE_ALGORITHMS
    case Other(kind, _) => kind
  }

  function CleanOne(e: Extension): (r: Extension)
    ensures Kind(r) == Kind(e)
  {
    match e
    case SupportedVersions(v) => SupportedVersions(NonGrease(v))
    case SignatureAlgorithms(a) => SignatureAlgorithms(NonGrease(a))
    case Other(_, _) => e
  }

  /** The extensions without GREASE: none of its types, none of its values in the two lists. */
  function Clean(exts: seq<Extension>): seq<Extension> {
    if exts == [] then [] else CleanPart(exts[0]) + Clean(exts[1..])
  }

  function CleanPart(e: Extension): seq<Extension> {
    if IsGrease(Kind(e)) then [] else [CleanOne(e)]
  }

  lemma {:induction false} NonGreaseFixed(values: seq<nat>)
    ensures NonGrease(NonGrease(values)) == NonGrease(values)
    ensures U16Values(values) ==> U16Values(NonGrease(values))
  {
    if values != [] {
      NonGreaseFixed(values[1..]);
      if !IsGrease(values[0]) { assert ([values[0]] + NonGrease(values[1..]))[1..] == NonGrease(values[1..]); }
    }
  }

  /** Leaving GREASE out of an extension changes nothing the fingerprint takes from it. */
  lemma CleanOneSame(f: Facts, e: Extension)
    requires Encodable(e)
    ensures Encodable(CleanOne(e)) && AddExt(f, Encoded(CleanOne(e))) == AddExt(f, Encoded(e))
  {
    hide NonGrease, Versions, SigAlgs, EncodeU16s, U16Values, IsGrease;
    ListRoundTrip(e);
    match e
    case SupportedVersions(v) => NonGreaseFixed(v); ListRoundTrip(CleanOne(e));
    case SignatureAlgorithms(a) => NonGreaseFixed(a); ListRoundTrip(CleanOne(e));
    case Other(_, _) =>
  }

  lemma {:induction false} CleanSame(f: Facts, exts: seq<Extension>)
    requires AllEncodable(exts)
    ensures AllEncodable(Clean(exts))
    ensures FactsFrom(f, EncodedAll(Clean(exts))) == FactsFrom(f, EncodedAll(exts))
    decreases |exts|
  {
    if exts != [] {
      hide AddExt, Encodable, Encoded, CleanOne, IsGrease, Kind;
      var e, rest := exts[0], exts[1..];
      assert EncodedAll(exts)[1..] == EncodedAll(rest);
      var g := AddExt(f, Encoded(e));
      CleanSame(g, rest);
      if IsGrease(Kind(e)) {
        GreaseSkipped(f, e);
        assert Clean(exts) == Clean(rest);
      } else {
        CleanOneSame(f, e);
        assert EncodedAll(Clean(exts))[1..] == EncodedAll(Clean(rest));
      }
    }
  }

  lemma GreaseSkipped(f: Facts, e: Extension)
    requires Encodable(e) && IsGrease(Kind(e))
    ensures AddExt(f, Encoded(e)) == f
  {
  }

  // ---- Order of the extensions ----

  /** The type comes up at most once. */
  ghost predicate Once(exts: seq<Ext>, kind: nat) {
    forall i, j :: 0 <= i < j < |exts| ==> exts[i].kind != kind || exts[j].kind != kind
  }

  /** The extension of a type, if there is one. */
  function Find(exts: seq<Ext>, kind: nat): (r: Option<Ext>)
    ensures r.Some? ==> r.value in exts && r.value.kind == kind
    ensures r.None? ==> forall i :: 0 <= i < |exts| ==> exts[i].kind != kind
  {
    if exts == [] then None else if exts[0].kind == kind then Some(exts[0]) else Find(exts[1..], kind)
  }

  function Kinds(exts: seq<Ext>): (r: seq<nat>)
    ensures |r| == |exts| && forall i :: 0 <= i < |r| ==> r[i] == exts[i].kind
  {
    if exts == [] then [] else [exts[0].kind] + Kinds(exts[1..])
  }

  ghost predicate NoGreaseKinds(exts: seq<Ext>) { forall i :: 0 <= i < |exts| ==> !IsGrease(exts[i].kind) }

  /** What the extension of a type, if there is one, adds. */
  function VersionsOf(e: Option<Ext>): seq<nat> { if e.None? then [] else Versions(e.value.data) }

  function SigAlgsOf(e: Option<Ext>): seq<nat> { if e.None? then [] else SigAlgs(e.value.data) }

  function ProtocolOf(e: Option<Ext>, otherwise: Option<Bytes>): Option<Bytes> {
    if e.None? || FirstProtocol(e.value.data).None? then otherwise else FirstProtocol(e.value.data)
  }

  function Only(e: Ext, kind: nat): Option<Ext> { if e.kind == kind then Some(e) else None }

  /** The versions of every extension that lists some, one list after the other. */
  function VersionsIn(exts: seq<Ext>): seq<nat> {
    if exts == [] then [] else VersionsOf(Only(exts[0], SUPPORTED_VERSIONS)) + VersionsIn(exts[1..])
  }

  lemma AddExtFields(f: Facts, e: Ext)
    requires !IsGrease(e.kind)
    ensures var r := AddExt(f, e);
      && r.ids == f.ids + [e.kind]
      && r.versions == f.versions + VersionsOf(Only(e, SUPPORTED_VERSIONS))
      && r.alpn == ProtocolOf(Only(e, ALPN), f.alpn)
      && r.sigAlgs == f.sigAlgs + SigAlgsOf(Only(e, SIGNATURE_ALGORITHMS))
  {
  }

  // The first extension's part of each field and the part of the rest, put together.

  lemma KindsCons(exts: seq<Ext>)
    requires exts != []
    ensures [exts[0].kind] + Kinds(exts[1..]) == Kinds(exts)
  {
  }

  lemma SigAlgsCons(exts: seq<Ext>)
    requires exts != [] && Once(exts, SIGNATURE_ALGORITHMS)
    ensures SigAlgsOf(Only(exts[0], SIGNATURE_ALGORITHMS)) + SigAlgsOf(Find(exts[1..], SIGNATURE_ALGORITHMS))
         == SigAlgsOf(Find(exts, SIGNATURE_ALGORITHMS))
  {
    NotAgain(exts, SIGNATURE_ALGORITHMS);
    FindCons(exts, SIGNATURE_ALGORITHMS);
    hide SigAlgs, Once, Find;
  }

  lemma ProtocolCons(exts: seq<Ext>, alpn: Option<Bytes>)
    requires exts != [] && Once(exts, ALPN)
    ensures ProtocolOf(Find(exts[1..], ALPN), ProtocolOf(Only(exts[0], ALPN), alpn))
      == ProtocolOf(Find(exts, ALPN), alpn)
  {
    NotAgain(exts, ALPN);
    FindCons(exts, ALPN);
    hide FirstProtocol, Once, Find;
  }

  lemma FindCons(exts: seq<Ext>, kind: nat)
    requires exts != []
    ensures Find(exts, kind) == if exts[0].kind == kind then Some(exts[0]) else Find(exts[1..], kind)
  {
  }

  lemma NotAgain(exts: seq<Ext>, kind: nat)
    requires exts != [] && Once(exts, kind)
    ensures exts[0].kind == kind ==> Find(exts[1..], kind).None?
    ensures Once(exts[1..], kind)
  {
  }

  /** With ALPN and signature algorithms at most once, each field comes from the extensions of its
      own type. */
  lemma {:induction false} FactsByType(f: Facts, exts: seq<Ext>)
    requires Once(exts, ALPN) && Once(exts, SIGNATURE_ALGORITHMS) && NoGreaseKinds(exts)
    ensures var r := FactsFrom(f, exts);
      && r.ids == f.ids + Kinds(exts)
      && r.versions == f.versions + VersionsIn(exts)
      && r.alpn == ProtocolOf(Find(exts, ALPN), f.alpn)
      && r.sigAlgs == f.sigAlgs + SigAlgsOf(Find(exts, SIGNATURE_ALGORITHMS))
    decreases |exts|
  {
    hide IsGrease, Versions, SigAlgs, FirstProtocol, AddExt;
    if exts == [] {
      assert f.ids + Kinds(exts) == f.ids;
    } else {
      var e, rest := exts[0], exts[1..];
      var g := AddExt(f, e);
      assert FactsFrom(f, exts) == FactsFrom(g, rest);
      FactsByType(g, rest);
      AddExtFields(f, e);
      KindsCons(exts);
      SigAlgsCons(exts);
      ProtocolCons(exts, f.alpn);
      assert VersionsIn(exts) == VersionsOf(Only(e, SUPPORTED_VERSIONS)) + VersionsIn(rest);
      hide Find, FactsFrom, VersionsOf, SigAlgsOf, ProtocolOf, Kinds, Only, VersionsIn;
      Basics.Assoc(f.ids, [e.kind], Kinds(rest));
      Basics.Assoc(f.versions, VersionsOf(Only(e, SUPPORTED_VERSIONS)), VersionsIn(rest));
      Basics.Assoc(f.sigAlgs, SigAlgsOf(Only(e, SIGNATURE_ALGORITHMS)), SigAlgsOf(Find(rest, SIGNATURE_ALGORITHMS)));
    }
  }

  lemma {:induction false} VersionsWithout(exts: seq<Ext>, j: nat)
    requires j < |exts|
    ensures multiset(VersionsIn(exts))
         == multiset(VersionsIn(Without(exts, j))) + multiset(VersionsOf(Only(exts[j], SUPPORTED_VERSIONS)))
  {
    hide VersionsOf, Only;
    if j > 0 {
      VersionsWithout(exts[1..], j - 1);
      assert Without(exts, j)[1..] == Without(exts[1..], j - 1);
    }
  }

  lemma {:induction false} VersionsForgetOrder(x: seq<Ext>, y: seq<Ext>)
    requires Permuted(x, y)
    ensures multiset(VersionsIn(x)) == multiset(VersionsIn(y))
    decreases |x|
  {
    hide VersionsOf, Only, Permuted, Without;
    if x == [] {
      EmptyPermuted(x, y);
    } else {
      var j := IndexIn(x, y);
      PermutedWithout(x, 0, y, j);
      WithoutShorter(x, 0);
      VersionsWithout(x, 0);
      VersionsWithout(y, j);
      hide VersionsIn;
      VersionsForgetOrder(Without(x, 0), Without(y, j));
    }
  }

  lemma FindIsTheOne(exts: seq<Ext>, e: Ext)
    requires Once(exts, e.kind) && e in exts
    ensures Find(exts, e.kind) == Some(e)
  {
  }

  lemma FindForgetsOrder(x: seq<Ext>, y: seq<Ext>, kind: nat)
    requires Permuted(x, y) && Once(x, kind) && Once(y, kind)
    ensures Find(x, kind) == Find(y, kind)
  {
    assert forall e :: e in x <==> e in y by {
      assert forall e :: e in x <==> e in multiset(x);
      assert forall e :: e in y <==> e in multiset(y);
    }
    if Find(x, kind).Some? { FindIsTheOne(y, Find(x, kind).value); }
    if Find(y, kind).Some? { FindIsTheOne(x, Find(y, kind).value); }
  }

  lemma OneMore(a: seq<nat>, x: nat, b: seq<nat>)
    ensures multiset(a + [x] + b) == multiset(a + b) + multiset{x}
  {
  }

  function KindOf(e: Ext): nat { e.kind }

  lemma KindsForgetOrder(x: seq<Ext>, y: seq<Ext>)
    requires Permuted(x, y)
    ensures Permuted(Kinds(x), Kinds(y))
  {
    hide Permuted, Kinds, Map;
    MapForgetsOrder(KindOf, x, y);
    assert Kinds(x) == Map(KindOf, x);
    assert Kinds(y) == Map(KindOf, y);
  }

  lemma OnceForgetsOrder(x: seq<Ext>, y: seq<Ext>, kind: nat)
    requires Permuted(x, y) && Once(x, kind)
    ensures Once(y, kind)
  {
    KindsForgetOrder(x, y);
    AtMostOnce(Kinds(x), kind);
    forall i, j | 0 <= i < j < |y| ensures y[i].kind != kind || y[j].kind != kind {
      if y[i].kind == y[j].kind == kind { TwiceCounted(Kinds(y), i, j); }
    }
  }

  lemma NoGreaseForgetsOrder(x: seq<Ext>, y: seq<Ext>)
    requires Permuted(x, y) && NoGreaseKinds(x)
    ensures NoGreaseKinds(y)
  {
    hide IsGrease;
    forall i | 0 <= i < |y| ensures !IsGrease(y[i].kind) {
      assert y[i] in multiset(y) && y[i] in x;
    }
  }

  lemma {:induction false} AtMostOnce(s: seq<nat>, k: nat)
    requires forall i, j :: 0 <= i < j < |s| ==> s[i] != k || s[j] != k
    ensures multiset(s)[k] <= 1
  {
    if s != [] {
      assert s == [s[0]] + s[1..];
      AtMostOnce(s[1..], k);
      assert s[0] == k ==> k !in s[1..];
    }
  }

  lemma TwiceCounted(s: seq<nat>, i: nat, j: nat)
    requires i < j < |s| && s[i] == s[j]
    ensures multiset(s)[s[i]] >= 2
  {
    assert s == s[..i] + [s[i]] + s[i + 1..j] + [s[j]] + s[j + 1..];
  }

  lemma FactsForgetOrder(x: seq<Ext>, y: seq<Ext>)
    requires Permuted(x, y) && Once(x, ALPN) && Once(x, SIGNATURE_ALGORITHMS) && NoGreaseKinds(x)
    ensures var a, b := FactsFrom(NO_FACTS, x), FactsFrom(NO_FACTS, y);
      Permuted(a.ids, b.ids) && Permuted(a.versions, b.versions) && a.alpn == b.alpn && a.sigAlgs == b.sigAlgs
  {
    VersionsForgetOrder(x, y);
    hide IsGrease, FactsFrom, VersionsIn, SigAlgsOf, ProtocolOf, Find, Once, NoGreaseKinds, Kinds;
    assert Permuted(VersionsIn(x), VersionsIn(y));
    hide Permuted;
    OnceForgetsOrder(x, y, ALPN);
    OnceForgetsOrder(x, y, SIGNATURE_ALGORITHMS);
    NoGreaseForgetsOrder(x, y);
    FactsByType(NO_FACTS, x);
    FactsByType(NO_FACTS, y);
    KindsForgetOrder(x, y);
    assert NO_FACTS.ids + Kinds(x) == Kinds(x) && NO_FACTS.ids + Kinds(y) == Kinds(y);
    assert NO_FACTS.versions + VersionsIn(x) == VersionsIn(x) && NO_FACTS.versions + VersionsIn(y) == VersionsIn(y);
    FindForgetsOrder(x, y, ALPN);
    FindForgetsOrder(x, y, SIGNATURE_ALGORITHMS);
  }

  // ---- The law ----

  /** Without GREASE, the two hellos have the same ciphers and the same extensions, in some order. */
  ghost predicate SameUpToOrderAndGrease(g: HelloSpec, h: HelloSpec) {
    && g.legacyVersion == h.legacyVersion
    && Permuted(NonGrease(g.ciphers), NonGrease(h.ciphers))
    && Permuted(Clean(g.extensions), Clean(h.extensions))
  }

  ghost predicate KindOnce(exts: seq<Extension>, kind: nat) {
    forall i, j :: 0 <= i < j < |exts| ==> Kind(exts[i]) != kind || Kind(exts[j]) != kind
  }

  lemma {:induction false} CleanHasNoGrease(exts: seq<Extension>)
    ensures forall i :: 0 <= i < |Clean(exts)| ==> !IsGrease(Kind(Clean(exts)[i]))
  {
    hide IsGrease, CleanOne, Kind;
    if exts != [] { CleanHasNoGrease(exts[1..]); }
  }

  lemma EncodedKind(e: Extension)
    requires Encodable(e)
    ensures Encoded(e).kind == Kind(e)
  {
  }

  lemma EncodedForgetsOrder(x: seq<Extension>, y: seq<Extension>)
    requires AllEncodable(x) && AllEncodable(y) && Permuted(x, y)
    ensures Permuted(EncodedAll(x), EncodedAll(y))
  {
    hide Encodable, Encoded, Permuted, Map, EncodedAll;
    MapForgetsOrder(Encoded, x, y);
    assert EncodedAll(x) == Map(Encoded, x);
    assert EncodedAll(y) == Map(Encoded, y);
  }

  lemma EncodedOnce(exts: seq<Extension>, kind: nat)
    requires AllEncodable(exts) && KindOnce(exts, kind)
    ensures Once(EncodedAll(exts), kind)
  {
    hide Kind, Encoded, EncodedAll, Encodable;
    forall i | 0 <= i < |exts| ensures Encoded(exts[i]).kind == Kind(exts[i]) { EncodedKind(exts[i]); }
  }

  lemma EncodedClean(exts: seq<Extension>)
    requires AllEncodable(Clean(exts))
    ensures NoGreaseKinds(EncodedAll(Clean(exts)))
  {
    hide IsGrease, Kind, Encoded, EncodedAll, Clean, Encodable;
    CleanHasNoGrease(exts);
    var x := Clean(exts);
    forall i | 0 <= i < |x| ensures Encoded(x[i]).kind == Kind(x[i]) { EncodedKind(x[i]); }
  }

  /** What the fingerprint takes from the bytes of a hello is what its GREASE-free contents give. */
  lemma FactsOfWire(exts: seq<Extension>)
    requires AllEncodable(exts)
    ensures AllEncodable(Clean(exts))
    ensures FactsFrom(NO_FACTS, ParseExts(ExtensionBytes(exts), 0)) == FactsFrom(NO_FACTS, EncodedAll(Clean(exts)))
  {
    hide FactsFrom, ParseExts, EncodedAll, Clean;
    var s := ExtensionBytes(exts);
    assert s[0..] == s;
    ExtensionsRoundTrip(s, 0, exts);
    CleanSame(NO_FACTS, exts);
  }

  /** JA4 is the same for any two hellos whose contents without GREASE are the same up to order: so
      no reordering of ciphers or extensions, and no GREASE put in among ciphers, extensions,
      supported versions or signature algorithms, changes it, as long as ALPN and the signature
      algorithms come up once; only these two are read in order. */
  lemma Ja4Invariant(g: HelloSpec, h: HelloSpec, sha: string -> string)
    requires HelloEncodable(g) && HelloEncodable(h) && SameUpToOrderAndGrease(g, h)
    requires KindOnce(Clean(g.extensions), ALPN) && KindOnce(Clean(g.extensions), SIGNATURE_ALGORITHMS)
    ensures Fingerprint(OnTheWire(g), sha) == Fingerprint(OnTheWire(h), sha)
  {
    hide FactsFrom, ParseExts, EncodedAll, Clean, Ja4Of, NonGrease, U16s, KindOnce, AllEncodable, Permuted, VersionOf,
      WithoutNameAndAlpn, Once, NoGreaseKinds;
    U16sRoundTrip(g.ciphers);
    U16sRoundTrip(h.ciphers);
    FactsOfWire(g.extensions);
    FactsOfWire(h.extensions);
    var x, y := EncodedAll(Clean(g.extensions)), EncodedAll(Clean(h.extensions));
    EncodedClean(g.extensions);
    EncodedOnce(Clean(g.extensions), ALPN);
    EncodedOnce(Clean(g.extensions), SIGNATURE_ALGORITHMS);
    EncodedForgetsOrder(Clean(g.extensions), Clean(h.extensions));
    FactsForgetOrder(x, y);
    var a, b := FactsFrom(NO_FACTS, x), FactsFrom(NO_FACTS, y);
    IdsForgetOrder(a.ids, b.ids);
    VersionForgetsOrder(g.legacyVersion, a, b);
    ShownDecides(g.legacyVersion, NonGrease(g.ciphers), a, h.legacyVersion, NonGrease(h.ciphers), b, sha);
  }

  /** And GREASE alone never changes it, whatever is repeated. */
  lemma Ja4IgnoresGrease(g: HelloSpec, h: HelloSpec, sha: string -> string)
    requires HelloEncodable(g) && HelloEncodable(h) && g.legacyVersion == h.legacyVersion
    requires NonGrease(g.ciphers) == NonGrease(h.ciphers) && Clean(g.extensions) == Clean(h.extensions)
    ensures Fingerprint(OnTheWire(g), sha) == Fingerprint(OnTheWire(h), sha)
  {
    hide FactsFrom, ParseExts, EncodedAll, Clean, Ja4Of, NonGrease, U16s, AllEncodable;
    U16sRoundTrip(g.ciphers);
    U16sRoundTrip(h.ciphers);
    FactsOfWire(g.extensions);
    FactsOfWire(h.extensions);
  }

  // ---- Reordering and GREASE, one at a time ----

  lemma {:induction false} NonGreaseCounts(values: seq<nat>, v: nat)
    ensures multiset(NonGrease(values))[v] == if IsGrease(v) then 0 else multiset(values)[v]
  {
    if values != [] {
      assert values == [values[0]] + values[1..];
      NonGreaseCounts(values[1..], v);
    }
  }

  lemma {:induction false} CleanWithout(exts: seq<Extension>, j: nat)
    requires j < |exts|
    ensures multiset(Clean(exts)) == multiset(Clean(Without(exts, j))) + multiset(CleanPart(exts[j]))
  {
    hide CleanPart;
    if j > 0 {
      CleanWithout(exts[1..], j - 1);
      assert Without(exts, j)[1..] == Without(exts[1..], j - 1);
    }
  }

  lemma {:induction false} CleanForgetsOrder(x: seq<Extension>, y: seq<Extension>)
    requires Permuted(x, y)
    ensures multiset(Clean(x)) == multiset(Clean(y))
    decreases |x|
  {
    hide CleanPart, Permuted, Without;
    if x == [] {
      EmptyPermuted(x, y);
    } else {
      var j := IndexIn(x, y);
      PermutedWithout(x, 0, y, j);
      WithoutShorter(x, 0);
      CleanWithout(x, 0);
      CleanWithout(y, j);
      hide Clean;
      CleanForgetsOrder(Without(x, 0), Without(y, j));
    }
  }

  lemma {:induction false} WithoutShorter<T>(s: seq<T>, j: nat)
    requires j < |s|
    ensures |Without(s, j)| == |s| - 1
  {
    if j > 0 { WithoutShorter(s[1..], j - 1); }
  }

  /** Reordering ciphers and extensions is such a change. */
  lemma ReorderingIsSame(g: HelloSpec, h: HelloSpec)
    requires g.legacyVersion == h.legacyVersion && Permuted(g.ciphers, h.ciphers)
      && Permuted(g.extensions, h.extensions)
    ensures SameUpToOrderAndGrease(g, h)
  {
    hide NonGrease, Clean, IsGrease;
    forall v: nat ensures multiset(NonGrease(g.ciphers))[v] == multiset(NonGrease(h.ciphers))[v] {
      NonGreaseCounts(g.ciphers, v);
      NonGreaseCounts(h.ciphers, v);
    }
    CleanForgetsOrder(g.extensions, h.extensions);
  }

  lemma {:induction false} GreaseVanishes(before: seq<nat>, g: nat, after: seq<nat>)
    requires IsGrease(g)
    ensures NonGrease(before + [g] + after) == NonGrease(before + after)
  {
    hide IsGrease;
    if before == [] {
      assert ([] + [g] + after)[1..] == after && [] + after == after;
    } else {
      GreaseVanishes(before[1..], g, after);
      assert (before + [g] + after)[1..] == before[1..] + [g] + after;
      assert (before + after)[1..] == before[1..] + after;
    }
  }

  lemma {:induction false} CleanJoin(a: seq<Extension>, b: seq<Extension>)
    ensures Clean(a + b) == Clean(a) + Clean(b)
  {
    hide CleanPart;
    if a == [] {
      assert a + b == b;
    } else {
      var rest := a[1..];
      CleanJoin(rest, b);
      assert (a + b)[1..] == rest + b && (a + b)[0] == a[0];
      assert Clean(a + b) == CleanPart(a[0]) + Clean(rest + b);
      assert Clean(a) == CleanPart(a[0]) + Clean(rest);
      hide Clean;
      assert CleanPart(a[0]) + (Clean(rest) + Clean(b)) == CleanPart(a[0]) + Clean(rest) + Clean(b);
    }
  }

  /** So is putting a GREASE value anywhere among the ciphers, a GREASE extension anywhere among the
      extensions, and changing an extension only in the GREASE values of its list. */
  lemma GreaseIsSame(h: HelloSpec, before: seq<nat>, g: nat, after: seq<nat>,
                     left: seq<Extension>, was: seq<Extension>, now: seq<Extension>, right: seq<Extension>)
    requires IsGrease(g) && h.ciphers == before + after && h.extensions == left + was + right
    requires Clean(was) == Clean(now)
    ensures SameUpToOrderAndGrease(h, HelloSpec(h.legacyVersion, before + [g] + after, left + now + right))
  {
    hide Clean, NonGrease, IsGrease;
    GreaseVanishes(before, g, after);
    CleanJoin(left + was, right);
    CleanJoin(left, was);
    CleanJoin(left + now, right);
    CleanJoin(left, now);
  }

  lemma GreaseInside(before: seq<nat>, g: nat, after: seq<nat>, kind: nat, data: Bytes)
    requires IsGrease(g) && IsGrease(kind)
    ensures Clean([]) == Clean([Other(kind, data)])
    ensures Clean([SupportedVersions(before + after)]) == Clean([SupportedVersions(before + [g] + after)])
    ensures Clean([SignatureAlgorithms(before + after)]) == Clean([SignatureAlgorithms(before + [g] + after)])
  {
    GreaseVanishes(before, g, after);
    hide NonGrease;
  }
}
