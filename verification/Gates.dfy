/** What decides a protection check before the IP's own state does: the address lists, the fingerprint
    lists, and the required server name. */
module Gates {
  import opened Wrappers
  import opened Protection

  /** Which addresses a network contains is given. */
  datatype Network = Network(contains: Ip -> bool)

  type Digest = seq<nat>

  datatype Lists = Lists(allow: seq<Network>, block: seq<Network>, ja3: set<Digest>, ja4: set<string>, requireSni: bool)

  /** What the peeked hello gave: whether it was put together whole, its fingerprints, its name. */
  datatype Peek = Peek(complete: bool, ja3: string, ja4: string, sni: Option<string>)

  datatype Gate = Onward | Bypass | Stop(reason: Reason)

  datatype Reason = CidrBlocked | IncompleteHandshake | Ja3Blocked | Ja4Blocked | NoSni

  function HexDigit(c: char): Option<nat> {
    if '0' <= c <= '9' then Some(c as nat - '0' as nat)
    else if 'a' <= c <= 'f' then Some(c as nat - 'a' as nat + 10)
    else if 'A' <= c <= 'F' then Some(c as nat - 'A' as nat + 10)
    else None
  }

  function HexBytes(s: string): Option<Digest> {
    if s == "" then Some([])
    else if |s| == 1 then None
    else
      var high, low, rest := HexDigit(s[0]), HexDigit(s[1]), HexBytes(s[2..]);
      if high.None? || low.None? || rest.None? then None else Some([16 * high.value + low.value] + rest.value)
  }

  predicate In(networks: seq<Network>, ip: Ip) { exists i :: 0 <= i < |networks| && networks[i].contains(ip) }

  lemma InExactly(networks: seq<Network>, ip: Ip)
    ensures In(networks, ip) <==> exists network :: network in networks && network.contains(ip)
  {
  }

  predicate Ja3On(lists: Lists, ja3: string) {
    |ja3| == 32 && HexBytes(ja3).Some? && HexBytes(ja3).value in lists.ja3
  }

  /** On neither address list. */
  predicate Reached(lists: Lists, ip: Ip) { !In(lists.allow, ip) && !In(lists.block, ip) }

  /** Its fingerprints are of the whole hello, wherever they matter. */
  predicate Trusted(lists: Lists, peek: Peek) { lists.ja3 != {} || lists.ja4 != {} ==> peek.complete }

  predicate Clean(lists: Lists, peek: Peek) {
    Trusted(lists, peek) && !Ja3On(lists, peek.ja3) && (peek.ja4 == "" || peek.ja4 !in lists.ja4)
  }

  predicate IsHex(c: char, d: nat) { d < 16 && (c == "0123456789abcdef"[d] || c == "0123456789ABCDEF"[d]) }

  predicate ByteAt(s: string, i: nat, v: nat) {
    2 * i + 1 < |s| && v < 256 && IsHex(s[2 * i], v / 16) && IsHex(s[2 * i + 1], v % 16)
  }

  /** Each byte in two digits of either case. */
  ghost predicate Spells(s: string, digest: Digest) {
    |s| == 2 * |digest| && forall i :: 0 <= i < |digest| ==> ByteAt(s, i, digest[i])
  }

  lemma HexDigitExactly(c: char, d: nat)
    ensures HexDigit(c) == Some(d) <==> IsHex(c, d)
  {
  }

  lemma SpellsFirst(s: string, digest: Digest)
    requires |s| >= 2 && digest != []
    ensures Spells(s, digest) <==> ByteAt(s, 0, digest[0]) && Spells(s[2..], digest[1..])
  {
    hide IsHex;
    var rest, more := s[2..], digest[1..];
    forall i | 0 <= i < |more| ensures ByteAt(rest, i, more[i]) <==> ByteAt(s, i + 1, digest[i + 1]) {
    }
    if ByteAt(s, 0, digest[0]) && Spells(rest, more) {
      forall i | 0 <= i < |digest| ensures ByteAt(s, i, digest[i]) {
        if i > 0 { assert ByteAt(rest, i - 1, more[i - 1]); }
      }
    }
  }

  /** A digest is read from exactly the text that spells it. */
  lemma {:induction false} HexExactly(s: string, digest: Digest)
    ensures HexBytes(s) == Some(digest) <==> Spells(s, digest)
    decreases |s|
  {
    hide HexDigit, IsHex;
    if |s| >= 2 && digest != [] {
      hide Spells;
      SpellsFirst(s, digest);
      HexExactly(s[2..], digest[1..]);
      HexDigitExactly(s[0], digest[0] / 16);
      HexDigitExactly(s[1], digest[0] % 16);
      HexDigitIsSmall(s[0]);
      HexDigitIsSmall(s[1]);
      assert digest == [digest[0]] + digest[1..];
    }
  }

  lemma HexDigitIsSmall(c: char)
    ensures HexDigit(c).Some? ==> HexDigit(c).value < 16
  {
  }

  /** The same in the fields of the lists and of the hello. */
  lemma GatesExactly(lists: Lists, ip: Ip, peek: Peek)
    ensures Reached(lists, ip) <==>
      forall network :: network in lists.allow || network in lists.block ==> !network.contains(ip)
    ensures Trusted(lists, peek) <==> peek.complete || (lists.ja3 == {} && lists.ja4 == {})
    ensures Ja3On(lists, peek.ja3) <==>
      |peek.ja3| == 32 && exists digest :: digest in lists.ja3 && Spells(peek.ja3, digest)
    ensures Clean(lists, peek) <==>
      Trusted(lists, peek) && !Ja3On(lists, peek.ja3) && !(peek.ja4 in lists.ja4 && |peek.ja4| > 0)
  {
    hide HexBytes, Spells;
    InExactly(lists.allow, ip);
    InExactly(lists.block, ip);
    forall digest ensures HexBytes(peek.ja3) == Some(digest) <==> Spells(peek.ja3, digest) {
      HexExactly(peek.ja3, digest);
    }
  }

  /** The loop over a list of networks. */
  method FindNetwork(networks: seq<Network>, ip: Ip) returns (found: bool)
    ensures found == In(networks, ip)
  {
    for i := 0 to |networks|
      invariant forall j :: 0 <= j < i ==> !networks[j].contains(ip)
    {
      if networks[i].contains(ip) {
        return true;
      }
    }
    return false;
  }

  /** Steps 1 to 4 of `check_at`. An address on the allow list goes past everything else. Any other goes
      on to its own state if and only if it is on no block list, its fingerprint can be trusted and is
      on no list wherever such a list is configured, and it names a server where one is required; if
      not, the reason is the first of these that fails. */
  method Pass(lists: Lists, ip: Ip, peek: Peek) returns (gate: Gate)
    ensures gate.Bypass? <==> In(lists.allow, ip)
    ensures gate == Stop(CidrBlocked) <==> !In(lists.allow, ip) && In(lists.block, ip)
    ensures gate == Stop(IncompleteHandshake) <==>
      Reached(lists, ip) && (lists.ja3 != {} || lists.ja4 != {}) && !peek.complete
    ensures gate == Stop(Ja3Blocked) <==> Reached(lists, ip) && Trusted(lists, peek) && Ja3On(lists, peek.ja3)
    ensures gate == Stop(Ja4Blocked) <==>
      && Reached(lists, ip) && Trusted(lists, peek) && !Ja3On(lists, peek.ja3)
      && peek.ja4 != "" && peek.ja4 in lists.ja4
    ensures gate == Stop(NoSni) <==> Reached(lists, ip) && Clean(lists, peek) && lists.requireSni && peek.sni.None?
    ensures gate.Onward? <==> Reached(lists, ip) && Clean(lists, peek) && (lists.requireSni ==> peek.sni.Some?)
  {
    var allowed := FindNetwork(lists.allow, ip);
    if allowed {
      return Bypass;
    }
    var blocked := FindNetwork(lists.block, ip);
    if blocked {
      return Stop(CidrBlocked);
    }
    if (lists.ja3 != {} || lists.ja4 != {}) && !peek.complete {
      return Stop(IncompleteHandshake);
    }
    if lists.ja3 != {} && |peek.ja3| == 32 {
      var digest := HexBytes(peek.ja3);
      if digest.Some? && digest.value in lists.ja3 {
        return Stop(Ja3Blocked);
      }
    }
    if lists.ja4 != {} && peek.ja4 != "" && peek.ja4 in lists.ja4 {
      return Stop(Ja4Blocked);
    }
    if lists.requireSni && peek.sni.None? {
      return Stop(NoSni);
    }
    return Onward;
  }
}
