/** What a route table promises: SNI by SNI it holds what the deciding spec came to, and resolution
    refines its simple specification. */
module RouteLaws {
  import opened Wrappers
  import opened Health
  import opened Router
  import opened RouteTable

  // ---- Installing under one SNI leaves the others alone ----

  lemma WildcardKey(a: string, b: string)
    requires IsWildcard(a) && IsWildcard(b) && a[2..] == b[2..]
    ensures a == b
  {
    assert a == [a[0], a[1]] + a[2..] && b == [b[0], b[1]] + b[2..];
  }

  lemma {:induction false} FindAppended(wildcard: seq<(string, Route)>, suffix: string, route: Route, other: string)
    ensures FindSuffix(wildcard + [(suffix, route)], other)
         == if FindSuffix(wildcard, other).Some? then FindSuffix(wildcard, other)
            else if other == suffix then Some(route) else None
  {
    if wildcard == [] {
      assert wildcard + [(suffix, route)] == [(suffix, route)];
    } else {
      assert (wildcard + [(suffix, route)])[1..] == wildcard[1..] + [(suffix, route)];
      FindAppended(wildcard[1..], suffix, route, other);
    }
  }

  lemma InstallEffect(t: Table, sni: string, route: Route, auth: ClientAuth, other: string)
    requires Installed(t, sni).None?
    ensures Installed(Install(t, sni, route, auth), other) == if other == sni then Some(route) else Installed(t, other)
    ensures Dropped(Install(t, sni, route, auth), other) == Dropped(t, other)
  {
    if IsWildcard(sni) {
      if IsWildcard(other) {
        FindAppended(t.wildcard, sni[2..], route, other[2..]);
        if other[2..] == sni[2..] { WildcardKey(other, sni); }
      }
    }
  }

  lemma TombstoneEffect(t: Table, sni: string, other: string)
    ensures Installed(Tombstone(t, sni), other) == Installed(t, other)
    ensures Dropped(Tombstone(t, sni), other) == (other == sni || Dropped(t, other))
  {
    if IsWildcard(sni) && IsWildcard(other) && other[2..] == sni[2..] {
      WildcardKey(other, sni);
    }
  }

  // ---- A table is its deciding specs' outcomes ----

  predicate Decides(specs: seq<RouteSpec>, i: nat)
    requires i < |specs|
  {
    if IsWildcard(specs[i].sni) then First(specs, i) else Last(specs, i)
  }

  /** What is served or refused for the SNI of a spec that decides it. */
  ghost predicate Served(t: Table, spec: RouteSpec, outcome: Option<Route>, ctx: Context) {
    && Installed(t, spec.sni) == outcome
    && (Dropped(t, spec.sni) <==> outcome.None?)
    && (outcome.Some? ==>
        spec.sni in t.clientAuth && t.clientAuth[spec.sni] == RequestedAuth(spec, ctx.listener, ctx.digest))
  }

  ghost predicate DecidedBefore(specs: seq<RouteSpec>, n: nat, sni: string)
    requires n <= |specs|
  {
    exists i :: 0 <= i < n && specs[i].sni == sni && Decides(specs, i)
  }

  /** Every spec that has decided so far is served as it came out. */
  ghost predicate ServedSoFar(t: Table, specs: seq<RouteSpec>, n: nat, ctx: Context, heap: Heap)
    requires n <= |specs|
  {
    forall i :: 0 <= i < n && Decides(specs, i) ==> Served(t, specs[i], Outcome(specs, i, ctx, heap), ctx)
  }

  /** Nothing is served or refused for an SNI no spec has decided. */
  ghost predicate OnlyDecided(t: Table, specs: seq<RouteSpec>, n: nat)
    requires n <= |specs|
  {
    forall sni :: Installed(t, sni).Some? || Dropped(t, sni) ==> DecidedBefore(specs, n, sni)
  }

  ghost predicate SeenWildcards(configured: set<string>, specs: seq<RouteSpec>, n: nat)
    requires n <= |specs|
  {
    && (forall i :: 0 <= i < n && IsWildcard(specs[i].sni) ==> specs[i].sni[2..] in configured)
    && (forall s :: s in configured ==> exists i :: 0 <= i < n && IsWildcard(specs[i].sni) && specs[i].sni[2..] == s)
  }

  ghost predicate Reflects(b: Building, specs: seq<RouteSpec>, n: nat, ctx: Context, heap: Heap)
    requires n <= |specs|
  {
    ServedSoFar(b.table, specs, n, ctx, heap) && OnlyDecided(b.table, specs, n) && SeenWildcards(b.configured, specs, n)
  }

  /** A table changed at one SNI and nowhere else. */
  ghost predicate ChangedAt(t: Table, t': Table, sni: string) {
    && (forall other :: other != sni ==>
          Installed(t', other) == Installed(t, other) && Dropped(t', other) == Dropped(t, other))
    && (forall other :: other != sni && other in t.clientAuth ==>
          other in t'.clientAuth && t'.clientAuth[other] == t.clientAuth[other])
  }

  /** One spec decides each SNI. */
  lemma OneDecider(specs: seq<RouteSpec>, i: nat, j: nat)
    requires i < |specs| && j < |specs| && specs[i].sni == specs[j].sni && Decides(specs, i) && Decides(specs, j)
    ensures i == j
  {
  }

  lemma SkippedTurn(specs: seq<RouteSpec>, n: nat, configured: set<string>)
    requires n < |specs| && SeenWildcards(configured, specs, n)
    ensures Decides(specs, n) <==>
      if IsWildcard(specs[n].sni) then specs[n].sni[2..] !in configured else Last(specs, n)
  {
    if IsWildcard(specs[n].sni) && specs[n].sni[2..] in configured {
      var i :| 0 <= i < n && IsWildcard(specs[i].sni) && specs[i].sni[2..] == specs[n].sni[2..];
      WildcardKey(specs[i].sni, specs[n].sni);
    }
  }

  lemma InstallChanges(t: Table, spec: RouteSpec, route: Route, ctx: Context)
    requires Installed(t, spec.sni).None? && !Dropped(t, spec.sni)
    ensures var t' := Install(t, spec.sni, route, RequestedAuth(spec, ctx.listener, ctx.digest));
      Served(t', spec, Some(route), ctx) && ChangedAt(t, t', spec.sni)
  {
    var auth := RequestedAuth(spec, ctx.listener, ctx.digest);
    var t' := Install(t, spec.sni, route, auth);
    assert t'.clientAuth == t.clientAuth[spec.sni := auth];
    hide Installed, Dropped, Install, RequestedAuth;
    forall other ensures Installed(t', other) == if other == spec.sni then Some(route) else Installed(t, other)
                 ensures Dropped(t', other) == Dropped(t, other) {
      InstallEffect(t, spec.sni, route, auth, other);
    }
  }

  lemma TombstoneChanges(t: Table, spec: RouteSpec, ctx: Context)
    requires Installed(t, spec.sni).None?
    ensures var t' := Tombstone(t, spec.sni);
      Served(t', spec, None, ctx) && ChangedAt(t, t', spec.sni)
  {
    var t' := Tombstone(t, spec.sni);
    assert t'.clientAuth == t.clientAuth;
    hide Installed, Dropped, Tombstone;
    forall other ensures Installed(t', other) == Installed(t, other)
                 ensures Dropped(t', other) == (other == spec.sni || Dropped(t, other)) {
      TombstoneEffect(t, spec.sni, other);
    }
  }

  /** Deciding a new SNI changes the table there and nowhere else. */
  lemma DecidingTurn(specs: seq<RouteSpec>, n: nat, b: Building, ctx: Context, heap: Heap)
    requires n < |specs| && b == Built(specs, n, ctx, heap) && Reflects(b, specs, n, ctx, heap) && Decides(specs, n)
    ensures var b' := Built(specs, n + 1, ctx, heap); var sni := specs[n].sni;
      && Served(b'.table, specs[n], Outcome(specs, n, ctx, heap), ctx)
      && ChangedAt(b.table, b'.table, sni)
      && b'.configured == (if IsWildcard(sni) then b.configured + {sni[2..]} else b.configured)
  {
    hide Decision, RequestedAuth, Install, Tombstone, Served, ChangedAt, ServedSoFar;
    SkippedTurn(specs, n, b.configured);
    Undecided(specs, n, b.table);
    var route := Outcome(specs, n, ctx, heap);
    if route.Some? {
      InstallChanges(b.table, specs[n], route.value, ctx);
    } else {
      TombstoneChanges(b.table, specs[n], ctx);
    }
  }

  lemma Undecided(specs: seq<RouteSpec>, n: nat, t: Table)
    requires n < |specs| && OnlyDecided(t, specs, n) && Decides(specs, n)
    ensures Installed(t, specs[n].sni).None? && !Dropped(t, specs[n].sni)
  {
    hide Installed, Dropped;
    assert !DecidedBefore(specs, n, specs[n].sni);
  }

  lemma {:induction false} BuiltReflects(specs: seq<RouteSpec>, n: nat, ctx: Context, heap: Heap)
    requires n <= |specs|
    ensures Reflects(Built(specs, n, ctx, heap), specs, n, ctx, heap)
    decreases n
  {
    hide Decision, Outcome, Served, Reflects;
    if n > 0 {
      var b := Built(specs, n - 1, ctx, heap);
      BuiltReflects(specs, n - 1, ctx, heap);
      if Decides(specs, n - 1) {
        DecidingTurn(specs, n - 1, b, ctx, heap);
        ReflectsMore(specs, n - 1, b, Built(specs, n, ctx, heap), ctx, heap);
      } else {
        SkipReflects(specs, n - 1, b, ctx, heap);
      }
    } else {
      EmptyReflects(specs, ctx, heap);
    }
  }

  lemma EmptyReflects(specs: seq<RouteSpec>, ctx: Context, heap: Heap)
    ensures Reflects(Building(EMPTY_TABLE, {}, heap), specs, 0, ctx, heap)
  {
  }

  lemma SkipReflects(specs: seq<RouteSpec>, n: nat, b: Building, ctx: Context, heap: Heap)
    requires n < |specs| && b == Built(specs, n, ctx, heap) && Reflects(b, specs, n, ctx, heap) && !Decides(specs, n)
    ensures Reflects(Built(specs, n + 1, ctx, heap), specs, n + 1, ctx, heap)
  {
    hide Decision, Outcome, Served, Installed, Dropped;
    SkippedTurn(specs, n, b.configured);
    assert Built(specs, n + 1, ctx, heap) == b;
    DecidedMore(specs, n);
    SeenMore(specs, n, b.configured, b.configured);
  }

  lemma DecidedMore(specs: seq<RouteSpec>, n: nat)
    requires n < |specs|
    ensures forall sni :: DecidedBefore(specs, n, sni) ==> DecidedBefore(specs, n + 1, sni)
  {
    forall sni | DecidedBefore(specs, n, sni) ensures DecidedBefore(specs, n + 1, sni) {
      var i :| 0 <= i < n && specs[i].sni == sni && Decides(specs, i);
    }
  }

  lemma SeenMore(specs: seq<RouteSpec>, n: nat, configured: set<string>, configured': set<string>)
    requires n < |specs| && SeenWildcards(configured, specs, n)
    requires configured' == if IsWildcard(specs[n].sni) then configured + {specs[n].sni[2..]} else configured
    ensures SeenWildcards(configured', specs, n + 1)
  {
    forall s | s in configured'
      ensures exists i :: 0 <= i < n + 1 && IsWildcard(specs[i].sni) && specs[i].sni[2..] == s
    {
      if s in configured {
        var i :| 0 <= i < n && IsWildcard(specs[i].sni) && specs[i].sni[2..] == s;
      }
    }
  }

  lemma ReflectsMore(specs: seq<RouteSpec>, n: nat, b: Building, b': Building, ctx: Context, heap: Heap)
    requires n < |specs| && Reflects(b, specs, n, ctx, heap) && Decides(specs, n)
    requires Served(b'.table, specs[n], Outcome(specs, n, ctx, heap), ctx) && ChangedAt(b.table, b'.table, specs[n].sni)
    requires b'.configured == if IsWildcard(specs[n].sni) then b.configured + {specs[n].sni[2..]} else b.configured
    ensures Reflects(b', specs, n + 1, ctx, heap)
  {
    hide Decision, Outcome, Installed, Dropped, RequestedAuth, SeenWildcards;
    SeenMore(specs, n, b.configured, b'.configured);
    DecidedMore(specs, n);
    forall i | 0 <= i < n && Decides(specs, i)
      ensures Served(b'.table, specs[i], Outcome(specs, i, ctx, heap), ctx)
    {
      if specs[i].sni == specs[n].sni { OneDecider(specs, i, n); }
    }
    assert DecidedBefore(specs, n + 1, specs[n].sni);
  }

  /** A finished table, SNI by SNI: what its deciding spec came to, and nothing for any other. */
  lemma TableByDecider(specs: seq<RouteSpec>, ctx: Context, heap: Heap, sni: string)
    ensures var t := Built(specs, |specs|, ctx, heap).table;
      && Installed(t, sni) == OutcomeOf(specs, sni, ctx, heap)
      && (Dropped(t, sni) <==> Deciding(specs, sni).Some? && OutcomeOf(specs, sni, ctx, heap).None?)
  {
    hide Decision, Outcome, Built;
    BuiltReflects(specs, |specs|, ctx, heap);
    var t := Built(specs, |specs|, ctx, heap).table;
    var i := Deciding(specs, sni);
    if i.Some? {
      assert Decides(specs, i.value);
    } else {
      assert forall j :: 0 <= j < |specs| ==> specs[j].sni != sni;
    }
  }

  // ---- Resolution ----

  lemma {:induction false} DotAt(s: string, k: nat)
    requires !HasDot(s) && k < |s|
    ensures s[k] != '.'
  {
    if k > 0 { DotAt(s[1..], k - 1); }
  }

  /** A wildcard matches a name if and only if its suffix is the name minus its first label, so at
      most one configured suffix matches any name. */
  lemma MatchIsParent(sni: string, suffix: string)
    ensures SuffixMatches(sni, suffix) <==> Parent(sni) == Some(suffix)
  {
    var i := DotIndex(sni);
    if SuffixMatches(sni, suffix) {
      var dot := |sni| - |suffix| - 1;
      if i < dot { DotAt(sni[..dot], i); }
      if dot < i { DotAt(sni[..i], dot); }
    }
  }

  lemma {:induction false} FirstMatchIsFind(wildcard: seq<(string, Route)>, sni: string)
    ensures FirstMatch(wildcard, sni) == if Parent(sni).Some? then FindSuffix(wildcard, Parent(sni).value) else None
  {
    hide Parent, SuffixMatches;
    if wildcard != [] {
      MatchIsParent(sni, wildcard[0].0);
      FirstMatchIsFind(wildcard[1..], sni);
    }
  }

  lemma {:induction false} AnyMatchesIsIn(suffixes: seq<string>, sni: string)
    ensures AnyMatches(suffixes, sni) <==> Parent(sni).Some? && Parent(sni).value in suffixes
  {
    hide Parent, SuffixMatches;
    if suffixes != [] {
      MatchIsParent(sni, suffixes[0]);
      AnyMatchesIsIn(suffixes[1..], sni);
    }
  }

  lemma WildcardInstalled(t: Table, suffix: string)
    ensures Installed(t, "*." + suffix) == FindSuffix(t.wildcard, suffix)
    ensures Dropped(t, "*." + suffix) == (suffix in t.droppedWildcard)
  {
    assert ("*." + suffix)[2..] == suffix;
  }

  /** Exact maps hold no wildcard, and no live default. */
  predicate PlainKeys(t: Table) {
    && (forall k :: k in t.exact ==> k != "" && !IsWildcard(k))
    && (forall k :: k in t.droppedExact ==> !IsWildcard(k))
  }

  lemma TurnKeys(b: Building, spec: RouteSpec, last: bool, ctx: Context)
    requires PlainKeys(b.table)
    ensures PlainKeys(Turn(b, spec, last, ctx).table)
  {
    hide Decision, RequestedAuth;
    var t := Turn(b, spec, last, ctx).table;
    assert t.exact.Keys <= b.table.exact.Keys
      || (t.exact.Keys == b.table.exact.Keys + {spec.sni} && spec.sni != "" && !IsWildcard(spec.sni));
  }

  lemma {:induction false} ExactKeys(specs: seq<RouteSpec>, n: nat, ctx: Context, heap: Heap)
    requires n <= |specs|
    ensures PlainKeys(Built(specs, n, ctx, heap).table)
    decreases n
  {
    hide Turn;
    if n > 0 {
      ExactKeys(specs, n - 1, ctx, heap);
      TurnKeys(Built(specs, n - 1, ctx, heap), specs[n - 1], Last(specs, n - 1), ctx);
    }
  }

  lemma ResolveName(t: Table, name: string, allowDefault: bool)
    requires PlainKeys(t)
    ensures var default := if allowDefault then t.default else None;
      var parent := Parent(name);
      Resolve(t, Some(name), allowDefault) ==
        if name != "" && !IsWildcard(name) && (Installed(t, name).Some? || Dropped(t, name)) then Installed(t, name)
        else if name == "" && Dropped(t, name) then None
        else if parent.Some? && (Installed(t, "*." + parent.value).Some? || Dropped(t, "*." + parent.value))
          then Installed(t, "*." + parent.value)
        else default
  {
    hide Parent, FindSuffix, FirstMatch, AnyMatches;
    FirstMatchIsFind(t.wildcard, name);
    AnyMatchesIsIn(t.droppedWildcard, name);
    if Parent(name).Some? {
      WildcardInstalled(t, Parent(name).value);
    }
  }

  /** `resolve_with` refines the simple specification, for every list of specs, every previous table
      and every name: the deciding spec's route, nothing when that spec was rejected with nothing to
      carry forward, and a broader route only when no narrower spec is configured. */
  lemma ResolveRefinesSpecs(specs: seq<RouteSpec>, ctx: Context, heap: Heap, sni: Option<string>, allowDefault: bool)
    ensures Resolve(Built(specs, |specs|, ctx, heap).table, sni, allowDefault)
         == ResolveSpecs(specs, sni, allowDefault, ctx, heap)
  {
    hide Built, OutcomeOf, Parent, Deciding, FindSuffix, Dropped;
    var t := Built(specs, |specs|, ctx, heap).table;
    DecidedOutcome(specs, ctx, heap);
    TableByDecider(specs, ctx, heap, "");
    NoParent();
    assert Installed(t, "") == t.default;
    if sni.Some? {
      hide Resolve, Installed;
      var name := sni.value;
      ExactKeys(specs, |specs|, ctx, heap);
      TableByDecider(specs, ctx, heap, name);
      ResolveName(t, name, allowDefault);
      if Parent(name).Some? {
        TableByDecider(specs, ctx, heap, "*." + Parent(name).value);
      }
    }
  }

  lemma NoParent()
    ensures Parent("").None?
  {
  }

  lemma DecidedOutcome(specs: seq<RouteSpec>, ctx: Context, heap: Heap)
    ensures forall sni :: OutcomeOf(specs, sni, ctx, heap).Some? ==> Deciding(specs, sni).Some?
  {
  }
}
