/** `build_route_table` and `resolve_with`. */
module RouteTable {
  import opened Wrappers
  import opened Health
  import opened Router

  /** Live routes, and the SNIs configured but rejected with nothing to serve instead. */
  datatype Table = Table(
    exact: map<string, Route>, wildcard: seq<(string, Route)>, default: Option<Route>,
    droppedExact: set<string>, droppedWildcard: seq<string>, clientAuth: map<string, ClientAuth>)

  const EMPTY_TABLE: Table := Table(map[], [], None, {}, [], map[])

  function FindSuffix(wildcard: seq<(string, Route)>, suffix: string): Option<Route> {
    if wildcard == [] then None
    else if wildcard[0].0 == suffix then Some(wildcard[0].1)
    else FindSuffix(wildcard[1..], suffix)
  }

  /** `get_for_spec_sni`: the route stored under the key a spec's SNI inserts to. */
  function Installed(t: Table, sni: string): Option<Route> {
    if IsWildcard(sni) then FindSuffix(t.wildcard, sni[2..])
    else if sni == "" then t.default
    else if sni in t.exact then Some(t.exact[sni]) else None
  }

  predicate Dropped(t: Table, sni: string) {
    if IsWildcard(sni) then sni[2..] in t.droppedWildcard else sni in t.droppedExact
  }

  function Tombstone(t: Table, sni: string): Table {
    if IsWildcard(sni) then t.(droppedWildcard := t.droppedWildcard + [sni[2..]])
    else t.(droppedExact := t.droppedExact + {sni})
  }

  function Install(t: Table, sni: string, route: Route, auth: ClientAuth): Table {
    var t' := t.(clientAuth := t.clientAuth[sni := auth]);
    if IsWildcard(sni) then t'.(wildcard := t.wildcard + [(sni[2..], route)])
    else if sni == "" then t'.(default := Some(route))
    else t'.(exact := t.exact[sni := route])
  }

  // ---- Building ----

  /** What a build is given besides the specs. */
  datatype Context = Context(listener: ListenerTls, digest: int -> int, previous: Table, now: nat)

  datatype Building = Building(table: Table, configured: set<string>, heap: Heap)

  /** The last spec of its SNI. */
  predicate Last(specs: seq<RouteSpec>, i: nat)
    requires i < |specs|
  {
    forall j :: i < j < |specs| ==> specs[j].sni != specs[i].sni
  }

  function Decision(spec: RouteSpec, ctx: Context, heap: Heap): (Option<Route>, Heap) {
    var previous := Installed(ctx.previous, spec.sni);
    var auth := if spec.sni in ctx.previous.clientAuth then Some(ctx.previous.clientAuth[spec.sni]) else None;
    DecideSpec(spec, ctx.listener, ctx.digest, previous, auth, heap, ctx.now)
  }

  /** One turn of the loop: a spec another one overrides is skipped, any other decides its SNI. */
  function Turn(b: Building, spec: RouteSpec, last: bool, ctx: Context): Building {
    if !IsWildcard(spec.sni) && !last then b
    else if IsWildcard(spec.sni) && spec.sni[2..] in b.configured then b
    else
      var configured := if IsWildcard(spec.sni) then b.configured + {spec.sni[2..]} else b.configured;
      var (route, heap) := Decision(spec, ctx, b.heap);
      match route
      case None => Building(Tombstone(b.table, spec.sni), configured, heap)
      case Some(r) =>
        Building(Install(b.table, spec.sni, r, RequestedAuth(spec, ctx.listener, ctx.digest)), configured, heap)
  }

  /** The build after its first `n` specs. */
  function Built(specs: seq<RouteSpec>, n: nat, ctx: Context, heap: Heap): Building
    requires n <= |specs|
  {
    if n == 0 then Building(EMPTY_TABLE, {}, heap)
    else Turn(Built(specs, n - 1, ctx, heap), specs[n - 1], Last(specs, n - 1), ctx)
  }

  /** `build_route_table`: one pass to find the last spec of each exact SNI, one to decide. */
  method BuildRouteTable(specs: seq<RouteSpec>, ctx: Context, heap: Heap) returns (table: Table, after: Heap)
    ensures Building(table, Built(specs, |specs|, ctx, heap).configured, after) == Built(specs, |specs|, ctx, heap)
  {
    var lastExact: map<string, nat> := map[];
    for i := 0 to |specs|
      invariant forall k :: k in lastExact ==> lastExact[k] < i && specs[lastExact[k]].sni == k
      invariant forall j :: 0 <= j < i && !IsWildcard(specs[j].sni) ==>
        specs[j].sni in lastExact && j <= lastExact[specs[j].sni]
    {
      if !IsWildcard(specs[i].sni) {
        lastExact := lastExact[specs[i].sni := i];
      }
    }
    var b := Building(EMPTY_TABLE, {}, heap);
    for i := 0 to |specs|
      invariant b == Built(specs, i, ctx, heap)
    {
      var last := IsWildcard(specs[i].sni) || lastExact[specs[i].sni] == i;
      assert !IsWildcard(specs[i].sni) ==> last == Last(specs, i) by {
        if !last {
          assert specs[lastExact[specs[i].sni]].sni == specs[i].sni;
        }
      }
      b := Turn(b, specs[i], last, ctx);
    }
    return b.table, b.heap;
  }

  // ---- Resolving ----

  predicate HasDot(s: string) { s != [] && (s[0] == '.' || HasDot(s[1..])) }

  /** `wildcard_suffix_matches`: exactly one non-empty left-most label in front of the suffix. */
  predicate SuffixMatches(sni: string, suffix: string) {
    |sni| > |suffix| + 1 &&
    var dot := |sni| - |suffix| - 1;
    sni[dot] == '.' && sni[dot + 1..] == suffix && !HasDot(sni[..dot])
  }

  function FirstMatch(wildcard: seq<(string, Route)>, sni: string): Option<Route> {
    if wildcard == [] then None
    else if SuffixMatches(sni, wildcard[0].0) then Some(wildcard[0].1)
    else FirstMatch(wildcard[1..], sni)
  }

  predicate AnyMatches(suffixes: seq<string>, sni: string) {
    suffixes != [] && (SuffixMatches(sni, suffixes[0]) || AnyMatches(suffixes[1..], sni))
  }

  /** `resolve_with`. */
  function Resolve(t: Table, sni: Option<string>, allowDefault: bool): Option<Route> {
    var default := if allowDefault then t.default else None;
    if sni.None? then default
    else if sni.value in t.exact then Some(t.exact[sni.value])
    else if sni.value in t.droppedExact then None
    else
      var route := FirstMatch(t.wildcard, sni.value);
      if route.Some? then route
      else if AnyMatches(t.droppedWildcard, sni.value) then None
      else default
  }

  // ---- The simple specification ----

  function LastIndex(specs: seq<RouteSpec>, sni: string): (r: Option<nat>)
    ensures r.Some? ==> r.value < |specs| && specs[r.value].sni == sni && Last(specs, r.value)
    ensures r.None? ==> forall i :: 0 <= i < |specs| ==> specs[i].sni != sni
  {
    if specs == [] then None
    else if specs[|specs| - 1].sni == sni then Some(|specs| - 1)
    else LastIndex(specs[..|specs| - 1], sni)
  }

  predicate First(specs: seq<RouteSpec>, i: nat)
    requires i < |specs|
  {
    forall j :: 0 <= j < i ==> specs[j].sni != specs[i].sni
  }

  function FirstIndex(specs: seq<RouteSpec>, sni: string): (r: Option<nat>)
    ensures r.Some? ==> r.value < |specs| && specs[r.value].sni == sni && First(specs, r.value)
    ensures r.None? ==> forall i :: 0 <= i < |specs| ==> specs[i].sni != sni
  {
    if specs == [] then None
    else
      var r := FirstIndex(specs[..|specs| - 1], sni);
      if r.Some? then r else if specs[|specs| - 1].sni == sni then Some(|specs| - 1) else None
  }

  /** The spec that decides a configured SNI: the last exact one, the first wildcard one. */
  function Deciding(specs: seq<RouteSpec>, sni: string): Option<nat> {
    if IsWildcard(sni) then FirstIndex(specs, sni) else LastIndex(specs, sni)
  }

  /** What the spec at `i` installs, given the specs before it. */
  function Outcome(specs: seq<RouteSpec>, i: nat, ctx: Context, heap: Heap): Option<Route>
    requires i < |specs|
  {
    Decision(specs[i], ctx, Built(specs, i, ctx, heap).heap).0
  }

  function OutcomeOf(specs: seq<RouteSpec>, sni: string, ctx: Context, heap: Heap): Option<Route> {
    var i := Deciding(specs, sni);
    if i.Some? && i.value < |specs| then Outcome(specs, i.value, ctx, heap) else None
  }

  /** A name without its first label, when it has one in front of a dot. */
  function Parent(sni: string): Option<string> {
    var i := DotIndex(sni);
    if 0 < i < |sni| then Some(sni[i + 1..]) else None
  }

  function DotIndex(sni: string): (i: nat)
    ensures i <= |sni| && (i < |sni| ==> sni[i] == '.') && !HasDot(sni[..i])
  {
    if sni == [] || sni[0] == '.' then 0
    else
      assert sni[..1 + DotIndex(sni[1..])][1..] == sni[1..][..DotIndex(sni[1..])];
      1 + DotIndex(sni[1..])
  }

  /** Resolution as an operator would state it: the exact spec decides; without one, the wildcard for
      the name minus its first label; without either, the default. A decider that was rejected
      answers with nothing. */
  function ResolveSpecs(specs: seq<RouteSpec>, sni: Option<string>, allowDefault: bool, ctx: Context,
                        heap: Heap): Option<Route>
  {
    var default := if allowDefault then OutcomeOf(specs, "", ctx, heap) else None;
    if sni.None? then default
    else
      var name := sni.value;
      var parent := Parent(name);
      if name != "" && !IsWildcard(name) && Deciding(specs, name).Some? then OutcomeOf(specs, name, ctx, heap)
      else if parent.Some? && Deciding(specs, "*." + parent.value).Some? then
        OutcomeOf(specs, "*." + parent.value, ctx, heap)
      else default
  }
}
