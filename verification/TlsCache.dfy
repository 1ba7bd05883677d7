/** The TLS configuration cache: mark-and-sweep plus reference counts over shared configurations.
    A configuration's strong count is one for the cache and one for every holder outside it. */
module TlsCache {
  import opened Basics
  import opened Wrappers

  const MIN_EVICT_AT: nat := 256

  /** The digests of a certificate, its mutual-TLS settings and the h2 flag. */
  type Key = int

  /** One built `ServerConfig`: an identity, and the key it was built for. */
  datatype ServerConfig = ServerConfig(id: nat, key: Key)

  /** Who holds configurations outside the cache: route tables, builds in progress, connections. */
  type Holders = multiset<ServerConfig>

  datatype Cache = Cache(entries: map<Key, ServerConfig>, used: set<Key>, evictAt: nat)

  const NEW_CACHE: Cache := Cache(map[], {}, MIN_EVICT_AT)

  function Retained(c: Cache, held: Holders): Cache {
    Cache(map k | k in c.entries && (k in c.used || c.entries[k] in held) :: c.entries[k], {}, c.evictAt)
  }

  function Evicted(c: Cache, held: Holders): Cache {
    var kept := map k | k in c.entries && c.entries[k] in held :: c.entries[k];
    Cache(kept, c.used, Max(MIN_EVICT_AT, 2 * |kept|))
  }

  function Cleared(c: Cache, held: Holders): Cache {
    Evicted(c.(used := {}), held)
  }

  /** `lookup_or_build`: the cached configuration, or the one `built` for this key (`None` when the
      build fails), which the caller holds while the insert may evict. */
  function Lookup(c: Cache, key: Key, id: nat, builds: bool, held: Holders): (Cache, Option<ServerConfig>) {
    if key in c.entries then (c, Some(c.entries[key]))
    else if !builds then (c, None)
    else
      var cfg := ServerConfig(id, key);
      var c' := c.(entries := c.entries[key := cfg]);
      (if |c'.entries| > c'.evictAt then Evicted(c', held + multiset{cfg}) else c', Some(cfg))
  }

  /** The cache as the proxy owns it. `held` stands for what reference counts report. */
  class TlsConfigCache {
    var entries: map<Key, ServerConfig>
    var used: set<Key>
    var evictAt: nat

    function Value(): Cache
      reads this
    {
      Cache(entries, used, evictAt)
    }

    constructor ()
      ensures Value() == NEW_CACHE
    {
      entries, used, evictAt := map[], {}, MIN_EVICT_AT;
    }

    method RetainUsed(held: Holders)
      modifies this
      ensures Value() == Retained(old(Value()), held)
    {
      var marked := used;
      used := {};
      entries := map k | k in entries && (k in marked || entries[k] in held) :: entries[k];
    }

    method EvictUnreferenced(held: Holders)
      modifies this
      ensures Value() == Evicted(old(Value()), held)
    {
      entries := map k | k in entries && entries[k] in held :: entries[k];
      evictAt := Max(MIN_EVICT_AT, 2 * |entries|);
    }

    method ClearUsed(held: Holders)
      modifies this
      ensures Value() == Cleared(old(Value()), held)
    {
      used := {};
      EvictUnreferenced(held);
    }

    method LookupOrBuild(key: Key, id: nat, builds: bool, held: Holders) returns (found: Option<ServerConfig>)
      modifies this
      ensures (Value(), found) == Lookup(old(Value()), key, id, builds, held)
    {
      if key in entries {
        return Some(entries[key]);
      }
      if !builds {
        return None;
      }
      var cfg := ServerConfig(id, key);
      entries := entries[key := cfg];
      if |entries| > evictAt {
        EvictUnreferenced(held + multiset{cfg});
      }
      return Some(cfg);
    }

    /** For a route-table build: a lookup that also marks the key. */
    method GetOrBuild(key: Key, id: nat, builds: bool, held: Holders) returns (found: Option<ServerConfig>)
      modifies this
      ensures var (c, f) := Lookup(old(Value()), key, id, builds, held);
        found == f && Value() == if f.None? then c else c.(used := c.used + {key})
    {
      found := LookupOrBuild(key, id, builds, held);
      if found.Some? {
        used := used + {key};
      }
    }
  }

  // ---- Runs ----

  /** What happens to the cache: a build starts, a configuration is requested by a build or by a
      resolved connection, a holder shares or drops one, a build is committed. */
  datatype Event =
    | StartBuild
    | Request(key: Key, marks: bool, builds: bool)
    | Share(cfg: ServerConfig)
    | Drop(cfg: ServerConfig)
    | Commit

  /** `survivors` and `inserts` are the entries left by the last eviction and the inserts since. */
  datatype System = System(cache: Cache, held: Holders, nextId: nat, survivors: nat, inserts: nat)

  const START: System := System(NEW_CACHE, multiset{}, 0, 0, 0)

  predicate Possible(sys: System, e: Event) {
    match e
    case Share(cfg) => cfg in sys.held
    case Drop(cfg) => cfg in sys.held
    case _ => true
  }

  predicate Misses(sys: System, e: Event) {
    e.Request? && e.key !in sys.cache.entries && e.builds
  }

  predicate Scans(sys: System, e: Event) {
    Misses(sys, e) && |sys.cache.entries| + 1 > sys.cache.evictAt
  }

  function Next(sys: System, e: Event): System {
    match e
    case StartBuild =>
      var c := Cleared(sys.cache, sys.held);
      sys.(cache := c, survivors := |c.entries|, inserts := 0)
    case Request(key, marks, builds) =>
      var (c, found) := Lookup(sys.cache, key, sys.nextId, builds, sys.held);
      var c' := if marks && found.Some? then c.(used := c.used + {key}) else c;
      System(c', if found.Some? then sys.held + multiset{found.value} else sys.held, sys.nextId + 1,
             if Scans(sys, e) then |c.entries| else sys.survivors,
             if Scans(sys, e) then 0 else if Misses(sys, e) then sys.inserts + 1 else sys.inserts)
    case Share(cfg) => sys.(held := sys.held + multiset{cfg})
    case Drop(cfg) => sys.(held := sys.held - multiset{cfg})
    case Commit => sys.(cache := Retained(sys.cache, sys.held))
  }

  /** The state after a run; an event that is not possible is no event. */
  function Run(events: seq<Event>): System {
    if events == [] then START
    else
      var sys := Run(events[..|events| - 1]);
      var e := events[|events| - 1];
      if Possible(sys, e) then Next(sys, e) else sys
  }

  /** Canonicity: the cache maps the key of every held configuration to that configuration. */
  ghost predicate Canonical(sys: System) {
    forall cfg :: cfg in sys.held ==> cfg.key in sys.cache.entries && sys.cache.entries[cfg.key] == cfg
  }

  /** Entries are filed under their own key, with identities already given out. */
  ghost predicate Filed(entries: map<Key, ServerConfig>, nextId: nat) {
    forall k :: k in entries ==> entries[k].key == k && entries[k].id < nextId
  }

  ghost predicate Bounded(sys: System) {
    && |sys.cache.entries| <= sys.cache.evictAt
    && sys.cache.evictAt == Max(MIN_EVICT_AT, 2 * sys.survivors)
    && |sys.cache.entries| <= sys.survivors + sys.inserts
  }

  ghost predicate Inv(sys: System) {
    Canonical(sys) && Filed(sys.cache.entries, sys.nextId) && Bounded(sys)
  }

  lemma {:induction false} SubsetSize<T>(a: set<T>, b: set<T>)
    requires a <= b
    ensures |a| <= |b|
  {
    if a != {} {
      var x :| x in a;
      SubsetSize(a - {x}, b - {x});
    }
  }

  lemma SmallerMap<K, V>(a: map<K, V>, b: map<K, V>)
    requires a.Keys <= b.Keys
    ensures |a| <= |b|
  {
    SubsetSize(a.Keys, b.Keys);
    assert |a| == |a.Keys| && |b| == |b.Keys|;
  }

  lemma RequestKeepsInv(sys: System, e: Event)
    requires Inv(sys) && e.Request?
    ensures Inv(Next(sys, e))
  {
    if Misses(sys, e) {
      var cfg := ServerConfig(sys.nextId, e.key);
      MissIsCanonical(sys, e, cfg);
      MissIsBounded(sys, e, cfg);
    }
  }

  lemma MissIsCanonical(sys: System, e: Event, cfg: ServerConfig)
    requires Inv(sys) && Misses(sys, e) && cfg == ServerConfig(sys.nextId, e.key)
    ensures Canonical(Next(sys, e)) && Filed(Next(sys, e).cache.entries, sys.nextId + 1)
  {
    AfterMiss(sys, e, cfg);
    hide Bounded, Next;
    GrownIsCanonical(sys.cache.entries, sys.held, cfg, sys.nextId);
  }

  lemma AfterMiss(sys: System, e: Event, cfg: ServerConfig)
    requires Misses(sys, e) && cfg == ServerConfig(sys.nextId, e.key)
    ensures var grown, held, after := sys.cache.entries[e.key := cfg], sys.held + multiset{cfg}, Next(sys, e);
      && after.held == held
      && (after.cache.entries == grown || after.cache.entries == map k | k in grown && grown[k] in held :: grown[k])
  {
    hide Max;
  }

  lemma GrownIsCanonical(entries: map<Key, ServerConfig>, held: Holders, cfg: ServerConfig, nextId: nat)
    requires Filed(entries, nextId) && cfg.key !in entries && cfg.id == nextId
    requires forall c :: c in held ==> c.key in entries && entries[c.key] == c
    ensures Filed(entries[cfg.key := cfg], nextId + 1)
    ensures forall c :: c in held + multiset{cfg} ==>
      c.key in entries[cfg.key := cfg] && entries[cfg.key := cfg][c.key] == c
  {
  }

  lemma MissIsBounded(sys: System, e: Event, cfg: ServerConfig)
    requires Inv(sys) && Misses(sys, e) && cfg == ServerConfig(sys.nextId, e.key)
    ensures Bounded(Next(sys, e))
  {
    hide Canonical, Filed;
    var grown := sys.cache.entries[e.key := cfg];
    assert grown.Keys == sys.cache.entries.Keys + {e.key};
    assert |grown| == |sys.cache.entries| + 1;
  }

  lemma StepKeepsInv(sys: System, e: Event)
    requires Inv(sys) && Possible(sys, e)
    ensures Inv(Next(sys, e))
  {
    if e.Request? {
      RequestKeepsInv(sys, e);
    } else {
      ShrinkIsBounded(sys, e);
      ShrinkIsCanonical(sys, e);
      hide Bounded, Canonical, Filed, Next;
    }
  }

  lemma ShrinkIsCanonical(sys: System, e: Event)
    requires Inv(sys) && Possible(sys, e) && !e.Request?
    ensures Canonical(Next(sys, e)) && Filed(Next(sys, e).cache.entries, Next(sys, e).nextId)
  {
    hide Bounded, Max;
  }

  lemma ShrinkIsBounded(sys: System, e: Event)
    requires Inv(sys) && Possible(sys, e) && !e.Request?
    ensures Bounded(Next(sys, e))
  {
    hide Canonical, Filed;
    SmallerMap(Next(sys, e).cache.entries, sys.cache.entries);
  }

  lemma {:induction false} RunKeepsInv(events: seq<Event>)
    ensures Inv(Run(events))
    decreases |events|
  {
    if events != [] {
      RunKeepsInv(events[..|events| - 1]);
      var sys := Run(events[..|events| - 1]);
      if Possible(sys, events[|events| - 1]) {
        StepKeepsInv(sys, events[|events| - 1]);
      }
    }
  }

  /** Over any run of builds, commits, abandoned builds, resolutions and drops: two holders of one
      key hold one configuration, and asking for that key again returns it, so a certificate that
      is in use never loses its session state to a second configuration. */
  lemma OneConfigurationPerKey(events: seq<Event>, a: ServerConfig, b: ServerConfig, id: nat, builds: bool)
    requires a in Run(events).held && b in Run(events).held && a.key == b.key
    ensures a == b
    ensures Lookup(Run(events).cache, a.key, id, builds, Run(events).held) == (Run(events).cache, Some(a))
  {
    RunKeepsInv(events);
  }

  /** Asking for any key yields a configuration of that key, and a new identity only when no holder
      has one. */
  lemma RequestIsCanonical(events: seq<Event>, key: Key, marks: bool)
    ensures var sys := Run(events); var sys' := Next(sys, Request(key, marks, true));
      exists cfg ::
        && sys'.held == sys.held + multiset{cfg} && cfg.key == key && sys'.cache.entries[key] == cfg
        && (cfg.id == sys.nextId ==> forall other :: other in sys.held ==> other.key != key)
  {
    RunKeepsInv(events);
    var sys := Run(events);
    var sys' := Next(sys, Request(key, marks, true));
    RequestKeepsInv(sys, Request(key, marks, true));
    var cfg := if key in sys.cache.entries then sys.cache.entries[key] else ServerConfig(sys.nextId, key);
    assert cfg in sys'.held;
  }

  /** The size bound at rest, and the amortised cost: a scan an insert triggers visits at most
      twice as many entries as were inserted since the previous eviction. */
  lemma ScanIsAmortised(events: seq<Event>, e: Event)
    ensures |Run(events).cache.entries| <= Run(events).cache.evictAt
    ensures Scans(Run(events), e) ==> |Run(events).cache.entries| + 1 <= 2 * (Run(events).inserts + 1)
  {
    RunKeepsInv(events);
  }

  /** A commit drops exactly the configurations nothing asked for since the build began or holds. */
  lemma CommitRetires(events: seq<Event>, key: Key)
    ensures var sys := Run(events); var sys' := Next(sys, Commit);
      key in sys'.cache.entries <==>
        key in sys.cache.entries && (key in sys.cache.used || exists cfg :: cfg in sys.held && cfg.key == key)
  {
    RunKeepsInv(events);
    var sys := Run(events);
    if key in sys.cache.entries {
      assert sys.cache.entries[key].key == key;
    }
  }
}
