/** What each event does to the TLS configuration cache, entry by entry, and what its marks stand for. */
module TlsCacheExact {
  import opened Basics
  import opened TlsCache

  /** A request finds a configuration: one is cached, or the build of one succeeds. */
  ghost predicate Finds(sys: System, e: Event) { e.Request? && (e.key in sys.cache.entries || e.builds) }

  ghost predicate Inserts(sys: System, e: Event) { e.Request? && e.key !in sys.cache.entries && e.builds }

  /** The configuration it finds: the cached one, or a new one of that key. */
  ghost function Given(sys: System, e: Event): ServerConfig
    requires e.Request?
  {
    if e.key in sys.cache.entries then sys.cache.entries[e.key] else ServerConfig(sys.nextId, e.key)
  }

  /** What the cache holds under `key` before anything is dropped. */
  ghost predicate Present(sys: System, e: Event, key: Key, cfg: ServerConfig) {
    || (key in sys.cache.entries && sys.cache.entries[key] == cfg)
    || (Inserts(sys, e) && key == e.key && cfg == ServerConfig(sys.nextId, key))
  }

  /** The insert takes the cache over its threshold. */
  ghost predicate Overflows(sys: System, e: Event) {
    Inserts(sys, e) && |sys.cache.entries| >= sys.cache.evictAt
  }

  /** An entry is dropped in three cases only: a build starts or an insert overflows and nobody holds it, or
      a build is committed that did not ask for it and nobody holds it. */
  lemma EntryIsExact(sys: System, e: Event, key: Key, cfg: ServerConfig)
    ensures var after := Next(sys, e).cache.entries;
      key in after && after[key] == cfg <==>
        && Present(sys, e, key, cfg)
        && (e.StartBuild? ==> cfg in sys.held)
        && (Overflows(sys, e) ==> cfg in sys.held || cfg == Given(sys, e))
        && (e.Commit? ==> key in sys.cache.used || cfg in sys.held)
  {
    if e.Request? { RequestedEntry(sys, e, key, cfg); } else { hide Max, Overflows, Lookup; }
  }

  lemma RequestedEntry(sys: System, e: Event, key: Key, cfg: ServerConfig)
    requires e.Request?
    ensures var after := Next(sys, e).cache.entries;
      key in after && after[key] == cfg <==>
        Present(sys, e, key, cfg) && (Overflows(sys, e) ==> cfg in sys.held || cfg == Given(sys, e))
  {
    hide Max;
    if Inserts(sys, e) {
      Grown(sys.cache.entries, e.key, Given(sys, e));
      var grown := sys.cache.entries[e.key := Given(sys, e)];
      assert key in grown && grown[key] == cfg <==> Present(sys, e, key, cfg);
    }
  }

  lemma Grown(entries: map<Key, ServerConfig>, key: Key, cfg: ServerConfig)
    requires key !in entries
    ensures |entries[key := cfg]| == |entries| + 1
  {
    var grown := entries[key := cfg];
    assert grown.Keys == entries.Keys + {key};
    assert |grown| == |grown.Keys| && |entries| == |entries.Keys|;
  }

  /** A key is marked by a build's request that finds something, and no longer once a build starts or is
      committed. */
  lemma MarkIsExact(sys: System, e: Event, key: Key)
    ensures key in Next(sys, e).cache.used <==>
      && !e.StartBuild? && !e.Commit?
      && (key in sys.cache.used || (e.Request? && Finds(sys, e) && e.marks && e.key == key))
  {
    hide Max;
  }

  /** The threshold is set when entries are dropped for want of a holder: twice what is left, but no less
      than 256. */
  lemma ThresholdIsExact(sys: System, e: Event)
    ensures var after := Next(sys, e).cache; var n := |after.entries|;
      after.evictAt == if e.StartBuild? || Overflows(sys, e) then (if n <= 128 then 256 else 2 * n)
                       else sys.cache.evictAt
  {
    if Inserts(sys, e) { Grown(sys.cache.entries, e.key, Given(sys, e)); }
  }

  /** Who holds what: a request hands out what it found, a holder may share or drop. */
  lemma HoldersAreExact(sys: System, e: Event, cfg: ServerConfig)
    requires Possible(sys, e)
    ensures var after := Next(sys, e);
      && (Finds(sys, e) ==> after.held[cfg] == sys.held[cfg] + if cfg == Given(sys, e) then 1 else 0)
      && (e.Share? ==> after.held[cfg] == sys.held[cfg] + if cfg == e.cfg then 1 else 0)
      && (e.Drop? ==> after.held[cfg] == sys.held[cfg] - if cfg == e.cfg then 1 else 0)
      && (!Finds(sys, e) && !e.Share? && !e.Drop? ==> after.held == sys.held)
      && (Inserts(sys, e) ==> after.nextId > sys.nextId) && after.nextId >= sys.nextId
  {
    hide Max;
  }

  /** The request at `i` marked `key`, and no build started or was committed since. */
  ghost predicate MarkedAt(events: seq<Event>, i: nat, key: Key) {
    && i < |events| && events[i].Request? && events[i].marks && events[i].key == key
    && Finds(Run(events[..i]), events[i])
    && (forall j :: i < j < |events| ==> !events[j].StartBuild? && !events[j].Commit?)
  }

  /** Over any run, the marks are the keys that requests of the build in progress have found. */
  lemma {:induction false} MarksAreRequests(events: seq<Event>, key: Key)
    ensures key in Run(events).cache.used <==> exists i: nat :: MarkedAt(events, i, key)
    decreases |events|
  {
    hide Finds, Next;
    if events != [] {
      var n := |events| - 1;
      var init, e := events[..n], events[n];
      MarksAreRequests(init, key);
      MarkIsExact(Run(init), e, key);
      if i: nat :| MarkedAt(init, i, key) {
        assert init[..i] == events[..i];
        assert !e.StartBuild? && !e.Commit? ==> MarkedAt(events, i, key);
      }
      if Finds(Run(init), e) && e.Request? && e.marks && e.key == key { assert MarkedAt(events, n, key); }
      if i: nat :| MarkedAt(events, i, key) {
        assert init[..i] == events[..i];
        if i < n { assert MarkedAt(init, i, key); }
      }
    }
  }
}
