/** Per-IP protection: two token buckets, a penalty box, a concurrency count, and eviction, as
    functions of an IP's state. Clocks are in nanoseconds; one check is one step. */
module Protection {
  import opened Basics

  /** One token in the fixed-point unit of the buckets. */
  const ONE_TOKEN: nat := 1000

  /** A fixed configuration with its precomputed rates (tokens per nanosecond) and ceilings. A rate
      of zero disables its bucket, a penalty of zero the box, a maximum of zero the count limit. */
  datatype Config = Config(rate: real, burst: nat, sustainedRate: real, sustainedBurst: nat,
                           penaltyMs: nat, maxConcurrent: nat) {
    predicate Valid() {
      && rate >= 0.0 && sustainedRate >= 0.0
      && burst <= U32_MAX && sustainedBurst <= U32_MAX && penaltyMs <= U64_MAX && maxConcurrent <= U32_MAX
    }
  }

  datatype Bucket = Bucket(tokens: nat, last: nat)

  datatype IpState = IpState(perSecond: Bucket, sustained: Bucket, active: nat, deadline: nat)

  datatype Verdict = Allow | RateLimited | PenaltyBoxed | TooManyConnections

  // ---- refill_and_consume ----

  /** Fixed-point tokens a rate earns in `elapsed`, before rounding. */
  function Earned(elapsed: nat, rate: real): real {
    elapsed as real * rate * 1000.0
  }

  /** Rounded down and saturated to 32 bits. */
  function Refill(elapsed: nat, rate: real): (r: nat)
    requires rate >= 0.0
    ensures r <= U32_MAX && r as real <= Earned(elapsed, rate)
    ensures r == 0 ==> Earned(elapsed, rate) < 1.0
  {
    var exact := Earned(elapsed, rate);
    if exact >= U32_MAX as real then U32_MAX else exact.Floor
  }

  function Refilled(b: Bucket, now: nat, rate: real, burst: nat): Bucket
    requires rate >= 0.0
  {
    var refill := Refill(SaturatingSub(now, b.last), rate);
    if refill == 0 then b else Bucket(Min(Min(b.tokens + refill, U32_MAX), burst), now)
  }

  /** Refill from the elapsed time, then take one token if there is one. */
  function Take(b: Bucket, now: nat, rate: real, burst: nat): (Bucket, bool)
    requires rate >= 0.0
  {
    var r := Refilled(b, now, rate, burst);
    if r.tokens < ONE_TOKEN then (r, false) else (Bucket(r.tokens - ONE_TOKEN, r.last), true)
  }

  // ---- check_at, from the per-IP state on ----

  /** Monotonic extension of the penalty, saturating. */
  function Extend(cfg: Config, deadline: nat, now: nat): nat {
    Max(deadline, Min(now + Min(cfg.penaltyMs * 1_000_000, U64_MAX), U64_MAX))
  }

  function TakePerSecond(cfg: Config, st: IpState, now: nat): (IpState, bool)
    requires cfg.Valid()
  {
    if cfg.rate == 0.0 then (st, true)
    else
      var (b, ok) := Take(st.perSecond, now, cfg.rate, cfg.burst);
      (st.(perSecond := b), ok)
  }

  function TakeSustained(cfg: Config, st: IpState, now: nat): (IpState, bool)
    requires cfg.Valid()
  {
    if cfg.sustainedRate == 0.0 then (st, true)
    else
      var (b, ok) := Take(st.sustained, now, cfg.sustainedRate, cfg.sustainedBurst);
      (st.(sustained := b), ok)
  }

  predicate Boxed(cfg: Config, st: IpState, now: nat) {
    cfg.penaltyMs > 0 && st.deadline > 0 && now < st.deadline
  }

  function Limited(cfg: Config, st: IpState, now: nat): (IpState, Verdict) {
    (if cfg.penaltyMs > 0 then st.(deadline := Extend(cfg, st.deadline, now)) else st, RateLimited)
  }

  function Check(cfg: Config, st: IpState, now: nat): (IpState, Verdict)
    requires cfg.Valid()
  {
    var (st1, ok1) := TakePerSecond(cfg, st, now);
    if Boxed(cfg, st, now) then
      var (st2, ok2) := TakeSustained(cfg, st1, now);
      (if ok1 && ok2 then st2 else st2.(deadline := Extend(cfg, st2.deadline, now)), PenaltyBoxed)
    else if !ok1 then Limited(cfg, st1, now)
    else
      var (st2, ok2) := TakeSustained(cfg, st1, now);
      if !ok2 then Limited(cfg, st2, now)
      else if cfg.maxConcurrent > 0 && st2.active >= cfg.maxConcurrent then (st2, TooManyConnections)
      else (st2.(active := (st2.active + 1) % (U32_MAX + 1)), Allow)
  }

  /** A new entry: full buckets, stamped with the clock as it is created. */
  function Fresh(cfg: Config, at: nat): IpState {
    IpState(Bucket(cfg.burst, at), Bucket(cfg.sustainedBurst, at), 0, 0)
  }

  function Release(st: IpState): IpState {
    st.(active := SaturatingSub(st.active, 1))
  }

  // ---- evict_at ----

  predicate Full(b: Bucket, now: nat, rate: real, burst: nat)
    requires rate >= 0.0
  {
    Min(b.tokens + Refill(SaturatingSub(now, b.last), rate), U32_MAX) >= burst
  }

  /** Why eviction keeps an entry: penalised, in use, or not yet refilled. */
  predicate Keep(cfg: Config, st: IpState, now: nat)
    requires cfg.Valid()
  {
    || Boxed(cfg, st, now)
    || st.active > 0
    || (cfg.rate > 0.0 && !Full(st.perSecond, now, cfg.rate, cfg.burst))
    || (cfg.sustainedRate > 0.0 && !Full(st.sustained, now, cfg.sustainedRate, cfg.sustainedBurst))
  }

  // ---- The table ----

  type Ip = int

  /** What can happen to the table. `now` is the timestamp the caller read; `at`, read inside the
      step, is no earlier than any clock reading before it. */
  datatype Event =
    | Connect(ip: Ip, now: nat, at: nat)
    | Close(ip: Ip)
    | Evict(now: nat, at: nat)

  /** `clock` is the latest clock reading of any step so far; `held` counts admitted connections. */
  datatype System = System(table: map<Ip, IpState>, clock: nat, held: multiset<Ip>)

  const EMPTY: System := System(map[], 0, multiset{})

  predicate Possible(sys: System, e: Event) {
    match e
    case Connect(_, now, at) => now <= at <= U64_MAX && sys.clock <= at
    case Close(ip) => ip in sys.held
    case Evict(now, at) => now <= at <= U64_MAX && sys.clock <= at
  }

  /** The state a check of `ip` finds: the entry, or a new one. */
  function Lookup(cfg: Config, sys: System, ip: Ip, at: nat): IpState {
    if ip in sys.table then sys.table[ip] else Fresh(cfg, at)
  }

  function Verdicts(cfg: Config, sys: System, e: Event): Verdict
    requires cfg.Valid() && e.Connect?
  {
    Check(cfg, Lookup(cfg, sys, e.ip, e.at), e.now).1
  }

  function Next(cfg: Config, sys: System, e: Event): System
    requires cfg.Valid()
  {
    match e
    case Connect(ip, now, at) =>
      var (st, verdict) := Check(cfg, Lookup(cfg, sys, ip, at), now);
      System(sys.table[ip := st], at, if verdict.Allow? then sys.held + multiset{ip} else sys.held)
    case Close(ip) =>
      sys.(table := if ip in sys.table then sys.table[ip := Release(sys.table[ip])] else sys.table,
           held := sys.held - multiset{ip})
    case Evict(now, at) =>
      sys.(table := map ip | ip in sys.table && Keep(cfg, sys.table[ip], now) :: sys.table[ip], clock := at)
  }

  /** A run: each event possible where it happens. */
  predicate Run(cfg: Config, sys: System, events: seq<Event>)
    requires cfg.Valid()
    decreases |events|
  {
    events != [] ==> Possible(sys, events[0]) && Run(cfg, Next(cfg, sys, events[0]), events[1..])
  }

  function After(cfg: Config, sys: System, events: seq<Event>): System
    requires cfg.Valid()
    decreases |events|
  {
    if events == [] then sys else After(cfg, Next(cfg, sys, events[0]), events[1..])
  }
}
