/** What the per-IP protection promises over whole runs: rate bounds that eviction cannot reset, a
    penalty box nothing opens early, and a count that is the number of live connections. */
module ProtectionLaws {
  import opened Basics
  import opened Protection

  // ---- One bucket ----

  /** Credit: the tokens held plus those that can still be earned by time `t`. */
  ghost function Credit(b: Bucket, t: nat, rate: real): real {
    b.tokens as real + Earned(SaturatingSub(t, b.last), rate)
  }

  lemma EarnedSum(a: nat, b: nat, rate: real)
    ensures Earned(a + b, rate) == Earned(a, rate) + Earned(b, rate)
  {
    assert (a + b) as real == a as real + b as real;
    assert (a as real + b as real) * rate == a as real * rate + b as real * rate;
  }

  lemma EarnedMore(a: nat, b: nat, rate: real)
    requires a <= b && rate >= 0.0
    ensures 0.0 <= Earned(a, rate) <= Earned(b, rate)
    ensures Earned(0, rate) == 0.0 && Refill(0, rate) == 0
  {
    assert a as real * rate >= 0.0 && (b - a) as real * rate >= 0.0;
    assert 0 as real * rate == 0.0;
    EarnedSum(a, b - a, rate);
  }

  /** Refilling at any time up to `t` only turns future credit into tokens. */
  lemma RefillConserves(b: Bucket, now: nat, rate: real, burst: nat, t: nat)
    requires rate >= 0.0 && now <= t && b.tokens <= burst <= U32_MAX
    ensures Refilled(b, now, rate, burst).tokens <= burst
    ensures Credit(Refilled(b, now, rate, burst), t, rate) <= Credit(b, t, rate)
  {
    hide Earned, Refill;
    EarnedMore(0, 0, rate);
    if now > b.last {
      EarnedSum(t - now, now - b.last, rate);
    }
  }

  /** A grant costs one token of credit. */
  lemma TakeConserves(b: Bucket, now: nat, rate: real, burst: nat, t: nat)
    requires rate >= 0.0 && now <= t && b.tokens <= burst <= U32_MAX
    ensures var (b', ok) := Take(b, now, rate, burst);
      && b'.tokens <= burst
      && Credit(b', t, rate) + (if ok then 1000.0 else 0.0) <= Credit(b, t, rate)
  {
    hide Earned, Refill, Refilled;
    RefillConserves(b, now, rate, burst, t);
  }

  /** After the first check of a window the credit is at most a full bucket, a rounding remainder
      below one unit, and what the window itself earns. */
  lemma FirstTake(b: Bucket, now: nat, rate: real, burst: nat, s: nat, t: nat)
    requires rate >= 0.0 && s <= now <= t && b.tokens <= burst <= U32_MAX
    ensures var (b', ok) := Take(b, now, rate, burst);
      Credit(b', t, rate) + (if ok then 1000.0 else 0.0) < burst as real + 1.0 + Earned(t - s, rate)
  {
    hide Earned, Refill;
    EarnedMore(t - now, t - s, rate);
    if now > b.last {
      EarnedSum(t - now, now - b.last, rate);
    } else {
      EarnedMore(SaturatingSub(t, b.last), t - now, rate);
    }
  }

  /** A bucket eviction calls full has at least the credit of a new one. */
  lemma FullIsFresh(b: Bucket, now: nat, rate: real, burst: nat, at: nat, t: nat)
    requires rate >= 0.0 && b.tokens <= burst && Full(b, now, rate, burst)
    requires now <= at && b.last <= at && now <= t
    ensures Credit(Bucket(burst, at), t, rate) <= Credit(b, t, rate)
  {
    hide Earned, Refill;
    if now > b.last {
      EarnedMore(SaturatingSub(t, at), t - now, rate);
      EarnedSum(t - now, now - b.last, rate);
    } else {
      EarnedMore(SaturatingSub(t, at), SaturatingSub(t, b.last), rate);
    }
  }

  // ---- Runs ----

  /** Within the ceilings, and stamped by readings the clock has passed. */
  ghost predicate Inv(cfg: Config, sys: System) {
    forall ip :: ip in sys.table ==>
      && sys.table[ip].perSecond.tokens <= cfg.burst && sys.table[ip].sustained.tokens <= cfg.sustainedBurst
      && sys.table[ip].perSecond.last <= sys.clock && sys.table[ip].sustained.last <= sys.clock
  }

  lemma CheckKeepsInv(cfg: Config, st: IpState, now: nat, clock: nat)
    requires cfg.Valid() && now <= clock
    requires st.perSecond.tokens <= cfg.burst && st.sustained.tokens <= cfg.sustainedBurst
    requires st.perSecond.last <= clock && st.sustained.last <= clock
    ensures var st' := Check(cfg, st, now).0;
      && st'.perSecond.tokens <= cfg.burst && st'.sustained.tokens <= cfg.sustainedBurst
      && st'.perSecond.last <= clock && st'.sustained.last <= clock
  {
    hide Refill, Extend, Boxed;
  }

  lemma StepKeepsInv(cfg: Config, sys: System, e: Event)
    requires cfg.Valid() && Inv(cfg, sys) && Possible(sys, e)
    ensures Inv(cfg, Next(cfg, sys, e)) && sys.clock <= Next(cfg, sys, e).clock
  {
    hide Check, Keep;
    if e.Connect? {
      CheckKeepsInv(cfg, Lookup(cfg, sys, e.ip, e.at), e.now, e.at);
    }
  }

  /** Which of the two buckets a bound is about. */
  datatype Which = PerSecond | Sustained

  function RateOf(cfg: Config, which: Which): real {
    if which.PerSecond? then cfg.rate else cfg.sustainedRate
  }

  function BurstOf(cfg: Config, which: Which): nat {
    if which.PerSecond? then cfg.burst else cfg.sustainedBurst
  }

  function BucketOf(st: IpState, which: Which): Bucket {
    if which.PerSecond? then st.perSecond else st.sustained
  }

  /** The credit of an IP: its entry's, or that of the entry its next check will create. */
  ghost function CreditOf(cfg: Config, sys: System, ip: Ip, which: Which, t: nat): real {
    Credit(if ip in sys.table then BucketOf(sys.table[ip], which) else Bucket(BurstOf(cfg, which), sys.clock),
           t, RateOf(cfg, which))
  }

  /** A check takes a token out of a bucket: it reaches the bucket, and the bucket has one. Every check
      reaches the per-second bucket; the sustained one is reached when the first had a token, and in
      the penalty box in any case. Whether the connection is then admitted is another matter. */
  predicate Grants(cfg: Config, st: IpState, now: nat, which: Which)
    requires cfg.Valid()
  {
    && (which.Sustained? ==> Boxed(cfg, st, now) || TakePerSecond(cfg, st, now).1)
    && Take(BucketOf(st, which), now, RateOf(cfg, which), BurstOf(cfg, which)).1
  }

  predicate GrantsTo(cfg: Config, sys: System, e: Event, ip: Ip, which: Which)
    requires cfg.Valid()
  {
    e.Connect? && e.ip == ip && Grants(cfg, Lookup(cfg, sys, ip, e.at), e.now, which)
  }

  /** Tokens of a bucket granted to `ip` during `events`. */
  function Granted(cfg: Config, sys: System, events: seq<Event>, ip: Ip, which: Which): nat
    requires cfg.Valid()
    decreases |events|
  {
    if events == [] then 0
    else
      (if GrantsTo(cfg, sys, events[0], ip, which) then 1 else 0)
      + Granted(cfg, Next(cfg, sys, events[0]), events[1..], ip, which)
  }

  /** Connections of `ip` admitted during `events`. */
  function Admitted(cfg: Config, sys: System, events: seq<Event>, ip: Ip): nat
    requires cfg.Valid()
    decreases |events|
  {
    if events == [] then 0
    else
      var e := events[0];
      (if e.Connect? && e.ip == ip && Verdicts(cfg, sys, e).Allow? then 1 else 0)
      + Admitted(cfg, Next(cfg, sys, e), events[1..], ip)
  }

  /** Every timestamp of the events is in the window. */
  predicate Within(events: seq<Event>, s: nat, t: nat) {
    forall i :: 0 <= i < |events| && !events[i].Close? ==> s <= events[i].now <= t
  }

  /** What a check does to either bucket: one `Take` or nothing; it is a grant if and only if a token
      was taken, and an admission is a grant of both. */
  lemma CheckTakes(cfg: Config, st: IpState, now: nat, which: Which)
    requires cfg.Valid() && RateOf(cfg, which) > 0.0
    ensures var (st', verdict) := Check(cfg, st, now);
      var b := BucketOf(st, which);
      var (b', ok) := Take(b, now, RateOf(cfg, which), BurstOf(cfg, which));
      && (verdict.Allow? ==> Grants(cfg, st, now, which))
      && ((BucketOf(st', which) == b' && (Grants(cfg, st, now, which) <==> ok))
          || (BucketOf(st', which) == b && !Grants(cfg, st, now, which)))
  {
    hide Take, Extend;
  }

  lemma ConnectConserves(cfg: Config, sys: System, e: Event, which: Which, s: nat, t: nat)
    requires cfg.Valid() && Inv(cfg, sys) && e.Connect? && Possible(sys, e) && s <= e.now <= t
    requires RateOf(cfg, which) > 0.0
    ensures var granted := if GrantsTo(cfg, sys, e, e.ip, which) then 1000.0 else 0.0;
      var after := CreditOf(cfg, Next(cfg, sys, e), e.ip, which, t);
      && after + granted <= CreditOf(cfg, sys, e.ip, which, t)
      && (granted > 0.0 ==>
            after + granted < BurstOf(cfg, which) as real + 1.0 + Earned(t - s, RateOf(cfg, which)))
  {
    hide Check, Take, Credit, Grants;
    var st := Lookup(cfg, sys, e.ip, e.at);
    var rate, burst, b := RateOf(cfg, which), BurstOf(cfg, which), BucketOf(st, which);
    CheckTakes(cfg, st, e.now, which);
    TakeConserves(b, e.now, rate, burst, t);
    FirstTake(b, e.now, rate, burst, s, t);
    if e.ip !in sys.table {
      LaterIsLess(burst, sys.clock, e.at, t, rate);
    }
  }

  lemma LaterIsLess(burst: nat, a: nat, b: nat, t: nat, rate: real)
    requires a <= b && rate >= 0.0
    ensures Credit(Bucket(burst, b), t, rate) <= Credit(Bucket(burst, a), t, rate)
  {
    EarnedMore(SaturatingSub(t, b), SaturatingSub(t, a), rate);
  }

  /** No event adds credit: not a check, not a release, and not an eviction. */
  lemma StepConserves(cfg: Config, sys: System, e: Event, ip: Ip, which: Which, s: nat, t: nat)
    requires cfg.Valid() && Inv(cfg, sys) && Possible(sys, e) && Within([e], s, t)
    requires RateOf(cfg, which) > 0.0
    ensures var granted := if GrantsTo(cfg, sys, e, ip, which) then 1000.0 else 0.0;
      CreditOf(cfg, Next(cfg, sys, e), ip, which, t) + granted <= CreditOf(cfg, sys, ip, which, t)
  {
    hide Check, Credit, Full, Grants;
    assert !e.Close? ==> s <= [e][0].now <= t;
    var rate, burst := RateOf(cfg, which), BurstOf(cfg, which);
    var clock' := Next(cfg, sys, e).clock;
    if e.Connect? && e.ip == ip {
      ConnectConserves(cfg, sys, e, which, s, t);
    } else if ip !in sys.table {
      LaterIsLess(burst, sys.clock, clock', t, rate);
    } else if e.Evict? && !Keep(cfg, sys.table[ip], e.now) {
      FullIsFresh(BucketOf(sys.table[ip], which), e.now, rate, burst, e.at, t);
    }
  }

  /** Grants are paid for out of credit. */
  lemma {:induction false} GrantsSpendCredit(cfg: Config, sys: System, events: seq<Event>, ip: Ip, which: Which,
                                             s: nat, t: nat)
    requires cfg.Valid() && Inv(cfg, sys) && Run(cfg, sys, events) && Within(events, s, t)
    requires RateOf(cfg, which) > 0.0
    ensures 1000.0 * Granted(cfg, sys, events, ip, which) as real <= CreditOf(cfg, sys, ip, which, t)
    decreases |events|
  {
    hide Credit, Next, GrantsTo, Inv, Possible;
    if events == [] {
      CreditPositive(cfg, sys, ip, which, t);
    } else {
      var e := events[0];
      assert Within([e], s, t);
      StepConserves(cfg, sys, e, ip, which, s, t);
      StepKeepsInv(cfg, sys, e);
      GrantsSpendCredit(cfg, Next(cfg, sys, e), events[1..], ip, which, s, t);
    }
  }

  lemma CreditPositive(cfg: Config, sys: System, ip: Ip, which: Which, t: nat)
    requires cfg.Valid()
    ensures CreditOf(cfg, sys, ip, which, t) >= 0.0
  {
    var b := if ip in sys.table then BucketOf(sys.table[ip], which) else Bucket(BurstOf(cfg, which), sys.clock);
    EarnedMore(0, SaturatingSub(t, b.last), RateOf(cfg, which));
  }

  /** The rate bound, for either bucket and from any state a run can reach: in a window [s, t] the
      tokens granted to one IP, to connections admitted or not, never exceed a full bucket and what the
      window earns, whatever checks, releases and evictions make up the window. */
  lemma {:induction false} RateBound(cfg: Config, sys: System, events: seq<Event>, ip: Ip, which: Which, s: nat, t: nat)
    requires cfg.Valid() && Inv(cfg, sys) && Run(cfg, sys, events) && Within(events, s, t) && s <= t
    requires RateOf(cfg, which) > 0.0
    ensures 1000.0 * Granted(cfg, sys, events, ip, which) as real
          < BurstOf(cfg, which) as real + 1.0 + Earned(t - s, RateOf(cfg, which))
    decreases |events|
  {
    hide Credit, Next, Grants, Inv, Earned;
    EarnedMore(0, t - s, RateOf(cfg, which));
    if events != [] {
      var e := events[0];
      var rest, sys' := events[1..], Next(cfg, sys, e);
      StepKeepsInv(cfg, sys, e);
      if GrantsTo(cfg, sys, e, ip, which) {
        ConnectConserves(cfg, sys, e, which, s, t);
        GrantsSpendCredit(cfg, sys', rest, ip, which, s, t);
      } else {
        RateBound(cfg, sys', rest, ip, which, s, t);
      }
    }
  }

  /** Every admission was granted a token of each enabled bucket. */
  lemma {:induction false} AdmittedIsGranted(cfg: Config, sys: System, events: seq<Event>, ip: Ip, which: Which)
    requires cfg.Valid() && RateOf(cfg, which) > 0.0
    ensures Admitted(cfg, sys, events, ip) <= Granted(cfg, sys, events, ip, which)
    decreases |events|
  {
    hide Next, Grants, Check;
    if events != [] {
      var e := events[0];
      if e.Connect? && e.ip == ip { CheckTakes(cfg, Lookup(cfg, sys, ip, e.at), e.now, which); }
      AdmittedIsGranted(cfg, Next(cfg, sys, e), events[1..], ip, which);
    }
  }

  lemma {:induction false} RunKeepsInv(cfg: Config, sys: System, events: seq<Event>)
    requires cfg.Valid() && Inv(cfg, sys) && Run(cfg, sys, events)
    ensures Inv(cfg, After(cfg, sys, events))
    decreases |events|
  {
    hide Next, Inv;
    if events != [] {
      StepKeepsInv(cfg, sys, events[0]);
      RunKeepsInv(cfg, Next(cfg, sys, events[0]), events[1..]);
    }
  }

  /** The same, for any window of any run of a proxy that started with an empty table; and with it the
      bound on connections admitted. */
  lemma RateBoundInRun(cfg: Config, before: seq<Event>, window: seq<Event>, ip: Ip, which: Which, s: nat, t: nat)
    requires cfg.Valid() && Run(cfg, EMPTY, before) && s <= t && Within(window, s, t)
    requires Run(cfg, After(cfg, EMPTY, before), window) && RateOf(cfg, which) > 0.0
    ensures var sys := After(cfg, EMPTY, before);
      && Admitted(cfg, sys, window, ip) <= Granted(cfg, sys, window, ip, which)
      && 1000.0 * Granted(cfg, sys, window, ip, which) as real
         < BurstOf(cfg, which) as real + 1.0 + Earned(t - s, RateOf(cfg, which))
  {
    RunKeepsInv(cfg, EMPTY, before);
    RateBound(cfg, After(cfg, EMPTY, before), window, ip, which, s, t);
    AdmittedIsGranted(cfg, After(cfg, EMPTY, before), window, ip, which);
  }

  // ---- Eviction is invisible ----

  lemma FullTakesAlike(b: Bucket, evicted: nat, now: nat, at: nat, rate: real, burst: nat)
    requires rate >= 0.0 && b.tokens <= burst <= U32_MAX && Full(b, evicted, rate, burst) && evicted <= now <= at
    ensures var (old', ok) := Take(b, now, rate, burst);
      var (new', ok') := Take(Bucket(burst, at), now, rate, burst);
      ok == ok' && old'.tokens == new'.tokens && (old'.last == now || old'.last == b.last) && new'.last == at
  {
    RefillMore(SaturatingSub(evicted, b.last), SaturatingSub(now, b.last), rate);
    EarnedMore(0, 0, rate);
  }

  lemma RefillMore(a: nat, b: nat, rate: real)
    requires a <= b && rate >= 0.0
    ensures Refill(a, rate) <= Refill(b, rate)
  {
    EarnedMore(a, b, rate);
  }

  /** A check answers exactly as if the entry had never been evicted, and leaves the same tokens,
      count and penalty behind. */
  lemma EvictionIsInvisible(cfg: Config, st: IpState, evicted: nat, now: nat, at: nat)
    requires cfg.Valid() && st.perSecond.tokens <= cfg.burst && st.sustained.tokens <= cfg.sustainedBurst
    requires !Keep(cfg, st, evicted) && evicted <= now <= at
    ensures var (kept, verdict) := Check(cfg, st, now);
      var (anew, verdict') := Check(cfg, Fresh(cfg, at), now);
      && verdict == verdict' && kept.active == anew.active
      && (cfg.rate > 0.0 ==> kept.perSecond.tokens == anew.perSecond.tokens)
      && (cfg.sustainedRate > 0.0 && !verdict.RateLimited? ==> kept.sustained.tokens == anew.sustained.tokens)
      && (forall x :: x >= now ==> Boxed(cfg, kept, x) == Boxed(cfg, anew, x))
  {
    hide Take, Full;
    if cfg.rate > 0.0 {
      FullTakesAlike(st.perSecond, evicted, now, at, cfg.rate, cfg.burst);
    }
    if cfg.sustainedRate > 0.0 {
      FullTakesAlike(st.sustained, evicted, now, at, cfg.sustainedRate, cfg.sustainedBurst);
    }
  }

  // ---- How long it stays invisible ----

  /** What a bucket answers to checks at these times. */
  function Answers(b: Bucket, nows: seq<nat>, rate: real, burst: nat): seq<bool>
    requires rate >= 0.0
    decreases |nows|
  {
    if nows == [] then [] else
      var (b', ok) := Take(b, nows[0], rate, burst);
      [ok] + Answers(b', nows[1..], rate, burst)
  }

  ghost predicate From(nows: seq<nat>, t: nat) { forall i :: 0 <= i < |nows| ==> t <= nows[i] }

  lemma ScaleUp(x: real, y: real, c: real)
    requires x <= y && c > 0.0
    ensures x * c <= y * c && (x < y ==> x * c < y * c)
  {
    assert (y - x) * c >= 0.0 && (x < y ==> (y - x) * c > 0.0);
  }

  lemma EarnedAround(n: nat, q: real, k: nat, rate: real)
    requires rate > 0.0 && q * (rate * 1000.0) == k as real
    ensures n as real < q ==> Earned(n, rate) < k as real
    ensures n as real >= q ==> Earned(n, rate) >= k as real
  {
    var x := n as real;
    assert Earned(n, rate) == x * (rate * 1000.0);
    if x < q { ScaleUp(x, q, rate * 1000.0); } else { ScaleUp(q, x, rate * 1000.0); }
  }

  /** The least time in which `k` is earned, and the moment before. */
  lemma TimeToEarn(k: nat, rate: real) returns (m: nat, n: nat)
    requires rate > 0.0 && k > 0
    ensures n == m + 1 && Earned(m, rate) < k as real <= Earned(n, rate)
  {
    hide Earned;
    var q := k as real / (rate * 1000.0);
    assert q * (rate * 1000.0) == k as real;
    assert q > 0.0 by { if q <= 0.0 { ScaleUp(q, 0.0, rate * 1000.0); } }
    n := if q.Floor as real == q then q.Floor else q.Floor + 1;
    m := n - 1;
    EarnedAround(m, q, k, rate);
    EarnedAround(n, q, k, rate);
  }

  lemma RefillReaches(elapsed: nat, k: nat, rate: real)
    requires rate >= 0.0 && k <= U32_MAX
    ensures Refill(elapsed, rate) >= k <==> Earned(elapsed, rate) >= k as real
  {
    hide Earned;
  }

  /** The first time at which a bucket stamped `last` has earned `k`: one stamped later has not. */
  lemma FirstEarned(last: nat, later: nat, k: nat, rate: real) returns (t: nat)
    requires rate > 0.0 && last < later && 0 < k <= U32_MAX
    ensures Refill(SaturatingSub(t, last), rate) >= k > Refill(SaturatingSub(t, later), rate)
  {
    hide Earned, Refill;
    var m, n := TimeToEarn(k, rate);
    t := last + n;
    EarnedMore(SaturatingSub(t, later), m, rate);
    RefillReaches(n, k, rate);
    RefillReaches(SaturatingSub(t, later), k, rate);
  }

  /** Two buckets with the same tokens and different stamps answer differently sooner or later. */
  lemma StampsShow(k: Bucket, a: Bucket, now: nat, rate: real, burst: nat) returns (nows: seq<nat>)
    requires rate > 0.0 && k.tokens == a.tokens && ONE_TOKEN <= burst <= U32_MAX && k.last < a.last
    requires Refill(SaturatingSub(now, k.last), rate) == 0 == Refill(SaturatingSub(now, a.last), rate)
    ensures From(nows, now) && Answers(k, nows, rate, burst) != Answers(a, nows, rate, burst)
    decreases k.tokens
  {
    hide Refill, Earned;
    if k.tokens >= ONE_TOKEN {
      var k', a' := Bucket(k.tokens - ONE_TOKEN, k.last), Bucket(a.tokens - ONE_TOKEN, a.last);
      var rest := StampsShow(k', a', now, rate, burst);
      nows := [now] + rest;
      assert nows[1..] == rest;
      assert Answers(k, nows, rate, burst) == [true] + Answers(k', rest, rate, burst);
      assert Answers(a, nows, rate, burst) == [true] + Answers(a', rest, rate, burst);
      assert Answers(k', rest, rate, burst) == Answers(k, nows, rate, burst)[1..];
      assert Answers(a', rest, rate, burst) == Answers(a, nows, rate, burst)[1..];
    } else {
      var t := FirstEarned(k.last, a.last, ONE_TOKEN - k.tokens, rate);
      if t < now { RefillMore(SaturatingSub(t, k.last), SaturatingSub(now, k.last), rate); }
      nows := [t];
      assert Answers(k, nows, rate, burst)[0] && !Answers(a, nows, rate, burst)[0];
    }
  }

  lemma {:induction false} NeverGranted(b: Bucket, c: Bucket, nows: seq<nat>, rate: real, burst: nat)
    requires rate >= 0.0 && b.tokens <= burst && c.tokens <= burst < ONE_TOKEN
    ensures Answers(b, nows, rate, burst) == Answers(c, nows, rate, burst)
    decreases |nows|
  {
    hide Refill;
    if nows != [] {
      NeverGranted(Take(b, nows[0], rate, burst).0, Take(c, nows[0], rate, burst).0, nows[1..], rate, burst);
    }
  }

  /** The stamp a check leaves on a kept bucket is the one a new bucket has. */
  predicate SameStamp(b: Bucket, now: nat, at: nat, rate: real)
    requires rate >= 0.0
  {
    at == if Refill(SaturatingSub(now, b.last), rate) > 0 then now else b.last
  }

  /** A bucket taken for full and made anew by a check answers every later check as if it had been kept
      if and only if the kept one would now bear the same stamp, or no token fits in it. Otherwise the
      time since the older stamp shows: the kept bucket has the next token first. */
  lemma EvictionShowsExactly(b: Bucket, evicted: nat, now: nat, at: nat, rate: real, burst: nat)
    requires rate > 0.0 && b.tokens <= burst <= U32_MAX && Full(b, evicted, rate, burst)
    requires evicted <= now <= at && b.last <= at
    ensures var kept, anew := Take(b, now, rate, burst).0, Take(Bucket(burst, at), now, rate, burst).0;
      (forall nows :: From(nows, now) ==> Answers(kept, nows, rate, burst) == Answers(anew, nows, rate, burst))
      <==> (SameStamp(b, now, at, rate) || burst < ONE_TOKEN)
  {
    var kept, anew := Take(b, now, rate, burst).0, Take(Bucket(burst, at), now, rate, burst).0;
    FullTakesAlike(b, evicted, now, at, rate, burst);
    EarnedMore(0, 0, rate);
    hide Refill, Earned, Answers, Full;
    if burst < ONE_TOKEN {
      forall nows | From(nows, now) ensures Answers(kept, nows, rate, burst) == Answers(anew, nows, rate, burst) {
        NeverGranted(kept, anew, nows, rate, burst);
      }
    } else if kept.last != at {
      var nows := StampsShow(kept, anew, now, rate, burst);
    }
  }

  // ---- An entry with both buckets and the penalty box ----

  /** What happens to an entry: a check, or one of its connections closing. */
  datatype Use = Arrives(now: nat) | Leaves

  function Used(cfg: Config, st: IpState, use: Use): (IpState, seq<Verdict>)
    requires cfg.Valid()
  {
    match use
    case Arrives(now) => var (st', verdict) := Check(cfg, st, now); (st', [verdict])
    case Leaves => (Release(st), [])
  }

  /** The verdicts of an entry over a run of checks and closes. */
  function VerdictsOf(cfg: Config, st: IpState, uses: seq<Use>): seq<Verdict>
    requires cfg.Valid()
    decreases |uses|
  {
    if uses == [] then []
    else
      var (st', verdicts) := Used(cfg, st, uses[0]);
      verdicts + VerdictsOf(cfg, st', uses[1..])
  }

  ghost predicate NotBefore(uses: seq<Use>, t: nat) {
    forall i :: 0 <= i < |uses| && uses[i].Arrives? ==> t <= uses[i].now
  }

  /** An enabled bucket has no room for a token, so no check is ever allowed. */
  predicate NoRoom(cfg: Config) {
    (cfg.rate > 0.0 && cfg.burst < ONE_TOKEN) || (cfg.sustainedRate > 0.0 && cfg.sustainedBurst < ONE_TOKEN)
  }

  /** No check from `t` on can tell the two entries apart: enabled buckets are the same, unless one of
      them can never grant, counts are the same, and penalties are the same or over. */
  ghost predicate Alike(cfg: Config, a: IpState, b: IpState, t: nat) {
    && a.active == b.active
    && (cfg.penaltyMs > 0 ==> a.deadline == b.deadline || (a.deadline <= t && b.deadline <= t))
    && a.perSecond.tokens <= cfg.burst && b.perSecond.tokens <= cfg.burst
    && a.sustained.tokens <= cfg.sustainedBurst && b.sustained.tokens <= cfg.sustainedBurst
    && (!NoRoom(cfg) ==>
          && (cfg.rate > 0.0 ==> a.perSecond == b.perSecond)
          && (cfg.sustainedRate > 0.0 ==> a.sustained == b.sustained))
  }

  lemma AlikeCheck(cfg: Config, a: IpState, b: IpState, t: nat, now: nat)
    requires cfg.Valid() && Alike(cfg, a, b, t) && t <= now
    ensures var (a', v), (b', w) := Check(cfg, a, now), Check(cfg, b, now);
      v == w && Alike(cfg, a', b', t)
  {
    hide Take;
    if cfg.rate > 0.0 {
      TakeKeepsCeiling(a.perSecond, now, cfg.rate, cfg.burst);
      TakeKeepsCeiling(b.perSecond, now, cfg.rate, cfg.burst);
    }
    if cfg.sustainedRate > 0.0 {
      TakeKeepsCeiling(a.sustained, now, cfg.sustainedRate, cfg.sustainedBurst);
      TakeKeepsCeiling(b.sustained, now, cfg.sustainedRate, cfg.sustainedBurst);
    }
  }

  lemma TakeKeepsCeiling(b: Bucket, now: nat, rate: real, burst: nat)
    requires rate >= 0.0 && b.tokens <= burst
    ensures var (b', ok) := Take(b, now, rate, burst); b'.tokens <= burst && (burst < ONE_TOKEN ==> !ok)
  {
    hide Refill;
  }

  lemma {:induction false} AlikeForever(cfg: Config, a: IpState, b: IpState, t: nat, uses: seq<Use>)
    requires cfg.Valid() && Alike(cfg, a, b, t) && NotBefore(uses, t)
    ensures VerdictsOf(cfg, a, uses) == VerdictsOf(cfg, b, uses)
    decreases |uses|
  {
    if uses != [] {
      hide Alike, Check;
      match uses[0] {
        case Arrives(now) => AlikeCheck(cfg, a, b, t, now);
        case Leaves => AlikeRelease(cfg, a, b, t);
      }
      AlikeForever(cfg, Used(cfg, a, uses[0]).0, Used(cfg, b, uses[0]).0, t, uses[1..]);
    }
  }

  lemma AlikeRelease(cfg: Config, a: IpState, b: IpState, t: nat)
    requires Alike(cfg, a, b, t)
    ensures Alike(cfg, Release(a), Release(b), t)
  {
  }

  /** The whole entry: evicted and made anew by a check, it answers that check and every later run of
      checks and closes as if it had been kept, as long as each enabled bucket would bear the same
      stamp, or either has no room for a token. In the latter case the stamps may well differ. */
  lemma EvictionNeverShows(cfg: Config, st: IpState, evicted: nat, now: nat, at: nat, uses: seq<Use>)
    requires cfg.Valid() && st.perSecond.tokens <= cfg.burst && st.sustained.tokens <= cfg.sustainedBurst
    requires !Keep(cfg, st, evicted) && evicted <= now <= at && NotBefore(uses, now)
    requires
      || NoRoom(cfg)
      || ((cfg.rate > 0.0 ==> SameStamp(st.perSecond, now, at, cfg.rate)) &&
          (cfg.sustainedRate > 0.0 ==> SameStamp(st.sustained, now, at, cfg.sustainedRate)))
    ensures VerdictsOf(cfg, st, [Arrives(now)] + uses) == VerdictsOf(cfg, Fresh(cfg, at), [Arrives(now)] + uses)
  {
    var kept, anew := Check(cfg, st, now).0, Check(cfg, Fresh(cfg, at), now).0;
    EvictionIsInvisible(cfg, st, evicted, now, at);
    EvictedAlike(cfg, st, evicted, now, at);
    AlikeForever(cfg, kept, anew, now, uses);
    assert ([Arrives(now)] + uses)[1..] == uses;
  }

  lemma EvictedAlike(cfg: Config, st: IpState, evicted: nat, now: nat, at: nat)
    requires cfg.Valid() && st.perSecond.tokens <= cfg.burst && st.sustained.tokens <= cfg.sustainedBurst
    requires !Keep(cfg, st, evicted) && evicted <= now <= at
    requires
      || NoRoom(cfg)
      || ((cfg.rate > 0.0 ==> SameStamp(st.perSecond, now, at, cfg.rate)) &&
          (cfg.sustainedRate > 0.0 ==> SameStamp(st.sustained, now, at, cfg.sustainedRate)))
    ensures Alike(cfg, Check(cfg, st, now).0, Check(cfg, Fresh(cfg, at), now).0, now)
  {
    if cfg.rate > 0.0 {
      FullTakesSame(st.perSecond, evicted, now, at, cfg.rate, cfg.burst);
    }
    if cfg.sustainedRate > 0.0 {
      FullTakesSame(st.sustained, evicted, now, at, cfg.sustainedRate, cfg.sustainedBurst);
    }
    hide Take, Full, SameStamp, Refill;
  }

  lemma FullTakesSame(b: Bucket, evicted: nat, now: nat, at: nat, rate: real, burst: nat)
    requires rate > 0.0 && b.tokens <= burst <= U32_MAX && Full(b, evicted, rate, burst) && evicted <= now <= at
    ensures var (kept, ok), (anew, ok') := Take(b, now, rate, burst), Take(Bucket(burst, at), now, rate, burst);
      ok == ok' == (burst >= ONE_TOKEN) && kept.tokens <= burst && anew.tokens <= burst &&
      (SameStamp(b, now, at, rate) ==> kept == anew)
  {
    FullTakesAlike(b, evicted, now, at, rate, burst);
    EarnedMore(0, 0, rate);
    hide Earned, Refill;
  }

  // ---- The penalty box ----

  /** Some enabled bucket had no token for a check at `now`. */
  predicate Exhausts(cfg: Config, st: IpState, now: nat)
    requires cfg.Valid()
  {
    var (st1, ok1) := TakePerSecond(cfg, st, now);
    !ok1 || !TakeSustained(cfg, st1, now).1
  }

  /** When the penalty of a debit exhausted at `now` ends; saturating, so never before `now`. */
  function PenaltyEnd(cfg: Config, now: nat): nat {
    Min(now + Min(cfg.penaltyMs * 1_000_000, U64_MAX), U64_MAX)
  }

  lemma CheckExtends(cfg: Config, st: IpState, now: nat)
    requires cfg.Valid() && cfg.penaltyMs > 0
    ensures var (st', verdict) := Check(cfg, st, now);
      && st'.deadline == (if Exhausts(cfg, st, now) then Max(st.deadline, PenaltyEnd(cfg, now)) else st.deadline)
      && (Exhausts(cfg, st, now) || Boxed(cfg, st, now) ==> verdict.RateLimited? || verdict.PenaltyBoxed?)
      && (Boxed(cfg, st, now) <==> verdict.PenaltyBoxed?)
      && (verdict.RateLimited? ==> Exhausts(cfg, st, now))
  {
    hide Take;
  }

  /** The latest penalty end over the exhausted debits of `ip` in a run, starting from `m`. */
  function LatestPenalty(cfg: Config, sys: System, events: seq<Event>, ip: Ip, m: nat): nat
    requires cfg.Valid()
    decreases |events|
  {
    if events == [] then m
    else
      var e := events[0];
      LatestPenalty(cfg, Next(cfg, sys, e), events[1..], ip,
        if e.Connect? && e.ip == ip && Exhausts(cfg, Lookup(cfg, sys, ip, e.at), e.now)
        then Max(m, PenaltyEnd(cfg, e.now)) else m)
  }

  predicate BoxedAt(cfg: Config, sys: System, ip: Ip, x: nat) {
    ip in sys.table && Boxed(cfg, sys.table[ip], x)
  }

  predicate EvictedBy(events: seq<Event>, x: nat) {
    forall i :: 0 <= i < |events| && events[i].Evict? ==> events[i].now <= x
  }

  lemma StepBoxes(cfg: Config, sys: System, e: Event, ip: Ip, m: nat, x: nat)
    requires cfg.Valid() && cfg.penaltyMs > 0 && (BoxedAt(cfg, sys, ip, x) <==> x < m)
    requires e.Evict? ==> e.now <= x
    ensures var m' := if e.Connect? && e.ip == ip && Exhausts(cfg, Lookup(cfg, sys, ip, e.at), e.now)
                      then Max(m, PenaltyEnd(cfg, e.now)) else m;
      BoxedAt(cfg, Next(cfg, sys, e), ip, x) <==> x < m'
  {
    hide Check, Exhausts, PenaltyEnd, Full;
    if e.Connect? && e.ip == ip {
      CheckExtends(cfg, Lookup(cfg, sys, ip, e.at), e.now);
    }
  }

  lemma {:induction false} RunBoxes(cfg: Config, sys: System, events: seq<Event>, ip: Ip, m: nat, x: nat)
    requires cfg.Valid() && cfg.penaltyMs > 0 && (BoxedAt(cfg, sys, ip, x) <==> x < m) && EvictedBy(events, x)
    ensures BoxedAt(cfg, After(cfg, sys, events), ip, x) <==> x < LatestPenalty(cfg, sys, events, ip, m)
    decreases |events|
  {
    hide Next, Exhausts, PenaltyEnd, BoxedAt;
    if events != [] {
      var e := events[0];
      var m' := if e.Connect? && e.ip == ip && Exhausts(cfg, Lookup(cfg, sys, ip, e.at), e.now)
                then Max(m, PenaltyEnd(cfg, e.now)) else m;
      StepBoxes(cfg, sys, e, ip, m, x);
      RunBoxes(cfg, Next(cfg, sys, e), events[1..], ip, m', x);
    }
  }

  /** The penalty box, exactly: after any run, at any time `x` not before the evictions it contains,
      an IP is boxed if and only if `x` is before the latest penalty end of its exhausted debits. */
  lemma BoxIsLatestPenalty(cfg: Config, events: seq<Event>, ip: Ip, x: nat)
    requires cfg.Valid() && cfg.penaltyMs > 0 && EvictedBy(events, x)
    ensures BoxedAt(cfg, After(cfg, EMPTY, events), ip, x) <==> x < LatestPenalty(cfg, EMPTY, events, ip, 0)
  {
    RunBoxes(cfg, EMPTY, events, ip, 0, x);
  }

  lemma {:induction false} LatestGrows(cfg: Config, sys: System, events: seq<Event>, ip: Ip, m: nat)
    requires cfg.Valid()
    ensures m <= LatestPenalty(cfg, sys, events, ip, m)
    decreases |events|
  {
    hide Next, Exhausts, PenaltyEnd;
    if events != [] {
      var e := events[0];
      LatestGrows(cfg, Next(cfg, sys, e), events[1..], ip,
        if e.Connect? && e.ip == ip && Exhausts(cfg, Lookup(cfg, sys, ip, e.at), e.now)
        then Max(m, PenaltyEnd(cfg, e.now)) else m);
    }
  }

  /** Once a check is rate-limited, no check of that IP is allowed before its penalty ends, whatever
      checks, releases and evictions come between. */
  lemma NoAllowDuringPenalty(cfg: Config, sys: System, limited: Event, between: seq<Event>, later: Event)
    requires cfg.Valid() && cfg.penaltyMs > 0 && limited.Connect? && later.Connect? && later.ip == limited.ip
    requires Verdicts(cfg, sys, limited).RateLimited? && EvictedBy(between, later.now)
    requires later.now < limited.now + cfg.penaltyMs * 1_000_000 && later.now < U64_MAX
    ensures Verdicts(cfg, After(cfg, Next(cfg, sys, limited), between), later).PenaltyBoxed?
  {
    hide Check, Exhausts, Next;
    var ip, x := limited.ip, later.now;
    var sys' := Next(cfg, sys, limited);
    var st := Lookup(cfg, sys, ip, limited.at);
    CheckExtends(cfg, st, limited.now);
    assert x < PenaltyEnd(cfg, limited.now);
    LimitedBoxes(cfg, sys, limited, x);
    RunStaysBoxed(cfg, sys', between, ip, x);
    CheckExtends(cfg, Lookup(cfg, After(cfg, sys', between), ip, later.at), x);
  }

  lemma LimitedBoxes(cfg: Config, sys: System, limited: Event, x: nat)
    requires cfg.Valid() && cfg.penaltyMs > 0 && limited.Connect? && Verdicts(cfg, sys, limited).RateLimited?
    requires x < PenaltyEnd(cfg, limited.now)
    ensures BoxedAt(cfg, Next(cfg, sys, limited), limited.ip, x)
  {
    hide Check, Exhausts;
    CheckExtends(cfg, Lookup(cfg, sys, limited.ip, limited.at), limited.now);
  }

  lemma {:induction false} RunStaysBoxed(cfg: Config, sys: System, events: seq<Event>, ip: Ip, x: nat)
    requires cfg.Valid() && cfg.penaltyMs > 0 && BoxedAt(cfg, sys, ip, x) && EvictedBy(events, x)
    ensures BoxedAt(cfg, After(cfg, sys, events), ip, x)
  {
    LatestGrows(cfg, sys, events, ip, x + 1);
    RunBoxes(cfg, sys, events, ip, x + 1, x);
  }

  // ---- The concurrency count ----

  /** The count of every entry is the number of connections admitted and not yet closed, and an IP
      with such a connection has an entry. */
  ghost predicate Counted(sys: System) {
    forall ip: Ip :: sys.held[ip] == if ip in sys.table then sys.table[ip].active else 0
  }

  lemma StepCounts(cfg: Config, sys: System, e: Event)
    requires cfg.Valid() && Counted(sys) && Possible(sys, e)
    requires e.Connect? ==> sys.held[e.ip] < U32_MAX
    ensures Counted(Next(cfg, sys, e))
  {
    hide Take, Extend, Boxed, Full;
    if e.Connect? {
      var st := Lookup(cfg, sys, e.ip, e.at);
      CheckCounts(cfg, st, e.now);
    }
  }

  lemma CheckCounts(cfg: Config, st: IpState, now: nat)
    requires cfg.Valid() && st.active < U32_MAX
    ensures var (st', verdict) := Check(cfg, st, now);
      && st'.active == (if verdict.Allow? then st.active + 1 else st.active)
      && (verdict.Allow? && cfg.maxConcurrent > 0 ==> st'.active <= cfg.maxConcurrent)
  {
    hide Take, Extend, Boxed;
  }

  /** Fewer connections from one IP than a 32-bit counter holds. */
  predicate Countable(cfg: Config, sys: System, events: seq<Event>)
    requires cfg.Valid()
    decreases |events|
  {
    events != [] ==>
      (events[0].Connect? ==> sys.held[events[0].ip] < U32_MAX) &&
      Countable(cfg, Next(cfg, sys, events[0]), events[1..])
  }

  /** In every run the counts are exact, so an eviction never removes the entry of a live
      connection, and a limit on concurrent connections is never exceeded. */
  lemma {:induction false} CountIsLiveConnections(cfg: Config, sys: System, events: seq<Event>, ip: Ip)
    requires cfg.Valid() && Counted(sys) && Run(cfg, sys, events) && Countable(cfg, sys, events)
    requires cfg.maxConcurrent > 0 ==> sys.held[ip] <= cfg.maxConcurrent
    ensures var sys' := After(cfg, sys, events);
      && Counted(sys') && (ip in sys'.held ==> ip in sys'.table)
      && (cfg.maxConcurrent > 0 ==> sys'.held[ip] <= cfg.maxConcurrent)
    decreases |events|
  {
    hide Check, Keep;
    if events != [] {
      var e := events[0];
      StepCounts(cfg, sys, e);
      if e.Connect? {
        CheckCounts(cfg, Lookup(cfg, sys, e.ip, e.at), e.now);
      }
      CountIsLiveConnections(cfg, Next(cfg, sys, e), events[1..], ip);
    }
  }

  // ---- And what is granted for certain ----

  lemma WholeTokenEarned(elapsed: nat, rate: real)
    requires rate >= 0.0 && Earned(elapsed, rate) >= 1000.0
    ensures Refill(elapsed, rate) >= ONE_TOKEN
  {
    hide Earned;
  }

  /** The other side of the bound: a check that comes a whole token after the last refill is granted,
      whatever the bucket held, as long as the bucket can hold a token at all. */
  lemma WaitingEarnsToken(b: Bucket, now: nat, rate: real, burst: nat)
    requires rate >= 0.0 && ONE_TOKEN <= burst <= U32_MAX && b.last <= now && Earned(now - b.last, rate) >= 1000.0
    ensures var (after, ok) := Take(b, now, rate, burst); ok && after.last == now
  {
    hide Earned, Refill;
    WholeTokenEarned(now - b.last, rate);
  }

  /** From `last` on, each check comes after time enough to earn a whole token. */
  ghost predicate Spaced(last: nat, times: seq<nat>, rate: real)
    decreases |times|
  {
    times != [] ==> last <= times[0] && Earned(times[0] - last, rate) >= 1000.0 && Spaced(times[0], times[1..], rate)
  }

  /** Checks spaced at least one token apart are all granted. */
  lemma {:induction false} SpacedChecksAreGranted(b: Bucket, times: seq<nat>, rate: real, burst: nat)
    requires rate >= 0.0 && ONE_TOKEN <= burst <= U32_MAX && Spaced(b.last, times, rate)
    ensures var g := Answers(b, times, rate, burst); |g| == |times| && forall i :: 0 <= i < |g| ==> g[i]
    decreases |times|
  {
    hide Earned, Take;
    if times != [] {
      WaitingEarnsToken(b, times[0], rate, burst);
      SpacedChecksAreGranted(Take(b, times[0], rate, burst).0, times[1..], rate, burst);
    }
  }
}
