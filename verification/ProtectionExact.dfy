/** What one check, one eviction and one event do to the state of an address, field by field. */
module ProtectionExact {
  import opened Basics
  import opened Protection

  /** What a rate earns from one moment to another, in thousandths of a token. */
  ghost function Since(last: nat, now: nat, rate: real): real {
    (if now <= last then 0 else now - last) as real * rate * 1000.0
  }

  /** The tokens in a bucket when it is asked, in thousandths: what it held, and if at least one more was
      earned since its stamp, that rounded down on top, within the ceiling and 32 bits. */
  ghost predicate Level(b: Bucket, now: nat, earned: real, burst: nat, level: nat, stamp: nat) {
    if earned < 1.0 then level == b.tokens && stamp == b.last
    else
      && stamp == now && level <= burst && level <= 0xFFFF_FFFF && level <= b.tokens + earned.Floor
      && (level == burst || level == 0xFFFF_FFFF || level == b.tokens + earned.Floor)
  }

  /** A token is a thousand of them, and is taken if and only if it is there. */
  lemma TakeIsExact(b: Bucket, now: nat, rate: real, burst: nat) returns (level: nat, stamp: nat)
    requires rate >= 0.0
    ensures Level(b, now, Since(b.last, now, rate), burst, level, stamp)
    ensures Take(b, now, rate, burst) ==
      if level >= 1000 then (Bucket(level - 1000, stamp), true) else (Bucket(level, stamp), false)
  {
    SinceExactly(b.last, now, rate);
    RefillExactly(SaturatingSub(now, b.last), rate);
    hide Refill, Since, Earned;
    var r := Refilled(b, now, rate, burst);
    level, stamp := r.tokens, r.last;
  }

  lemma SinceExactly(last: nat, now: nat, rate: real)
    ensures Since(last, now, rate) == Earned(SaturatingSub(now, last), rate)
  {
  }

  /** There is only one such level. */
  lemma LevelIsOne(b: Bucket, now: nat, earned: real, burst: nat, x: nat, y: nat, at: nat, other: nat)
    requires Level(b, now, earned, burst, x, at) && Level(b, now, earned, burst, y, other)
    ensures x == y && at == other
  {
  }

  /** A refill is what was earned, rounded down, or as much of it as fits in 32 bits. */
  lemma RefillExactly(elapsed: nat, rate: real)
    requires rate >= 0.0
    ensures var earned := Earned(elapsed, rate);
      && earned >= 0.0 && (Refill(elapsed, rate) == 0 <==> earned < 1.0)
      && Refill(elapsed, rate) == if earned.Floor <= 0xFFFF_FFFF then earned.Floor else 0xFFFF_FFFF
  {
    assert elapsed as real * rate >= 0.0;
    hide Earned;
  }

  // ---- One check ----

  /** A bucket that is switched off, or has a token to give. */
  ghost predicate Gives(b: Bucket, now: nat, rate: real, burst: nat)
    requires rate >= 0.0
  {
    rate == 0.0 || Take(b, now, rate, burst).1
  }

  ghost predicate Penalised(cfg: Config, st: IpState, now: nat) { cfg.penaltyMs != 0 && now < st.deadline }

  /** The verdict is the first of these that applies. */
  lemma VerdictIsExact(cfg: Config, st: IpState, now: nat)
    requires cfg.Valid()
    ensures var verdict := Check(cfg, st, now).1;
      var perSecond := Gives(st.perSecond, now, cfg.rate, cfg.burst);
      var sustained := Gives(st.sustained, now, cfg.sustainedRate, cfg.sustainedBurst);
      var room := cfg.maxConcurrent == 0 || st.active < cfg.maxConcurrent;
      && (verdict == PenaltyBoxed <==> Penalised(cfg, st, now))
      && (verdict == RateLimited <==> !Penalised(cfg, st, now) && !(perSecond && sustained))
      && (verdict == TooManyConnections <==> !Penalised(cfg, st, now) && perSecond && sustained && !room)
      && (verdict == Allow <==> !Penalised(cfg, st, now) && perSecond && sustained && room)
  {
    hide Take, Extend;
  }

  /** What is left behind: each bucket that was asked has given its token, the sustained one is not asked
      once the other has refused an address that is not penalised, a refusal by a bucket penalises or
      goes on penalising, and only an admission is counted. */
  lemma CheckIsExact(cfg: Config, st: IpState, now: nat)
    requires cfg.Valid()
    ensures var (after, verdict) := Check(cfg, st, now);
      var perSecond := Gives(st.perSecond, now, cfg.rate, cfg.burst);
      var sustained := Gives(st.sustained, now, cfg.sustainedRate, cfg.sustainedBurst);
      var until := now + cfg.penaltyMs * 1_000_000;
      && after.perSecond == (if cfg.rate == 0.0 then st.perSecond else Take(st.perSecond, now, cfg.rate, cfg.burst).0)
      && after.sustained == (if cfg.sustainedRate == 0.0 || !(perSecond || Penalised(cfg, st, now)) then st.sustained
                             else Take(st.sustained, now, cfg.sustainedRate, cfg.sustainedBurst).0)
      && (cfg.penaltyMs == 0 || (perSecond && sustained) ==> after.deadline == st.deadline)
      && (cfg.penaltyMs != 0 && !(perSecond && sustained) ==>
            && after.deadline >= st.deadline && after.deadline in {st.deadline, until, 0xFFFF_FFFF_FFFF_FFFF}
            && (after.deadline >= until || after.deadline >= 0xFFFF_FFFF_FFFF_FFFF)
            && (after.deadline > st.deadline ==> after.deadline <= until && after.deadline <= 0xFFFF_FFFF_FFFF_FFFF))
      && after.active == (if verdict != Allow then st.active else if st.active == 0xFFFF_FFFF then 0 else st.active + 1)
    requires st.active <= 0xFFFF_FFFF
  {
    hide Take;
  }

  // ---- Entries ----

  lemma FreshIsFull(cfg: Config, at: nat)
    ensures var st := Fresh(cfg, at);
      && st.perSecond == Bucket(cfg.burst, at) && st.sustained == Bucket(cfg.sustainedBurst, at)
      && st.active == 0 && st.deadline == 0
  {
  }

  /** Would be at its ceiling if it were refilled now. */
  ghost predicate AtCeiling(b: Bucket, now: nat, rate: real, burst: nat) {
    b.tokens >= burst || b.tokens as real + Since(b.last, now, rate) >= burst as real
  }

  lemma FullIsAtCeiling(b: Bucket, now: nat, rate: real, burst: nat)
    requires rate >= 0.0 && burst <= 0xFFFF_FFFF
    ensures Full(b, now, rate, burst) <==> AtCeiling(b, now, rate, burst)
  {
    var elapsed := SaturatingSub(now, b.last);
    var earned := Earned(elapsed, rate);
    assert earned >= 0.0 by { assert elapsed as real * rate >= 0.0; }
    if b.tokens < burst {
      assert b.tokens + earned.Floor >= burst <==> earned.Floor >= burst - b.tokens;
      assert earned.Floor >= burst - b.tokens <==> earned >= (burst - b.tokens) as real;
    }
  }

  /** An entry goes if and only if nobody would miss it: it is not penalised, nothing is open, and every
      bucket in use is at its ceiling. */
  lemma EvictedExactly(cfg: Config, st: IpState, now: nat)
    requires cfg.Valid()
    ensures !Keep(cfg, st, now) <==>
      && !Penalised(cfg, st, now) && st.active == 0
      && (cfg.rate > 0.0 ==> AtCeiling(st.perSecond, now, cfg.rate, cfg.burst))
      && (cfg.sustainedRate > 0.0 ==> AtCeiling(st.sustained, now, cfg.sustainedRate, cfg.sustainedBurst))
  {
    hide Full, AtCeiling;
    FullIsAtCeiling(st.perSecond, now, cfg.rate, cfg.burst);
    FullIsAtCeiling(st.sustained, now, cfg.sustainedRate, cfg.sustainedBurst);
  }

  // ---- One event ----

  /** An event changes the entry of its own address and no other: a check as above, on a new entry if
      there is none; a close takes one off its count; an eviction drops entries and changes none. */
  lemma EventIsExact(cfg: Config, sys: System, e: Event, ip: Ip)
    requires cfg.Valid()
    ensures var after := Next(cfg, sys, e);
      match e
      case Connect(who, now, at) =>
        && (ip != who ==> (ip in after.table <==> ip in sys.table) && after.held[ip] == sys.held[ip])
        && (ip != who && ip in sys.table ==> after.table[ip] == sys.table[ip])
        && who in after.table && after.clock == at
        && var (st, verdict) := Check(cfg, if who in sys.table then sys.table[who] else Fresh(cfg, at), now);
           after.table[who] == st && after.held[who] == sys.held[who] + if verdict == Allow then 1 else 0
      case Close(who) =>
        && (ip in after.table <==> ip in sys.table) && after.clock == sys.clock
        && (ip in sys.table ==>
              && after.table[ip].perSecond == sys.table[ip].perSecond
              && after.table[ip].sustained == sys.table[ip].sustained
              && after.table[ip].deadline == sys.table[ip].deadline
              && after.table[ip].active == if ip == who && sys.table[ip].active > 0 then sys.table[ip].active - 1
                                           else sys.table[ip].active)
        && after.held[ip] == if ip == who && sys.held[ip] > 0 then sys.held[ip] - 1 else sys.held[ip]
      case Evict(now, at) =>
        && (ip in after.table <==> ip in sys.table && Keep(cfg, sys.table[ip], now)) && after.clock == at
        && (ip in after.table ==> after.table[ip] == sys.table[ip]) && after.held == sys.held
  {
    hide Check, Keep, Fresh;
  }
}
