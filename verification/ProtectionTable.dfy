/** The protection state as it is held: one shared object per IP, updated in place by checks and by
    the connections that hold it, and a table from which eviction removes objects. */
module ProtectionTable {
  import opened Basics
  import opened Protection
  import opened Gates

  /** `refill_and_consume` on the two words of a bucket. */
  method RefillAndConsume(b: Bucket, now: nat, rate: real, burst: nat) returns (after: Bucket, ok: bool)
    requires rate >= 0.0
    ensures (after, ok) == Take(b, now, rate, burst)
  {
    var tokens, last := b.tokens, b.last;
    var refill := Refill(SaturatingSub(now, last), rate);
    if refill != 0 {
      tokens, last := Min(Min(tokens + refill, U32_MAX), burst), now;
    }
    if tokens < ONE_TOKEN {
      return Bucket(tokens, last), false;
    }
    return Bucket(tokens - ONE_TOKEN, last), true;
  }

  /** The state of one IP, shared by the table and every connection admitted under it. */
  class IpEntry {
    var perSecond: Bucket
    var sustained: Bucket
    var active: nat
    var deadline: nat

    function Value(): IpState
      reads this
    {
      IpState(perSecond, sustained, active, deadline)
    }

    constructor (cfg: Config, at: nat)
      ensures Value() == Fresh(cfg, at)
    {
      perSecond, sustained := Bucket(cfg.burst, at), Bucket(cfg.sustainedBurst, at);
      active, deadline := 0, 0;
    }

    method ReleaseOne()
      modifies this
      ensures Value() == Release(old(Value()))
    {
      active := SaturatingSub(active, 1);
    }

    /** Debit the buckets in turn, the second only if `both` or the first had a token. */
    method Debit(cfg: Config, now: nat, both: bool) returns (ok: bool)
      requires cfg.Valid()
      modifies this
      ensures var (st1, ok1) := TakePerSecond(cfg, old(Value()), now);
        var (st2, ok2) := TakeSustained(cfg, st1, now);
        if both || ok1 then Value() == st2 && ok == (ok1 && ok2) else Value() == st1 && !ok
    {
      hide Take;
      ok := true;
      if cfg.rate > 0.0 {
        perSecond, ok := RefillAndConsume(perSecond, now, cfg.rate, cfg.burst);
      }
      if (both || ok) && cfg.sustainedRate > 0.0 {
        var second;
        sustained, second := RefillAndConsume(sustained, now, cfg.sustainedRate, cfg.sustainedBurst);
        ok := ok && second;
      }
    }

    /** Steps 5 to 8 of `check_at`. */
    method CheckAt(cfg: Config, now: nat) returns (verdict: Verdict)
      requires cfg.Valid()
      modifies this
      ensures (Value(), verdict) == Check(cfg, old(Value()), now)
    {
      hide TakePerSecond, TakeSustained;
      var boxed := cfg.penaltyMs > 0 && deadline > 0 && now < deadline;
      TakesKeep(cfg, Value(), now);
      var ok := Debit(cfg, now, boxed);
      if !ok && cfg.penaltyMs > 0 {
        deadline := Extend(cfg, deadline, now);
      }
      if boxed {
        return PenaltyBoxed;
      }
      if !ok {
        return RateLimited;
      }
      if cfg.maxConcurrent > 0 && active >= cfg.maxConcurrent {
        return TooManyConnections;
      }
      active := (active + 1) % (U32_MAX + 1);
      return Allow;
    }
  }

  /** Debits leave the count and the penalty alone. */
  lemma TakesKeep(cfg: Config, st: IpState, now: nat)
    requires cfg.Valid()
    ensures TakePerSecond(cfg, st, now).0.deadline == st.deadline
    ensures TakeSustained(cfg, TakePerSecond(cfg, st, now).0, now).0.deadline == st.deadline
  {
  }

  datatype Decision = Bypassed | Gated(reason: Reason) | Decided(verdict: Verdict, entry: IpEntry)

  class ProtectionState {
    const cfg: Config
    const lists: Lists
    var table: map<Ip, IpEntry>

    ghost predicate Valid()
      reads this
    {
      cfg.Valid() && forall a, b :: a in table && b in table && a != b ==> table[a] != table[b]
    }

    ghost function Value(): map<Ip, IpState>
      reads this, table.Values
    {
      map ip | ip in table :: table[ip].Value()
    }

    constructor (cfg: Config, lists: Lists)
      requires cfg.Valid()
      ensures Valid() && this.cfg == cfg && Value() == map[]
    {
      this.cfg, this.lists := cfg, lists;
      table := map[];
    }

    /** `get_or_create_state`: the entry of `ip`, created with full buckets when there is none. */
    method GetOrCreate(ip: Ip, at: nat) returns (entry: IpEntry)
      requires Valid()
      modifies this`table
      ensures Valid() && ip in table && table[ip] == entry
      ensures entry.Value() == if ip in old(Value()) then old(Value())[ip] else Fresh(cfg, at)
      ensures Value() == old(Value())[ip := entry.Value()]
      ensures if ip in old(table) then table == old(table) else fresh(entry)
    {
      if ip in table {
        return table[ip];
      }
      entry := new IpEntry(cfg, at);
      table := table[ip := entry];
    }

    /** `check_at`, past the gates: the step of the run model, in place. The entry is returned for the
        connection to hold. */
    method CheckState(ip: Ip, now: nat, at: nat) returns (verdict: Verdict, entry: IpEntry)
      requires Valid()
      modifies this`table, table.Values
      ensures Valid() && ip in table && table[ip] == entry
      ensures var st := if ip in old(Value()) then old(Value())[ip] else Fresh(cfg, at);
        Value() == old(Value())[ip := Check(cfg, st, now).0] && verdict == Check(cfg, st, now).1
    {
      hide Check, Fresh;
      entry := GetOrCreate(ip, at);
      assert ip in old(table) ==> entry in old(table).Values;
      ghost var mid := Value();
      verdict := entry.CheckAt(cfg, now);
      assert forall other :: other in table && other != ip ==> table[other].Value() == mid[other];
    }

    /** `check_at`. A check that a gate decides touches no entry and takes no token; any other is the
        step of the run model. A connection let past is not counted. */
    method CheckAt(ip: Ip, peek: Peek, now: nat, at: nat) returns (decision: Decision)
      requires Valid()
      modifies this`table, table.Values
      ensures Valid()
      ensures decision.Bypassed? <==> In(lists.allow, ip)
      ensures decision.Bypassed? || decision.Gated? ==> Value() == old(Value())
      ensures decision.Decided? ==>
        && ip in table && table[ip] == decision.entry
        && var st := if ip in old(Value()) then old(Value())[ip] else Fresh(cfg, at);
        Value() == old(Value())[ip := Check(cfg, st, now).0] && decision.verdict == Check(cfg, st, now).1
      ensures decision.Decided? ==> !In(lists.block, ip) && (lists.requireSni ==> peek.sni.Some?)
      ensures decision.Decided? && (lists.ja3 != {} || lists.ja4 != {}) ==>
        peek.complete && !Ja3On(lists, peek.ja3) && (peek.ja4 != "" ==> peek.ja4 !in lists.ja4)
      ensures decision.Gated? ==>
        || In(lists.block, ip) || (lists.requireSni && peek.sni.None?) || Ja3On(lists, peek.ja3)
        || peek.ja4 in lists.ja4 || ((lists.ja3 != {} || lists.ja4 != {}) && !peek.complete)
    {
      hide Check, Fresh, In, Ja3On;
      var gate := Pass(lists, ip, peek);
      match gate {
        case Bypass => return Bypassed;
        case Stop(reason) => return Gated(reason);
        case Onward =>
          var verdict, entry := CheckState(ip, now, at);
          return Decided(verdict, entry);
      }
    }

    /** `evict_at`: retain the entries there is a reason to keep. */
    method EvictAt(now: nat)
      requires Valid()
      modifies this
      ensures Valid() && table.Values <= old(table.Values)
      ensures Value() == map ip | ip in old(Value()) && Keep(cfg, old(Value())[ip], now) :: old(Value())[ip]
    {
      hide Keep;
      table := map ip | ip in table && Keep(cfg, table[ip].Value(), now) :: table[ip];
      assert table.Keys <= old(table).Keys;
      assert forall ip :: ip in table ==> table[ip] == old(table)[ip] && table[ip] in old(table).Values;
    }
  }
}
