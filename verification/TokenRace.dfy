/** Checks of one IP that run at the same time: each call refills and takes from the bucket's two shared
    words by its own loads and compare-and-swaps, interleaved with the other calls in any order. */
module TokenRace {
  import opened Basics
  import opened Protection
  import opened ProtectionLaws

  /** The calls by the time each was given, and the bucket's rate and ceiling. */
  datatype Setup = Setup(nows: seq<nat>, rate: real, burst: nat) {
    predicate Valid() { rate >= 0.0 && burst <= U32_MAX }
  }

  /** Where a call is: about to load the stamp; holding the stamp and the refill it gives, then also the
      count it saw; about to advance the stamp; about to load the count, then holding it; finished. */
  datatype Call =
    | Start
    | Stamped(last: nat, refill: nat)
    | Counted(last: nat, refill: nat, seen: nat)
    | Won(last: nat)
    | Taking
    | Seen(count: nat)
    | Done(granted: bool)

  /** The shared words and the calls. For the account: the tokens added by refills, the time up to
      which some refill has been made, and what was earned for time already refilled. */
  datatype Race = Race(words: Bucket, calls: seq<Call>, added: int, paidTo: nat, twice: real)

  /** A refill's compare-and-swap that wins. */
  function Win(s: Setup, st: Race, i: nat): Race
    requires i < |st.calls| == |s.nows| && st.calls[i].Counted?
  {
    var c, now := st.calls[i], s.nows[i];
    var tokens := Min(Min(c.seen + c.refill, U32_MAX), s.burst);
    Race(Bucket(tokens, st.words.last), st.calls[i := Won(c.last)], st.added + tokens - st.words.tokens,
         Max(st.paidTo, now), st.twice + Earned(SaturatingSub(Min(st.paidTo, now), c.last), s.rate))
  }

  function Step(s: Setup, st: Race, i: nat): (r: Race)
    requires s.Valid() && |st.calls| == |s.nows|
    ensures |r.calls| == |s.nows|
  {
    if i >= |s.nows| then st
    else
      var now, words := s.nows[i], st.words;
      match st.calls[i]
      case Start =>
        var refill := Refill(SaturatingSub(now, words.last), s.rate);
        st.(calls := st.calls[i := if refill == 0 then Taking else Stamped(words.last, refill)])
      case Stamped(last, refill) => st.(calls := st.calls[i := Counted(last, refill, words.tokens)])
      case Counted(_, _, seen) =>
        if words.tokens == seen then Win(s, st, i) else st.(calls := st.calls[i := Start])
      case Won(last) =>
        st.(words := if words.last == last then Bucket(words.tokens, now) else words, calls := st.calls[i := Taking])
      case Taking =>
        st.(calls := st.calls[i := if words.tokens < ONE_TOKEN then Done(false) else Seen(words.tokens)])
      case Seen(count) =>
        if words.tokens == count && count >= ONE_TOKEN then
          st.(words := Bucket(count - ONE_TOKEN, words.last), calls := st.calls[i := Done(true)])
        else st.(calls := st.calls[i := Taking])
      case Done(_) => st
  }

  function Run(s: Setup, st: Race, schedule: seq<nat>): (r: Race)
    requires s.Valid() && |st.calls| == |s.nows|
    ensures |r.calls| == |s.nows|
    decreases |schedule|
  {
    if schedule == [] then st else Step(s, Run(s, st, schedule[..|schedule| - 1]), schedule[|schedule| - 1])
  }

  /** Every call yet to begin. */
  function Begin(s: Setup, b: Bucket): Race {
    Race(b, seq(|s.nows|, _ => Start), 0, b.last, 0.0)
  }

  function Grant(c: Call): nat { if c == Done(true) then 1 else 0 }

  function Grants(calls: seq<Call>): nat {
    if calls == [] then 0 else Grant(calls[0]) + Grants(calls[1..])
  }

  lemma {:induction false} GrantsUpdate(calls: seq<Call>, i: nat, c: Call)
    requires i < |calls|
    ensures Grants(calls[i := c]) + Grant(calls[i]) == Grants(calls) + Grant(c)
  {
    hide Grant;
    if i > 0 {
      GrantsUpdate(calls[1..], i - 1, c);
      assert calls[i := c][1..] == calls[1..][i - 1 := c];
    } else {
      assert calls[i := c][1..] == calls[1..];
    }
  }

  lemma {:induction false} NoneGranted(calls: seq<Call>)
    requires forall i :: 0 <= i < |calls| ==> calls[i].Start?
    ensures Grants(calls) == 0
  {
    if calls != [] { NoneGranted(calls[1..]); }
  }

  // ---- Every interleaving ----

  predicate CallInv(s: Setup, c: Call, now: nat)
    requires s.Valid()
  {
    match c
    case Stamped(last, refill) => last < now && 0 < refill == Refill(now - last, s.rate)
    case Counted(last, refill, _) => last < now && 0 < refill == Refill(now - last, s.rate)
    case Won(last) => last < now
    case Seen(count) => count >= ONE_TOKEN
    case _ => true
  }

  ghost predicate Inv(s: Setup, st: Race)
    requires s.Valid()
  {
    && |st.calls| == |s.nows| && st.words.tokens <= s.burst
    && (forall i :: 0 <= i < |s.nows| ==> CallInv(s, st.calls[i], s.nows[i]))
  }

  /** What any step of any call keeps: the ceiling, and the tokens held and granted together, except
      that a winning refill adds some. The stamp never moves back. */
  lemma StepConserves(s: Setup, st: Race, i: nat)
    requires s.Valid() && Inv(s, st)
    ensures var st' := Step(s, st, i);
      && Inv(s, st') && st.words.last <= st'.words.last
      && st'.words.tokens + ONE_TOKEN * Grants(st'.calls) - st'.added
         == st.words.tokens + ONE_TOKEN * Grants(st.calls) - st.added
  {
    hide Grants, Refill, Earned;
    if i < |s.nows| {
      assert CallInv(s, st.calls[i], s.nows[i]);
      if st.calls[i].Start? { NoTimeNoRefill(s.rate); }
      GrantsUpdate(st.calls, i, Step(s, st, i).calls[i]);
    }
  }

  lemma NoTimeNoRefill(rate: real)
    requires rate >= 0.0
    ensures Refill(0, rate) == 0
  {
    EarnedMore(0, 0, rate);
  }

  /** What is held, granted and yet to be earned by `t`. */
  ghost function Account(s: Setup, st: Race, t: nat): real {
    (st.words.tokens + ONE_TOKEN * Grants(st.calls)) as real + Earned(SaturatingSub(t, st.paidTo), s.rate)
  }

  lemma WinEarns(paidTo: nat, last: nat, now: nat, t: nat, rate: real)
    requires last < now <= t && rate >= 0.0
    ensures Refill(now - last, rate) as real + Earned(SaturatingSub(t, Max(paidTo, now)), rate)
         <= Earned(SaturatingSub(t, paidTo), rate) + Earned(SaturatingSub(Min(paidTo, now), last), rate)
  {
    hide Earned, Refill;
    if paidTo <= now {
      EarnedSum(t - now, now - paidTo, rate);
      if paidTo <= last {
        EarnedMore(now - last, now - paidTo, rate);
        EarnedMore(0, 0, rate);
      } else {
        EarnedSum(now - paidTo, paidTo - last, rate);
      }
    }
  }

  /** No step makes more of a moment than it earns, unless it refills for it again. */
  lemma StepEarns(s: Setup, st: Race, i: nat, t: nat)
    requires s.Valid() && Inv(s, st) && forall j :: 0 <= j < |s.nows| ==> s.nows[j] <= t
    ensures Account(s, Step(s, st, i), t) - Step(s, st, i).twice <= Account(s, st, t) - st.twice
  {
    hide Grants, Refill, Earned;
    StepConserves(s, st, i);
    if i < |s.nows| && st.calls[i].Counted? && st.words.tokens == st.calls[i].seen {
      assert CallInv(s, st.calls[i], s.nows[i]);
      WinEarns(st.paidTo, st.calls[i].last, s.nows[i], t, s.rate);
    }
  }

  /** Over any interleaving of any number of calls: the bucket stays under its ceiling, every token
      granted was there or was added by a refill, and the tokens granted are at most those there at
      first, those earned by `t`, and those earned again for time already refilled. */
  lemma {:induction false} RaceConserves(s: Setup, b: Bucket, schedule: seq<nat>, t: nat)
    requires s.Valid() && b.tokens <= s.burst && forall j :: 0 <= j < |s.nows| ==> s.nows[j] <= t
    ensures var st := Run(s, Begin(s, b), schedule);
      && Inv(s, st) && b.last <= st.words.last && st.words.tokens <= s.burst
      && st.words.tokens + ONE_TOKEN * Grants(st.calls) == b.tokens + st.added
      && Account(s, st, t) <= Credit(b, t, s.rate) + st.twice
      && (ONE_TOKEN * Grants(st.calls)) as real <= Credit(b, t, s.rate) + st.twice
    decreases |schedule|
  {
    hide Grants, Step;
    if schedule == [] {
      NoneGranted(Begin(s, b).calls);
      EarnedMore(0, SaturatingSub(t, b.last), s.rate);
    } else {
      var before, i := schedule[..|schedule| - 1], schedule[|schedule| - 1];
      RaceConserves(s, b, before, t);
      var st := Run(s, Begin(s, b), before);
      StepConserves(s, st, i);
      StepEarns(s, st, i, t);
      EarnedMore(0, SaturatingSub(t, Step(s, st, i).paidTo), s.rate);
    }
  }

  // ---- Calls that do not overlap ----

  lemma {:induction false} RunJoin(s: Setup, st: Race, a: seq<nat>, b: seq<nat>)
    requires s.Valid() && |st.calls| == |s.nows|
    ensures Run(s, st, a + b) == Run(s, Run(s, st, a), b)
    decreases |b|
  {
    hide Step;
    if b == [] {
      assert a + b == a;
    } else {
      RunJoin(s, st, a, b[..|b| - 1]);
      assert (a + b)[..|a + b| - 1] == a + b[..|b| - 1];
    }
  }

  lemma Three(s: Setup, st: Race, i: nat, j: nat, k: nat)
    requires s.Valid() && |st.calls| == |s.nows|
    ensures Run(s, st, [i, j, k]) == Step(s, Step(s, Step(s, st, i), j), k)
  {
    hide Step;
    assert [i, j, k][..2] == [i, j] && [i, j][..1] == [i] && [i][..0] == [];
    assert Run(s, st, [i]) == Step(s, st, i);
    assert Run(s, st, [i, j]) == Step(s, Run(s, st, [i]), j);
  }

  /** A call that is not interrupted finishes within six steps and does to the bucket exactly what one
      check at a time does. */
  lemma AloneIsTake(s: Setup, st: Race, i: nat)
    requires s.Valid() && Inv(s, st) && i < |s.nows| && st.calls[i].Start?
    ensures var r, (b, ok) := Run(s, st, [i, i, i, i, i, i]), Take(st.words, s.nows[i], s.rate, s.burst);
      r.words == b && r.calls == st.calls[i := Done(ok)]
  {
    hide Refill, Earned, Run;
    assert [i, i, i] + [i, i, i] == [i, i, i, i, i, i];
    RunJoin(s, st, [i, i, i], [i, i, i]);
    Three(s, st, i, i, i);
    Three(s, Run(s, st, [i, i, i]), i, i, i);
  }

  predicate Refilling(c: Call) { c.Stamped? || c.Counted? || c.Won? }

  /** No call loads the stamp while another is between its own load of it and its advance of it. */
  ghost predicate Exclusive(s: Setup, b: Bucket, schedule: seq<nat>)
    requires s.Valid()
    decreases |schedule|
  {
    schedule == [] ||
    var before, i := schedule[..|schedule| - 1], schedule[|schedule| - 1];
    && Exclusive(s, b, before)
    && var calls := Run(s, Begin(s, b), before).calls;
       (i < |calls| && calls[i].Start? ==> forall j :: 0 <= j < |calls| ==> !Refilling(calls[j]))
  }

  /** At most one call refills, from the stamp as it is; otherwise the stamp says what is paid for. */
  ghost predicate InTurn(s: Setup, st: Race)
    requires |st.calls| == |s.nows|
  {
    && (forall j, k :: 0 <= j < k < |st.calls| ==> !Refilling(st.calls[j]) || !Refilling(st.calls[k]))
    && (forall j :: 0 <= j < |st.calls| && Refilling(st.calls[j]) ==> st.calls[j].last == st.words.last)
    && (st.paidTo <= st.words.last || exists j :: 0 <= j < |st.calls| && st.calls[j].Won? && s.nows[j] == st.paidTo)
  }

  lemma StepInTurn(s: Setup, st: Race, i: nat)
    requires s.Valid() && Inv(s, st) && InTurn(s, st)
    requires i < |st.calls| && st.calls[i].Start? ==> forall j :: 0 <= j < |st.calls| ==> !Refilling(st.calls[j])
    ensures InTurn(s, Step(s, st, i)) && Step(s, st, i).twice == st.twice
  {
    hide Refill, Earned;
    if i < |s.nows| {
      assert CallInv(s, st.calls[i], s.nows[i]);
      EarnedMore(0, 0, s.rate);
      var st' := Step(s, st, i);
      if st.calls[i].Counted? && st.words.tokens == st.calls[i].seen {
        assert st'.calls[i].Won?;
      } else if st.calls[i].Won? {
        assert forall j :: 0 <= j < |st.calls| && j != i ==> !Refilling(st.calls[j]);
      } else if st.paidTo > st.words.last {
        var j :| 0 <= j < |st.calls| && st.calls[j].Won? && s.nows[j] == st.paidTo;
        assert st'.calls[j].Won?;
      }
    }
  }

  lemma {:induction false} ExclusiveInTurn(s: Setup, b: Bucket, schedule: seq<nat>)
    requires s.Valid() && b.tokens <= s.burst && Exclusive(s, b, schedule)
    ensures var st := Run(s, Begin(s, b), schedule); Inv(s, st) && InTurn(s, st) && st.twice == 0.0
    decreases |schedule|
  {
    hide Step;
    if schedule != [] {
      var before, i := schedule[..|schedule| - 1], schedule[|schedule| - 1];
      ExclusiveInTurn(s, b, before);
      var st := Run(s, Begin(s, b), before);
      StepConserves(s, st, i);
      StepInTurn(s, st, i);
    }
  }

  /** Then the tokens granted are at most those there at first and those earned since, as for one check
      at a time: only the refills must not overlap, the takes may. */
  lemma ExclusiveRateBound(s: Setup, b: Bucket, schedule: seq<nat>, t: nat)
    requires s.Valid() && b.tokens <= s.burst && forall j :: 0 <= j < |s.nows| ==> s.nows[j] <= t
    requires Exclusive(s, b, schedule)
    ensures (ONE_TOKEN * Grants(Run(s, Begin(s, b), schedule).calls)) as real <= Credit(b, t, s.rate)
  {
    RaceConserves(s, b, schedule, t);
    ExclusiveInTurn(s, b, schedule);
  }

  // ---- Calls that do ----

  lemma Earning()
    ensures Earned(1000, 0.001) == 1000.0 && Refill(1000, 0.001) == 1000 && Refill(0, 0.001) == 0
  {
    assert Earned(0, 0.001) == 0.0;
  }

  const RACE: Setup := Setup([1000, 1000], 0.001, 2000)

  lemma BothLoad(st: Race)
    requires st.words == Bucket(0, 0) && st.calls == [Start, Start]
    ensures var r := Run(RACE, st, [0, 1, 0]);
      r.words == st.words && r.calls == [Counted(0, 1000, 0), Stamped(0, 1000)]
  {
    Earning();
    Three(RACE, st, 0, 1, 0);
    hide Earned, Refill, Run;
  }

  lemma BothWin(st: Race)
    requires st.words == Bucket(0, 0) && st.calls == [Counted(0, 1000, 0), Stamped(0, 1000)]
    ensures var r := Run(RACE, st, [0, 1, 1]); r.words == Bucket(2000, 0) && r.calls == [Won(0), Won(0)]
  {
    Three(RACE, st, 0, 1, 1);
    hide Earned, Refill, Run;
  }

  lemma BothTake(st: Race)
    requires st.words == Bucket(2000, 0) && st.calls == [Won(0), Won(0)]
    ensures var r := Run(RACE, Run(RACE, st, [0, 0, 0]), [1, 1, 1]); r.calls == [Done(true), Done(true)]
  {
    Three(RACE, st, 0, 0, 0);
    Three(RACE, Run(RACE, st, [0, 0, 0]), 1, 1, 1);
    hide Earned, Refill, Run;
  }

  /** Two calls that both load the stamp before either advances it refill for the same time: from an
      empty bucket, one token's worth of time later, both are granted one. One after the other, only
      the first is. */
  lemma OverlapRefillsTwice()
    ensures var b := Bucket(0, 0);
      && Credit(b, 1000, RACE.rate) == 1000.0
      && Grants(Run(RACE, Begin(RACE, b), [0, 1, 0, 0, 1, 1, 0, 0, 0, 1, 1, 1]).calls) == 2
      && !Take(Take(b, 1000, RACE.rate, RACE.burst).0, 1000, RACE.rate, RACE.burst).1
  {
    var st := Begin(RACE, Bucket(0, 0));
    Earning();
    hide Earned, Refill, Run, Grants, Step;
    assert st.calls == [Start, Start];
    BothLoad(st);
    var st1 := Run(RACE, st, [0, 1, 0]);
    BothWin(st1);
    var st2 := Run(RACE, st1, [0, 1, 1]);
    BothTake(st2);
    TwoGranted(Run(RACE, Run(RACE, st2, [0, 0, 0]), [1, 1, 1]).calls);
    RunJoin(RACE, st, [0, 1, 0], [0, 1, 1]);
    RunJoin(RACE, st, [0, 1, 0] + [0, 1, 1], [0, 0, 0]);
    RunJoin(RACE, st, [0, 1, 0] + [0, 1, 1] + [0, 0, 0], [1, 1, 1]);
    assert [0, 1, 0] + [0, 1, 1] + [0, 0, 0] + [1, 1, 1] == [0, 1, 0, 0, 1, 1, 0, 0, 0, 1, 1, 1];
  }

  lemma TwoGranted(calls: seq<Call>)
    requires calls == [Done(true), Done(true)]
    ensures Grants(calls) == 2
  {
    assert calls[1..] == [Done(true)];
    assert Grants(calls[1..]) == 1;
  }
}
