/** Peer cooldown: a failure streak and a deadline packed into one 64-bit word, updated by failures
    and successes that finish in any order. */
module Cooldown {
  import opened Basics

  /** 2^56: the deadline is the low 56 bits of the word, the streak the 8 bits above. */
  const SHIFT: nat := 0x100_0000_0000_0000
  const MASK: nat := 0xFF_FFFF_FFFF_FFFF

  function Pow2(n: nat): (r: nat)
    ensures r >= 1
  {
    if n == 0 then 1 else 2 * Pow2(n - 1)
  }

  function Streak(word: nat): nat { word / SHIFT }
  function Until(word: nat): nat { word % SHIFT }

  /** The update of `record_failure`, with its saturating arithmetic. */
  function AfterFailure(word: nat, minNs: nat, maxNs: nat, now: nat): nat {
    var streak := Min(Streak(word) + 1, 255);
    var backoff := Min(Min(minNs * Pow2(Min(streak - 1, 63)), U64_MAX), maxNs);
    var until := Min(Max(Until(word), Min(now + backoff, U64_MAX)), MASK);
    streak * SHIFT + until
  }

  class FailoverPeer {
    var cooldown: nat

    constructor ()
      ensures cooldown == 0
    {
      cooldown := 0;
    }

    method RecordFailure(minNs: nat, maxNs: nat, now: nat)
      modifies this
      ensures cooldown == AfterFailure(old(cooldown), minNs, maxNs, now)
    {
      var streak := Min(cooldown / SHIFT + 1, 255);
      var backoff := Min(Min(minNs * Pow2(Min(streak - 1, 63)), U64_MAX), maxNs);
      var until := Min(Max(cooldown % SHIFT, Min(now + backoff, U64_MAX)), MASK);
      cooldown := streak * SHIFT + until;
    }

    method ClearCooldown()
      modifies this
      ensures cooldown == 0
    {
      cooldown := 0;
    }
  }

  /** A peer whose word this is is not tried. */
  predicate Cooling(word: nat, now: nat) { Min(now, MASK) < Until(word) }

  // ---- What the word means ----

  datatype Event = Failure(now: nat) | Success

  function WordAfter(events: seq<Event>, minNs: nat, maxNs: nat): nat {
    if events == [] then 0
    else
      match events[|events| - 1]
      case Success => 0
      case Failure(now) => AfterFailure(WordAfter(events[..|events| - 1], minNs, maxNs), minNs, maxNs, now)
  }

  /** The times of the failures since the last success, in the order they were recorded. */
  function SinceSuccess(events: seq<Event>): seq<nat> {
    if events == [] || events[|events| - 1].Success? then []
    else SinceSuccess(events[..|events| - 1]) + [events[|events| - 1].now]
  }

  /** The longest deadline: the i-th failure in a row asks for min * 2^(i-1), at most max. */
  function Deadline(times: seq<nat>, minNs: nat, maxNs: nat): nat {
    if times == [] then 0
    else Max(Deadline(times[..|times| - 1], minNs, maxNs),
             times[|times| - 1] + Min(maxNs, minNs * Pow2(|times| - 1)))
  }

  lemma {:induction false} Pow2Grows(a: nat, b: nat)
    requires a <= b
    ensures Pow2(a) <= Pow2(b)
    decreases b
  {
    if a < b { Pow2Grows(a, b - 1); }
  }

  lemma Pow2Of63()
    ensures 2 * Pow2(63) > U64_MAX
  {
    assert Pow2(8) == 256;
    assert Pow2(16) == 65536;
    assert Pow2(24) == 0x100_0000;
    assert Pow2(32) == 0x1_0000_0000;
    assert Pow2(40) == 0x100_0000_0000;
    assert Pow2(48) == 0x1_0000_0000_0000;
    assert Pow2(56) == 0x100_0000_0000_0000;
    assert Pow2(63) == 0x8000_0000_0000_0000;
  }

  /** The shift is capped at 63 and the streak at 255; neither cap changes a configured backoff. */
  lemma BackoffExact(k: nat, minNs: nat, maxNs: nat)
    requires k >= 1 && 2 <= minNs && maxNs <= U64_MAX
    ensures Min(Min(minNs * Pow2(Min(Min(k, 255) - 1, 63)), U64_MAX), maxNs) == Min(maxNs, minNs * Pow2(k - 1))
  {
    hide Pow2;
    if k > 64 {
      Pow2Of63();
      Pow2Grows(63, k - 1);
      MulGrows(Pow2(63), Pow2(k - 1), minNs);
      assert minNs * Pow2(63) >= 2 * Pow2(63);
    }
  }

  lemma FieldsApart(streak: nat, until: nat)
    requires streak <= 255 && until <= MASK
    ensures Streak(streak * SHIFT + until) == streak && Until(streak * SHIFT + until) == until
    ensures streak * SHIFT + until <= U64_MAX
  {
  }

  /** One more failure on a word that holds `k` failures and the deadline `longest`. */
  lemma FailureAdds(word: nat, k: nat, longest: nat, minNs: nat, maxNs: nat, now: nat)
    requires 2 <= minNs && maxNs <= U64_MAX
    requires Streak(word) == Min(k, 255) && Until(word) == Min(longest, MASK)
    ensures var after := AfterFailure(word, minNs, maxNs, now);
      && after <= U64_MAX
      && Streak(after) == Min(k + 1, 255)
      && Until(after) == Min(Max(longest, now + Min(maxNs, minNs * Pow2(k))), MASK)
  {
    hide Pow2, Streak, Until;
    BackoffExact(k + 1, minNs, maxNs);
    var backoff := Min(maxNs, minNs * Pow2(k));
    FieldsApart(Min(k + 1, 255), Min(Max(longest, now + backoff), MASK));
  }

  /** The word, exactly: after any run of failures and successes, with clock readings in any order,
      it holds the capped number of failures since the last success and the capped longest deadline
      those failures asked for. So the fields never overlap, and there is never a streak without
      the deadline that goes with it. */
  lemma {:induction false} WordIsStreakAndDeadline(events: seq<Event>, minNs: nat, maxNs: nat)
    requires 2 <= minNs <= maxNs <= U64_MAX
    ensures var word := WordAfter(events, minNs, maxNs); var times := SinceSuccess(events);
      && word <= U64_MAX
      && Streak(word) == Min(|times|, 255)
      && Until(word) == Min(Deadline(times, minNs, maxNs), MASK)
    decreases |events|
  {
    hide Pow2, Streak, Until, AfterFailure;
    FieldsApart(0, 0);
    if events != [] && events[|events| - 1].Failure? {
      var init := events[..|events| - 1];
      var times := SinceSuccess(events);
      assert times[..|times| - 1] == SinceSuccess(init);
      WordIsStreakAndDeadline(init, minNs, maxNs);
      FailureAdds(WordAfter(init, minNs, maxNs), |times| - 1, Deadline(SinceSuccess(init), minNs, maxNs),
                  minNs, maxNs, events[|events| - 1].now);
    }
  }

  /** A peer is in cooldown if and only if the clock has not reached the longest deadline asked for
      (and still fits in 56 bits); one failure is enough to start it. */
  lemma CoolsUntilDeadline(events: seq<Event>, minNs: nat, maxNs: nat, now: nat)
    requires 2 <= minNs <= maxNs <= U64_MAX
    ensures Cooling(WordAfter(events, minNs, maxNs), now)
       <==> now < Deadline(SinceSuccess(events), minNs, maxNs) && now < MASK
  {
    WordIsStreakAndDeadline(events, minNs, maxNs);
  }
}
