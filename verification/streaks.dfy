/**
  The streak calculator: how many consecutive days, ending today, the habit
  was done, looking back at most a year.
 */
module Streaks {
  import opened Habits

  /** The walk back from today stops after this many days. */
  const MaxLookback: nat := 365

  /**
    k is the streak of the log at day t: the days t, t-1, ..., t-(k-1) are all
    logged, and either the lookback bound is reached or day t-k is not logged.
   */
  predicate IsStreak(log: set<Day>, t: Day, k: nat) {
    && k <= MaxLookback
    && (forall i :: 0 <= i < k ==> DoneDaysAgo(log, t, i))
    && (k < MaxLookback ==> !DoneDaysAgo(log, t, k))
  }

  /** The walk back from i days ago: each logged day adds one, the first gap stops it. */
  function Walk(log: set<Day>, t: Day, i: nat): (r: nat)
    requires i <= MaxLookback
    ensures i <= r <= MaxLookback
    ensures forall k :: i <= k < r ==> DoneDaysAgo(log, t, k)
    ensures r < MaxLookback ==> !DoneDaysAgo(log, t, r)
    decreases MaxLookback - i
  {
    if i == MaxLookback then i
    else if DoneDaysAgo(log, t, i) then Walk(log, t, i + 1)
    else i
  }

  /** recalcStreak: the length of the run of logged days ending at t, capped at a year. */
  function Streak(log: set<Day>, t: Day): (r: nat)
    ensures IsStreak(log, t, r)
  {
    Walk(log, t, 0)
  }

  /** The streak is the only number with the IsStreak property. */
  lemma StreakUnique(log: set<Day>, t: Day, k: nat)
    requires IsStreak(log, t, k)
    ensures k == Streak(log, t)
  {
    var r := Streak(log, t);
    assert k < r ==> DoneDaysAgo(log, t, k);
    assert r < k ==> DoneDaysAgo(log, t, r);
  }

  /** The streak is zero exactly when today is not logged. */
  lemma StreakZeroIffTodayMissing(log: set<Day>, t: Day)
    ensures Streak(log, t) == 0 <==> t !in log
  {
    if t in log {
      assert DoneDaysAgo(log, t, 0);
    }
  }

  /** A log holding only today gives a streak of one. */
  lemma StreakOfTodayOnly(t: Day)
    ensures Streak({t}, t) == 1
  {
    assert t - 1 !in {t};
    StreakUnique({t}, t, 1);
  }

  /** Marking today done extends yesterday's streak by one day, within the cap. */
  lemma MarkTodayExtendsYesterday(log: set<Day>, t: Day)
    ensures Streak(log + {t}, t) == if Streak(log, t - 1) < MaxLookback then Streak(log, t - 1) + 1 else MaxLookback
  {
    var y := Streak(log, t - 1);
    var k := if y < MaxLookback then y + 1 else MaxLookback;
    var log' := log + {t};
    forall i | 0 <= i < k
      ensures DoneDaysAgo(log', t, i)
    {
      if i > 0 {
        assert DoneDaysAgo(log, t - 1, i - 1);
      }
    }
    if k < MaxLookback {
      assert !DoneDaysAgo(log, t - 1, y);
      assert t - k != t;
    }
    assert IsStreak(log', t, k);
    StreakUnique(log', t, k);
  }

  /** Unmarking today drops the streak to zero, whatever the earlier days hold. */
  lemma UnmarkTodayResets(log: set<Day>, t: Day)
    ensures Streak(log - {t}, t) == 0
  {
    StreakZeroIffTodayMissing(log - {t}, t);
  }
}
