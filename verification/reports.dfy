/**
  The report aggregator: how many of the most recent days were logged, and the
  per-habit report lines (this week, this month, longest streak).
 */
module Reports {
  import opened Habits
  import opened Streaks

  const WeekDays: nat := 7
  const MonthDays: nat := 30

  /** getCompletionCount: the number of logged days among the n days ending at t. */
  function CompletionCount(log: set<Day>, t: Day, n: nat): (r: nat)
    ensures r <= n
    ensures r == n ==> forall i :: 0 <= i < n ==> DoneDaysAgo(log, t, i)
  {
    if n == 0 then 0
    else CompletionCount(log, t, n - 1) + (if DoneDaysAgo(log, t, n - 1) then 1 else 0)
  }

  /** The logged days that fall in the n-day window ending at t. */
  function Window(log: set<Day>, t: Day, n: nat): set<Day> {
    set d | d in log && t - n < d <= t
  }

  /** The count is the size of the set of logged days in the window. */
  lemma {:induction false} CountIsWindowSize(log: set<Day>, t: Day, n: nat)
    ensures CompletionCount(log, t, n) == |Window(log, t, n)|
  {
    if n > 0 {
      CountIsWindowSize(log, t, n - 1);
      var d := t - (n - 1);
      var extra := if d in log then {d} else {};
      assert Window(log, t, n) == Window(log, t, n - 1) + extra;
      assert d !in Window(log, t, n - 1);
    }
  }

  /** A wider window never counts fewer days. */
  lemma {:induction false} CountMonotone(log: set<Day>, t: Day, n: nat, m: nat)
    requires n <= m
    ensures CompletionCount(log, t, n) <= CompletionCount(log, t, m)
    decreases m - n
  {
    if n < m {
      CountMonotone(log, t, n, m - 1);
    }
  }

  /** When every day of the window is logged, the count is the window length. */
  lemma {:induction false} CountAllDone(log: set<Day>, t: Day, n: nat)
    requires forall i :: 0 <= i < n ==> DoneDaysAgo(log, t, i)
    ensures CompletionCount(log, t, n) == n
  {
    if n > 0 {
      CountAllDone(log, t, n - 1);
    }
  }

  /** A window counts at least the part of the current streak that falls inside it. */
  lemma CountCoversStreak(log: set<Day>, t: Day, n: nat)
    ensures CompletionCount(log, t, n) >= if Streak(log, t) < n then Streak(log, t) else n
  {
    var s := Streak(log, t);
    var k := if s < n then s else n;
    CountAllDone(log, t, k);
    CountMonotone(log, t, k, n);
  }

  /** One line of the report panel. */
  datatype Report = Report(
    name: string,
    category: string,
    week: nat,
    month: nat,
    longestStreak: nat)

  /** The report line renderReports shows for one habit. */
  function HabitReport(h: Habit, t: Day): (r: Report)
    ensures r.name == h.name && r.category == h.category
    ensures r.longestStreak == h.longestStreak
    ensures r.week <= WeekDays && r.month <= MonthDays
    ensures r.week <= r.month
    ensures r.week == |Window(h.log, t, WeekDays)| && r.month == |Window(h.log, t, MonthDays)|
  {
    CountMonotone(h.log, t, WeekDays, MonthDays);
    CountIsWindowSize(h.log, t, WeekDays);
    CountIsWindowSize(h.log, t, MonthDays);
    Report(h.name, h.category, CompletionCount(h.log, t, WeekDays), CompletionCount(h.log, t, MonthDays), h.longestStreak)
  }

  /** The report panel: one line per habit of the store, in store order, ignoring any filter. */
  function ReportLines(habits: seq<Habit>, t: Day): (r: seq<Report>)
    ensures |r| == |habits|
    ensures forall i :: 0 <= i < |habits| ==> r[i] == HabitReport(habits[i], t)
  {
    seq(|habits|, i requires 0 <= i < |habits| => HabitReport(habits[i], t))
  }
}
