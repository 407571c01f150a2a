/**
  The habit record. Calendar days are whole numbers: today is a parameter t,
  and "i days ago" is the day t - i.
 */
module Habits {

  type Day = int

  /**
    One tracked habit. The log holds the days on which the habit was done;
    a day is either present (done) or absent (not done).
   */
  datatype Habit = Habit(
    name: string,
    category: string,
    log: set<Day>,
    streak: nat,
    longestStreak: nat)

  /** Whether the log records the habit as done i days before day t. */
  predicate DoneDaysAgo(log: set<Day>, t: Day, i: int) {
    t - i in log
  }

  /** Flips whether day d is in the log, leaving every other day as it was. */
  function ToggleDay(log: set<Day>, d: Day): (r: set<Day>)
    ensures d in r <==> d !in log
    ensures forall e :: e != d ==> (e in r <==> e in log)
  {
    if d in log then log - {d} else log + {d}
  }

  lemma ToggleDayInvolution(log: set<Day>, d: Day)
    ensures ToggleDay(ToggleDay(log, d), d) == log
  {
  }

  function Max(a: nat, b: nat): (m: nat)
    ensures m >= a && m >= b
    ensures m == a || m == b
  {
    if a > b then a else b
  }
}
