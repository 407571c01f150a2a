/**
  The habit store and the commands that change it: add (form submit), toggle
  today's completion (logHabit) and delete (deleteHabit). Each command is a pure
  function from the old store to the new one; persistence and re-rendering,
  which every command triggers afterwards, are not part of this module.
 */
module Store {
  import opened Text
  import opened Habits
  import opened Streaks

  /** The record the add form creates: trimmed fields, nothing logged, no streak. */
  function NewHabit(name: string, category: string): (h: Habit)
    ensures h.name == Trim(name) && h.category == Trim(category)
    ensures h.log == {} && h.streak == 0 && h.longestStreak == 0
  {
    Habit(Trim(name), Trim(category), {}, 0, 0)
  }

  /**
    Submitting the add form. A name that is empty once trimmed is rejected and the
    store is left as it was; otherwise one new habit is appended at the end.
   */
  function AddHabit(habits: seq<Habit>, name: string, category: string): (r: seq<Habit>)
    ensures AllWhitespace(name) ==> r == habits
    ensures !AllWhitespace(name) ==>
      && |r| == |habits| + 1
      && r[..|habits|] == habits
      && r[|habits|].name == Trim(name) && r[|habits|].name != []
      && r[|habits|].category == Trim(category)
      && r[|habits|].log == {}
      && r[|habits|].streak == 0 && r[|habits|].longestStreak == 0
  {
    if Trim(name) == [] then habits
    else habits + [NewHabit(name, category)]
  }

  /**
    logHabit: flips whether today is logged for the habit at store index i, then
    recomputes its streak and raises its longest streak to the new streak when
    that is larger. No other habit and no other day of the log changes.
   */
  function LogHabit(habits: seq<Habit>, i: int, t: Day): (r: seq<Habit>)
    requires 0 <= i < |habits|
    ensures |r| == |habits|
    ensures forall k :: 0 <= k < |habits| && k != i ==> r[k] == habits[k]
    ensures r[i].name == habits[i].name && r[i].category == habits[i].category
    ensures t in r[i].log <==> t !in habits[i].log
    ensures forall d :: d != t ==> (d in r[i].log <==> d in habits[i].log)
    ensures IsStreak(r[i].log, t, r[i].streak)
    ensures r[i].longestStreak >= habits[i].longestStreak
    ensures r[i].longestStreak >= r[i].streak
    ensures r[i].longestStreak == habits[i].longestStreak || r[i].longestStreak == r[i].streak
    ensures r[i].longestStreak == Max(habits[i].longestStreak, r[i].streak)
  {
    var h := habits[i];
    var log := ToggleDay(h.log, t);
    var streak := Streak(log, t);
    habits[i := h.(log := log, streak := streak, longestStreak := Max(streak, h.longestStreak))]
  }

  /** Unmarking today never moves the longest streak, since the streak drops to zero. */
  lemma UnmarkKeepsLongest(habits: seq<Habit>, i: int, t: Day)
    requires 0 <= i < |habits|
    requires t in habits[i].log
    ensures LogHabit(habits, i, t)[i].streak == 0
    ensures LogHabit(habits, i, t)[i].longestStreak == habits[i].longestStreak
  {
    var r := LogHabit(habits, i, t);
    StreakZeroIffTodayMissing(r[i].log, t);
  }

  /**
    Toggling the same habit twice on the same day restores its log and, when its
    stored streak was current, its streak; the longest streak keeps the maximum
    it reached in between.
   */
  lemma LogHabitTwice(habits: seq<Habit>, i: int, t: Day)
    requires 0 <= i < |habits|
    requires IsStreak(habits[i].log, t, habits[i].streak)
    requires habits[i].longestStreak >= habits[i].streak
    ensures var r := LogHabit(LogHabit(habits, i, t), i, t);
      && r[i].log == habits[i].log
      && r[i].streak == habits[i].streak
      && r[i].longestStreak == Max(habits[i].longestStreak, Streak(ToggleDay(habits[i].log, t), t))
      && r == habits[i := habits[i].(longestStreak := r[i].longestStreak)]
  {
    var once := LogHabit(habits, i, t);
    var r := LogHabit(once, i, t);
    ToggleDayInvolution(habits[i].log, t);
    assert r[i].log == habits[i].log;
    StreakUnique(r[i].log, t, r[i].streak);
    StreakUnique(habits[i].log, t, habits[i].streak);
  }

  /** Toggling the same habit twice on the same day restores its log, whatever its stored streak. */
  lemma LogHabitTwiceRestoresLog(habits: seq<Habit>, i: int, t: Day)
    requires 0 <= i < |habits|
    ensures LogHabit(LogHabit(habits, i, t), i, t)[i].log == habits[i].log
  {
    ToggleDayInvolution(habits[i].log, t);
  }

  /**
    Where Array.prototype.splice(i, ...) starts on a sequence of length n: a
    negative i counts back from the end, clamped to 0.
   */
  function SpliceStart(n: nat, i: int): (j: nat)
    ensures i >= 0 ==> j == i
    ensures i < 0 ==> j < n || n == 0
  {
    if i >= 0 then i else if n + i < 0 then 0 else n + i
  }

  /** Array.prototype.splice(i, 1): removes the element at the start index, if there is one. */
  function SpliceOne<T>(s: seq<T>, i: int): (r: seq<T>)
    ensures var j := SpliceStart(|s|, i);
      j < |s| ==>
        && |r| == |s| - 1
        && (forall k :: 0 <= k < j ==> r[k] == s[k])
        && (forall k :: j <= k < |r| ==> r[k] == s[k + 1])
        && multiset(r) + multiset{s[j]} == multiset(s)
    ensures SpliceStart(|s|, i) >= |s| ==> r == s
  {
    var j := SpliceStart(|s|, i);
    if j < |s| then
      assert s == s[..j] + [s[j]] + s[j + 1..];
      s[..j] + s[j + 1..]
    else
      s
  }

  /**
    deleteHabit: only when the user confirms is the habit at index i spliced out;
    the habits after it move down by one and keep their order.
   */
  function DeleteHabit(habits: seq<Habit>, i: int, confirmed: bool): (r: seq<Habit>)
    ensures !confirmed ==> r == habits
    ensures confirmed && 0 <= i < |habits| ==>
      && |r| == |habits| - 1
      && (forall k :: 0 <= k < i ==> r[k] == habits[k])
      && (forall k :: i <= k < |r| ==> r[k] == habits[k + 1])
    ensures confirmed && i >= |habits| ==> r == habits
    ensures confirmed && i < 0 && |habits| > 0 ==>
      && |r| == |habits| - 1
      && multiset(r) + multiset{habits[SpliceStart(|habits|, i)]} == multiset(habits)
    ensures multiset(r) <= multiset(habits)
  {
    if confirmed then SpliceOne(habits, i) else habits
  }

  /** A confirmed delete at a valid index keeps the habits before and after it, in order. */
  lemma DeleteIsSlice(habits: seq<Habit>, i: int)
    requires 0 <= i < |habits|
    ensures DeleteHabit(habits, i, true) == habits[..i] + habits[i + 1..]
  {
    var r := DeleteHabit(habits, i, true);
    assert forall k :: 0 <= k < |r| ==> r[k] == (habits[..i] + habits[i + 1..])[k];
  }

  /**
    What every habit the commands produce satisfies on day t: a trimmed, non-empty
    name, a trimmed (possibly empty) category, a streak that matches the log, and
    a longest streak at least the current one.
   */
  predicate WellFormed(h: Habit, t: Day) {
    && h.name != [] && IsTrimmed(h.name)
    && IsTrimmed(h.category)
    && IsStreak(h.log, t, h.streak)
    && h.longestStreak >= h.streak
  }

  predicate Valid(habits: seq<Habit>, t: Day) {
    forall k :: 0 <= k < |habits| ==> WellFormed(habits[k], t)
  }

  lemma AddPreservesValid(habits: seq<Habit>, name: string, category: string, t: Day)
    requires Valid(habits, t)
    ensures Valid(AddHabit(habits, name, category), t)
  {
    var r := AddHabit(habits, name, category);
    if Trim(name) == [] {
      assert r == habits;
    } else {
      var h := NewHabit(name, category);
      assert r == habits + [h];
      assert WellFormed(h, t);
      forall k | 0 <= k < |r|
        ensures WellFormed(r[k], t)
      {
        if k < |habits| {
          assert r[k] == habits[k];
        } else {
          assert r[k] == h;
        }
      }
    }
  }

  lemma LogHabitPreservesValid(habits: seq<Habit>, i: int, t: Day)
    requires Valid(habits, t)
    requires 0 <= i < |habits|
    ensures Valid(LogHabit(habits, i, t), t)
  {
  }

  lemma DeletePreservesValid(habits: seq<Habit>, i: int, confirmed: bool, t: Day)
    requires Valid(habits, t)
    ensures Valid(DeleteHabit(habits, i, confirmed), t)
  {
    var r := DeleteHabit(habits, i, confirmed);
    forall k | 0 <= k < |r|
      ensures WellFormed(r[k], t)
    {
      assert r[k] in multiset(r);
      assert r[k] in multiset(habits);
    }
  }

  /** A user action on the store, addressed by store index. */
  datatype Command =
    | Add(name: string, category: string)
    | Toggle(index: int)
    | Delete(index: int, confirmed: bool)

  /**
    One command handler. An out-of-range toggle makes logHabit throw a TypeError
    when it reads the missing habit's log, before anything is changed, so the
    store stays as it was.
   */
  function Apply(habits: seq<Habit>, c: Command, t: Day): (r: seq<Habit>)
    ensures c.Add? ==> r == AddHabit(habits, c.name, c.category)
    ensures c.Toggle? && 0 <= c.index < |habits| ==> r == LogHabit(habits, c.index, t)
    ensures c.Toggle? && !(0 <= c.index < |habits|) ==> r == habits
    ensures c.Delete? ==> r == DeleteHabit(habits, c.index, c.confirmed)
    ensures |habits| - 1 <= |r| <= |habits| + 1
  {
    match c
    case Add(name, category) => AddHabit(habits, name, category)
    case Toggle(i) => if 0 <= i < |habits| then LogHabit(habits, i, t) else habits
    case Delete(i, confirmed) => DeleteHabit(habits, i, confirmed)
  }

  /**
    A day's worth of commands, applied in order. Each command adds or removes at
    most one habit, so the store's size moves by at most the number of commands.
   */
  function Run(habits: seq<Habit>, cs: seq<Command>, t: Day): (r: seq<Habit>)
    ensures cs == [] ==> r == habits
    ensures |habits| - |cs| <= |r| <= |habits| + |cs|
    decreases |cs|
  {
    if cs == [] then habits else Run(Apply(habits, cs[0], t), cs[1..], t)
  }

  /** Running a sequence and then one more command is running the longer sequence. */
  lemma {:induction false} RunSnoc(habits: seq<Habit>, cs: seq<Command>, c: Command, t: Day)
    ensures Run(habits, cs + [c], t) == Apply(Run(habits, cs, t), c, t)
    decreases |cs|
  {
    if cs == [] {
      assert cs + [c] == [c];
      assert [c][1..] == [];
    } else {
      assert (cs + [c])[1..] == cs[1..] + [c];
      RunSnoc(Apply(habits, cs[0], t), cs[1..], c, t);
    }
  }

  lemma ApplyPreservesValid(habits: seq<Habit>, c: Command, t: Day)
    requires Valid(habits, t)
    ensures Valid(Apply(habits, c, t), t)
  {
    match c
    case Add(name, category) => AddPreservesValid(habits, name, category, t);
    case Toggle(i) => if 0 <= i < |habits| { LogHabitPreservesValid(habits, i, t); }
    case Delete(i, confirmed) => DeletePreservesValid(habits, i, confirmed, t);
  }

  /** Starting from a well-formed store, any sequence of commands on one day keeps it well-formed. */
  lemma {:induction false} RunPreservesValid(habits: seq<Habit>, cs: seq<Command>, t: Day)
    requires Valid(habits, t)
    ensures Valid(Run(habits, cs, t), t)
    decreases |cs|
  {
    if cs != [] {
      ApplyPreservesValid(habits, cs[0], t);
      RunPreservesValid(Apply(habits, cs[0], t), cs[1..], t);
    }
  }

  /** A habit with nothing logged, toggled twice today: its streak goes 1 then 0, its longest streak stays 1. */
  lemma ToggleFreshTwice(h1: seq<Habit>, n: int, t: Day)
    requires 0 <= n < |h1|
    requires h1[n].log == {} && h1[n].longestStreak == 0
    ensures var h2 := LogHabit(h1, n, t);
      && h2[n].log == {t} && h2[n].streak == 1 && h2[n].longestStreak == 1
      && var h3 := LogHabit(h2, n, t);
      && h3[n].log == {} && h3[n].streak == 0 && h3[n].longestStreak == 1
  {
    StreakOfTodayOnly(t);
    var h2 := LogHabit(h1, n, t);
    assert h2[n].log == {t};
    StreakUnique({t}, t, h2[n].streak);
    var h3 := LogHabit(h2, n, t);
    assert h3[n].log == {};
    UnmarkKeepsLongest(h2, n, t);
  }

  /**
    Adding a habit (say "Exercise" in "Fitness"), marking it done today and
    undoing it: the streak goes 0, 1, 0 while the longest streak stays at 1.
   */
  lemma AddToggleUndoScenario(habits: seq<Habit>, name: string, category: string, t: Day)
    requires !AllWhitespace(name)
    ensures var n := |habits|;
      var h1 := AddHabit(habits, name, category);
      && |h1| == n + 1 && h1[n].name == Trim(name) && h1[n].streak == 0
      && var h2 := LogHabit(h1, n, t);
      && h2[n].log == {t} && h2[n].streak == 1 && h2[n].longestStreak == 1
      && var h3 := LogHabit(h2, n, t);
      && h3[n].log == {} && h3[n].streak == 0 && h3[n].longestStreak == 1
  {
    ToggleFreshTwice(AddHabit(habits, name, category), |habits|, t);
  }
}
