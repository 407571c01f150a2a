/**
  The row buttons of the habit list. Each row's Done/Undo and delete buttons
  pass the row's position in the filtered list, but the handlers index the
  unfiltered store. With a category filter active the two positions differ, so
  a click can act on a habit that is not the one in the clicked row. The
  as-written handlers below show that; the corrected handlers translate the
  row position to its store index first.
 */
module RowActions {
  import opened Habits
  import opened Streaks
  import opened Store
  import opened View

  /** The Done/Undo button of row `row` as written: it toggles store index `row`. */
  function ClickToggleAsWritten(habits: seq<Habit>, cat: string, row: int, t: Day): (r: seq<Habit>)
    requires 0 <= row < |Filter(habits, cat)|
    ensures |r| == |habits|
    ensures r[row].name == habits[row].name && r[row].category == habits[row].category
    ensures t in r[row].log <==> t !in habits[row].log
    ensures forall d :: d != t ==> (d in r[row].log <==> d in habits[row].log)
    ensures IsStreak(r[row].log, t, r[row].streak)
    ensures r[row].longestStreak == Max(habits[row].longestStreak, r[row].streak)
    ensures forall k :: 0 <= k < |habits| && k != row ==> r[k] == habits[k]
  {
    LogHabit(habits, row, t)
  }

  /** The delete button of row `row` as written: it splices out store index `row`. */
  function ClickDeleteAsWritten(habits: seq<Habit>, cat: string, row: int, confirmed: bool): (r: seq<Habit>)
    requires 0 <= row < |Filter(habits, cat)|
    ensures confirmed ==> r == habits[..row] + habits[row + 1..]
    // a corollary of the slice: one copy of habits[row] is gone and nothing else
    ensures confirmed ==> |r| == |habits| - 1 && multiset(r) + multiset{habits[row]} == multiset(habits)
    ensures !confirmed ==> r == habits
  {
    if confirmed then
      DeleteIsSlice(habits, row);
      DeleteHabit(habits, row, true)
    else
      DeleteHabit(habits, row, false)
  }

  /** A store of two habits where only the second is in category "Fitness". */
  function TwoHabits(): seq<Habit> {
    [Habit("Read", "Reading", {}, 0, 0), Habit("Run", "Fitness", {}, 0, 0)]
  }

  /**
    Under the "Fitness" filter the only row shows "Run", yet clicking its Done
    button marks "Read" done today and leaves "Run" untouched.
   */
  lemma ToggleHitsHiddenHabit(t: Day)
    ensures Filter(TwoHabits(), "Fitness") == [TwoHabits()[1]]
    ensures var r := ClickToggleAsWritten(TwoHabits(), "Fitness", 0, t);
      r[0].name == "Read" && t in r[0].log && r[1] == TwoHabits()[1]
  {
    var hs := TwoHabits();
    assert ShownIndices(hs[..0], "Fitness") == [];
    assert ShownIndices(hs[..1], "Fitness") == [];
    assert hs[..1][..0] == hs[..0];
    assert hs[..2] == hs;
    assert ShownIndices(hs, "Fitness") == [1];
  }

  /** Under the same filter, confirming the delete of the "Run" row removes "Read" instead. */
  lemma DeleteHitsHiddenHabit()
    ensures var r := ClickDeleteAsWritten(TwoHabits(), "Fitness", 0, true);
      r == [TwoHabits()[1]]
  {
    var hs := TwoHabits();
    assert ShownIndices(hs[..1], "Fitness") == [];
    assert hs[..1][..0] == hs[..0];
    assert ShownIndices(hs, "Fitness") == [1];
  }

  /**
    The Done/Undo button of row `row`, corrected: it toggles the habit displayed
    in that row and nothing else.
   */
  function ClickToggle(habits: seq<Habit>, cat: string, row: int, t: Day): (r: seq<Habit>)
    requires 0 <= row < |Filter(habits, cat)|
    ensures var k := ShownIndices(habits, cat)[row];
      && habits[k] == Filter(habits, cat)[row]
      && |r| == |habits|
      && r[k].name == habits[k].name && r[k].category == habits[k].category
      && (t in r[k].log <==> t !in Filter(habits, cat)[row].log)
      && (forall d :: d != t ==> (d in r[k].log <==> d in Filter(habits, cat)[row].log))
      && IsStreak(r[k].log, t, r[k].streak)
      && r[k].longestStreak == Max(habits[k].longestStreak, r[k].streak)
      && (forall m :: 0 <= m < |habits| && m != k ==> r[m] == habits[m])
  {
    LogHabit(habits, ShownIndices(habits, cat)[row], t)
  }

  /**
    After the corrected Done/Undo click, the filtered list holds the same habits
    in the same positions: each keeps its name and category, every other
    position is unchanged, and the clicked position holds the toggled habit.
   */
  lemma ClickToggleKeepsShown(habits: seq<Habit>, cat: string, row: int, t: Day)
    requires 0 <= row < |Filter(habits, cat)|
    ensures ChangedOnlyAt(Filter(habits, cat), Filter(ClickToggle(habits, cat, row, t), cat), row, t)
  {
    var r := ClickToggle(habits, cat, row, t);
    var ix := ShownIndices(habits, cat);
    var k := ix[row];
    ShownIndicesByCategory(habits, r, cat);
    var sa := Filter(r, cat);
    var sb := Filter(habits, cat);
    forall j | 0 <= j < |sb|
      ensures sa[j].name == sb[j].name && sa[j].category == sb[j].category
      ensures j != row ==> sa[j] == sb[j]
    {
      assert sa[j] == r[ix[j]] && sb[j] == habits[ix[j]];
      if j != row {
        assert ix[j] != k;
      }
    }
    assert sa[row] == r[k];
  }

  /**
    After the corrected Done/Undo click, the page lists the same habits in the
    same rows: every row keeps its name and category, every other row is
    unchanged, and the clicked row's button label has flipped between "Done"
    and "Undo".
   */
  lemma ClickToggleFlipsLabel(habits: seq<Habit>, cat: string, row: int, t: Day)
    requires 0 <= row < |Filter(habits, cat)|
    ensures var before := Render(habits, cat, t);
      var after := Render(ClickToggle(habits, cat, row, t), cat, t);
      && before.Full? && after.Full? && |after.rows| == |before.rows|
      && (forall j :: 0 <= j < |before.rows| ==>
            after.rows[j].name == before.rows[j].name && after.rows[j].category == before.rows[j].category)
      && (forall j :: 0 <= j < |before.rows| && j != row ==> after.rows[j] == before.rows[j])
      && (ToggleLabel(after.rows[row]) == "Undo" <==> ToggleLabel(before.rows[row]) == "Done")
  {
    ClickToggleKeepsShown(habits, cat, row, t);
    RenderAfterRowChange(habits, ClickToggle(habits, cat, row, t), cat, row, t);
  }

  /**
    The delete button of row `row`, corrected: with confirmation it removes the
    habit displayed in that row, and only that one.
   */
  function ClickDelete(habits: seq<Habit>, cat: string, row: int, confirmed: bool): (r: seq<Habit>)
    requires 0 <= row < |Filter(habits, cat)|
    ensures confirmed ==> var k := ShownIndices(habits, cat)[row];
      && habits[k] == Filter(habits, cat)[row]
      && r == habits[..k] + habits[k + 1..]
    // a corollary of the slice: one copy of the displayed habit is gone and nothing else
    ensures confirmed ==>
      && |r| == |habits| - 1
      && multiset(r) + multiset{Filter(habits, cat)[row]} == multiset(habits)
    ensures !confirmed ==> r == habits
  {
    var k := ShownIndices(habits, cat)[row];
    if confirmed then
      DeleteIsSlice(habits, k);
      DeleteHabit(habits, k, true)
    else
      DeleteHabit(habits, k, false)
  }

  /** The corrected toggle acts on the same habit as the as-written one when no filter is set. */
  lemma NoFilterNoDifference(habits: seq<Habit>, row: int, t: Day)
    requires 0 <= row < |habits|
    ensures ClickToggle(habits, "", row, t) == ClickToggleAsWritten(habits, "", row, t)
  {
  }
}
