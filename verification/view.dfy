/**
  The data the render step derives from the store: the list shown under the
  category filter, the category options, the 7-day chart series, and the page
  as a whole. Drawing it (HTML, Chart.js) is not modelled.
 */
module View {
  import opened Habits
  import opened Reports

  /** Whether a habit passes the category filter; the empty filter passes every habit. */
  predicate Shows(cat: string, h: Habit) {
    cat == "" || h.category == cat
  }

  /** The store indices of the habits the filter shows, in store order. */
  function ShownIndices(habits: seq<Habit>, cat: string): (ix: seq<nat>)
    ensures |ix| <= |habits|
    ensures forall j :: 0 <= j < |ix| ==> ix[j] < |habits| && Shows(cat, habits[ix[j]])
    ensures forall j, k :: 0 <= j < k < |ix| ==> ix[j] < ix[k]
    ensures forall k :: 0 <= k < |habits| && Shows(cat, habits[k]) ==> k in ix
    ensures cat == "" ==> |ix| == |habits| && forall j :: 0 <= j < |ix| ==> ix[j] == j
  {
    if habits == [] then []
    else
      var n := |habits| - 1;
      var prefix := ShownIndices(habits[..n], cat);
      if Shows(cat, habits[n]) then prefix + [n] else prefix
  }

  /** habits.filter(h => h.category === cat), built front to back. */
  function Select(habits: seq<Habit>, cat: string): (r: seq<Habit>)
    requires cat != ""
    ensures var ix := ShownIndices(habits, cat);
      |r| == |ix| && forall j :: 0 <= j < |r| ==> r[j] == habits[ix[j]]
  {
    if habits == [] then []
    else
      var n := |habits| - 1;
      var prefix := Select(habits[..n], cat);
      if habits[n].category == cat then prefix + [habits[n]] else prefix
  }

  /**
    The habits listed under filter cat: all of them for the empty filter, else
    exactly those in category cat, in store order.
   */
  function Filter(habits: seq<Habit>, cat: string): (r: seq<Habit>)
    ensures cat == "" ==> r == habits
    ensures var ix := ShownIndices(habits, cat);
      |r| == |ix| && forall j :: 0 <= j < |r| ==> r[j] == habits[ix[j]]
    ensures forall h :: h in r ==> h in habits && Shows(cat, h)
    ensures forall h :: h in habits && Shows(cat, h) ==> h in r
  {
    if cat == "" then habits else
      var r := Select(habits, cat);
      var ix := ShownIndices(habits, cat);
      assert forall h :: h in habits && Shows(cat, h) ==> h in r by {
        forall h | h in habits && Shows(cat, h)
          ensures h in r
        {
          var k :| 0 <= k < |habits| && habits[k] == h;
          var j :| 0 <= j < |ix| && ix[j] == k;
          assert r[j] == h;
        }
      }
      r
  }

  /** Some habit of the store has category c. */
  predicate HasCategory(habits: seq<Habit>, c: string) {
    exists k :: 0 <= k < |habits| && habits[k].category == c
  }

  /** Category c occurs among the habits before store index m. */
  predicate CategoryBefore(habits: seq<Habit>, c: string, m: int) {
    exists k :: 0 <= k < m && k < |habits| && habits[k].category == c
  }

  /** The categories of a store are those of all but its last habit, plus the last one's. */
  lemma HasCategoryLast(habits: seq<Habit>, d: string)
    requires habits != []
    ensures HasCategory(habits, d) <==>
      HasCategory(habits[..|habits| - 1], d) || d == habits[|habits| - 1].category
  {
    var n := |habits| - 1;
    if HasCategory(habits, d) && d != habits[n].category {
      var k :| 0 <= k < |habits| && habits[k].category == d;
      assert habits[..n][k] == habits[k];
    }
    if HasCategory(habits[..n], d) {
      var k :| 0 <= k < n && habits[..n][k].category == d;
      assert habits[k] == habits[..n][k];
    }
  }

  /** A category of the prefix habits[..m] occurs in habits before index m, and before any later index. */
  lemma CategoryBeforeFromPrefix(habits: seq<Habit>, c: string, m: int, m': int)
    requires 0 <= m <= m' <= |habits|
    requires HasCategory(habits[..m], c)
    ensures CategoryBefore(habits, c, m')
  {
    var k :| 0 <= k < m && habits[..m][k].category == c;
    assert habits[k] == habits[..m][k];
  }

  /**
    The filter's option list: every non-empty category of the store, once each,
    in the order of first appearance (a Set built from the categories, with the
    empty one dropped).
   */
  function Categories(habits: seq<Habit>): (r: seq<string>)
    ensures forall j, k :: 0 <= j < k < |r| ==> r[j] != r[k]
    ensures forall c :: c in r <==> c != "" && HasCategory(habits, c)
    ensures forall j, k, m :: 0 <= j < k < |r| && 0 <= m < |habits| && habits[m].category == r[k] ==>
      CategoryBefore(habits, r[j], m)
  {
    if habits == [] then []
    else
      var n := |habits| - 1;
      var prefix := Categories(habits[..n]);
      var c := habits[n].category;
      var r := if c == "" || c in prefix then prefix else prefix + [c];
      assert forall d :: HasCategory(habits, d) <==> HasCategory(habits[..n], d) || d == c by {
        forall d { HasCategoryLast(habits, d); }
      }
      assert forall j, k, m :: 0 <= j < k < |r| && 0 <= m < |habits| && habits[m].category == r[k] ==>
        CategoryBefore(habits, r[j], m) by {
        forall j, k, m | 0 <= j < k < |r| && 0 <= m < |habits| && habits[m].category == r[k]
          ensures CategoryBefore(habits, r[j], m)
        {
          assert r[j] in prefix;
          if m < n {
            assert habits[..n][m] == habits[m];
            assert CategoryBefore(habits[..n], r[j], m);
            var w :| 0 <= w < m && w < n && habits[..n][w].category == r[j];
            assert habits[w] == habits[..n][w];
          } else {
            CategoryBeforeFromPrefix(habits, r[j], n, m);
          }
        }
      }
      r
  }

  /** The chart covers the last seven days, today included. */
  const ChartDays: nat := 7

  /** The 0/1 series over the n days ending at t, oldest first. */
  function DaySeries(log: set<Day>, t: Day, n: nat): (r: seq<int>)
    ensures |r| == n
    ensures forall j :: 0 <= j < n ==> (r[j] == 1 <==> DoneDaysAgo(log, t, n - 1 - j))
    ensures forall j :: 0 <= j < n ==> r[j] == 0 || r[j] == 1
  {
    seq(n, j requires 0 <= j < n => if DoneDaysAgo(log, t, n - 1 - j) then 1 else 0)
  }

  /** One habit's chart dataset: entry j is 1 exactly when day t - (6 - j) is logged. */
  function Series(log: set<Day>, t: Day): (r: seq<int>)
    ensures |r| == ChartDays
    ensures forall j :: 0 <= j < ChartDays ==> (r[j] == 1 <==> t - (6 - j) in log)
    ensures forall j :: 0 <= j < ChartDays ==> r[j] == 0 || r[j] == 1
  {
    DaySeries(log, t, ChartDays)
  }

  function Sum(s: seq<int>): int {
    if s == [] then 0 else s[0] + Sum(s[1..])
  }

  lemma {:induction false} DaySeriesSum(log: set<Day>, t: Day, n: nat)
    ensures Sum(DaySeries(log, t, n)) == CompletionCount(log, t, n)
  {
    if n > 0 {
      var s := DaySeries(log, t, n);
      assert s[1..] == DaySeries(log, t, n - 1);
      DaySeriesSum(log, t, n - 1);
    }
  }

  /** The bars of a habit's chart add up to its "this week" report figure. */
  lemma SeriesSumIsWeekCount(h: Habit, t: Day)
    ensures Sum(Series(h.log, t)) == HabitReport(h, t).week
  {
    DaySeriesSum(h.log, t, ChartDays);
  }

  /** The chart: one series per habit of the store, in store order, ignoring any filter. */
  function Chart(habits: seq<Habit>, t: Day): (r: seq<seq<int>>)
    ensures |r| == |habits|
    ensures forall i :: 0 <= i < |habits| ==> r[i] == Series(habits[i].log, t)
  {
    seq(|habits|, i requires 0 <= i < |habits| => Series(habits[i].log, t))
  }

  /** One row of the habit list. */
  datatype Row = Row(name: string, category: string, streak: nat, doneToday: bool)

  /** The row a habit is listed as on day t. */
  function RowOf(h: Habit, t: Day): (row: Row)
    ensures row.name == h.name && row.category == h.category && row.streak == h.streak
    ensures row.doneToday <==> t in h.log
  {
    Row(h.name, h.category, h.streak, t in h.log)
  }

  /** The label of a row's toggle button. */
  function ToggleLabel(row: Row): (caption: string)
    ensures caption == "Undo" <==> row.doneToday
    ensures caption == "Done" <==> !row.doneToday
  {
    if row.doneToday then "Undo" else "Done"
  }

  /**
    What renderHabits produces. When the filter shows nothing it writes the
    placeholder message and stops, leaving the category options, the reports and
    the chart as they were drawn last.
   */
  datatype Page =
    | Placeholder
    | Full(rows: seq<Row>, categories: seq<string>, reports: seq<Report>, chart: seq<seq<int>>)

  function Render(habits: seq<Habit>, cat: string, t: Day): (p: Page)
    ensures p.Placeholder? <==> Filter(habits, cat) == []
    ensures p.Full? ==> var shown := Filter(habits, cat);
      && |p.rows| == |shown|
      && (forall j :: 0 <= j < |shown| ==>
            && p.rows[j].name == shown[j].name
            && p.rows[j].category == shown[j].category
            && p.rows[j].streak == shown[j].streak
            && (p.rows[j].doneToday <==> t in shown[j].log)
            && p.rows[j] == RowOf(shown[j], t))
    ensures p.Full? ==>
      && p.categories == Categories(habits)
      && |p.reports| == |habits| && |p.chart| == |habits|
      && (forall i :: 0 <= i < |habits| ==> p.reports[i] == HabitReport(habits[i], t))
      && (forall i :: 0 <= i < |habits| ==> p.chart[i] == Series(habits[i].log, t))
  {
    var shown := Filter(habits, cat);
    if shown == [] then Placeholder
    else
      var rows := seq(|shown|, j requires 0 <= j < |shown| => RowOf(shown[j], t));
      Full(rows, Categories(habits), ReportLines(habits, t), Chart(habits, t))
  }

  /** The filter's selection depends on the habits' categories only. */
  lemma {:induction false} ShownIndicesByCategory(h1: seq<Habit>, h2: seq<Habit>, cat: string)
    requires |h1| == |h2|
    requires forall k :: 0 <= k < |h1| ==> h1[k].category == h2[k].category
    ensures ShownIndices(h1, cat) == ShownIndices(h2, cat)
  {
    if h1 != [] {
      var n := |h1| - 1;
      ShownIndicesByCategory(h1[..n], h2[..n], cat);
    }
  }

  /**
    Shown list s2 is s1 after a change to the habit at position row alone: same
    length, names and categories, every other position equal, today's entry of
    that habit flipped.
   */
  predicate ChangedOnlyAt(s1: seq<Habit>, s2: seq<Habit>, row: int, t: Day) {
    && 0 <= row < |s1| == |s2|
    && (forall j :: 0 <= j < |s1| ==> s2[j].name == s1[j].name && s2[j].category == s1[j].category)
    && (forall j :: 0 <= j < |s1| && j != row ==> s2[j] == s1[j])
    && (t in s2[row].log <==> t !in s1[row].log)
  }

  /** rows is how the shown list s is listed on day t, one row per habit. */
  predicate ListedAs(rows: seq<Row>, s: seq<Habit>, t: Day) {
    |rows| == |s| && forall j :: 0 <= j < |s| ==> rows[j] == RowOf(s[j], t)
  }

  /**
    Rows listing two shown lists that differ only at position row: every row
    keeps its name and category, every other row is equal, and the button
    label of that row flips.
   */
  lemma RowsAfterChange(s1: seq<Habit>, s2: seq<Habit>, rows1: seq<Row>, rows2: seq<Row>, row: int, t: Day)
    ensures ChangedOnlyAt(s1, s2, row, t) && ListedAs(rows1, s1, t) && ListedAs(rows2, s2, t) ==>
      && |rows2| == |rows1|
      && (forall j :: 0 <= j < |rows1| ==> rows2[j].name == rows1[j].name && rows2[j].category == rows1[j].category)
      && (forall j :: 0 <= j < |rows1| && j != row ==> rows2[j] == rows1[j])
      && (ToggleLabel(rows2[row]) == "Undo" <==> ToggleLabel(rows1[row]) == "Done")
  {
    if ChangedOnlyAt(s1, s2, row, t) && ListedAs(rows1, s1, t) && ListedAs(rows2, s2, t) {
      forall j | 0 <= j < |rows1| && j != row
        ensures rows2[j] == rows1[j]
      {
        assert rows2[j] == RowOf(s2[j], t) && rows1[j] == RowOf(s1[j], t);
      }
    }
  }

  /**
    When a change touches only the shown habit at position row, flipping its
    today entry, the page keeps every other row, every row's name and category,
    and flips that row's button label.
   */
  lemma RenderAfterRowChange(h1: seq<Habit>, h2: seq<Habit>, cat: string, row: int, t: Day)
    ensures ChangedOnlyAt(Filter(h1, cat), Filter(h2, cat), row, t) ==>
      var before := Render(h1, cat, t);
      var after := Render(h2, cat, t);
      && before.Full? && after.Full? && |after.rows| == |before.rows|
      && (forall j :: 0 <= j < |before.rows| ==>
            after.rows[j].name == before.rows[j].name && after.rows[j].category == before.rows[j].category)
      && (forall j :: 0 <= j < |before.rows| && j != row ==> after.rows[j] == before.rows[j])
      && (ToggleLabel(after.rows[row]) == "Undo" <==> ToggleLabel(before.rows[row]) == "Done")
  {
    var sb := Filter(h1, cat);
    var sa := Filter(h2, cat);
    if ChangedOnlyAt(sb, sa, row, t) {
      var before := Render(h1, cat, t);
      var after := Render(h2, cat, t);
      assert ListedAs(before.rows, sb, t) && ListedAs(after.rows, sa, t);
      RowsAfterChange(sb, sa, before.rows, after.rows, row, t);
    }
  }

  /** The categories, reports and chart of a full page do not depend on the filter. */
  lemma RenderSummaryIgnoresFilter(habits: seq<Habit>, cat1: string, cat2: string, t: Day)
    requires Render(habits, cat1, t).Full? && Render(habits, cat2, t).Full?
    ensures Render(habits, cat1, t).categories == Render(habits, cat2, t).categories
    ensures Render(habits, cat1, t).reports == Render(habits, cat2, t).reports
    ensures Render(habits, cat1, t).chart == Render(habits, cat2, t).chart
  {
  }
}
