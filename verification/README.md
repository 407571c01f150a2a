# Habit tracker: the domain logic of Health.js

A model of the habit-tracking widget in `Health.js`. The DOM, browser storage and
the Chart.js drawing are stripped away. What remains is described in the
program's own terms:

- **Habit** records. Each has a name, a category, a log of the days it was done,
  a current `streak` and a `longestStreak`.
- The **store**, an ordered sequence of habits. Position in the sequence is the
  identity the commands use.
- The **streak calculator** (`recalcStreak`). It walks back from today and stops
  at the first day that is not logged, or after 365 days.
- The **completion counter** (`getCompletionCount`). It counts the logged days
  among the last `n` days; the report panel uses `n = 7` and `n = 30`.
- The **commands**: adding a habit from the form (trimmed, an empty name is
  rejected), toggling today's completion (`logHabit`), and deleting a habit
  behind a confirmation (`deleteHabit`).
- The **render derivations**: the category-filtered list, the category option
  list, the report lines, the 7-day 0/1 chart series, and the page as a whole.

Calendar days are whole numbers. Today is a parameter `t`, and "i days ago" is
`t - i`. A log is a `set<int>` of days. The confirmation dialog is a boolean
argument. Every command is a pure function from the old store to the new one.

Modules, one per component: `Text` (JavaScript `trim`), `Habits` (the record
and toggling a day), `Streaks`, `Reports`, `Store` (commands, the store
invariant `Valid`, command sequences), `View` (filter, categories, chart, page),
and `RowActions` (the list's row buttons; see Findings).

Three points where a reader might expect other behaviour; the model follows the code:

- One might expect `longestStreak` to be raised only when a day is set. The code
  compares after both set and unset (`Health.js:92`). The two readings agree:
  unsetting today always drops the streak to 0 (`Store.UnmarkKeepsLongest`).
- One might expect the category options, reports and chart always to show every
  habit. The code returns early when the filtered list is empty
  (`Health.js:39-42`), before it rebuilds any of them, so they keep what was last
  drawn. `View.Render` returns `Placeholder` in that case. One visible effect:
  after deleting the last habit, the report panel and chart still show it.
- One might expect the stored `streak` always to equal the run ending today. It
  is only recomputed by `logHabit`, so it goes stale when the day changes without
  a toggle. `Store.Valid` is therefore stated for one day `t`, and
  `Store.RunPreservesValid` covers a sequence of commands on that day.

## Model

| member | source | states |
|---|---|---|
| `Text.Trim` | Health.js:119-120 | The result has no leading or trailing whitespace. It is the input with only whitespace removed from its two ends. It is empty exactly when the input is all whitespace. |
| `Text.TrimIdempotent` | Health.js:119-120 | Trimming an already trimmed string changes nothing. |
| `Habits.ToggleDay` | Health.js:84-88 | Today's membership in the log is flipped. Every other day keeps its membership. |
| `Habits.ToggleDayInvolution` | Health.js:84-88 | Toggling the same day twice gives back the original log. |
| `Streaks.Walk` | Health.js:139-145 | Walking back from day i, every day passed is logged. The walk stops at a gap or at the 365-day bound. |
| `Streaks.Streak` | Health.js:137-147 | The streak k is between 0 and 365. Days t .. t-(k-1) are all logged, and day t-k is not logged unless the 365 cap was reached. |
| `Streaks.StreakUnique` | Health.js:137-147 | Any k with the streak property equals the computed streak: the run ending today, capped at 365. |
| `Streaks.StreakZeroIffTodayMissing` | Health.js:143-144 | The streak is 0 if and only if today is not logged. |
| `Streaks.MarkTodayExtendsYesterday` | Health.js:139-145 | With today logged, the streak is yesterday's streak plus one, capped at 365. |
| `Streaks.StreakOfTodayOnly` | Health.js:137-147 | A log holding only today has streak 1. |
| `Streaks.UnmarkTodayResets` | Health.js:143-144 | With today not logged, the streak is 0 whatever earlier days hold. |
| `Reports.CompletionCount` | Health.js:168-177 | The count over n days is at most n. It equals n only if every one of those days is logged. |
| `Reports.CountIsWindowSize` | Health.js:168-177 | The count equals the number of logged days d with t-n < d <= t. |
| `Reports.CountMonotone` | Health.js:168-177 | A longer window never counts fewer days. |
| `Reports.CountAllDone` | Health.js:168-177 | If every day of the window is logged, the count is the window length. |
| `Reports.CountCoversStreak` | Health.js:137-177 | The count over n days is at least min(streak, n). |
| `Reports.ReportLines` | Health.js:152-163 | The report panel has one line per habit of the store, in store order, each the habit's report line, whatever the filter. |
| `Reports.HabitReport` | Health.js:152-160 | Each report line has week <= 7, month <= 30 and week <= month. It counts the logged days of each window. It carries the habit's name, category and longest streak. |
| `Store.AddHabit` | Health.js:116-124 | If the name is all whitespace, the store is unchanged. Otherwise exactly one habit is appended at the end, with a non-empty trimmed name, the trimmed category, an empty log and zero streaks. Earlier habits are unchanged. |
| `Store.LogHabit` | Health.js:79-92 | Only habit i changes, and in it only today's log entry flips. Its streak is the streak of the new log. Its longest streak is the maximum of the old longest streak and the new streak. |
| `Store.UnmarkKeepsLongest` | Health.js:84-92 | Unmarking today sets the streak to 0 and leaves the longest streak unchanged. |
| `Store.LogHabitTwiceRestoresLog` | Health.js:84-88 | Toggling a habit twice on one day restores its log, whatever its stored streak. |
| `Store.LogHabitTwice` | Health.js:79-92 | For a habit whose stored streak is current and not above its longest streak, toggling twice on one day restores its log and its current streak. Its longest streak becomes the maximum of the old value and the intermediate streak. Nothing else changes. |
| `Store.SpliceOne` | Health.js:101 | `splice(i, 1)`: if the start index is in range, exactly that element is removed and the rest keep their order. Otherwise the sequence is unchanged. A negative index counts back from the end. |
| `Store.DeleteHabit` | Health.js:99-105 | Without confirmation, nothing changes. With confirmation and a valid index i, exactly habit i is removed and later habits move down one place in order. An index past the end removes nothing. The result's contents are always a sub-multiset of the store's. |
| `Store.DeleteIsSlice` | Health.js:99-105 | A confirmed delete at a valid index i gives exactly the habits before i followed by the habits after i. |
| `Store.AddPreservesValid` | Health.js:116-124 | Adding keeps every habit well formed: non-empty trimmed name, trimmed category, a streak that is the streak of the log on day t, and longest >= streak. |
| `Store.LogHabitPreservesValid` | Health.js:79-92 | Toggling keeps the store well formed on the same day. |
| `Store.DeletePreservesValid` | Health.js:99-105 | Deleting keeps the store well formed. |
| `Store.Apply` | Health.js:79-130 | One command handler: add, toggle or delete as above. An out-of-range toggle leaves the store unchanged, as the source throws before mutating. The store's size moves by at most one. |
| `Store.Run` | Health.js:79-130 | Commands applied in order. The empty sequence changes nothing, and the store's size moves by at most the number of commands. |
| `Store.RunSnoc` | Health.js:79-130 | Running a sequence and then one more command equals running the extended sequence. |
| `Store.ApplyPreservesValid` | Health.js:79-130 | Any single command handler keeps the store well formed. An out-of-range toggle leaves the store unchanged. |
| `Store.RunPreservesValid` | Health.js:79-130 | Any sequence of commands on one day keeps the store well formed. |
| `Store.ToggleFreshTwice` | Health.js:79-92 | A habit with an empty log, toggled twice today, gets streak 1 and longest streak 1, then streak 0 with longest streak still 1 and an empty log. |
| `Store.AddToggleUndoScenario` | Health.js:79-124 | Add a habit (for example "Exercise" in "Fitness"), toggle it, then toggle again. The streak goes 0, 1, 0, the longest streak ends at 1, and the log ends empty. |
| `View.ShownIndices` | Health.js:36 | The shown store indices are strictly increasing and in range. They are exactly the habits that pass the filter. With the empty filter they are 0 .. n-1. |
| `View.Select` | Health.js:36 | `filter` keeps, in order, the habits whose category equals the filter. |
| `View.Filter` | Health.js:36 | The empty filter shows the whole store. Otherwise the shown list is the order-preserving subsequence of habits in that category, and contains every such habit. |
| `View.Categories` | Health.js:68 | Each option occurs once. An option is present if and only if it is a non-empty category of some habit. Options are ordered by first appearance in the store. |
| `View.DaySeries` | Health.js:192-200 | The series over n days has n entries, each 0 or 1, oldest first. Entry j is 1 if and only if day t-(n-1-j) is logged. |
| `View.Series` | Health.js:185-200 | A habit's chart series has 7 entries, each 0 or 1. Entry j is 1 if and only if day t-(6-j) is logged. |
| `View.DaySeriesSum` | Health.js:168-200 | The entries of the n-day series add up to the n-day completion count. |
| `View.SeriesSumIsWeekCount` | Health.js:153-200 | A habit's 7 chart bars add up to its "this week" report figure. |
| `View.Chart` | Health.js:192-203 | The chart has one dataset per habit of the store, in store order, each that habit's 7-day series. |
| `View.RowOf` | Health.js:45-63 | A habit's row on day t shows its name, category and stored streak, and is marked done exactly when today is logged. |
| `View.ToggleLabel` | Health.js:60 | A row's button reads "Undo" exactly when today is logged for it, and "Done" exactly when it is not. |
| `View.ShownIndicesByCategory` | Health.js:36 | Two stores of equal length whose habits have the same categories show the same store indices under any filter. |
| `View.RowsAfterChange` | Health.js:45-63 | When two shown lists differ only at one position, whose today entry flipped, their rows keep names and categories, agree everywhere else, and the button label at that position flips. |
| `View.RenderAfterRowChange` | Health.js:36-63 | If a change keeps the shown habits in place with their names and categories, alters only the one at position row and flips its today entry, the page keeps every other row and that row's button label flips. |
| `View.Render` | Health.js:31-76 | If the filter shows nothing, the page is the placeholder. Otherwise there is one row per shown habit, in order, carrying its name, category, streak and whether today is done. The category options, reports and chart cover every habit of the store. |
| `View.RenderSummaryIgnoresFilter` | Health.js:67-75 | Two full pages of the same store under different filters have the same category options, reports and chart. |
| `RowActions.ClickToggleAsWritten` | Health.js:60-92 | As written, the Done/Undo button of displayed row j toggles store index j as `logHabit` does, whatever habit row j shows: today's entry flips, the other days, name and category stay, the streak is recomputed and the longest streak becomes the maximum of old and new. Every other habit is unchanged. |
| `RowActions.ToggleHitsHiddenHabit` | Health.js:36-92 | In a two-habit store filtered to "Fitness", the only row shows "Run", but its button marks "Read" done. |
| `RowActions.ClickDeleteAsWritten` | Health.js:61-105 | As written, the delete button of displayed row j removes store index j, keeping the other habits in order. Without confirmation nothing changes. |
| `RowActions.DeleteHitsHiddenHabit` | Health.js:36-105 | In the same store and filter, confirming delete on the "Run" row removes "Read". |
| `RowActions.ClickToggle` | Health.js:36-92 | Corrected: row j toggles the habit displayed at row j as `logHabit` does: today's entry flips, the other days, name and category stay, the streak is recomputed and the longest streak becomes the maximum of old and new. Every other habit is unchanged. |
| `RowActions.ClickToggleKeepsShown` | Health.js:36-92 | After the corrected click the filtered list holds the same habits in the same positions: each keeps its name and category, every other position is unchanged, and the clicked one has today's entry flipped. |
| `RowActions.ClickToggleFlipsLabel` | Health.js:36-63 | After the corrected click the page shows the same habits in the same rows: every row keeps its name and category, and every row but the clicked one is unchanged. The clicked row's button reads "Undo" exactly when it read "Done" before. |
| `RowActions.ClickDelete` | Health.js:36-105 | Corrected: with confirmation, row j removes the store entry at the shown index of row j, which holds the habit displayed there; the other habits keep their order. Without confirmation, nothing changes. |
| `RowActions.NoFilterNoDifference` | Health.js:36-80 | With no filter, the corrected toggle and the as-written toggle agree. |

## Left out

- DOM look-ups, `innerHTML` templates and the modal open/close handlers (Health.js:1-10, 108-113, 126-127). Mostly these are presentation only. `View.Row` records what a row displays, and `View.ToggleLabel` gives its button text.
- View.Categories and View.Filter assume an option's value equals its category. The source builds the options with unescaped `value="${c}"` (Health.js:70). A category containing `"` or a character reference such as `&amp;` gets a different option value. Selecting that option matches no habit at Health.js:36, and the placeholder shows. HTML parsing is not modelled.
- Loading from and saving to `localStorage`, with JSON parse and stringify (Health.js:17-28). This is I/O. The model starts from a store value. Stored habits that lack `log`, `streak` or `longestStreak` are not modelled: the record always has all five fields, and this file fills no defaults.
- Chart.js construction, its options, the destroy of the previous chart, and the random colour per dataset (Health.js:181, 201-227). This is a foreign library plus randomness. Only the 0/1 series is modelled.
- The `confirm()` dialog. It is the `confirmed` argument.
- Real `Date` arithmetic. Days are integers. `todayStr` is the UTC date (Health.js:14), not the local one; in any zone other than UTC it differs from the local date for hours every day (19:00-24:00 local time in UTC-5, for example). The "i days ago" keys step back with local-time `setDate` and are formatted in UTC (Health.js:140-142, 171-173, 196-198), so they drift from "UTC today minus i" only across a daylight-saving change. The model takes today to be the UTC day and does not model either divergence.
- Log values. The source stores `true` per day and tests truthiness. A set of days captures every log the program itself writes; a stored log holding falsy values is not represented.
- Store.LogHabit: requires `0 <= i < |habits|`. For a missing index the source throws a TypeError when it reads `habit.log`, before changing anything. `Store.Apply` models that case as "store unchanged".
- Whether the filter selector keeps an option that no longer exists (Health.js:71). This depends on browser behaviour.
- Streak and count fields are unbounded naturals. JavaScript numbers never come near their limits here (at most 365 and 30).

## Findings

| source | as written | input that shows it | evidently intended | confidence | as-written member | corrected member |
|---|---|---|---|---|---|---|
| Health.js:60 with Health.js:79-80 | The Done/Undo button passes the row's index in the filtered list, and `logHabit` uses it as an index into the whole store | Store [Read/"Reading", Run/"Fitness"], filter "Fitness": clicking Done on the only row ("Run") marks "Read" done and leaves "Run" unchanged | Toggle the habit displayed in the clicked row | high (not executed) | `RowActions.ToggleHitsHiddenHabit` | `RowActions.ClickToggle` |
| Health.js:61 with Health.js:99-101 | The delete button passes the filtered row index, and `deleteHabit` splices the whole store at that index | Same store and filter: confirming delete on the "Run" row removes "Read" | Delete the habit displayed in the clicked row | high (not executed) | `RowActions.DeleteHitsHiddenHabit` | `RowActions.ClickDelete` |
