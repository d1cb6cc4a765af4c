# Daily Habit Score Tracker — core model

The tracker is a single Streamlit page (`streamlit_app.py`). A user from a fixed roster of five names answers three Yes/No questions for the day: diet, workout and social media. When there was no workout they can also declare a break day. The page turns the answers into a diet penalty and a score. On Submit it stores the row in a table keyed by (name, date), replacing any earlier row for that key. The page then shows three summaries:

- the rows dated today;
- a Monday-to-Sunday weekly leaderboard;
- a month-to-date leaderboard.

Each leaderboard holds per-name sums sorted from highest to lowest, and its top line is the winner.

This project models that logic in Dafny:

- `calendar.dfy` (module `Calendar`): dates as (year, month, day) in years 1 to 9999. `Ordinal` is the proleptic Gregorian day number, with 1 January of year 1 as day 1; it is the count Python's `date.toordinal()` gives. `Weekday` is `(ordinal + 6) % 7`, so Monday is 0. `FirstOfMonth` models `replace(day=1)`. `OrdinalOrder` proves that comparing ordinals is the same as comparing dates by (year, month, day), which is how Python orders `date` values. So every date comparison the page makes is modelled as a comparison of ordinals.
- `scoring.dfy` (module `Scoring`): the break choice, the scoring rule `Rule` as a reference definition, and `ScoreDay`, which computes the score step by step as the page does.
- `table.dfy` (module `Table`): the record, the insert-or-replace `Upserted` on (name, date), and the class `ScoreTable`, whose `rows` field the method `Upsert` reassigns. It also holds lemmas about one row per key, rows kept, idempotence and "latest wins".
- `leaderboard.dfy` (module `Leaderboard`): the daily filter, the week and month windows, the per-name sums, the ranking (an insertion sort proved sorted and a permutation) and the winner. The contracts of the summary functions state what each summary holds.
- `page.dfy` (module `Page`): the Submit action, which builds the row from the form's answers and upserts it.
- `scenarios.dfy` (module `Scenarios`): worked examples on 3 June 2024.

Today's date is a parameter everywhere. The page reads it from the clock.

## Model

| member | source | states |
|---|---|---|
| `Scoring.TakeBreak` | streamlit_app.py:56-60 | a break is taken exactly when the workout answer is "No" and the user asked for a break; with a workout the break is forced to "No" |
| `Scoring.SocialTerm` | streamlit_app.py:79 | social media adds 0 or 1 and never subtracts; it adds 1 exactly on "Yes" |
| `Scoring.Rule` | streamlit_app.py:65-79 | on a break day penalty and score are 0; otherwise the penalty is in [1, 10]; the score always lies in [-11, 3] |
| `Scoring.ScoreDay` | streamlit_app.py:65-79 | break day gives (0, 0); otherwise the penalty is 1 for diet "Yes" and the entered mistake count for diet "No"; the score is the diet term plus the workout term plus the social term; the result equals `Rule` |
| `Scoring.YesNeverLowersScore` | streamlit_app.py:76-79 | outside a break, a diet "Yes" scores at least 2 more than "No", a workout "Yes" exactly 2 more, a social "Yes" exactly 1 more |
| `Scoring.ScoreBoundsReached` | streamlit_app.py:70-79 | all "Yes" gives (1, 3) and all "No" with ten mistakes gives (10, -11), so both ends of [-11, 3] are reached |
| `Scoring.BreakIgnoresAnswers` | streamlit_app.py:65-68 | a break day's result does not depend on the diet, workout, social or mistake inputs |
| `Calendar.Weekday` | streamlit_app.py:127 | the weekday is in [0, 6], and today's ordinal minus the weekday is a Monday |
| `Calendar.FirstOfMonth` | streamlit_app.py:148 | the first of the month is day 1 and lies exactly `day - 1` days before the date |
| `Calendar.OrdinalOrder` | streamlit_app.py:130 | one date is before another in (year, month, day) order exactly when its ordinal is smaller; two dates are equal exactly when their ordinals are equal |
| `Table.CountKey` | streamlit_app.py:89 | the count of rows with a key is 0 exactly when no row has that key, and it is at most the number of rows |
| `Table.WithoutKey` | streamlit_app.py:89 | the mask filter keeps exactly the rows whose (name, date) differs from the key, each as often as the table holds it, and removes as many rows as have the key |
| `Table.Upserted` | streamlit_app.py:89-102 | the table after a submit holds the new row once, every row with another key as often as before, and nothing else; the new row is last |
| `Table.UpsertLeavesOneRowForKey` | streamlit_app.py:89-102 | after a submit exactly one row has the submitted (name, date); that row is the new row, and it is the last row |
| `Table.UpsertKeepsOtherRows` | streamlit_app.py:89-102 | every row with another key is kept, in its order; the table grows by 1 minus the number of replaced rows, so by at most 1 |
| `Table.LatestSubmissionWins` | streamlit_app.py:89-102 | submitting two rows with the same key leaves the table as if only the second had been submitted |
| `Table.UpsertIdempotent` | streamlit_app.py:89-102 | submitting the same row twice gives the same table as submitting it once |
| `Table.UpsertKeepsKeysUnique` | streamlit_app.py:89-102 | if no two rows shared a key before a submit, none do after it |
| `Table.UpsertKeepsConsistent` | streamlit_app.py:91-102 | if every row and the new row agree with the scoring rule, every row still does after the submit |
| `Table.ScoreTable.constructor` | streamlit_app.py:38-44 | the table holds the loaded rows |
| `Table.ScoreTable.Upsert` | streamlit_app.py:89-102 | the new rows are the filtered old rows followed by the new row; one row has its key and it is last; other keys' rows are unchanged; at most one row is added; key uniqueness and consistency are preserved |
| `Page.SubmitToday` | streamlit_app.py:56-102 | the stored row has key (name, today), the form's answers, the forced break choice, and exactly the penalty and score the rule gives for the entered mistake count; the table is the upsert of that row |
| `Leaderboard.OnDay` | streamlit_app.py:116 | the daily rows are exactly the rows dated today, each as often as the table holds it |
| `Leaderboard.Within` | streamlit_app.py:130 | the windowed rows are exactly the rows whose date lies between the window's bounds inclusive, each as often as the table holds it |
| `Leaderboard.WeekWindow` | streamlit_app.py:127-128 | the week starts on a Monday, ends six days later, and contains today |
| `Leaderboard.MonthWindow` | streamlit_app.py:148-149 | the month window ends today, starts `day - 1` days earlier, and contains today |
| `Leaderboard.WeekWindowIsCalendarWeek` | streamlit_app.py:127-130 | a date is in the week window exactly when it is in the same Monday-to-Sunday week as today |
| `Leaderboard.MonthWindowIsMonthToDate` | streamlit_app.py:148-151 | a date is in the month window exactly when it has today's year and month and a day no later than today's |
| `Leaderboard.DayInsideWindow` | streamlit_app.py:116-130 | filtering a window's rows to a day inside the window gives exactly that day's rows, in order |
| `Leaderboard.DailyInsideWeekAndMonth` | streamlit_app.py:116-151 | every row of the daily summary lies in the weekly and in the monthly window |
| `Leaderboard.SumFor` | streamlit_app.py:131 | a name without rows sums to 0 |
| `Leaderboard.Totals` | streamlit_app.py:131 | the group-by gives one line per name occurring in the rows, each once, each with that name's sum of scores; it is empty exactly when there are no rows |
| `Leaderboard.Names` | streamlit_app.py:131 | the groups are exactly the names occurring in the rows, each once |
| `Leaderboard.Insert` | streamlit_app.py:131 | inserting into a list sorted by descending sum keeps it sorted and adds exactly the inserted line |
| `Leaderboard.Ranked` | streamlit_app.py:131 | the ranking is sorted by descending sum and is a permutation of its input |
| `Leaderboard.InsertKeepsNamesDistinct` | streamlit_app.py:131 | inserting a line with a new name keeps one line per name |
| `Leaderboard.RankedKeepsNamesDistinct` | streamlit_app.py:131 | ranking keeps one line per name |
| `Leaderboard.Winner` | streamlit_app.py:136-137 | there is a winner exactly when the leaderboard is non-empty; the winner is one of its lines; on a sorted leaderboard no line has a larger sum |
| `Leaderboard.Board` | streamlit_app.py:131 | the leaderboard is sorted, has one line per name occurring in the rows, gives each line that name's sum of scores, and is empty exactly when there are no rows |
| `Leaderboard.WinnerOfRows` | streamlit_app.py:131-137 | there is a winner exactly when there are rows; the winner's sum is its own score sum, and no name in the rows has a larger sum |
| `Leaderboard.WeeklyScores` | streamlit_app.py:130-131 | the weekly leaderboard is sorted, lists each name once, only names with a row this week, gives each name its sum over the week's rows, and lists every name with a row this week |
| `Leaderboard.WeeklyWinner` | streamlit_app.py:130-141 | a weekly winner is shown exactly when some row falls in the week; its name has a row this week, its sum is its weekly sum and is at least every other name's weekly sum |
| `Leaderboard.MonthlyScores` | streamlit_app.py:151-152 | the monthly leaderboard is sorted, lists each name once, only names with a row this month so far, gives each name its month-to-date sum, and lists every name with a row this month so far |
| `Leaderboard.MonthlyWinner` | streamlit_app.py:151-162 | a monthly winner is shown exactly when some row falls in the month so far; its name has a row this month so far, and its sum is the largest month-to-date sum |
| `Scenarios.June3IsMonday` | streamlit_app.py:127-149 | 3 June 2024 is day 739040 and a Monday; its week window is days 739040 to 739046, and its month window is days 739038 (1 June) to 739040 |
| `Scenarios.June3WindowEdges` | streamlit_app.py:130-151 | 9 June is in that week but 2 and 10 June are not; 1 June is in the month window but 31 May and 4 June are not |
| `Scenarios.FourDietMistakes` | streamlit_app.py:70-79 | four diet mistakes, no workout and no social-media discipline give penalty 4 and score -5 |
| `Scenarios.ResubmittedWeek` | streamlit_app.py:127-131 | a week holding only Teju's row scoring -1 shows the single line Teju with -1 |
| `Scenarios.ResubmissionCountsOnce` | streamlit_app.py:89-131 | a first submission scoring 3 and a resubmission scoring -1 (two diet mistakes, a workout, no social-media discipline) on the same day, both rows the rule produces, leave one row, and the weekly leaderboard shows Teju with -1 |

## Left out

- Page layout, widgets, HTML and CSS (lines 9-27, 49-54, 81, 105, 114-120, 133-141, 154-162). Only the values the widgets return are modelled: `Answer`, `MistakeCount` and the roster.
- Reading and writing `scores.csv` (lines 38-44, 103) is file I/O. The table is a `ScoreTable` built from the loaded rows, and saving is not modelled.
- `date.today()` (lines 87, 109) is a parameter. Parsing the date strings with `pd.to_datetime` (line 108) is not modelled; rows carry valid dates. The code raises on an unparsable date rather than skipping the row, so the model admits only valid dates.
- At line 89 the stored dates are still the CSV's ISO strings, compared with `str(today)`. For the ISO strings the page itself writes, this is date equality, and it is modelled as such.
- The Gregorian calendar and `weekday()` come from Python's `datetime` module, which is not part of this model. They are written out here from the documented definition of the ordinal.
- `WeekWindow`: the window is a pair of ordinals. In the source, `monday + timedelta(days=6)` overflows in the last days of year 9999 (Sunday would be in year 10000). That exception is not modelled.
- `Leaderboard.Ranked`: `sort_values` is not stable, and the source promises no order among equal sums. The insertion sort picks one order, and the contracts promise only "sorted descending" and "a permutation of the per-name sums". The name order that `groupby` produces before sorting is not modelled for the same reason.
- The full-store reset with its confirm/cancel flow is not in `streamlit_app.py` and is not part of this model.
- `Record.name` is any string. The roster restriction is stated where a row is made: `Page.SubmitToday` requires a roster name, as the select box guarantees.
