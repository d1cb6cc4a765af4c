/** The page's summaries: today's rows, and the calendar-week and
    month-to-date leaderboards with their winners. */
module Leaderboard {
  import opened Calendar
  import opened Table

  datatype Option<T> = None | Some(value: T)

  /** An inclusive range of day ordinals. */
  datatype Window = Window(first: int, last: int)

  predicate InWindow(d: CalendarDate, w: Window) {
    w.first <= Ordinal(d) <= w.last
  }

  /** One leaderboard line: a name and the sum of its scores. */
  datatype Entry = Entry(name: string, total: int)

  /** Today's rows, in table order: each row dated today as often as the
      table holds it, and no other row. */
  function OnDay(rows: seq<Record>, day: CalendarDate): (daily: seq<Record>)
    ensures forall x :: x in daily <==> x in rows && x.date == day
    ensures forall x :: x in rows && x.date == day ==> multiset(daily)[x] == multiset(rows)[x]
  {
    if rows == [] then []
    else
      assert rows == [rows[0]] + rows[1..];
      (if rows[0].date == day then [rows[0]] else []) + OnDay(rows[1..], day)
  }

  /** The rows dated inside `w`, in table order: each such row as often as
      the table holds it, and no other row. */
  function Within(rows: seq<Record>, w: Window): (inside: seq<Record>)
    ensures forall x :: x in inside <==> x in rows && InWindow(x.date, w)
    ensures forall x :: x in rows && InWindow(x.date, w) ==> multiset(inside)[x] == multiset(rows)[x]
  {
    if rows == [] then []
    else
      assert rows == [rows[0]] + rows[1..];
      (if InWindow(rows[0].date, w) then [rows[0]] else []) + Within(rows[1..], w)
  }

  /** Monday to Sunday of the calendar week of `today`. */
  function WeekWindow(today: CalendarDate): (w: Window)
    ensures IsMonday(w.first) && w.last == w.first + 6
    ensures InWindow(today, w)
  {
    var monday := Ordinal(today) - Weekday(today);
    Window(monday, monday + 6)
  }

  /** The first of the month of `today` up to `today` itself. */
  function MonthWindow(today: CalendarDate): (w: Window)
    ensures w.last == Ordinal(today)
    ensures w.last - w.first == today.day - 1
    ensures InWindow(today, w)
  {
    Window(Ordinal(FirstOfMonth(today)), Ordinal(today))
  }

  /** Weeks numbered from the week of 1 January of year 1. */
  function WeekNumber(n: int): int {
    (n - 1) / 7
  }

  /** The seven days from a Monday on are the days of its week number. */
  lemma MondayStartsWeek(monday: int, n: int)
    requires IsMonday(monday)
    ensures monday <= n <= monday + 6 <==> WeekNumber(n) == WeekNumber(monday)
  {
    var q := (monday - 1) / 7;
    assert monday == 7 * q + 1;
    var r := (n - 1) % 7;
    assert n - 1 == 7 * WeekNumber(n) + r && 0 <= r < 7;
  }

  /** The week window holds exactly the dates of the same Monday-to-Sunday
      week as `today`. */
  lemma WeekWindowIsCalendarWeek(today: CalendarDate, d: CalendarDate)
    ensures InWindow(d, WeekWindow(today)) <==> WeekNumber(Ordinal(d)) == WeekNumber(Ordinal(today))
  {
    var w := WeekWindow(today);
    MondayStartsWeek(w.first, Ordinal(today));
    MondayStartsWeek(w.first, Ordinal(d));
  }

  /** The month window holds exactly the dates from the first of today's
      month up to today: month-to-date, not the whole month. */
  lemma MonthWindowIsMonthToDate(today: CalendarDate, d: CalendarDate)
    ensures InWindow(d, MonthWindow(today)) <==>
      d.year == today.year && d.month == today.month && d.day <= today.day
  {
    OrdinalOrder(FirstOfMonth(today), d);
    OrdinalOrder(d, today);
  }

  /** Restricting a window's rows to a day inside the window gives that
      day's rows: no row of the day is lost. */
  lemma {:induction false} DayInsideWindow(rows: seq<Record>, day: CalendarDate, w: Window)
    requires InWindow(day, w)
    ensures OnDay(Within(rows, w), day) == OnDay(rows, day)
  {
    if rows != [] {
      DayInsideWindow(rows[1..], day, w);
      var head := if InWindow(rows[0].date, w) then [rows[0]] else [];
      assert Within(rows, w) == head + Within(rows[1..], w);
      OnDayAppend(head, Within(rows[1..], w), day);
    }
  }

  lemma {:induction false} OnDayAppend(a: seq<Record>, b: seq<Record>, day: CalendarDate)
    ensures OnDay(a + b, day) == OnDay(a, day) + OnDay(b, day)
  {
    if a == [] {
      assert a + b == b;
    } else {
      assert (a + b)[1..] == a[1..] + b;
      OnDayAppend(a[1..], b, day);
    }
  }

  /** Every row of the daily summary is counted in the weekly and in the
      monthly summary. */
  lemma DailyInsideWeekAndMonth(rows: seq<Record>, today: CalendarDate)
    ensures OnDay(Within(rows, WeekWindow(today)), today) == OnDay(rows, today)
    ensures OnDay(Within(rows, MonthWindow(today)), today) == OnDay(rows, today)
    ensures forall x :: x in OnDay(rows, today) ==>
      x in Within(rows, WeekWindow(today)) && x in Within(rows, MonthWindow(today))
  {
    DayInsideWindow(rows, today, WeekWindow(today));
    DayInsideWindow(rows, today, MonthWindow(today));
  }

  // ---- grouping by name ----

  predicate HasName(rows: seq<Record>, name: string) {
    exists x :: x in rows && x.name == name
  }

  /** The sum of the scores of `name`'s rows; a name without rows sums to 0. */
  function SumFor(rows: seq<Record>, name: string): (sum: int)
    ensures !HasName(rows, name) ==> sum == 0
  {
    if rows == [] then 0
    else
      assert forall x :: x in rows[1..] ==> x in rows;
      (if rows[0].name == name then rows[0].score else 0) + SumFor(rows[1..], name)
  }

  /** The names that occur in `rows`, each once. */
  function Names(rows: seq<Record>): (names: seq<string>)
    ensures forall n :: n in names <==> HasName(rows, n)
    ensures forall i, j :: 0 <= i < j < |names| ==> names[i] != names[j]
  {
    if rows == [] then []
    else
      var rest := Names(rows[1..]);
      assert forall n :: HasName(rows, n) <==> n == rows[0].name || HasName(rows[1..], n) by {
        forall n | HasName(rows, n) && n != rows[0].name ensures HasName(rows[1..], n) {
          var x :| x in rows && x.name == n;
          assert x in rows[1..];
        }
        forall n | HasName(rows[1..], n) ensures HasName(rows, n) {
          var x :| x in rows[1..] && x.name == n;
          assert x in rows;
        }
        assert rows[0] in rows;
      }
      if rows[0].name in rest then rest else [rows[0].name] + rest
  }

  /** One entry per name with the sum of its scores (the group-by and sum):
      exactly the names of the rows, each once, each with its own sum. */
  function Totals(rows: seq<Record>): (totals: seq<Entry>)
    ensures NamesDistinct(totals)
    ensures forall e :: e in totals ==> HasName(rows, e.name) && e.total == SumFor(rows, e.name)
    ensures forall n :: HasName(rows, n) ==> Entry(n, SumFor(rows, n)) in totals
    ensures |totals| == 0 <==> rows == []
  {
    var names := Names(rows);
    var totals := seq(|names|, i requires 0 <= i < |names| => Entry(names[i], SumFor(rows, names[i])));
    assert forall e :: e in totals ==> HasName(rows, e.name) && e.total == SumFor(rows, e.name) by {
      forall e | e in totals ensures HasName(rows, e.name) && e.total == SumFor(rows, e.name) {
        var i :| 0 <= i < |totals| && totals[i] == e;
        assert names[i] in names;
      }
    }
    assert forall n :: HasName(rows, n) ==> Entry(n, SumFor(rows, n)) in totals by {
      forall n | HasName(rows, n) ensures Entry(n, SumFor(rows, n)) in totals {
        var i :| 0 <= i < |names| && names[i] == n;
        assert totals[i] == Entry(n, SumFor(rows, n));
      }
    }
    assert rows != [] ==> rows[0] in rows && rows[0].name in names;
    totals
  }

  predicate SortedDesc(s: seq<Entry>) {
    forall i, j :: 0 <= i < j < |s| ==> s[i].total >= s[j].total
  }

  predicate NamesDistinct(s: seq<Entry>) {
    forall i, j :: 0 <= i < j < |s| ==> s[i].name != s[j].name
  }

  /** Placing a line above a sorted list whose first total it is not below
      keeps the list sorted. */
  lemma SortedCons(head: Entry, tail: seq<Entry>)
    requires SortedDesc(tail)
    requires tail != [] ==> tail[0].total <= head.total
    ensures SortedDesc([head] + tail)
  {
  }

  /** Places `e` into a list sorted by descending total. */
  function Insert(e: Entry, s: seq<Entry>): (t: seq<Entry>)
    requires SortedDesc(s)
    ensures |t| == |s| + 1
    ensures SortedDesc(t)
    ensures multiset(t) == multiset(s) + multiset{e}
  {
    if s == [] || e.total >= s[0].total then
      SortedCons(e, s);
      [e] + s
    else
      var rest := Insert(e, s[1..]);
      assert s == [s[0]] + s[1..];
      SortedCons(s[0], rest);
      [s[0]] + rest
  }

  /** Sorts by descending total (the order among equal totals is not
      promised). */
  function Ranked(es: seq<Entry>): (s: seq<Entry>)
    ensures SortedDesc(s)
    ensures multiset(s) == multiset(es)
  {
    if es == [] then []
    else
      assert es == [es[0]] + es[1..];
      Insert(es[0], Ranked(es[1..]))
  }

  lemma NamesDistinctCons(head: Entry, tail: seq<Entry>)
    requires NamesDistinct(tail)
    requires forall x :: x in multiset(tail) ==> x.name != head.name
    ensures NamesDistinct([head] + tail)
  {
    forall i, j | 0 <= i < j < |[head] + tail| ensures ([head] + tail)[i].name != ([head] + tail)[j].name {
      if i == 0 {
        assert tail[j - 1] in multiset(tail);
      }
    }
  }

  /** In a list with distinct names, no later line has the first line's name. */
  lemma TailNamesDiffer(s: seq<Entry>)
    requires |s| > 0 && NamesDistinct(s)
    ensures forall x :: x in multiset(s[1..]) ==> x.name != s[0].name
  {
    forall x | x in multiset(s[1..]) ensures x.name != s[0].name {
      var j :| 0 <= j < |s[1..]| && s[1..][j] == x;
      assert s[j + 1] == x;
    }
  }

  /** Inserting a line whose name is new keeps the names distinct. */
  lemma {:induction false} InsertKeepsNamesDistinct(e: Entry, s: seq<Entry>)
    requires SortedDesc(s) && NamesDistinct(s)
    requires forall x :: x in multiset(s) ==> x.name != e.name
    ensures NamesDistinct(Insert(e, s))
  {
    if s == [] || e.total >= s[0].total {
      NamesDistinctCons(e, s);
    } else {
      var rest := Insert(e, s[1..]);
      assert s == [s[0]] + s[1..];
      assert multiset(s) == multiset{s[0]} + multiset(s[1..]);
      InsertKeepsNamesDistinct(e, s[1..]);
      TailNamesDiffer(s);
      assert e.name != s[0].name by {
        assert s[0] in multiset(s);
      }
      assert multiset(rest) == multiset(s[1..]) + multiset{e};
      NamesDistinctCons(s[0], rest);
      assert Insert(e, s) == [s[0]] + rest;
    }
  }

  /** Ranking lists each name as often as its input does: once. */
  lemma {:induction false} RankedKeepsNamesDistinct(es: seq<Entry>)
    requires NamesDistinct(es)
    ensures NamesDistinct(Ranked(es))
  {
    if es != [] {
      var rest := Ranked(es[1..]);
      assert es == [es[0]] + es[1..];
      RankedKeepsNamesDistinct(es[1..]);
      TailNamesDiffer(es);
      assert multiset(rest) == multiset(es[1..]);
      InsertKeepsNamesDistinct(es[0], rest);
    }
  }

  /** The leaderboard of `rows`: one line per name of the rows, each with
      that name's sum, highest sum first; empty exactly when there are no
      rows. */
  function Board(rows: seq<Record>): (board: seq<Entry>)
    ensures SortedDesc(board) && NamesDistinct(board)
    ensures forall e :: e in board ==> HasName(rows, e.name) && e.total == SumFor(rows, e.name)
    ensures forall n :: HasName(rows, n) ==> Entry(n, SumFor(rows, n)) in board
    ensures |board| == 0 <==> rows == []
  {
    var totals := Totals(rows);
    var board := Ranked(totals);
    RankedKeepsNamesDistinct(totals);
    assert forall e :: e in board <==> e in totals by {
      forall e ensures e in board <==> e in totals {
        assert e in board <==> e in multiset(board);
        assert e in totals <==> e in multiset(totals);
      }
    }
    assert |board| == |multiset(board)| == |multiset(totals)| == |totals|;
    board
  }

  /** The top line of a leaderboard, if there is one. */
  function Winner(board: seq<Entry>): (w: Option<Entry>)
    ensures w.Some? <==> |board| > 0
    ensures w.Some? ==> w.value in board
    ensures w.Some? && SortedDesc(board) ==> forall e :: e in board ==> e.total <= w.value.total
  {
    if |board| > 0 then Some(board[0]) else None
  }

  /** There is a winner exactly when there are rows; the winner's sum is its
      own sum of scores, and no name of the rows has a larger sum. */
  lemma WinnerOfRows(rows: seq<Record>)
    ensures Winner(Board(rows)).Some? <==> rows != []
    ensures Winner(Board(rows)).Some? ==>
      var w := Winner(Board(rows)).value;
      && HasName(rows, w.name)
      && w.total == SumFor(rows, w.name)
      && forall x :: x in rows ==> SumFor(rows, x.name) <= w.total
  {
    var board := Board(rows);
    if rows != [] {
      forall x | x in rows ensures SumFor(rows, x.name) <= board[0].total {
        assert HasName(rows, x.name);
        assert Entry(x.name, SumFor(rows, x.name)) in board;
      }
    }
  }

  // ---- the three summaries ----

  /** The weekly leaderboard: sorted, one line per name with a row this
      week, each line that name's sum over the week. */
  function WeeklyScores(rows: seq<Record>, today: CalendarDate): (board: seq<Entry>)
    ensures SortedDesc(board) && NamesDistinct(board)
    ensures forall e :: e in board ==>
      HasName(Within(rows, WeekWindow(today)), e.name) && e.total == SumFor(Within(rows, WeekWindow(today)), e.name)
    ensures forall x :: x in rows && InWindow(x.date, WeekWindow(today)) ==>
      Entry(x.name, SumFor(Within(rows, WeekWindow(today)), x.name)) in board
  {
    var week := Within(rows, WeekWindow(today));
    assert forall x :: x in rows && InWindow(x.date, WeekWindow(today)) ==> HasName(week, x.name) by {
      forall x | x in rows && InWindow(x.date, WeekWindow(today)) ensures HasName(week, x.name) {
        assert x in week;
      }
    }
    Board(week)
  }

  /** A weekly winner is shown exactly when some row falls in this week; its
      name has a row this week and it has the largest weekly sum. */
  function WeeklyWinner(rows: seq<Record>, today: CalendarDate): (w: Option<Entry>)
    ensures w.Some? <==> exists x :: x in rows && InWindow(x.date, WeekWindow(today))
    ensures w.Some? ==>
      var week := Within(rows, WeekWindow(today));
      && HasName(week, w.value.name)
      && w.value.total == SumFor(week, w.value.name)
      && forall x :: x in rows && InWindow(x.date, WeekWindow(today)) ==> SumFor(week, x.name) <= w.value.total
  {
    var week := Within(rows, WeekWindow(today));
    WinnerOfRows(week);
    assert week != [] ==> week[0] in week;
    Winner(Board(week))
  }

  /** The monthly leaderboard: sorted, one line per name with a row this
      month so far, each line that name's month-to-date sum. */
  function MonthlyScores(rows: seq<Record>, today: CalendarDate): (board: seq<Entry>)
    ensures SortedDesc(board) && NamesDistinct(board)
    ensures forall e :: e in board ==>
      HasName(Within(rows, MonthWindow(today)), e.name) && e.total == SumFor(Within(rows, MonthWindow(today)), e.name)
    ensures forall x :: x in rows && InWindow(x.date, MonthWindow(today)) ==>
      Entry(x.name, SumFor(Within(rows, MonthWindow(today)), x.name)) in board
  {
    var month := Within(rows, MonthWindow(today));
    assert forall x :: x in rows && InWindow(x.date, MonthWindow(today)) ==> HasName(month, x.name) by {
      forall x | x in rows && InWindow(x.date, MonthWindow(today)) ensures HasName(month, x.name) {
        assert x in month;
      }
    }
    Board(month)
  }

  /** A monthly winner is shown exactly when some row falls in the month so
      far; its name has a row this month and it has the largest
      month-to-date sum. */
  function MonthlyWinner(rows: seq<Record>, today: CalendarDate): (w: Option<Entry>)
    ensures w.Some? <==> exists x :: x in rows && InWindow(x.date, MonthWindow(today))
    ensures w.Some? ==>
      var month := Within(rows, MonthWindow(today));
      && HasName(month, w.value.name)
      && w.value.total == SumFor(month, w.value.name)
      && forall x :: x in rows && InWindow(x.date, MonthWindow(today)) ==> SumFor(month, x.name) <= w.value.total
  {
    var month := Within(rows, MonthWindow(today));
    WinnerOfRows(month);
    assert month != [] ==> month[0] in month;
    Winner(Board(month))
  }
}
