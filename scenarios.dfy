/** Worked examples of the page's behaviour on concrete days. */
module Scenarios {
  import opened Calendar
  import opened Scoring
  import opened Table
  import opened Leaderboard

  const June3: CalendarDate := Date(2024, 6, 3)

  /** 3 June 2024 was a Monday: its week is day 739040 (that Monday) to day
      739046 (Sunday 9 June), and its month window starts on 1 June, day
      739038. */
  lemma June3IsMonday()
    ensures Ordinal(June3) == 739040 && Weekday(June3) == 0
    ensures WeekWindow(June3) == Window(739040, 739046)
    ensures MonthWindow(June3) == Window(739038, 739040)
  {
    assert DaysBeforeYear(2024) == 738885;
  }

  /** The neighbours of that week and month-to-date fall outside them. */
  lemma June3WindowEdges()
    ensures InWindow(Date(2024, 6, 9), WeekWindow(June3))
    ensures !InWindow(Date(2024, 6, 10), WeekWindow(June3))
    ensures !InWindow(Date(2024, 6, 2), WeekWindow(June3))
    ensures InWindow(Date(2024, 6, 1), MonthWindow(June3))
    ensures !InWindow(Date(2024, 5, 31), MonthWindow(June3))
    ensures !InWindow(Date(2024, 6, 4), MonthWindow(June3))
  {
    June3IsMonday();
  }

  /** A day with four diet mistakes, no workout and no social-media
      discipline scores -5. */
  lemma FourDietMistakes()
    ensures Rule(No, No, No, No, 4) == DayResult(4, -5)
  {
  }

  const Resubmitted := Record("Teju", June3, No, No, Yes, No, 2, -1)

  /** A week holding only the resubmitted row shows that row's score. */
  lemma ResubmittedWeek()
    ensures WeeklyScores([Resubmitted], June3) == [Entry("Teju", -1)]
  {
    var rows := [Resubmitted];
    assert InWindow(June3, WeekWindow(June3));
    assert Within(rows, WeekWindow(June3)) == rows;
    assert Names(rows) == ["Teju"];
    assert SumFor(rows, "Teju") == -1;
    assert Totals(rows) == [Entry("Teju", -1)];
    assert Ranked([Entry("Teju", -1)]) == [Entry("Teju", -1)];
  }

  /** A resubmission on the same day replaces the first: a perfect day
      (score 3) is corrected to two diet mistakes with a workout and no
      social-media discipline (score -1), and the weekly leaderboard counts
      only the later score. Both rows are ones the page can build. */
  lemma ResubmissionCountsOnce()
    ensures
      var first := Record("Teju", June3, No, Yes, Yes, Yes, 1, 3);
      var rows := Upserted(Upserted([], first), Resubmitted);
      && Consistent(first) && Consistent(Resubmitted)
      && rows == [Resubmitted] && WeeklyScores(rows, June3) == [Entry("Teju", -1)]
  {
    var first := Record("Teju", June3, No, Yes, Yes, Yes, 1, 3);
    LatestSubmissionWins([], first, Resubmitted);
    assert Upserted([], Resubmitted) == [Resubmitted];
    ResubmittedWeek();
  }
}
