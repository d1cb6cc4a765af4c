/** What the page does when Submit is pressed: the form's answers are
    scored, a row is built for (name, today) and the row replaces any
    earlier one for that key. Today's date is a parameter. */
module Page {
  import opened Calendar
  import opened Scoring
  import opened Table

  method SubmitToday(table: ScoreTable, today: CalendarDate, name: string,
                     diet: Answer, workout: Answer, social: Answer,
                     breakAsked: Answer, mistakes: MistakeCount)
    returns (row: Record)
    requires name in Roster
    modifies table
    ensures KeyOf(row) == (name, today)
    ensures row.diet == diet && row.workout == workout && row.social == social
    ensures row.takeBreak == TakeBreak(workout, breakAsked)
    ensures DayResult(row.dietPenalty, row.score) == Rule(row.takeBreak, diet, workout, social, mistakes)
    ensures Consistent(row)
    ensures table.rows == Upserted(old(table.rows), row)
    ensures CountKey(table.rows, (name, today)) == 1
    ensures WithoutKey(table.rows, (name, today)) == WithoutKey(old(table.rows), (name, today))
  {
    var takeBreak := TakeBreak(workout, breakAsked);
    var dietPenalty, score := ScoreDay(takeBreak, diet, workout, social, mistakes);
    row := Record(name, today, takeBreak, diet, workout, social, dietPenalty, score);
    table.Upsert(row);
  }
}
