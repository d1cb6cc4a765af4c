/** The daily scoring rule: one user's answers for one day become a diet
    penalty and a score. */
module Scoring {

  /** The page's select boxes offer exactly the two strings "Yes" and "No". */
  datatype Answer = Yes | No

  /** Diet mistakes as the number input admits them: 1 to 10, starting at 1. */
  type MistakeCount = n: int | 1 <= n <= 10 witness 1

  datatype DayResult = DayResult(dietPenalty: int, score: int)

  /** A break can be chosen only on a day without a workout; when the
      workout answer is "Yes" the break question is not shown and the break
      is "No". */
  function TakeBreak(workout: Answer, asked: Answer): (takeBreak: Answer)
    ensures takeBreak == Yes <==> workout == No && asked == Yes
  {
    if workout == No then asked else No
  }

  function DietTerm(diet: Answer, dietPenalty: int): int {
    if diet == Yes then 1 else -dietPenalty
  }

  function WorkoutTerm(workout: Answer): int {
    if workout == Yes then 1 else -1
  }

  /** Social-media discipline earns a point and never costs one. */
  function SocialTerm(social: Answer): (t: int)
    ensures 0 <= t <= 1
    ensures t == 1 <==> social == Yes
  {
    if social == Yes then 1 else 0
  }

  /** The scoring rule as a whole: a break day scores nothing either way;
      otherwise the three answers each contribute a term. */
  function Rule(takeBreak: Answer, diet: Answer, workout: Answer, social: Answer,
                mistakes: MistakeCount): (r: DayResult)
    ensures takeBreak == Yes ==> r.dietPenalty == 0 && r.score == 0
    ensures takeBreak == No ==> 1 <= r.dietPenalty <= 10
    ensures -11 <= r.score <= 3
  {
    if takeBreak == Yes then DayResult(0, 0)
    else
      var dietPenalty := if diet == Yes then 1 else mistakes;
      DayResult(dietPenalty, DietTerm(diet, dietPenalty) + WorkoutTerm(workout) + SocialTerm(social))
  }

  /** The page's scoring block: the penalty is chosen first, then the score
      is accumulated one answer at a time. */
  method ScoreDay(takeBreak: Answer, diet: Answer, workout: Answer, social: Answer,
                  mistakes: MistakeCount)
    returns (dietPenalty: int, score: int)
    ensures takeBreak == Yes ==> dietPenalty == 0 && score == 0
    ensures takeBreak == No && diet == Yes ==> dietPenalty == 1
    ensures takeBreak == No && diet == No ==> dietPenalty == mistakes
    ensures takeBreak == No ==>
      score == DietTerm(diet, dietPenalty) + WorkoutTerm(workout) + SocialTerm(social)
    ensures DayResult(dietPenalty, score) == Rule(takeBreak, diet, workout, social, mistakes)
  {
    if takeBreak == Yes {
      dietPenalty := 0;
      score := 0;
    } else {
      dietPenalty := 1;
      if diet == No {
        dietPenalty := mistakes;
      }
      score := 0;
      score := score + (if diet == Yes then 1 else -dietPenalty);
      score := score + (if workout == Yes then 1 else -1);
      score := score + (if social == Yes then 1 else 0);
    }
  }

  /** Outside a break, answering "Yes" never lowers the score: diet and
      workout gain at least two points, social media exactly one. */
  lemma YesNeverLowersScore(diet: Answer, workout: Answer, social: Answer, mistakes: MistakeCount)
    ensures Rule(No, Yes, workout, social, mistakes).score >= Rule(No, No, workout, social, mistakes).score + 2
    ensures Rule(No, diet, Yes, social, mistakes).score == Rule(No, diet, No, social, mistakes).score + 2
    ensures Rule(No, diet, workout, Yes, mistakes).score == Rule(No, diet, workout, No, mistakes).score + 1
  {
  }

  /** The bounds of the score are reached: all "Yes" gives 3, and all "No"
      with ten diet mistakes gives -11. */
  lemma ScoreBoundsReached()
    ensures Rule(No, Yes, Yes, Yes, 1) == DayResult(1, 3)
    ensures Rule(No, No, No, No, 10) == DayResult(10, -11)
  {
  }

  /** A break day outweighs every answer: the result is the same whatever
      was answered and however many mistakes were entered. */
  lemma BreakIgnoresAnswers(diet: Answer, workout: Answer, social: Answer, mistakes: MistakeCount,
                            diet': Answer, workout': Answer, social': Answer, mistakes': MistakeCount)
    ensures Rule(Yes, diet, workout, social, mistakes) == Rule(Yes, diet', workout', social', mistakes')
  {
  }
}
