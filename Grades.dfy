/** Grade bucketing of a performance rating (src/App.js, `getGrade`). */
module Grades {

  /** The grade letter of `rating`: bands closed at their lower bound,
      with everything below 2.0, negatives included, graded "D". */
  function GetGrade(rating: real): (g: string)
    ensures g == "A" <==> rating >= 4.0
    ensures g == "B" <==> 3.0 <= rating < 4.0
    ensures g == "C" <==> 2.0 <= rating < 3.0
    ensures g == "D" <==> rating < 2.0
    ensures g in {"A", "B", "C", "D"}
  {
    if rating >= 4.0 then "A"
    else if rating >= 3.0 then "B"
    else if rating >= 2.0 then "C"
    else "D"
  }

  /** The boundary cases: each band includes its lower bound and excludes its upper one. */
  lemma GradeBoundaries()
    ensures GetGrade(4.0) == "A" && GetGrade(3.999) == "B"
    ensures GetGrade(3.0) == "B" && GetGrade(2.999) == "C"
    ensures GetGrade(2.0) == "C" && GetGrade(1.999) == "D"
    ensures GetGrade(-1.0) == "D"
  {
  }
}
