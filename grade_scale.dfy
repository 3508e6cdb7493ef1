/** The letter-grade scale of the GPA calculator and the rule that decides
    whether a grade cell may enter the average. */
module GradeScale {

  /** A grade scale: grade symbol to grade points. */
  type Table = map<string, real>

  /** The scale of calculate.py (`grade_to_gpa`). Reals keep every value
      exact: 3.7 is exactly 37/10 here. */
  const GradeToGpa: Table := map[
    "A+" := 4.0, "A" := 3.7,
    "B+" := 3.3, "B" := 3.0,
    "C+" := 2.7, "C" := 2.4,
    "D+" := 2.2, "D" := 2.0,
    "F"  := 0.0
  ]

  /** Cell texts the source rejects by name before consulting the scale. */
  const Sentinels: seq<string> := ["Con", "0", ""]

  /** The nine symbols of the scale, named once more so the shape of the
      table can be stated. */
  const Symbols: set<string> := {"A+", "A", "B+", "B", "C+", "C", "D+", "D", "F"}

  /** Every value of the scale lies in [0, 4]. */
  predicate InRange(scale: Table) {
    forall g :: g in scale ==> 0.0 <= scale[g] <= 4.0
  }

  /** The grade test of the row loop, written as the source writes it: a
      sentinel, or any text that is not a key, is rejected. */
  predicate IsCountable(scale: Table, grade: string) {
    !(grade in Sentinels || grade !in scale)
  }

  /** `grade_to_gpa.get(grade, 0.0)`: the scale value, or 0.0 for an unknown
      symbol. */
  function PointsOf(scale: Table, grade: string): (p: real)
    ensures InRange(scale) ==> 0.0 <= p <= 4.0
  {
    if grade in scale then scale[grade] else 0.0
  }

  /** The scale has exactly the nine symbols and none of them is a sentinel. */
  lemma ScaleKeys()
    ensures GradeToGpa.Keys == Symbols
    ensures forall g :: g in Sentinels ==> g !in GradeToGpa
  {
  }

  /** Every value lies in [0, 4]: F is the bottom and A+ the top. */
  lemma ScaleRange()
    ensures InRange(GradeToGpa)
    ensures forall g :: g in GradeToGpa ==> GradeToGpa["F"] <= GradeToGpa[g] <= GradeToGpa["A+"]
    ensures GradeToGpa["F"] == 0.0 && GradeToGpa["A+"] == 4.0
  {
  }

  /** With the source's scale the explicit sentinel test adds nothing: a
      grade is countable exactly when it is one of the nine symbols, so the
      0.0 default of the lookup is never taken for a counted grade. */
  lemma CountableIsKey(grade: string)
    ensures IsCountable(GradeToGpa, grade) <==> grade in Symbols
    ensures IsCountable(GradeToGpa, grade) ==> PointsOf(GradeToGpa, grade) == GradeToGpa[grade]
  {
    ScaleKeys();
  }
}
