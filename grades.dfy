/** The grade scale: the Grade enum with its point values and the threshold
    chain of Enrollment.setMarks. Marks and points are exact reals. */
module Grades {

  datatype Grade = A | B | C | D | F

  /** The point value the Grade enum attaches to each letter. */
  function Points(g: Grade): (p: real)
    ensures 0.0 <= p <= 4.0
    ensures p == 4.0 <==> g == A
    ensures p == 0.0 <==> g == F
  {
    match g
    case A => 4.0
    case B => 3.0
    case C => 2.0
    case D => 1.0
    case F => 0.0
  }

  /** The letter Enrollment.setMarks assigns to a mark: descending thresholds 90, 80, 70, 60. */
  function GradeFor(marks: real): Grade
  {
    if marks >= 90.0 then A
    else if marks >= 80.0 then B
    else if marks >= 70.0 then C
    else if marks >= 60.0 then D
    else F
  }

  /** Lowest mark that earns g (F has no lower bound). */
  function Floor(g: Grade): real
    requires g != F
  {
    match g
    case A => 90.0
    case B => 80.0
    case C => 70.0
    case D => 60.0
  }

  /** The next better letter (A has none). */
  function Better(g: Grade): Grade
    requires g != A
  {
    match g
    case B => A
    case C => B
    case D => C
    case F => D
  }

  /** The band of marks a letter covers: at least its own floor and below the next letter's floor. */
  predicate InBand(marks: real, g: Grade)
  {
    (g == F || Floor(g) <= marks) && (g == A || marks < Floor(Better(g)))
  }

  /** GradeFor picks exactly the letter whose band holds the mark, so the scale is total and unambiguous. */
  lemma GradeForIsBand(marks: real, g: Grade)
    ensures GradeFor(marks) == g <==> InBand(marks, g)
  {
  }

  /** More marks never earn fewer points. */
  lemma GradeForMonotone(m1: real, m2: real)
    requires m1 <= m2
    ensures Points(GradeFor(m1)) <= Points(GradeFor(m2))
  {
  }

  /** Independent count: the points earned equal the number of thresholds reached. */
  function ThresholdsReached(marks: real): (n: nat)
    ensures n <= 4
  {
    (if marks >= 60.0 then 1 else 0) + (if marks >= 70.0 then 1 else 0)
    + (if marks >= 80.0 then 1 else 0) + (if marks >= 90.0 then 1 else 0)
  }

  lemma PointsCountThresholds(marks: real)
    ensures Points(GradeFor(marks)) == ThresholdsReached(marks) as real
  {
  }
}
