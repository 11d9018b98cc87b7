/** Reporting: the per-department course counts of showCourseStatistics and
    the transcript lines and GPA of generateTranscript. */
module Reports {
  import opened Seqs
  import opened Grades
  import opened Records

  // ---------------------------------------------------------------- statistics

  /** Number of courses in department d. */
  function CountIn(cs: seq<Course>, d: string): nat
  {
    |Filter(cs, (c: Course) => c.department == d)|
  }

  /** One more course for department d. */
  function Bump(m: map<string, nat>, d: string): (r: map<string, nat>)
    ensures r.Keys == m.Keys + {d}
    ensures r[d] == (if d in m then m[d] else 0) + 1
    ensures forall k :: k in m && k != d ==> r[k] == m[k]
  {
    m[d := if d in m then m[d] + 1 else 1]
  }

  /** groupingBy(Course::getDepartment, counting()) over every course, active or not. */
  function DepartmentCounts(cs: seq<Course>): map<string, nat>
  {
    if cs == [] then map[]
    else Bump(DepartmentCounts(cs[..|cs| - 1]), cs[|cs| - 1].department)
  }

  lemma CountInAppend(init: seq<Course>, c: Course, d: string)
    ensures CountIn(init + [c], d) == CountIn(init, d) + (if c.department == d then 1 else 0)
  {
    FilterAppend(init, c, (x: Course) => x.department == d);
  }

  /** A department has a course exactly when its count is positive. */
  lemma CountInPositive(cs: seq<Course>, d: string)
    ensures CountIn(cs, d) > 0 <==> exists i :: 0 <= i < |cs| && cs[i].department == d
  {
    var f := Filter(cs, (c: Course) => c.department == d);
    if |f| > 0 {
      assert f[0] in cs;
    }
  }

  /** The statistics map each department to its number of courses, and hold
      exactly the departments that have at least one course. */
  lemma {:induction false} DepartmentCountsAreCounts(cs: seq<Course>, d: string)
    ensures d in DepartmentCounts(cs) <==> CountIn(cs, d) > 0
    ensures d in DepartmentCounts(cs) ==> DepartmentCounts(cs)[d] == CountIn(cs, d)
  {
    if cs != [] {
      var init, c := cs[..|cs| - 1], cs[|cs| - 1];
      assert cs == init + [c];
      DepartmentCountsAreCounts(init, d);
      CountInAppend(init, c, d);
    }
  }

  /** A department appears in the statistics exactly when some course belongs to it. */
  lemma DepartmentCountsKeys(cs: seq<Course>, d: string)
    ensures d in DepartmentCounts(cs) <==> exists i :: 0 <= i < |cs| && cs[i].department == d
  {
    DepartmentCountsAreCounts(cs, d);
    CountInPositive(cs, d);
  }

  /** Some key of a non-empty map. */
  ghost function Pick(m: map<string, nat>): (k: string)
    requires |m| > 0
    ensures k in m
  {
    var k :| k in m; k
  }

  /** The sum of a map's values. */
  ghost function Total(m: map<string, nat>): nat
    decreases |m|
  {
    if |m| == 0 then 0 else m[Pick(m)] + Total(m - {Pick(m)})
  }

  /** Any key can be taken out first. */
  lemma {:induction false} TotalRemove(m: map<string, nat>, k: string)
    requires k in m
    ensures Total(m) == m[k] + Total(m - {k})
    decreases |m|
  {
    var p := Pick(m);
    if p != k {
      assert |m - {p}| == |m| - 1;
      TotalRemove(m - {p}, k);
      assert |m - {k}| == |m| - 1;
      TotalRemove(m - {k}, p);
      assert m - {p} - {k} == m - {k} - {p};
    }
  }

  lemma TotalBump(m: map<string, nat>, d: string)
    ensures Total(Bump(m, d)) == Total(m) + 1
  {
    var r := Bump(m, d);
    TotalRemove(r, d);
    if d in m {
      TotalRemove(m, d);
      assert r - {d} == m - {d};
    } else {
      assert r - {d} == m;
    }
  }

  /** The per-department counts add up to the number of courses, inactive ones included. */
  lemma {:induction false} CountsSumToCourseCount(cs: seq<Course>)
    ensures Total(DepartmentCounts(cs)) == |cs|
  {
    if cs != [] {
      CountsSumToCourseCount(cs[..|cs| - 1]);
      TotalBump(DepartmentCounts(cs[..|cs| - 1]), cs[|cs| - 1].department);
    }
  }

  // ---------------------------------------------------------------- transcript

  /** One transcript row: course code, marks and grade; its grade points are Points(grade). */
  datatype TranscriptLine = TranscriptLine(courseCode: string, marks: real, grade: Grade)

  function LinesOf(es: seq<Enrollment>): (r: seq<TranscriptLine>)
    reads es
    ensures |r| == |es|
    ensures forall i :: 0 <= i < |es| ==>
              r[i] == TranscriptLine(es[i].courseCode, es[i].marks, es[i].grade)
  {
    seq(|es|, i reads es requires 0 <= i < |es| =>
      TranscriptLine(es[i].courseCode, es[i].marks, es[i].grade))
  }

  /** mapToDouble(e -> e.getGrade().getPoints()).sum(). */
  function TotalPoints(lines: seq<TranscriptLine>): (t: real)
    ensures 0.0 <= t <= 4.0 * |lines| as real
  {
    if lines == [] then 0.0
    else
      assert |lines| as real == |lines[1..]| as real + 1.0;
      Points(lines[0].grade) + TotalPoints(lines[1..])
  }

  /** The mean grade point, 0 for no lines. */
  function Gpa(lines: seq<TranscriptLine>): (gpa: real)
    ensures 0.0 <= gpa <= 4.0
    ensures lines == [] ==> gpa == 0.0
    ensures lines != [] ==> gpa * |lines| as real == TotalPoints(lines)
  {
    if lines == [] then 0.0
    else
      MeanBounds(TotalPoints(lines), |lines| as real);
      TotalPoints(lines) / |lines| as real
  }

  /** A mean of values in [0, 4] lies in [0, 4]. */
  lemma MeanBounds(total: real, n: real)
    requires n > 0.0 && 0.0 <= total <= 4.0 * n
    ensures 0.0 <= total / n <= 4.0 && (total / n) * n == total
  {
    assert total / n <= 4.0 by {
      assert (total / n) * n == total;
    }
  }

  /** Every line with the same grade gives that grade's points as the GPA. */
  lemma {:induction false} TotalPointsUniform(lines: seq<TranscriptLine>, g: Grade)
    requires forall i :: 0 <= i < |lines| ==> lines[i].grade == g
    ensures TotalPoints(lines) == |lines| as real * Points(g)
  {
    if lines != [] {
      TotalPointsUniform(lines[1..], g);
    }
  }

  lemma GpaUniform(lines: seq<TranscriptLine>, g: Grade)
    requires lines != []
    requires forall i :: 0 <= i < |lines| ==> lines[i].grade == g
    ensures Gpa(lines) == Points(g)
  {
    TotalPointsUniform(lines, g);
  }
}
