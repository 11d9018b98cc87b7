/** CampusCourseRecordsManager without its console: the three record lists
    and the operations the menu drives, each taking as parameters what the
    source reads from the Scanner and returning which outcome it reports. */
module Manager {
  import opened Text
  import opened Seqs
  import opened Grades
  import opened Semesters
  import opened Records
  import opened Catalog
  import opened Ledger
  import opened Reports

  /** What an operation reports: success, or the message the source prints before returning early. */
  datatype Outcome =
    | Success
    | DuplicateStudentId
    | DuplicateCourseCode
    | StudentNotFound
    | CourseNotFound
    | DuplicateEnrollment
    | EnrollmentNotFound
    | InvalidMarks

  datatype Option<T> = None | Some(value: T)

  /** A transcript: the student's rows in ledger order and the GPA over them. */
  datatype Transcript = Transcript(studentId: string, lines: seq<TranscriptLine>, gpa: real)

  /** Some student has exactly this id (anyMatch with equals). */
  predicate IdTaken(ss: seq<Student>, id: string)
  {
    exists i :: 0 <= i < |ss| && ss[i].id == id
  }

  predicate UniqueIds(ss: seq<Student>)
  {
    forall i, j :: 0 <= i < j < |ss| ==> ss[i].id != ss[j].id
  }

  /** c is a live course with exactly these field values. */
  predicate IsCourse(c: Course, code: string, title: string, credits: int, instructor: string,
                     semester: Semester, department: string)
    reads c
  {
    c.code == code && c.title == title && c.credits == credits && c.instructor == instructor
    && c.semester == semester && c.department == department && c.active
  }

  /** Every enrollment names a registered student. */
  predicate KnownStudents(es: seq<Enrollment>, ss: seq<Student>)
  {
    forall i :: 0 <= i < |es| ==> IdTaken(ss, es[i].studentId)
  }

  /** Every enrollment's code matches a catalog code ignoring case. */
  predicate KnownCourses(es: seq<Enrollment>, cs: seq<Course>)
  {
    forall i :: 0 <= i < |es| ==> CodeTaken(cs, es[i].courseCode)
  }

  /** Marks lie in [0, 100] and each grade is the one its marks earn. */
  predicate GradedInRange(es: seq<Enrollment>)
    reads es`marks, es`grade
  {
    forall i :: 0 <= i < |es| ==> 0.0 <= es[i].marks <= 100.0 && es[i].grade == GradeFor(es[i].marks)
  }

  /** Each student's course list is the list of codes of their enrollments. */
  predicate ListsMatchLedger(ss: seq<Student>, es: seq<Enrollment>)
    reads ss`enrolledCourses
  {
    forall i :: 0 <= i < |ss| ==> ss[i].enrolledCourses == CodesOf(es, ss[i].id)
  }

  lemma KnownStudentsAppend(es: seq<Enrollment>, e: Enrollment, ss: seq<Student>)
    requires KnownStudents(es, ss) && IdTaken(ss, e.studentId)
    ensures KnownStudents(es + [e], ss)
  {
    forall i | 0 <= i < |es| + 1 ensures IdTaken(ss, (es + [e])[i].studentId) {
      if i < |es| {
        assert (es + [e])[i] == es[i];
      }
    }
  }

  lemma KnownStudentsGrow(es: seq<Enrollment>, ss: seq<Student>, s: Student)
    requires KnownStudents(es, ss)
    ensures KnownStudents(es, ss + [s])
  {
    forall i | 0 <= i < |es| ensures IdTaken(ss + [s], es[i].studentId) {
      var j :| 0 <= j < |ss| && ss[j].id == es[i].studentId;
      assert (ss + [s])[j] == ss[j];
    }
  }

  lemma KnownCoursesAppend(es: seq<Enrollment>, e: Enrollment, cs: seq<Course>)
    requires KnownCourses(es, cs) && CodeTaken(cs, e.courseCode)
    ensures KnownCourses(es + [e], cs)
  {
    forall i | 0 <= i < |es| + 1 ensures CodeTaken(cs, (es + [e])[i].courseCode) {
      if i < |es| {
        assert (es + [e])[i] == es[i];
      }
    }
  }

  lemma KnownCoursesGrow(es: seq<Enrollment>, cs: seq<Course>, c: Course)
    requires KnownCourses(es, cs)
    ensures KnownCourses(es, cs + [c])
  {
    forall i | 0 <= i < |es| ensures CodeTaken(cs + [c], es[i].courseCode) {
      var j :| 0 <= j < |cs| && EqualsIgnoreCase(cs[j].code, es[i].courseCode);
      assert (cs + [c])[j] == cs[j];
    }
  }

  lemma GradedInRangeAppend(es: seq<Enrollment>, e: Enrollment)
    requires GradedInRange(es) && 0.0 <= e.marks <= 100.0 && e.grade == GradeFor(e.marks)
    ensures GradedInRange(es + [e])
  {
    forall i | 0 <= i < |es| + 1
      ensures 0.0 <= (es + [e])[i].marks <= 100.0 && (es + [e])[i].grade == GradeFor((es + [e])[i].marks)
    {
      if i < |es| {
        assert (es + [e])[i] == es[i];
      }
    }
  }

  lemma ListsMatchLedgerGrow(ss: seq<Student>, s: Student, es: seq<Enrollment>)
    requires ListsMatchLedger(ss, es) && s.enrolledCourses == CodesOf(es, s.id)
    ensures ListsMatchLedger(ss + [s], es)
  {
    forall i | 0 <= i < |ss| + 1 ensures (ss + [s])[i].enrolledCourses == CodesOf(es, (ss + [s])[i].id) {
      if i < |ss| {
        assert (ss + [s])[i] == ss[i];
      }
    }
  }

  class CampusCourseRecordsManager {
    var students: seq<Student>
    var courses: seq<Course>
    var enrollments: seq<Enrollment>

    /** The invariants the operations keep: unique keys, enrollments that refer to
        existing records, marks in range with the grade they earn, and every
        student's course list equal to the codes of their enrollments. */
    ghost predicate Valid()
      reads this, students`enrolledCourses, enrollments`marks, enrollments`grade
    {
      && UniqueIds(students)
      && UniqueCodes(courses)
      && UniquePairs(enrollments)
      && KnownStudents(enrollments, students)
      && KnownCourses(enrollments, courses)
      && GradedInRange(enrollments)
      && ListsMatchLedger(students, enrollments)
    }

    /** Empty registry and ledger; the catalog holds the three sample courses. */
    constructor ()
      ensures Valid()
      ensures students == [] && enrollments == [] && |courses| == 3
      ensures IsCourse(courses[0], "CS101", "Introduction to Programming", 3, "Dr. Smith", FALL, "Computer Science")
      ensures IsCourse(courses[1], "MATH201", "Calculus I", 4, "Prof. Johnson", FALL, "Mathematics")
      ensures IsCourse(courses[2], "PHY101", "Physics Fundamentals", 3, "Dr. Brown", SPRING, "Physics")
    {
      students := [];
      enrollments := [];
      var cs := new Course("CS101", "Introduction to Programming", 3, "Dr. Smith", FALL, "Computer Science");
      var math := new Course("MATH201", "Calculus I", 4, "Prof. Johnson", FALL, "Mathematics");
      var phy := new Course("PHY101", "Physics Fundamentals", 3, "Dr. Brown", SPRING, "Physics");
      courses := [cs, math, phy];
    }

    /** Admits a student unless the id is already present (compared exactly). */
    method AddStudent(id: string, regNo: string, fullName: string, email: string) returns (outcome: Outcome)
      requires Valid()
      modifies this
      ensures Valid()
      ensures outcome == (if old(IdTaken(students, id)) then DuplicateStudentId else Success)
      ensures courses == old(courses) && enrollments == old(enrollments)
      ensures outcome == DuplicateStudentId ==> students == old(students)
      ensures outcome == Success ==>
                |students| == |old(students)| + 1 && students[..|old(students)|] == old(students)
                && var s := students[|old(students)|];
                   fresh(s) && s.id == id && s.regNo == regNo && s.fullName == fullName && s.email == email
                   && s.enrolledCourses == [] && s.active
    {
      var idExists := IdTaken(students, id);
      if idExists {
        return DuplicateStudentId;
      }
      var student := new Student(id, regNo, fullName, email);
      assert forall i :: 0 <= i < |enrollments| ==> enrollments[i].studentId != id;
      CodesOfAbsent(enrollments, id);
      KnownStudentsGrow(enrollments, students, student);
      ListsMatchLedgerGrow(students, student, enrollments);
      students := students + [student];
      outcome := Success;
    }

    /** Changes the name and email of the first student with this id; an empty
        string leaves that field as it was. Nothing else changes. */
    method UpdateStudent(id: string, newName: string, newEmail: string) returns (outcome: Outcome)
      requires Valid()
      modifies students`fullName, students`email
      ensures Valid()
      ensures outcome == (if IdTaken(students, id) then Success else StudentNotFound)
      ensures forall s :: s in students && s.id != id ==> unchanged(s)
      ensures forall s :: s in students && s.id == id ==>
                && s.fullName == (if newName == "" then old(s.fullName) else newName)
                && s.email == (if newEmail == "" then old(s.email) else newEmail)
    {
      var i := 0;
      while i < |students|
        invariant 0 <= i <= |students|
        invariant forall j :: 0 <= j < i ==> students[j].id != id
        invariant unchanged(students)
      {
        var student := students[i];
        if student.id == id {
          assert forall s :: s in students && s != student ==> s.id != id;
          if newName != "" {
            student.SetFullName(newName);
          }
          if newEmail != "" {
            student.SetEmail(newEmail);
          }
          return Success;
        }
        i := i + 1;
      }
      return StudentNotFound;
    }

    /** Adds a course unless its code equals an existing one ignoring case. The
        semester text is parsed leniently, and `defaulted` tells whether the
        fallback notice is printed; credits are taken as given. */
    method AddCourse(code: string, title: string, credits: int, instructor: string,
                     department: string, semesterText: string) returns (outcome: Outcome, defaulted: bool)
      requires Valid()
      modifies this
      ensures Valid()
      ensures outcome == (if old(CodeTaken(courses, code)) then DuplicateCourseCode else Success)
      ensures defaulted <==> outcome == Success && forall t: Semester :: !EqualsIgnoreCase(semesterText, Name(t))
      ensures students == old(students) && enrollments == old(enrollments)
      ensures outcome == DuplicateCourseCode ==> courses == old(courses)
      ensures outcome == Success ==>
                |courses| == |old(courses)| + 1 && courses[..|old(courses)|] == old(courses)
                && fresh(courses[|old(courses)|])
                && IsCourse(courses[|old(courses)|], code, title, credits, instructor,
                            ParseSemester(semesterText), department)
    {
      var codeExists := CodeTaken(courses, code);
      if codeExists {
        return DuplicateCourseCode, false;
      }
      defaulted := !NamesSemester(semesterText);
      NamesSemesterSpec(semesterText);
      var semester := ParseSemester(semesterText);
      var course := new Course(code, title, credits, instructor, semester, department);
      AppendKeepsUniqueCodes(courses, course);
      KnownCoursesGrow(enrollments, courses, course);
      courses := courses + [course];
      outcome := Success;
    }

    /** Enrolls a student in a course. In order: the student must exist, a course
        must match the code ignoring case, and the pair must not be enrolled yet.
        The enrollment keeps the code as typed, not the catalog's spelling. */
    method EnrollStudent(studentId: string, courseCode: string) returns (outcome: Outcome)
      requires Valid()
      modifies this, students`enrolledCourses
      ensures Valid()
      ensures outcome ==
                if !old(IdTaken(students, studentId)) then StudentNotFound
                else if !old(CodeTaken(courses, courseCode)) then CourseNotFound
                else if old(AlreadyEnrolled(enrollments, studentId, courseCode)) then DuplicateEnrollment
                else Success
      ensures students == old(students) && courses == old(courses)
      ensures outcome != Success ==> enrollments == old(enrollments) && unchanged(students)
      ensures outcome == Success ==>
                |enrollments| == |old(enrollments)| + 1 && enrollments[..|old(enrollments)|] == old(enrollments)
                && var e := enrollments[|old(enrollments)|];
                   fresh(e) && e.studentId == studentId && e.courseCode == courseCode
                   && e.marks == 0.0 && e.grade == F
      ensures outcome == Success ==>
                forall s :: s in students ==>
                  s.enrolledCourses == old(s.enrolledCourses) + (if s.id == studentId then [courseCode] else [])
    {
      var si := FirstIndex(students, (s: Student) => s.id == studentId);
      if si == -1 {
        return StudentNotFound;
      }
      var ci := FirstIndex(courses, (c: Course) => EqualsIgnoreCase(c.code, courseCode));
      if ci == -1 {
        return CourseNotFound;
      }
      var alreadyEnrolled := AlreadyEnrolled(enrollments, studentId, courseCode);
      if alreadyEnrolled {
        return DuplicateEnrollment;
      }
      Commit(si, studentId, courseCode);
      outcome := Success;
    }

    /** The tail of enrollStudent once every check has passed: append the
        enrollment, then record the code on the student. */
    method Commit(si: int, studentId: string, courseCode: string)
      requires Valid()
      requires 0 <= si < |students| && students[si].id == studentId
      requires CodeTaken(courses, courseCode)
      requires !AlreadyEnrolled(enrollments, studentId, courseCode)
      modifies this, students`enrolledCourses
      ensures Valid()
      ensures students == old(students) && courses == old(courses)
      ensures |enrollments| == |old(enrollments)| + 1 && enrollments[..|old(enrollments)|] == old(enrollments)
      ensures var e := enrollments[|old(enrollments)|];
                fresh(e) && e.studentId == studentId && e.courseCode == courseCode
                && e.marks == 0.0 && e.grade == F
      ensures forall s :: s in students ==>
                s.enrolledCourses == old(s.enrolledCourses) + (if s.id == studentId then [courseCode] else [])
    {
      var student := students[si];
      var enrollment := new Enrollment(studentId, courseCode);
      ghost var before := enrollments;
      AppendKeepsUniquePairs(enrollments, enrollment);
      KnownStudentsAppend(enrollments, enrollment, students);
      KnownCoursesAppend(enrollments, enrollment, courses);
      GradedInRangeAppend(enrollments, enrollment);
      enrollments := enrollments + [enrollment];
      assert courseCode !in student.enrolledCourses by {
        EqualsIgnoreCaseReflexive(courseCode);
        CodesOfMembership(before, studentId, courseCode);
      }
      var added := student.EnrollInCourse(courseCode);
      forall j | 0 <= j < |students|
        ensures students[j].enrolledCourses ==
                  old(students[j].enrolledCourses) + (if students[j].id == studentId then [courseCode] else [])
        ensures students[j].enrolledCourses == CodesOf(enrollments, students[j].id)
      {
        CodesOfAppend(before, enrollment, students[j].id);
        if j != si {
          assert students[j] != student;
        }
      }
    }

    /** Records marks on the first enrollment matching the pair; rejects a
        missing enrollment first and then marks outside [0, 100]. */
    method ManageGrades(studentId: string, courseCode: string, marks: real) returns (outcome: Outcome)
      requires Valid()
      modifies enrollments`marks, enrollments`grade
      ensures Valid()
      ensures outcome ==
                if !AlreadyEnrolled(enrollments, studentId, courseCode) then EnrollmentNotFound
                else if marks < 0.0 || marks > 100.0 then InvalidMarks
                else Success
      ensures outcome != Success ==> unchanged(enrollments)
      ensures outcome == Success ==>
                var k := FirstIndex(enrollments, (e: Enrollment) => Matches(e, studentId, courseCode));
                && enrollments[k].marks == marks && enrollments[k].grade == GradeFor(marks)
                && forall i :: 0 <= i < |enrollments| && i != k ==> unchanged(enrollments[i])
    {
      var k := FirstIndex(enrollments, (e: Enrollment) => Matches(e, studentId, courseCode));
      if k == -1 {
        return EnrollmentNotFound;
      }
      if marks < 0.0 || marks > 100.0 {
        return InvalidMarks;
      }
      UniquePairsDistinct(enrollments);
      enrollments[k].SetMarks(marks);
      outcome := Success;
    }

    /** The active courses taught by this instructor, ignoring case, in catalog order. */
    function SearchCoursesByInstructor(instructor: string): (r: seq<Course>)
      reads this, courses
      ensures forall i :: 0 <= i < |r| ==>
                r[i] in courses && r[i].active && EqualsIgnoreCase(r[i].instructor, instructor)
      ensures forall i :: 0 <= i < |courses| ==>
                (courses[i].active && EqualsIgnoreCase(courses[i].instructor, instructor) ==> courses[i] in r)
      ensures multiset(r) <= multiset(courses)
      ensures forall i :: 0 <= i < |courses| ==>
                (courses[i].active && EqualsIgnoreCase(courses[i].instructor, instructor) ==>
                   multiset(r)[courses[i]] == multiset(courses)[courses[i]])
      ensures Subsequence(r, courses)
    {
      ActiveMatching(courses, Instructor, instructor)
    }

    /** The active courses of this department, ignoring case, in catalog order. */
    function SearchCoursesByDepartment(department: string): (r: seq<Course>)
      reads this, courses
      ensures forall i :: 0 <= i < |r| ==>
                r[i] in courses && r[i].active && EqualsIgnoreCase(r[i].department, department)
      ensures forall i :: 0 <= i < |courses| ==>
                (courses[i].active && EqualsIgnoreCase(courses[i].department, department) ==> courses[i] in r)
      ensures multiset(r) <= multiset(courses)
      ensures forall i :: 0 <= i < |courses| ==>
                (courses[i].active && EqualsIgnoreCase(courses[i].department, department) ==>
                   multiset(r)[courses[i]] == multiset(courses)[courses[i]])
      ensures Subsequence(r, courses)
    {
      ActiveMatching(courses, Department, department)
    }

    /** Courses per department over the whole catalog, inactive courses included. */
    function CourseStatistics(): (m: map<string, nat>)
      reads this
      ensures forall d :: d in m <==> exists i :: 0 <= i < |courses| && courses[i].department == d
      ensures forall d :: d in m ==> m[d] == CountIn(courses, d)
      ensures Total(m) == |courses|
    {
      var m := DepartmentCounts(courses);
      assert forall d :: (d in m <==> exists i :: 0 <= i < |courses| && courses[i].department == d)
                         && (d in m ==> m[d] == CountIn(courses, d)) by {
        forall d ensures (d in m <==> exists i :: 0 <= i < |courses| && courses[i].department == d)
                         && (d in m ==> m[d] == CountIn(courses, d)) {
          DepartmentCountsKeys(courses, d);
          DepartmentCountsAreCounts(courses, d);
        }
      }
      CountsSumToCourseCount(courses);
      m
    }

    /** The transcript of the student with this id: their enrollments' rows in
        ledger order and the mean grade point, 0 when there are none. */
    function GenerateTranscript(studentId: string): (r: Option<Transcript>)
      requires GradedInRange(enrollments)
      reads this, enrollments
      ensures r.None? <==> !IdTaken(students, studentId)
      ensures r.Some? ==>
                var ts := EnrollmentsOf(enrollments, studentId);
                && r.value.studentId == studentId
                && |r.value.lines| == |ts|
                && (forall i :: 0 <= i < |ts| ==>
                      r.value.lines[i] == TranscriptLine(ts[i].courseCode, ts[i].marks, ts[i].grade))
                && r.value.gpa == Gpa(r.value.lines)
                && 0.0 <= r.value.gpa <= 4.0
                && (ts == [] ==> r.value.gpa == 0.0)
      ensures r.Some? ==>
                forall i :: 0 <= i < |r.value.lines| ==>
                  0.0 <= r.value.lines[i].marks <= 100.0 && r.value.lines[i].grade == GradeFor(r.value.lines[i].marks)
    {
      if !IdTaken(students, studentId) then None
      else
        var ts := EnrollmentsOf(enrollments, studentId);
        var lines := LinesOf(ts);
        assert forall i :: 0 <= i < |lines| ==>
                 0.0 <= lines[i].marks <= 100.0 && lines[i].grade == GradeFor(lines[i].marks) by {
          forall i | 0 <= i < |lines|
            ensures 0.0 <= lines[i].marks <= 100.0 && lines[i].grade == GradeFor(lines[i].marks)
          {
            var k :| 0 <= k < |enrollments| && enrollments[k] == ts[i];
          }
        }
        Some(Transcript(studentId, lines, Gpa(lines)))
    }

    /** Under the invariant no student's course list holds a code twice. */
    lemma EnrolledCoursesHaveNoDuplicates()
      requires Valid()
      ensures forall i :: 0 <= i < |students| ==> NoDuplicates(students[i].enrolledCourses)
    {
      forall i | 0 <= i < |students| ensures NoDuplicates(students[i].enrolledCourses) {
        CodesOfNoDuplicates(enrollments, students[i].id);
      }
    }
  }
}
