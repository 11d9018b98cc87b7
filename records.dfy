/** The three record classes. Fields Java never reassigns after construction
    are `const`; the ones it changes through setters are `var`. The Person
    base class is folded into Student, its only subclass. */
module Records {
  import opened Seqs
  import opened Grades
  import opened Semesters

  /** The course list after Student.enrollInCourse: the code is appended unless already present. */
  function WithCourse(codes: seq<string>, code: string): (r: seq<string>)
    ensures code in r
    ensures |codes| <= |r| <= |codes| + 1 && r[..|codes|] == codes
    ensures forall c :: c in r ==> c in codes || c == code
  {
    if code in codes then codes else codes + [code]
  }

  /** Adding a code that is already there changes nothing: enrolling twice is enrolling once. */
  lemma WithCourseIdempotent(codes: seq<string>, code: string)
    ensures WithCourse(WithCourse(codes, code), code) == WithCourse(codes, code)
  {
  }

  /** A duplicate-free course list stays duplicate-free. */
  lemma WithCourseKeepsNoDuplicates(codes: seq<string>, code: string)
    requires NoDuplicates(codes)
    ensures NoDuplicates(WithCourse(codes, code))
  {
  }

  class Student {
    const id: string
    const regNo: string
    var fullName: string
    var email: string
    var enrolledCourses: seq<string>
    var active: bool

    /** A new student is active and enrolled in nothing. */
    constructor (id: string, regNo: string, fullName: string, email: string)
      ensures this.id == id && this.regNo == regNo
      ensures this.fullName == fullName && this.email == email
      ensures enrolledCourses == [] && active
    {
      this.id := id;
      this.regNo := regNo;
      this.fullName := fullName;
      this.email := email;
      this.enrolledCourses := [];
      this.active := true;
    }

    /** Appends the code unless it is already listed; `added` tells which message the source prints. */
    method EnrollInCourse(courseCode: string) returns (added: bool)
      modifies this`enrolledCourses
      ensures added <==> courseCode !in old(enrolledCourses)
      ensures enrolledCourses == WithCourse(old(enrolledCourses), courseCode)
    {
      added := courseCode !in enrolledCourses;
      if added {
        enrolledCourses := enrolledCourses + [courseCode];
      }
    }

    method SetActive(active: bool)
      modifies this`active
      ensures this.active == active
    {
      this.active := active;
    }

    method SetFullName(fullName: string)
      modifies this`fullName
      ensures this.fullName == fullName
    {
      this.fullName := fullName;
    }

    method SetEmail(email: string)
      modifies this`email
      ensures this.email == email
    {
      this.email := email;
    }
  }

  class Course {
    const code: string
    const title: string
    const credits: int
    const instructor: string
    const semester: Semester
    const department: string
    var active: bool

    /** Course.Builder.build(): all six fields as given, and active. Credits are not range-checked. */
    constructor (code: string, title: string, credits: int, instructor: string,
                 semester: Semester, department: string)
      ensures this.code == code && this.title == title && this.credits == credits
      ensures this.instructor == instructor && this.semester == semester
      ensures this.department == department && active
    {
      this.code := code;
      this.title := title;
      this.credits := credits;
      this.instructor := instructor;
      this.semester := semester;
      this.department := department;
      this.active := true;
    }

    method SetActive(active: bool)
      modifies this`active
      ensures this.active == active
    {
      this.active := active;
    }
  }

  class Enrollment {
    const studentId: string
    const courseCode: string
    var marks: real
    var grade: Grade

    /** A new enrollment has marks 0 and grade F, which is the grade 0 marks earn. */
    constructor (studentId: string, courseCode: string)
      ensures this.studentId == studentId && this.courseCode == courseCode
      ensures marks == 0.0 && grade == F && grade == GradeFor(marks)
    {
      this.studentId := studentId;
      this.courseCode := courseCode;
      this.marks := 0.0;
      this.grade := F;
    }

    /** Records the marks and recomputes the grade from them; no range check here. */
    method SetMarks(marks: real)
      modifies this`marks, this`grade
      ensures this.marks == marks
      ensures grade == GradeFor(marks) && InBand(marks, grade)
    {
      this.marks := marks;
      if marks >= 90.0 {
        grade := A;
      } else if marks >= 80.0 {
        grade := B;
      } else if marks >= 70.0 {
        grade := C;
      } else if marks >= 60.0 {
        grade := D;
      } else {
        grade := F;
      }
    }
  }
}
