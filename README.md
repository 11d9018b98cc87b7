# Campus Course Records Manager — a Dafny model

This is a model of the record-keeping logic of `CCRM.java`, taken apart from the console menu it lives in.
The manager keeps three lists:
- registered students;
- the course catalog;
- the enrollment ledger that ties a student id to a course code and carries marks and a letter grade.

The five state-changing actions (`addStudent`, `updateStudent`, `addCourse`, `enrollStudent`, `manageGrades`) become methods. Each takes what the program reads from the console as parameters and returns an `Outcome` naming the final message the program prints; `AddCourse` also reports whether the semester fallback notice is printed. The two course searches, the course statistics and the transcript become functions that return their result. The actions that only print are left out.

Files and modules:
- `text.dfy` (`Text`): ASCII upper-casing and Java's `equalsIgnoreCase`, proved equivalent to equality after upper-casing.
- `grades.dfy` (`Grades`): the `Grade` enum with its points, and the mark thresholds of `setMarks`.
- `semesters.dfy` (`Semesters`): the `Semester` enum and the lenient parse of the semester text, which falls back to `FALL`.
- `seqs.dfy` (`Seqs`): stream `filter().toList()`, `filter().findFirst()`, subsequences and duplicate-free lists.
- `records.dfy` (`Records`): the `Student`, `Course` and `Enrollment` classes and the setters that change them in place.
- `catalog.dfy` (`Catalog`): the case-insensitive course-code check and the two course searches.
- `ledger.dfy` (`Ledger`): matching an enrollment by (student id, course code ignoring case), unique pairs, and each student's codes.
- `reports.dfy` (`Reports`): courses per department, transcript rows and GPA.
- `manager.dfy` (`Manager`): the `CampusCourseRecordsManager` class, whose `seq` fields its methods grow in place.

The class invariant `Valid()` is kept by every operation. It says:
- student ids are unique;
- course codes are unique ignoring case;
- no two enrollments share a (student id, code ignoring case) pair;
- every enrollment names a registered student and a catalog course;
- marks lie in [0, 100] and carry the grade they earn;
- each student's `enrolledCourses` is exactly the list of codes of their enrollments, in ledger order.

From the last point and unique pairs it follows that no student's course list holds a code twice.

The course statistics count every course, active or not, because the collector at CCRM.java:733-737 does not filter on `active`. Course credits are stored as given: nothing in the source checks them.

## Model

| member | source | states |
|---|---|---|
| Text.EqualsIgnoreCaseIsUpperEquality | CCRM.java:488-489 | two strings are equal ignoring case exactly when their upper-cased forms are equal |
| Text.EqualsIgnoreCaseSymmetric | CCRM.java:638-639 | case-insensitive equality is symmetric |
| Text.EqualsIgnoreCaseTransitive | CCRM.java:683-684 | case-insensitive equality is transitive |
| Grades.Points | CCRM.java:12-17 | points lie in [0, 4]; 4 only for A and 0 only for F |
| Grades.GradeForIsBand | CCRM.java:176-184 | the grade for a mark is g exactly when the mark lies in g's band: A from 90, B [80,90), C [70,80), D [60,70), F below 60 |
| Grades.GradeForMonotone | CCRM.java:176-184 | more marks never earn fewer points |
| Grades.PointsCountThresholds | CCRM.java:12-17 | a grade's points equal the number of thresholds 60, 70, 80, 90 the mark reaches |
| Semesters.ParseSemesterSpec | CCRM.java:510-518 | the parse gives s exactly when the text names s ignoring case, or s is FALL and the text names no semester |
| Semesters.NamesSemesterSpec | CCRM.java:512-518 | the semester lookup succeeds exactly when the text names some semester ignoring case |
| Semesters.ParseName | CCRM.java:510-518 | every semester name, in any letter case, parses back to its semester |
| Seqs.Filter | CCRM.java:762-764 | the result holds only elements meeting the predicate, holds every such element, and keeps their original order |
| Seqs.FilterCounts | CCRM.java:762-764 | the result holds each element meeting the predicate exactly as many times as the input does, and nothing more often than the input |
| Seqs.FirstIndex | CCRM.java:615-618 | -1 exactly when nothing matches; otherwise a matching index with no match before it |
| Records.WithCourse | CCRM.java:71-78 | the new list contains the code, extends the old list by at most that code, and adds nothing else |
| Records.WithCourseIdempotent | CCRM.java:71-78 | enrolling in the same course twice is the same as enrolling once |
| Records.WithCourseKeepsNoDuplicates | CCRM.java:71-78 | a duplicate-free course list stays duplicate-free |
| Records.Student.constructor | CCRM.java:52-58 | a new student has the given id, registration number, name and email, is active and has no courses |
| Records.Student.EnrollInCourse | CCRM.java:71-78 | appends the code exactly when it was absent and reports which case happened |
| Records.Student.SetActive | CCRM.java:87 | sets the active flag and nothing else |
| Records.Student.SetFullName | CCRM.java:41 | sets the name and nothing else |
| Records.Student.SetEmail | CCRM.java:42 | sets the email and nothing else |
| Records.Course.constructor | CCRM.java:100-108 | a built course has the six given field values and is active |
| Records.Course.SetActive | CCRM.java:152 | sets the active flag and nothing else |
| Records.Enrollment.constructor | CCRM.java:168-174 | a new enrollment has marks 0 and grade F, which is the grade 0 marks earn |
| Records.Enrollment.SetMarks | CCRM.java:176-184 | stores the marks and the grade whose band holds them, with no range check |
| Catalog.AppendKeepsUniqueCodes | CCRM.java:488-492 | appending a course whose code is not taken ignoring case keeps codes unique ignoring case |
| Catalog.ActiveMatching | CCRM.java:552-554 | the search keeps every active course whose field equals the query ignoring case, as often as the catalog lists it, nothing else, in catalog order |
| Ledger.AppendKeepsUniquePairs | CCRM.java:637-647 | appending an enrollment whose pair is not enrolled keeps pairs unique |
| Ledger.MatchIsFirst | CCRM.java:682-686 | under unique pairs, any matching enrollment is the first match |
| Ledger.EnrollmentsOf | CCRM.java:762-764 | the result holds each of the student's enrollments as often as the ledger does, nothing else, in ledger order |
| Ledger.CodesOfMembership | CCRM.java:646-648 | a code is in a student's derived list exactly when one of their enrollments has that code spelled the same |
| Ledger.CodesOfAppend | CCRM.java:646-648 | a new enrollment adds its code to its own student's list and to no other |
| Ledger.CodesOfAbsent | CCRM.java:384-388 | a student with no enrollment has an empty list |
| Ledger.CodesOfNoDuplicates | CCRM.java:71-78 | with unique pairs, no student's list holds a code twice |
| Reports.DepartmentCountsAreCounts | CCRM.java:733-737 | a department is a key exactly when it has a course, and its value is its number of courses |
| Reports.DepartmentCountsKeys | CCRM.java:733-737 | the keys are exactly the departments of the catalog's courses |
| Reports.CountsSumToCourseCount | CCRM.java:730-737 | the per-department counts add up to the number of courses, inactive ones included |
| Reports.TotalPoints | CCRM.java:783-785 | the sum of points lies between 0 and 4 per row |
| Reports.Gpa | CCRM.java:786 | the GPA lies in [0, 4], is 0 for no rows, and otherwise times the row count gives the total points |
| Reports.GpaUniform | CCRM.java:783-786 | when every row has the same grade, the GPA is that grade's points |
| Manager.CampusCourseRecordsManager.constructor | CCRM.java:234-273 | the registry and ledger start empty and the catalog holds the three sample courses |
| Manager.CampusCourseRecordsManager.AddStudent | CCRM.java:365-390 | a duplicate id, compared exactly, changes nothing; otherwise exactly one new active student with no courses is appended |
| Manager.CampusCourseRecordsManager.UpdateStudent | CCRM.java:421-444 | reports whether the id exists; the matching student gets each non-empty new value; every other student is untouched |
| Manager.CampusCourseRecordsManager.AddCourse | CCRM.java:482-531 | a code taken ignoring case changes nothing; otherwise one active course is appended, with the parsed semester and credits as given; the fallback notice is reported exactly when the course is added and its text names no semester ignoring case |
| Manager.CampusCourseRecordsManager.EnrollStudent | CCRM.java:607-650 | checks student, course, then duplicate pair, in that order; a failure changes nothing; success appends one enrollment with the typed code, marks 0 and grade F, and adds the code to that student's list only |
| Manager.CampusCourseRecordsManager.Commit | CCRM.java:646-648 | appends the enrollment, then extends exactly that student's list by the code, keeping the invariant |
| Manager.CampusCourseRecordsManager.ManageGrades | CCRM.java:674-705 | a missing enrollment, then out-of-range marks, change nothing; otherwise only the first matching enrollment gets the marks and their grade |
| Manager.CampusCourseRecordsManager.SearchCoursesByInstructor | CCRM.java:547-561 | every active course whose instructor equals the query ignoring case, as often as the catalog lists it, nothing else, in catalog order |
| Manager.CampusCourseRecordsManager.SearchCoursesByDepartment | CCRM.java:563-577 | every active course whose department equals the query ignoring case, as often as the catalog lists it, nothing else, in catalog order |
| Manager.CampusCourseRecordsManager.CourseStatistics | CCRM.java:728-743 | keys are the departments of all courses, values are their counts, and the counts sum to the catalog size |
| Manager.CampusCourseRecordsManager.GenerateTranscript | CCRM.java:745-790 | none exactly when the id is unknown; otherwise the student's rows in ledger order; when the ledger keeps the invariant's marks clause, each row has marks in [0, 100] and the grade those marks earn; and a GPA in [0, 4] equal to the mean of their points, 0 for none |
| Manager.CampusCourseRecordsManager.EnrolledCoursesHaveNoDuplicates | CCRM.java:71-78 | under the invariant, no student's course list holds a code twice |

## Left out

- Menu loops and `Scanner` reading, including `InputMismatchException` handling: the values read become method parameters.
- All console output: `displayInfo`, `toString`, the success and error messages and the `%.2f` GPA format. The five state-changing methods return an `Outcome` naming their final message instead, and `AddCourse` also returns whether it would print the semester fallback notice. The searches, statistics and transcript return the data their messages are built from: an empty search result, `None` for an unknown student, or a transcript with no rows.
- `listStudents`, `viewStudentProfile`, `listCourses` and `viewStudentEnrollments`: they only print.
- Enrollment and registration dates: `LocalDate.now()` reads the clock, so those fields are dropped.
- The `AppConfig` singleton and the two exception classes: no operation uses them.
- `Course.Builder`: every use sets all six fields, so the `Course` constructor takes them directly.
- The abstract `Person` class: its fields and setters are folded into `Student`, its only subclass.
- Java `double`: marks and points are exact reals, and NaN or infinite marks are not modelled. In the source, `nextDouble` accepts "NaN", the range test at CCRM.java:697 is false for it, and `setMarks` stores it with grade F, so the program itself can break the invariant's marks clause; the model's real marks cannot express that input.
- Java `int` width of credits: credits are unbounded integers, taken as given with no range check, as in the source.
- Unicode case mapping: `equalsIgnoreCase` and `toUpperCase` are modelled on ASCII letters only. `toUpperCase` at CCRM.java:510 also follows the default locale: under a Turkish or Azeri locale "spring" upper-cases to a dotted capital I, the lookup fails and the course gets FALL, so Semesters.ParseName holds for the source only under a locale without special casing.
- The iteration order of the `HashMap` built by `groupingBy`: the statistics are a Dafny `map`.
- Aliasing of the student, course and enrollment objects from outside the manager: in the source they are reachable only through its lists.
- Manager.CampusCourseRecordsManager.GenerateTranscript: for a student with no enrollments, the source prints a notice and stops before computing a GPA; the model returns the empty row list with GPA 0, which is the value of the source's own empty-list guard at CCRM.java:786.
