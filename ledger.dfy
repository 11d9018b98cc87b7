/** Enrollment ledger queries: the (student id, course code ignoring case)
    match used by enrollStudent and manageGrades, the per-student view, and
    the uniqueness of pairs. */
module Ledger {
  import opened Text
  import opened Seqs
  import opened Records

  /** Same student id exactly, same course code ignoring case. */
  predicate Matches(e: Enrollment, studentId: string, courseCode: string)
  {
    e.studentId == studentId && EqualsIgnoreCase(e.courseCode, courseCode)
  }

  /** enrollStudent's anyMatch over the ledger. */
  predicate AlreadyEnrolled(es: seq<Enrollment>, studentId: string, courseCode: string)
  {
    exists i :: 0 <= i < |es| && Matches(es[i], studentId, courseCode)
  }

  /** No later enrollment repeats the pair of an earlier one. */
  predicate UniquePairs(es: seq<Enrollment>)
  {
    forall i, j :: 0 <= i < j < |es| ==> !Matches(es[i], es[j].studentId, es[j].courseCode)
  }

  lemma {:induction false} AppendKeepsUniquePairs(es: seq<Enrollment>, e: Enrollment)
    requires UniquePairs(es) && !AlreadyEnrolled(es, e.studentId, e.courseCode)
    ensures UniquePairs(es + [e])
  {
    var es' := es + [e];
    forall i, j | 0 <= i < j < |es'| ensures !Matches(es'[i], es'[j].studentId, es'[j].courseCode) {
      if j == |es| {
        assert es'[i] == es[i];
      }
    }
  }

  /** Unique pairs make the enrollments distinct objects. */
  lemma UniquePairsDistinct(es: seq<Enrollment>)
    requires UniquePairs(es)
    ensures forall i, j :: 0 <= i < j < |es| ==> es[i] != es[j]
  {
    forall i, j | 0 <= i < j < |es| ensures es[i] != es[j] {
      EqualsIgnoreCaseReflexive(es[j].courseCode);
    }
  }

  /** With unique pairs, whatever enrollment matches a query is the first match:
      "the first matching enrollment" of manageGrades is the only one. */
  lemma MatchIsFirst(es: seq<Enrollment>, studentId: string, courseCode: string, i: int)
    requires UniquePairs(es)
    requires 0 <= i < |es| && Matches(es[i], studentId, courseCode)
    ensures FirstIndex(es, (e: Enrollment) => Matches(e, studentId, courseCode)) == i
  {
    forall j | 0 <= j < i ensures !Matches(es[j], studentId, courseCode) {
      EqualsIgnoreCaseSymmetric(es[i].courseCode, courseCode);
      EqualsIgnoreCaseTransitive(es[j].courseCode, courseCode, es[i].courseCode);
    }
  }

  /** stream().filter(e -> e.getStudentId().equals(id)).toList(). */
  function EnrollmentsOf(es: seq<Enrollment>, studentId: string): (r: seq<Enrollment>)
    ensures forall i :: 0 <= i < |r| ==> r[i] in es && r[i].studentId == studentId
    ensures forall i :: 0 <= i < |es| && es[i].studentId == studentId ==> es[i] in r
    ensures multiset(r) <= multiset(es)
    ensures forall i :: 0 <= i < |es| && es[i].studentId == studentId ==> multiset(r)[es[i]] == multiset(es)[es[i]]
    ensures Subsequence(r, es)
  {
    var mine := (e: Enrollment) => e.studentId == studentId;
    FilterCounts(es, mine);
    Filter(es, mine)
  }

  /** The course codes, in ledger order, of one student's enrollments. */
  function CodesOf(es: seq<Enrollment>, studentId: string): seq<string>
  {
    if es == [] then []
    else CodesOf(es[..|es| - 1], studentId)
         + (if es[|es| - 1].studentId == studentId then [es[|es| - 1].courseCode] else [])
  }

  /** A code is listed for a student exactly when one of their enrollments has that code, spelled the same. */
  lemma {:induction false} CodesOfMembership(es: seq<Enrollment>, studentId: string, code: string)
    ensures code in CodesOf(es, studentId) <==>
              exists i :: 0 <= i < |es| && es[i].studentId == studentId && es[i].courseCode == code
  {
    if es != [] {
      var init := es[..|es| - 1];
      CodesOfMembership(init, studentId, code);
      if code in CodesOf(init, studentId) {
        var i :| 0 <= i < |init| && init[i].studentId == studentId && init[i].courseCode == code;
        assert es[i] == init[i];
      }
      if exists i :: 0 <= i < |es| && es[i].studentId == studentId && es[i].courseCode == code {
        var i :| 0 <= i < |es| && es[i].studentId == studentId && es[i].courseCode == code;
        if i < |es| - 1 {
          assert init[i] == es[i];
        }
      }
    }
  }

  /** A new enrollment adds its code to its own student's codes and to no one else's. */
  lemma CodesOfAppend(es: seq<Enrollment>, e: Enrollment, studentId: string)
    ensures CodesOf(es + [e], studentId) == CodesOf(es, studentId) + (if e.studentId == studentId then [e.courseCode] else [])
  {
    assert (es + [e])[..|es|] == es;
  }

  /** A student with no enrollment has no codes. */
  lemma {:induction false} CodesOfAbsent(es: seq<Enrollment>, studentId: string)
    requires forall i :: 0 <= i < |es| ==> es[i].studentId != studentId
    ensures CodesOf(es, studentId) == []
  {
    if es != [] {
      CodesOfAbsent(es[..|es| - 1], studentId);
    }
  }

  /** A student's codes are duplicate-free when the ledger's pairs are unique. */
  lemma {:induction false} CodesOfNoDuplicates(es: seq<Enrollment>, studentId: string)
    requires UniquePairs(es)
    ensures NoDuplicates(CodesOf(es, studentId))
  {
    if es != [] {
      var init, e := es[..|es| - 1], es[|es| - 1];
      assert UniquePairs(init) by {
        forall i, j | 0 <= i < j < |init| ensures !Matches(init[i], init[j].studentId, init[j].courseCode) {
          assert init[i] == es[i] && init[j] == es[j];
        }
      }
      CodesOfNoDuplicates(init, studentId);
      forall i | 0 <= i < |init| ensures !(init[i].studentId == e.studentId && init[i].courseCode == e.courseCode) {
        EqualsIgnoreCaseReflexive(e.courseCode);
        assert init[i] == es[i];
      }
      var prev := CodesOf(init, studentId);
      CodesOfMembership(init, studentId, e.courseCode);
      if e.studentId == studentId {
        var r := prev + [e.courseCode];
        assert e.courseCode !in prev;
        forall i, j | 0 <= i < j < |r| ensures r[i] != r[j] {
          if j == |prev| {
            assert r[i] in prev;
          }
        }
      }
    }
  }
}
