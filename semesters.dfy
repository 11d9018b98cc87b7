/** The Semester enum and the lenient parse addCourse applies to the typed
    semester text: upper-case it, look it up with Semester.valueOf, and fall
    back to FALL when the lookup fails. */
module Semesters {
  import opened Text

  datatype Semester = SPRING | SUMMER | FALL

  /** The enum constant's name, the only text Semester.valueOf accepts. */
  function Name(s: Semester): string
  {
    match s
    case SPRING => "SPRING"
    case SUMMER => "SUMMER"
    case FALL => "FALL"
  }

  function ParseSemester(text: string): Semester
  {
    var upper := ToUpper(text);
    if upper == Name(SPRING) then SPRING
    else if upper == Name(SUMMER) then SUMMER
    else if upper == Name(FALL) then FALL
    else FALL
  }

  /** Semester.valueOf accepts the upper-cased text; when it does not, addCourse
      prints its fallback notice. */
  predicate NamesSemester(text: string)
  {
    var upper := ToUpper(text);
    upper == Name(SPRING) || upper == Name(SUMMER) || upper == Name(FALL)
  }

  /** The lookup succeeds exactly when the text names a semester ignoring case. */
  lemma NamesSemesterSpec(text: string)
    ensures NamesSemester(text) <==> exists t: Semester :: EqualsIgnoreCase(text, Name(t))
  {
    forall t: Semester ensures EqualsIgnoreCase(text, Name(t)) <==> ToUpper(text) == Name(t) {
      EqualsIgnoreCaseIsUpperEquality(text, Name(t));
      NameIsUpper(t);
    }
  }

  lemma NameIsUpper(s: Semester)
    ensures ToUpper(Name(s)) == Name(s)
  {
    var n := Name(s);
    assert forall i :: 0 <= i < |n| ==> !IsLower(n[i]);
  }

  /** Parsing yields s exactly when the text names s ignoring case, or when s is
      FALL and the text names no semester at all. */
  lemma ParseSemesterSpec(text: string, s: Semester)
    ensures ParseSemester(text) == s <==>
              EqualsIgnoreCase(text, Name(s))
              || (s == FALL && forall t: Semester :: !EqualsIgnoreCase(text, Name(t)))
  {
    forall t: Semester ensures EqualsIgnoreCase(text, Name(t)) <==> ToUpper(text) == Name(t) {
      EqualsIgnoreCaseIsUpperEquality(text, Name(t));
      NameIsUpper(t);
    }
  }

  /** Every semester name parses back to its semester, in any letter case. */
  lemma ParseName(text: string, s: Semester)
    requires EqualsIgnoreCase(text, Name(s))
    ensures ParseSemester(text) == s
  {
    ParseSemesterSpec(text, s);
  }
}
