/** Course catalog queries: the case-insensitive code check of addCourse and
    the instructor and department searches over active courses. */
module Catalog {
  import opened Text
  import opened Seqs
  import opened Records

  /** Some course already has this code, ignoring case (addCourse's anyMatch). */
  predicate CodeTaken(cs: seq<Course>, code: string)
  {
    exists i :: 0 <= i < |cs| && EqualsIgnoreCase(cs[i].code, code)
  }

  /** No two courses have codes equal ignoring case. */
  predicate UniqueCodes(cs: seq<Course>)
  {
    forall i, j :: 0 <= i < j < |cs| ==> !EqualsIgnoreCase(cs[i].code, cs[j].code)
  }

  /** Appending a course whose code is not taken keeps the codes unique. */
  lemma {:induction false} AppendKeepsUniqueCodes(cs: seq<Course>, c: Course)
    requires UniqueCodes(cs) && !CodeTaken(cs, c.code)
    ensures UniqueCodes(cs + [c])
  {
    var cs' := cs + [c];
    forall i, j | 0 <= i < j < |cs'| ensures !EqualsIgnoreCase(cs'[i].code, cs'[j].code) {
      if j == |cs| {
        assert cs'[i] == cs[i];
      }
    }
  }

  /** The text field a search compares against. */
  datatype Field = Instructor | Department

  function FieldOf(c: Course, f: Field): string
  {
    match f
    case Instructor => c.instructor
    case Department => c.department
  }

  /** The courses a search keeps: active and with the field equal to the query ignoring case. */
  predicate Selected(c: Course, f: Field, query: string)
    reads c
  {
    EqualsIgnoreCase(FieldOf(c, f), query) && c.active
  }

  /** stream().filter(field equalsIgnoreCase query && active).toList().
      Seqs.Filter cannot serve here: its predicate is a plain function value,
      which may not read the `active` field of a course on the heap. */
  function ActiveMatching(cs: seq<Course>, f: Field, query: string): (r: seq<Course>)
    reads cs
    ensures forall i :: 0 <= i < |r| ==> r[i] in cs && Selected(r[i], f, query)
    ensures forall i :: 0 <= i < |cs| && Selected(cs[i], f, query) ==> cs[i] in r
    ensures multiset(r) <= multiset(cs)
    ensures forall i :: 0 <= i < |cs| && Selected(cs[i], f, query) ==> multiset(r)[cs[i]] == multiset(cs)[cs[i]]
    ensures Subsequence(r, cs)
  {
    assert cs != [] ==> cs == [cs[0]] + cs[1..];
    if cs == [] then []
    else if Selected(cs[0], f, query) then [cs[0]] + ActiveMatching(cs[1..], f, query)
    else ActiveMatching(cs[1..], f, query)
  }
}
