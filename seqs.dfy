/** The list operations the record manager performs through Java streams:
    filter(...).toList(), filter(...).findFirst(), and duplicate-free lists. */
module Seqs {

  predicate NoDuplicates<T(==)>(s: seq<T>)
  {
    forall i, j :: 0 <= i < j < |s| ==> s[i] != s[j]
  }

  /** r keeps some of the elements of s, in their original order. */
  predicate Subsequence<T(==)>(r: seq<T>, s: seq<T>)
  {
    if r == [] then true
    else if s == [] then false
    else if r[0] == s[0] then Subsequence(r[1..], s[1..])
    else Subsequence(r, s[1..])
  }

  /** stream().filter(p).toList(): the elements satisfying p, in encounter order. */
  function Filter<T(==)>(s: seq<T>, p: T -> bool): (r: seq<T>)
    ensures forall i :: 0 <= i < |r| ==> r[i] in s && p(r[i])
    ensures forall i :: 0 <= i < |s| && p(s[i]) ==> s[i] in r
    ensures Subsequence(r, s)
    ensures |r| <= |s|
  {
    if s == [] then []
    else if p(s[0]) then [s[0]] + Filter(s[1..], p)
    else Filter(s[1..], p)
  }

  /** Filter keeps each wanted element as many times as the input holds it,
      and never more of anything. */
  lemma {:induction false} FilterCounts<T>(s: seq<T>, p: T -> bool)
    ensures multiset(Filter(s, p)) <= multiset(s)
    ensures forall i :: 0 <= i < |s| && p(s[i]) ==> multiset(Filter(s, p))[s[i]] == multiset(s)[s[i]]
  {
    if s != [] {
      var rest := Filter(s[1..], p);
      assert Filter(s, p) == if p(s[0]) then [s[0]] + rest else rest;
      FilterCounts(s[1..], p);
      FilterCountsStep(s, p, rest, Filter(s, p));
    }
  }

  /** The step of FilterCounts: keeping or dropping the head keeps the counts
      of every wanted element equal to the input's. */
  lemma FilterCountsStep<T>(s: seq<T>, p: T -> bool, rest: seq<T>, r: seq<T>)
    requires s != [] && r == if p(s[0]) then [s[0]] + rest else rest
    requires multiset(rest) <= multiset(s[1..])
    requires forall i :: 0 <= i < |s[1..]| && p(s[1..][i]) ==> multiset(rest)[s[1..][i]] == multiset(s[1..])[s[1..][i]]
    ensures multiset(r) <= multiset(s)
    ensures forall i :: 0 <= i < |s| && p(s[i]) ==> multiset(r)[s[i]] == multiset(s)[s[i]]
  {
    var x, tail := s[0], s[1..];
    assert s == [x] + tail;
    assert multiset(s) == multiset{x} + multiset(tail);
    if p(x) {
      assert multiset([x] + rest) == multiset{x} + multiset(rest);
      if x !in tail {
        assert multiset(rest)[x] == 0;
      }
    }
    forall i | 1 <= i < |s| ensures s[i] == tail[i - 1] {
    }
  }

  lemma {:induction false} FilterAppend<T>(s: seq<T>, x: T, p: T -> bool)
    ensures Filter(s + [x], p) == Filter(s, p) + (if p(x) then [x] else [])
  {
    if s == [] {
      assert s + [x] == [x];
    } else {
      assert (s + [x])[1..] == s[1..] + [x];
      FilterAppend(s[1..], x, p);
    }
  }

  /** stream().filter(p).findFirst(), as an index: -1 when nothing matches. */
  function FirstIndex<T>(s: seq<T>, p: T -> bool): (k: int)
    ensures -1 <= k < |s|
    ensures k == -1 <==> forall i :: 0 <= i < |s| ==> !p(s[i])
    ensures k >= 0 ==> p(s[k]) && forall i :: 0 <= i < k ==> !p(s[i])
  {
    if s == [] then -1
    else if p(s[0]) then 0
    else var k := FirstIndex(s[1..], p); if k == -1 then -1 else k + 1
  }
}
