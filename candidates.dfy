/** The student list shown beside the grid (SeatingManagement.js lines 169-173):
    unassigned students whose lower-cased name contains the lower-cased query. */
module CandidateFilter {
  import opened SeatingTypes

  predicate IsUpper(c: char) {
    'A' <= c <= 'Z'
  }

  function LowerChar(c: char): char {
    if IsUpper(c) then (c as int + 32) as char else c
  }

  /** `toLowerCase`, restricted to ASCII: each capital letter becomes its small
      letter and every other character is kept. */
  function Lower(s: string): (r: string)
    ensures |r| == |s|
    ensures forall i :: 0 <= i < |s| ==> !IsUpper(r[i])
    ensures forall i :: 0 <= i < |s| && !IsUpper(s[i]) ==> r[i] == s[i]
    ensures forall i :: 0 <= i < |s| && IsUpper(s[i]) ==> r[i] as int == s[i] as int + 32
  {
    if s == [] then [] else [LowerChar(s[0])] + Lower(s[1..])
  }

  /** Lower-casing twice is lower-casing once. */
  lemma LowerIdempotent(s: string)
    ensures Lower(Lower(s)) == Lower(s)
  {
  }

  /** `String.prototype.includes`: tries every starting offset of `s` in turn. */
  function Includes(s: string, t: string): bool {
    t <= s || (s != [] && Includes(s[1..], t))
  }

  /** `t` occurs in `s` starting at offset `i`. */
  predicate OccursAt(s: string, t: string, i: int) {
    0 <= i <= |s| - |t| && s[i..i + |t|] == t
  }

  /** `t` is included in `s` exactly when it occurs in `s` at some offset; in
      particular the empty string is included in every string. */
  lemma {:induction false} IncludesIff(s: string, t: string)
    ensures Includes(s, t) <==> exists i :: OccursAt(s, t, i)
  {
    if t <= s {
      assert OccursAt(s, t, 0);
    } else if s == [] {
    } else {
      IncludesIff(s[1..], t);
      if Includes(s[1..], t) {
        var i :| OccursAt(s[1..], t, i);
        assert OccursAt(s, t, i + 1);
      }
      if exists i :: OccursAt(s, t, i) {
        var i :| OccursAt(s, t, i);
        assert i != 0;
        assert OccursAt(s[1..], t, i - 1);
      }
    }
  }

  /** The filter test of lines 171-172. */
  predicate Matches(st: Student, query: string) {
    !st.isAssigned && Includes(Lower(st.name), Lower(query))
  }

  /** `students.filter(...)` at lines 169-173. Every student it lists is in the
      roster and passes the test. */
  function Candidates(roster: seq<Student>, query: string): (r: seq<Student>)
    ensures |r| <= |roster|
    ensures forall x :: x in r ==> x in roster && Matches(x, query)
  {
    if roster == [] then []
    else (if Matches(roster[0], query) then [roster[0]] else []) + Candidates(roster[1..], query)
  }

  /** Every roster student who passes the test is listed. */
  lemma {:induction false} CandidatesComplete(roster: seq<Student>, query: string, x: Student)
    requires x in roster && Matches(x, query)
    ensures x in Candidates(roster, query)
  {
    if roster[0] != x {
      CandidatesComplete(roster[1..], query, x);
    }
  }

  /** Filtering a roster in two parts and joining the results is filtering the whole
      roster: the list keeps the roster's order. */
  lemma {:induction false} CandidatesAppend(a: seq<Student>, b: seq<Student>, query: string)
    ensures Candidates(a + b, query) == Candidates(a, query) + Candidates(b, query)
  {
    if a != [] {
      assert (a + b)[1..] == a[1..] + b;
      CandidatesAppend(a[1..], b, query);
    } else {
      assert a + b == b;
    }
  }

  /** With an empty query the list is exactly the unassigned students, and a roster
      of unassigned students is listed whole and in order. */
  lemma {:induction false} EmptyQueryKeepsUnassigned(roster: seq<Student>)
    ensures forall x :: x in Candidates(roster, "") <==> x in roster && !x.isAssigned
    ensures (forall i :: 0 <= i < |roster| ==> !roster[i].isAssigned) ==>
              Candidates(roster, "") == roster
  {
    forall x | x in roster && !x.isAssigned
      ensures x in Candidates(roster, "")
    {
      assert Lower("") == "";
      assert Matches(x, "");
      CandidatesComplete(roster, "", x);
    }
    if roster != [] {
      EmptyQueryKeepsUnassigned(roster[1..]);
      assert Lower("") == "";
      if !roster[0].isAssigned {
        assert Matches(roster[0], "");
      }
    }
  }
}
