/** The entities of the seat allocation screen (SeatingManagement.js) and the list
    scan that its rules are built from. */
module SeatingTypes {

  datatype Option<T> = None | Some(value: T)

  /** A roster entry (SeatingManagement.js lines 19-23). `cls` is the class section
      ("5A"; `class` in the source), `house` the cross-class grouping used by the
      adjacency rule, `isAssigned` the source's `assigned` flag. */
  datatype Student = Student(id: int, name: string, cls: string, house: string, isAssigned: bool)

  /** One cell of a classroom grid: its coordinates and its occupant, if any
      (lines 72-81). */
  datatype Seat = Seat(row: int, column: int, student: Option<Student>)

  predicate Occupied(s: Seat) {
    s.student.Some?
  }

  /** JavaScript's `Array.prototype.some`: scans `xs` from the left and stops at the
      first element that satisfies `p`. */
  function Any<T>(xs: seq<T>, p: T -> bool): bool {
    if xs == [] then false else p(xs[0]) || Any(xs[1..], p)
  }

  /** The scan finds a match exactly when some element satisfies `p`. */
  lemma {:induction false} AnyIff<T>(xs: seq<T>, p: T -> bool)
    ensures Any(xs, p) <==> exists i :: 0 <= i < |xs| && p(xs[i])
  {
    if xs != [] {
      AnyIff(xs[1..], p);
      if exists i :: 0 <= i < |xs| && p(xs[i]) {
        var i :| 0 <= i < |xs| && p(xs[i]);
        if i > 0 {
          assert p(xs[1..][i - 1]);
        }
      }
      if Any(xs[1..], p) {
        var i :| 0 <= i < |xs| - 1 && p(xs[1..][i]);
        assert p(xs[i + 1]);
      }
    }
  }
}
