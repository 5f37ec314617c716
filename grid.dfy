/** The 5 x 5 seat grid of a classroom, stored as a flat list of 25 seats. */
module Grid {
  import opened SeatingTypes

  /** Rows and columns of every classroom; the source hard-codes 5 (lines 44, 72-74,
      78, 119-121). */
  const Size: int := 5
  const SeatCount: int := Size * Size

  predicate InBounds(row: int, col: int) {
    0 <= row < Size && 0 <= col < Size
  }

  function RowOf(i: int): int { i / Size }

  function ColOf(i: int): int { i % Size }

  /** The list position of seat (row, col), written `row * 5 + col` at line 78. */
  function Index(row: int, col: int): (i: int)
    requires InBounds(row, col)
    ensures 0 <= i < SeatCount
    ensures RowOf(i) == row && ColOf(i) == col
  {
    row * Size + col
  }

  /** Every list position is the index of exactly the cell the renderer draws
      there (lines 119-121). */
  lemma PositionRoundTrip(i: int)
    requires 0 <= i < SeatCount
    ensures InBounds(RowOf(i), ColOf(i)) && Index(RowOf(i), ColOf(i)) == i
  {
  }

  /** Seat `i` knows its own coordinates `(i / 5, i % 5)`. */
  predicate WellFormed(g: seq<Seat>) {
    |g| == SeatCount &&
    forall i :: 0 <= i < |g| ==> g[i].row == RowOf(i) && g[i].column == ColOf(i)
  }

  /** The occupant of cell (row, col) of a well-formed grid. */
  function OccupantAt(g: seq<Seat>, row: int, col: int): Option<Student>
    requires WellFormed(g) && InBounds(row, col)
  {
    g[Index(row, col)].student
  }

  function FreshSeat(i: int): Seat {
    Seat(RowOf(i), ColOf(i), None)
  }

  /** The grid built when a classroom has none yet (lines 72-76): 25 empty seats
      laid out row by row. */
  function FreshGrid(): (g: seq<Seat>)
    ensures WellFormed(g)
    ensures forall i :: 0 <= i < |g| ==> !Occupied(g[i])
  {
    seq(SeatCount, FreshSeat)
  }

  /** The write at lines 78-81: the seat at `row * 5 + col` keeps its coordinates and
      takes `st` as occupant, whatever it held before; the other 24 seats are kept. */
  function Place(g: seq<Seat>, row: int, col: int, st: Student): (r: seq<Seat>)
    requires |g| == SeatCount && InBounds(row, col)
    ensures |r| == SeatCount
    ensures r[Index(row, col)].row == g[Index(row, col)].row
    ensures r[Index(row, col)].column == g[Index(row, col)].column
    ensures r[Index(row, col)].student == Some(st)
    ensures forall i :: 0 <= i < SeatCount && i != Index(row, col) ==> r[i] == g[i]
  {
    g[Index(row, col) := g[Index(row, col)].(student := Some(st))]
  }

  /** Read back through coordinates: after placing `st` at (row, col) of a
      well-formed grid, the grid is still well formed, (row, col) holds `st`, and
      every other cell holds what it held before. */
  lemma PlaceReadBack(g: seq<Seat>, row: int, col: int, st: Student)
    requires WellFormed(g) && InBounds(row, col)
    ensures WellFormed(Place(g, row, col, st))
    ensures OccupantAt(Place(g, row, col, st), row, col) == Some(st)
    ensures forall r, c :: InBounds(r, c) && (r, c) != (row, col) ==>
              OccupantAt(Place(g, row, col, st), r, c) == OccupantAt(g, r, c)
  {
  }
}
