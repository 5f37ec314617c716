# Exam seat allocation — a Dafny model

This project models the seat allocation logic of the principal's "Seating
Management" screen (`src/components/principalcomponents/SeatingManagement.js`).
Each classroom has a 5 × 5 grid of seats, stored as a flat list of 25 seats.
A staff member picks a classroom, then a seat, then a student from a searchable
list. The placement is then checked against two rules:

- **same class:** no occupied seat in the chosen row or column may hold a student
  of the candidate's class section;
- **same house:** none of the up to eight neighbouring cells (the Moore
  neighbourhood) may hold a student of the candidate's house.

If the placement passes, the student is written into seat `row * 5 + col` of that
classroom's grid. The grid is built first if the classroom has none.

Modules, leaf first:

- `SeatingTypes` (types.dfy): students, seats, `Option`, and `Any`. `Any` models
  JavaScript's `Array.prototype.some`, which both rules are built from.
- `Grid` (grid.dfy): the index encoding, the freshly built grid, and the write of
  one seat, all as values.
- `PlacementRules` (rules.dfy): `isValidPlacement` and its two rules. Each rule is
  proved equal to a statement over the whole seat list. The invariant the rules
  protect (`ClashFree`) is proved preserved by every accepted placement.
- `Allocation` (allocation.dfy): `handleStudentSelect`. Each classroom holds its
  grid as an `array<Seat>`, and the selected classroom's array is written in
  place. The classroom list is rebuilt with only the selected classroom replaced.
- `CandidateFilter` (candidates.dfy): the list of unassigned students whose
  lower-cased name contains the lower-cased query.
- `Scenarios` (scenarios.dfy): concrete placements. They use the two students of
  the source's roster and two more of the same shape.

The code has no occupancy check, no bounds check, no lock and no persistence
call. It never updates a student's `assigned` flag, and its candidate list does
not test placement validity. (1,3) touches (2,2) diagonally, so with a Blue
student at (2,2) the code rejects a Blue student at (1,3)
(`Scenarios.AdjacentSameHouseRejected`).

## Model

| member | source | states |
|---|---|---|
| `SeatingTypes.Any` | src/components/principalcomponents/SeatingManagement.js:27-31 | the `some` scan used at lines 27, 40 and 46; characterised by `AnyIff` |
| `SeatingTypes.AnyIff` | src/components/principalcomponents/SeatingManagement.js:27-31 | the left-to-right `some` scan is true exactly when some element satisfies the callback |
| `Grid.Index` | src/components/principalcomponents/SeatingManagement.js:78 | for row and col in [0,5), `row*5+col` is a position in [0,25) from which `/5` and `%5` recover row and col |
| `Grid.PositionRoundTrip` | src/components/principalcomponents/SeatingManagement.js:119-121 | every position i in [0,25) is the index of cell (i/5, i%5), which lies in the grid |
| `Grid.FreshGrid` | src/components/principalcomponents/SeatingManagement.js:72-76 | the built grid has 25 seats, seat i is at (i/5, i%5), and every seat is empty |
| `Grid.Place` | src/components/principalcomponents/SeatingManagement.js:78-81 | the seat at `row*5+col` keeps its row and column and holds the student, whatever it held before; the other 24 seats are unchanged |
| `Grid.PlaceReadBack` | src/components/principalcomponents/SeatingManagement.js:78-81 | on a well-formed grid, cell (row,col) then holds the student, every other cell keeps its occupant, and the grid stays well formed |
| `PlacementRules.SameClassInRowCol` | src/components/principalcomponents/SeatingManagement.js:27-31 | `sameClassInRowCol`; characterised by `SameClassInRowColIff` |
| `PlacementRules.SameClassInRowColIff` | src/components/principalcomponents/SeatingManagement.js:27-31 | the same-class rule fires iff some occupied seat (the target seat included) holds the candidate's class and shares its row or its column |
| `PlacementRules.OffsetsAreMooreNeighbourhood` | src/components/principalcomponents/SeatingManagement.js:34-38 | the offset list is exactly the cells one step away in each direction, without (0,0) |
| `PlacementRules.SameHouseAdjacent` | src/components/principalcomponents/SeatingManagement.js:40-51 | `sameHouseAdjacent`; characterised by `SameHouseAdjacentIff` |
| `PlacementRules.SameHouseAdjacentIff` | src/components/principalcomponents/SeatingManagement.js:40-51 | the same-house rule fires iff some in-grid Moore neighbour holds a student of the candidate's house; cells outside [0,5)² never fire it |
| `PlacementRules.IsValidPlacement` | src/components/principalcomponents/SeatingManagement.js:25-54 | the validator; an absent seat list passes, otherwise both rules must not fire; characterised by `ValidPlacementIff` |
| `PlacementRules.ValidPlacementIff` | src/components/principalcomponents/SeatingManagement.js:25-54 | the validator is exactly "no same-class seat in the row or column" and "no same-house neighbour" |
| `PlacementRules.EmptyGridAcceptsAll` | src/components/principalcomponents/SeatingManagement.js:25-54 | a classroom with no seat list, or with no occupied seat, accepts every placement; an absent seat list behaves as a fresh grid |
| `PlacementRules.PlacementKeepsNoClassClash` | src/components/principalcomponents/SeatingManagement.js:27-31 | when no seat is in a same-class conflict with the candidate at the target, writing it there adds no row/column class clash |
| `PlacementRules.PlacementKeepsNoHouseClash` | src/components/principalcomponents/SeatingManagement.js:40-51 | when no seat is in a same-house conflict with the candidate at the target, writing it there adds no adjacency house clash |
| `PlacementRules.PlacementPreservesClashFreedom` | src/components/principalcomponents/SeatingManagement.js:25-81 | a placement validated on the grid it is written into keeps that grid well formed and free of same-class row/column clashes and same-house adjacency clashes |
| `Allocation.Find` | src/components/principalcomponents/SeatingManagement.js:71 | the position found holds the selected id and no earlier classroom does; no position is found only when no classroom has that id |
| `Allocation.FindIgnoresSeats` | src/components/principalcomponents/SeatingManagement.js:70-86 | replacing a classroom by one with the same id does not change which classroom an id selects |
| `Allocation.PlaceStudent` | src/components/principalcomponents/SeatingManagement.js:78-81 | the in-place array write leaves the array equal to `Place` of its old contents |
| `Allocation.UpdateClassroom` | src/components/principalcomponents/SeatingManagement.js:71-83 | the selected classroom keeps its id and name; an existing grid is written in place, a missing one is built fresh; either way it ends as `Place` of the old or fresh grid |
| `Allocation.HandleStudentSelect` | src/components/principalcomponents/SeatingManagement.js:62-90 | nothing happens without a seat and a classroom; a rejected placement leaves list and grids unchanged; otherwise only the selected classroom is replaced, its grid is `Place` of the old or fresh grid, and a clash-free grid stays clash free |
| `Allocation.PlaceAgainstSnapshot` | src/components/principalcomponents/SeatingManagement.js:65-81 | as written: the placement is accepted exactly when the rules pass on the captured classroom's seats, not on the grid being written; when accepted, the live grid (built fresh if missing) takes the student at (row, col) |
| `Allocation.AbsentSnapshotAcceptsAll` | src/components/principalcomponents/SeatingManagement.js:65-81 | while the captured classroom has no seats, every in-grid placement is accepted into the live grid whatever it holds; if a live seat other than the target conflicts with the student by class or house, the result is not clash free |
| `Allocation.StaleSnapshotAdmitsClash` | src/components/principalcomponents/SeatingManagement.js:65 | with the source's roster, the stale snapshot lets two 5A students share row 0, which the live grid would refuse |
| `CandidateFilter.Lower` | src/components/principalcomponents/SeatingManagement.js:172 | lower-casing keeps the length, leaves no capital letter, maps each capital to its small letter, and keeps every other character |
| `CandidateFilter.LowerIdempotent` | src/components/principalcomponents/SeatingManagement.js:172 | lower-casing twice is lower-casing once |
| `CandidateFilter.Includes` | src/components/principalcomponents/SeatingManagement.js:172 | `String.prototype.includes`; characterised by `IncludesIff` |
| `CandidateFilter.IncludesIff` | src/components/principalcomponents/SeatingManagement.js:172 | `includes` holds exactly when the query occurs in the name at some offset |
| `CandidateFilter.Matches` | src/components/principalcomponents/SeatingManagement.js:171-172 | the filter test: unassigned and the lower-cased name includes the lower-cased query; `Candidates` and `CandidatesComplete` show the list holds exactly the students passing it |
| `CandidateFilter.Candidates` | src/components/principalcomponents/SeatingManagement.js:169-173 | every listed student is in the roster, is unassigned, and has a name containing the query, ignoring case |
| `CandidateFilter.CandidatesComplete` | src/components/principalcomponents/SeatingManagement.js:169-173 | every roster student who is unassigned and whose name contains the query is listed |
| `CandidateFilter.CandidatesAppend` | src/components/principalcomponents/SeatingManagement.js:169-173 | filtering two parts of a roster and joining the results is filtering the whole roster, so roster order is kept |
| `CandidateFilter.EmptyQueryKeepsUnassigned` | src/components/principalcomponents/SeatingManagement.js:169-173 | with an empty query the list is exactly the unassigned students; a roster of unassigned students is listed whole, in order |
| `Scenarios.SameRowSameClassRejected` | src/components/principalcomponents/SeatingManagement.js:27-31 | John (5A) fits an empty room at (0,0); Jane (5A) is then refused at (0,3) |
| `Scenarios.AdjacentSameHouseRejected` | src/components/principalcomponents/SeatingManagement.js:34-51 | next to a Blue student at (2,2), a Blue student is refused at (1,1) and at the diagonal (1,3), and accepted at (0,4) |
| `Scenarios.OccupiedSeatOverwritten` | src/components/principalcomponents/SeatingManagement.js:78-81 | a student of another class and house is accepted on an occupied seat, and the previous occupant is no longer seated |
| `Scenarios.SameStudentSeatedTwice` | src/components/principalcomponents/SeatingManagement.js:62-90 | a student already seated at (0,0) is accepted again at (2,2) and then sits in two seats |

## Left out

- Rendering, `useState`/`setState`, `alert` and the click handlers are UI only.
  Selections are parameters of `HandleStudentSelect`, and the alert is the
  `Rejected` outcome.
- `Allocation.HandleStudentSelect` validates against the grid it writes into,
  which is the behaviour the code evidently intends. The captured-classroom
  behaviour of line 65 is modelled separately (see Findings). React's object
  identity is not modelled beyond that.
- `Allocation.HandleStudentSelect` requires distinct classroom ids. The list at
  lines 5-12 has them, and nothing in the file adds or renames a classroom.
- `Allocation.HandleStudentSelect` and `Grid.Place` require row and column in
  [0,5). The source has no bounds check; its seat clicks only produce such values
  (lines 119-121).
- `CandidateFilter.Lower` lower-cases ASCII capitals only. Unicode case mapping
  is not modelled.
- The `assigned` flag is never updated, because the source never updates it
  (`students` has no setter, line 19).
- No occupancy check, locking, stale-commit rejection or persistence rollback is
  modelled. None of them exist in the source.
- Grid sizes other than 5 × 5 are not modelled: the source hard-codes 5.
- `ScoreManagement.js` is not part of this model: a 0-100 guard in front of an
  HTTP request.
- `StudentDashboard.js` is not part of this model: its list update depends on a
  server reply.
- `PrincipalDashboard.js` and `App.js` are not part of this model: they hold
  display data and routing only.

## Findings

| source | as written | input that shows it | evidently intended | confidence | as-written member | corrected member |
|---|---|---|---|---|---|---|
| src/components/principalcomponents/SeatingManagement.js:65 | the rules run against the classroom object captured when its button was clicked (line 106). `setClassrooms` (line 88) does not refresh that object, so while it had no seats every placement passes | a classroom with no grid: place John (5A) at (0,0), then Jane (5A) at (0,3) without clicking the classroom again; both are accepted and share row 0 | validate against the grid being written | not executed; high | `Allocation.PlaceAgainstSnapshot`, `Allocation.AbsentSnapshotAcceptsAll`, `Allocation.StaleSnapshotAdmitsClash` | `Allocation.HandleStudentSelect`, `PlacementRules.PlacementPreservesClashFreedom` |
