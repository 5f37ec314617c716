/** Concrete placements on one 5 x 5 classroom, using the students of the roster at
    SeatingManagement.js lines 20-21 and two more of the same shape. */
module Scenarios {
  import opened SeatingTypes
  import opened Grid
  import opened PlacementRules

  function John(): Student { Student(1, "John Doe", "5A", "Blue", false) }
  function Jane(): Student { Student(2, "Jane Smith", "5A", "Red", false) }
  function Mia(): Student { Student(3, "Mia Park", "5B", "Blue", false) }
  function Omar(): Student { Student(4, "Omar Ali", "5B", "Red", false) }

  /** John fits an empty classroom at (0,0); Jane, of his class, is then refused
      anywhere in row 0, here at (0,3). */
  lemma SameRowSameClassRejected()
    ensures IsValidPlacement(John(), 0, 0, Some(FreshGrid()))
    ensures !IsValidPlacement(Jane(), 0, 3, Some(Place(FreshGrid(), 0, 0, John())))
  {
    EmptyGridAcceptsAll(John(), 0, 0, FreshGrid());
    var g := Place(FreshGrid(), 0, 0, John());
    ValidPlacementIff(Jane(), 0, 3, g);
    assert ClassConflict(Jane(), 0, 3, g[0]);
  }

  /** With John (Blue) at (2,2), Mia (Blue, another class) is refused at (1,1) and
      also at (1,3), which touches (2,2) diagonally; she fits at (0,4). */
  lemma AdjacentSameHouseRejected()
    ensures !IsValidPlacement(Mia(), 1, 1, Some(Place(FreshGrid(), 2, 2, John())))
    ensures !IsValidPlacement(Mia(), 1, 3, Some(Place(FreshGrid(), 2, 2, John())))
    ensures IsValidPlacement(Mia(), 0, 4, Some(Place(FreshGrid(), 2, 2, John())))
  {
    var g := Place(FreshGrid(), 2, 2, John());
    ValidPlacementIff(Mia(), 1, 1, g);
    assert HouseConflict(Mia(), 1, 1, g[12]);
    ValidPlacementIff(Mia(), 1, 3, g);
    assert HouseConflict(Mia(), 1, 3, g[12]);
    ValidPlacementIff(Mia(), 0, 4, g);
  }

  /** There is no occupancy check: with John at (0,0), Omar (other class, other
      house) is accepted at (0,0) too, and John is no longer seated. */
  lemma OccupiedSeatOverwritten()
    ensures IsValidPlacement(Omar(), 0, 0, Some(Place(FreshGrid(), 0, 0, John())))
    ensures var g := Place(Place(FreshGrid(), 0, 0, John()), 0, 0, Omar());
            OccupantAt(g, 0, 0) == Some(Omar()) &&
            forall i :: 0 <= i < |g| ==> g[i].student != Some(John())
  {
    var g := Place(FreshGrid(), 0, 0, John());
    ValidPlacementIff(Omar(), 0, 0, g);
    PlaceReadBack(FreshGrid(), 0, 0, John());
    PlaceReadBack(g, 0, 0, Omar());
  }

  /** Nothing marks a seated student as assigned, and the rules do not look for the
      student being placed: John, seated at (0,0), is accepted again at (2,2). */
  lemma SameStudentSeatedTwice()
    ensures IsValidPlacement(John(), 2, 2, Some(Place(FreshGrid(), 0, 0, John())))
    ensures var g := Place(Place(FreshGrid(), 0, 0, John()), 2, 2, John());
            g[0].student == Some(John()) && g[12].student == Some(John())
  {
    var g := Place(FreshGrid(), 0, 0, John());
    ValidPlacementIff(John(), 2, 2, g);
  }
}
