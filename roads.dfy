/**
 * The road map the program searches: eight Ethiopian cities and the
 * distances of the roads between them. A fixture only: the searches take
 * any road map, and this module shows that this one meets their shared
 * precondition.
 */
module Ethiopia {
  import opened Graph

  const Roads: RoadMap := map[
    "Addis Ababa" := [Road("Bahir Dar", 510), Road("Hawassa", 275), Road("Adama", 99)],
    "Bahir Dar" := [Road("Addis Ababa", 510), Road("Gondar", 180)],
    "Gondar" := [Road("Bahir Dar", 180), Road("Mekelle", 300), Road("Hawassa", 200)],
    "Hawassa" := [Road("Addis Ababa", 275), Road("Dilla", 90), Road("Gondar", 200)],
    "Mekelle" := [Road("Gondar", 300)],
    "Adama" := [Road("Addis Ababa", 99), Road("Dire Dawa", 400)],
    "Dilla" := [Road("Hawassa", 90)],
    "Dire Dawa" := [Road("Adama", 400)]
  ]

  /** Every neighbour in the table is a city of the table, so the three
      searches may be run on it from any of its cities. */
  lemma RoadsClosed()
    ensures Closed(Roads)
  {
  }
}
