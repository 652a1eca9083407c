/** Pixel geometry shared by the map loader, the waypoint map and the path maker:
    coordinate pairs, axis-aligned areas with their integer middle, and the
    exact edge-coincidence test that attaches a door to a room. */
module Geometry {

  /** A coordinate pair as the source keeps it: (x, y) on the map, (row, col) inside the pixel search. */
  type Pos = (int, int)

  /** Python's `int(n / 2)`: halve, then truncate toward zero. */
  function TruncHalf(n: int): (r: int)
    ensures n >= 0 ==> 0 <= n - 2 * r <= 1
    ensures n < 0 ==> 0 <= 2 * r - n <= 1
  {
    if n >= 0 then n / 2 else -((-n) / 2)
  }

  /** Python's ordering of pairs: `a > b` compares the first components, then the second. */
  predicate TupleGreater(a: Pos, b: Pos) {
    a.0 > b.0 || (a.0 == b.0 && a.1 > b.1)
  }

  /** An axis-aligned rectangle given by its upper-left and lower-right corners.
      The source's `connections` field is always the empty list and is not kept. */
  datatype Area = Area(upperLeft: Pos, lowerRight: Pos)

  function Min(a: int, b: int): int { if a <= b then a else b }
  function Max(a: int, b: int): int { if a <= b then b else a }

  /** The middle of an area: the componentwise half-sum of the corners, truncated toward zero.
      It lies between the two corners on each axis, whichever order they are in. */
  function Middle(a: Area): (m: Pos)
    ensures Min(a.upperLeft.0, a.lowerRight.0) <= m.0 <= Max(a.upperLeft.0, a.lowerRight.0)
    ensures Min(a.upperLeft.1, a.lowerRight.1) <= m.1 <= Max(a.upperLeft.1, a.lowerRight.1)
  {
    (TruncHalf(a.lowerRight.0 + a.upperLeft.0), TruncHalf(a.lowerRight.1 + a.upperLeft.1))
  }

  /** `p` lies strictly inside `a` on both axes (boundary excluded). */
  predicate StrictlyInside(p: Pos, a: Area) {
    a.upperLeft.0 < p.0 < a.lowerRight.0 && a.upperLeft.1 < p.1 < a.lowerRight.1
  }

  /** The door's vertical span overlaps the room's (used on the left and right edges). */
  predicate OverlapsVertically(room: Area, door: Area) {
    door.lowerRight.1 > room.upperLeft.1 && door.upperLeft.1 < room.lowerRight.1
  }

  /** The overlap test the source writes on the top and bottom edges, with a lexicographic
      comparison of the two corner pairs. */
  predicate OverlapsLexicographically(room: Area, door: Area) {
    TupleGreater(door.lowerRight, room.upperLeft) && door.upperLeft.0 < room.lowerRight.0
  }

  /** The door's horizontal span overlaps the room's. */
  predicate OverlapsHorizontally(room: Area, door: Area) {
    door.lowerRight.0 > room.upperLeft.0 && door.upperLeft.0 < room.lowerRight.0
  }

  /** Whether the loader attaches `door` to `room`: the four edge equalities are tried in order
      (room left = door right, room top = door bottom, room right = door left, room bottom = door top);
      the first one that holds decides, by its overlap test alone. */
  predicate Attaches(room: Area, door: Area)
    ensures Attaches(room, door) ==>
      (room.upperLeft.0 == door.lowerRight.0 && OverlapsVertically(room, door)) ||
      (room.upperLeft.1 == door.lowerRight.1 && OverlapsLexicographically(room, door)) ||
      (room.lowerRight.0 == door.upperLeft.0 && OverlapsVertically(room, door)) ||
      (room.lowerRight.1 == door.upperLeft.1 && OverlapsLexicographically(room, door))
  {
    if room.upperLeft.0 == door.lowerRight.0 then OverlapsVertically(room, door)
    else if room.upperLeft.1 == door.lowerRight.1 then OverlapsLexicographically(room, door)
    else if room.lowerRight.0 == door.upperLeft.0 then OverlapsVertically(room, door)
    else if room.lowerRight.1 == door.upperLeft.1 then OverlapsLexicographically(room, door)
    else false
  }

  /** Reference definition of flush adjacency: the door's edge coincides with one of the room's
      edges and the door's span along that edge overlaps the room's span, with each edge
      considered only when the earlier ones do not coincide. */
  predicate AttachesByEdge(room: Area, door: Area) {
    var left := room.upperLeft.0 == door.lowerRight.0;
    var top := room.upperLeft.1 == door.lowerRight.1;
    var right := room.lowerRight.0 == door.upperLeft.0;
    var bottom := room.lowerRight.1 == door.upperLeft.1;
    (left && OverlapsVertically(room, door)) ||
    (!left && top && OverlapsHorizontally(room, door)) ||
    (!left && !top && right && OverlapsVertically(room, door)) ||
    (!left && !top && !right && bottom && OverlapsHorizontally(room, door))
  }

  /** The lexicographic comparison on the top and bottom edges behaves as a plain horizontal
      overlap test: on the top edge the second components are equal, and on the bottom edge
      equal first components were already caught by the left-edge test. */
  lemma LexicographicTestIsHorizontalOverlap(room: Area, door: Area)
    ensures Attaches(room, door) <==> AttachesByEdge(room, door)
  {
    if room.upperLeft.0 != door.lowerRight.0 {
      assert TupleGreater(door.lowerRight, room.upperLeft) <==> door.lowerRight.0 > room.upperLeft.0;
    }
  }

  /** When the left edges coincide but the spans do not overlap, no later edge is tried. */
  lemma FirstCoincidingEdgeDecides(room: Area, door: Area)
    requires room.upperLeft.0 == door.lowerRight.0 && !OverlapsVertically(room, door)
    ensures !Attaches(room, door)
  {
  }

  /** A rectangle whose corners are in order on both axes (a room is strictly wider and taller). */
  predicate Ordered(a: Area) {
    a.upperLeft.0 <= a.lowerRight.0 && a.upperLeft.1 <= a.lowerRight.1
  }

  /** Flush adjacency on any of the four edges, with no order among them. */
  predicate FlushAdjacent(room: Area, door: Area) {
    (room.upperLeft.0 == door.lowerRight.0 && OverlapsVertically(room, door)) ||
    (room.upperLeft.1 == door.lowerRight.1 && OverlapsHorizontally(room, door)) ||
    (room.lowerRight.0 == door.upperLeft.0 && OverlapsVertically(room, door)) ||
    (room.lowerRight.1 == door.upperLeft.1 && OverlapsHorizontally(room, door))
  }

  /** For a room with positive width and height and a door with ordered corners, the order in
      which the edges are tried never matters: an edge that coincides but fails its overlap test
      excludes every later edge's test anyway. */
  lemma EdgeOrderIrrelevant(room: Area, door: Area)
    requires room.upperLeft.0 < room.lowerRight.0 && room.upperLeft.1 < room.lowerRight.1
    requires Ordered(door)
    ensures Attaches(room, door) <==> FlushAdjacent(room, door)
  {
    LexicographicTestIsHorizontalOverlap(room, door);
  }
}
