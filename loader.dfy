/** The map loader: turns detected contours into door and room areas, attaches doors to the rooms
    whose edges they lie on, and builds the waypoint graph (one waypoint per door middle, merged by
    position, linked whenever two waypoints share an area). Contour extraction from the image is
    done by an image library and enters here as given corner points. */
module Loader {
  import opened Geometry
  import opened WaypointMap

  /** A detected contour, reduced to the two corner points the loader reads from it: its first
      point (upper-left) and its third point (lower-right). A contour of fewer than three points,
      on which the loader's indexing fails, has no value of this type. */
  datatype Contour = Contour(first: Pos, third: Pos)

  /** The rows and columns of the image the contours were found in. */
  datatype Shape = Shape(rows: int, cols: int)

  /** The area made from a contour: a door keeps its corners, a room grows by one pixel on every side. */
  function CandidateArea(c: Contour, room: bool): Area {
    if room then Area((c.first.0 - 1, c.first.1 - 1), (c.third.0 + 1, c.third.1 + 1))
    else Area(c.first, c.third)
  }

  /** The room size filter on the unexpanded contour: at least 7 wide and 7 tall, and smaller than
      the image less one pixel, the width being compared with the row count and the height with
      the column count. */
  predicate KeepsRoom(c: Contour, shape: Shape) {
    var width := c.third.0 - c.first.0;
    var height := c.third.1 - c.first.1;
    !(width < 7) && !(height < 7) && width < shape.rows - 1 && height < shape.cols - 1
  }

  /** The areas detected from the contours, in contour order. */
  function Detected(contours: seq<Contour>, room: bool, shape: Shape): seq<Area> {
    if |contours| == 0 then []
    else
      var c := contours[|contours| - 1];
      Detected(contours[..|contours| - 1], room, shape) +
      (if !room || KeepsRoom(c, shape) then [CandidateArea(c, room)] else [])
  }

  /** The per-contour loop of area detection. */
  method DetectAreas(contours: seq<Contour>, room: bool, shape: Shape) returns (areas: seq<Area>)
    ensures areas == Detected(contours, room, shape)
  {
    areas := [];
    var i := 0;
    while i < |contours|
      invariant 0 <= i <= |contours|
      invariant areas == Detected(contours[..i], room, shape)
    {
      assert contours[..i + 1][..i] == contours[..i];
      var c := contours[i];
      var area := CandidateArea(c, room);
      var width := c.third.0 - c.first.0;
      var height := c.third.1 - c.first.1;
      if room {
        if !(width < 7) && !(height < 7) && width < shape.rows - 1 && height < shape.cols - 1 {
          areas := areas + [area];
        }
      } else {
        areas := areas + [area];
      }
      i := i + 1;
    }
    assert contours[..i] == contours;
  }

  /** Every door contour becomes one area, in order, with its corners unchanged. */
  lemma {:induction false} DoorsKeptUnchanged(contours: seq<Contour>, shape: Shape)
    ensures |Detected(contours, false, shape)| == |contours|
    ensures forall i :: 0 <= i < |contours| ==>
      Detected(contours, false, shape)[i] == Area(contours[i].first, contours[i].third)
  {
    if |contours| > 0 {
      DoorsKeptUnchanged(contours[..|contours| - 1], shape);
    }
  }

  /** A room area is detected exactly when it is the one-pixel expansion of a contour that passes
      the size filter. */
  lemma {:induction false} RoomsExpandedAndFiltered(contours: seq<Contour>, shape: Shape)
    ensures forall a :: a in Detected(contours, true, shape) <==>
      exists i :: 0 <= i < |contours| && KeepsRoom(contours[i], shape) &&
        a == Area((contours[i].first.0 - 1, contours[i].first.1 - 1), (contours[i].third.0 + 1, contours[i].third.1 + 1))
    ensures |Detected(contours, true, shape)| <= |contours|
  {
    if |contours| > 0 {
      var pre := contours[..|contours| - 1];
      RoomsExpandedAndFiltered(pre, shape);
      assert forall i :: 0 <= i < |pre| ==> pre[i] == contours[i];
    }
  }

  /** A room: its area and the doors attached to it, in attachment order. */
  datatype Room = Room(area: Area, doors: seq<Area>)

  /** The doors of `doors` that attach to `room`, in order, each door entry at most once. */
  function DoorsOf(room: Area, doors: seq<Area>): seq<Area> {
    if |doors| == 0 then []
    else DoorsOf(room, doors[..|doors| - 1]) + (if Attaches(room, doors[|doors| - 1]) then [doors[|doors| - 1]] else [])
  }

  /** Each door entry is added to a room at most once, and exactly when it attaches:
      the multiplicity of a door among the room's doors is its multiplicity in the door list when
      it attaches, and zero otherwise. */
  lemma {:induction false} DoorsOfCountsEachPairOnce(room: Area, doors: seq<Area>, d: Area)
    ensures multiset(DoorsOf(room, doors))[d] == if Attaches(room, d) then multiset(doors)[d] else 0
  {
    if |doors| > 0 {
      var pre := doors[..|doors| - 1];
      DoorsOfCountsEachPairOnce(room, pre, d);
      assert doors == pre + [doors[|doors| - 1]];
    }
  }

  /** Rooms with no doors yet, one per area. */
  function EmptyRooms(areas: seq<Area>): (r: seq<Room>)
    ensures |r| == |areas| && forall k :: 0 <= k < |r| ==> r[k] == Room(areas[k], [])
  {
    seq(|areas|, k requires 0 <= k < |areas| => Room(areas[k], []))
  }

  /** Every room with the attaching doors appended to its doors. */
  function WithDoors(rooms: seq<Room>, doors: seq<Area>): (r: seq<Room>)
    ensures |r| == |rooms|
    ensures forall k :: 0 <= k < |r| ==>
      r[k] == Room(rooms[k].area, rooms[k].doors + DoorsOf(rooms[k].area, doors))
  {
    seq(|rooms|, k requires 0 <= k < |rooms| => rooms[k].(doors := rooms[k].doors + DoorsOf(rooms[k].area, doors)))
  }

  /** The rooms after loading: each room area with its attached doors. */
  function RoomsWithDoors(areas: seq<Area>, doors: seq<Area>): seq<Room> {
    WithDoors(EmptyRooms(areas), doors)
  }

  /** One (room area, door) pair per door of the room, in door order. */
  function RoomPairs(room: Room): (r: seq<(Area, Area)>)
    ensures |r| == |room.doors| && forall k :: 0 <= k < |r| ==> r[k] == (room.area, room.doors[k])
    decreases |room.doors|
  {
    if |room.doors| == 0 then []
    else RoomPairs(room.(doors := room.doors[..|room.doors| - 1])) + [(room.area, room.doors[|room.doors| - 1])]
  }

  /** One (room area, door) pair per door of every room, in the order `get_map` visits them. */
  function Pairs(rooms: seq<Room>): seq<(Area, Area)> {
    if |rooms| == 0 then [] else Pairs(rooms[..|rooms| - 1]) + RoomPairs(rooms[|rooms| - 1])
  }

  // ---------------------------------------------------------------------------------------------
  // Waypoint merge phase of get_map

  /** Some waypoint stands at the coordinate pair `pos`. */
  predicate HasPosition(wps: seq<Waypoint>, pos: Pos) {
    exists i :: 0 <= i < |wps| && wps[i].position == At(pos)
  }

  /** Every waypoint standing at `pos` gets area `a` unless it already borders it. */
  function AddAreaAt(wps: seq<Waypoint>, pos: Pos, a: Area): (r: seq<Waypoint>)
    ensures |r| == |wps|
  {
    seq(|wps|, i requires 0 <= i < |wps| =>
      if wps[i].position == At(pos) && a !in wps[i].areas then wps[i].(areas := wps[i].areas + [a]) else wps[i])
  }

  /** One step of the merge phase, for door `door` of a room with area `a`. The very first step
      also creates a leading waypoint whose position is the door area itself. */
  function MergeDoor(wps: seq<Waypoint>, a: Area, door: Area): seq<Waypoint> {
    var w0 := if |wps| == 0 then [Waypoint([], [a], DoorObject(door))] else wps;
    var pos := Middle(door);
    var w1 := AddAreaAt(w0, pos, a);
    if HasPosition(w0, pos) then w1 else w1 + [Waypoint([], [a], At(pos))]
  }

  /** The waypoints after merging all pairs in order. */
  function MergeAll(ps: seq<(Area, Area)>): seq<Waypoint> {
    if |ps| == 0 then [] else MergeDoor(MergeAll(ps[..|ps| - 1]), ps[|ps| - 1].0, ps[|ps| - 1].1)
  }

  /** The distinct door middles of the pairs, in order of first appearance. */
  function Positions(ps: seq<(Area, Area)>): seq<Pos> {
    if |ps| == 0 then []
    else
      var p := Positions(ps[..|ps| - 1]);
      var m := Middle(ps[|ps| - 1].1);
      if m in p then p else p + [m]
  }

  /** The distinct room areas of the pairs whose door middle is `pos`, in order of first appearance. */
  function AreasAt(ps: seq<(Area, Area)>, pos: Pos): seq<Area> {
    if |ps| == 0 then []
    else
      var r := AreasAt(ps[..|ps| - 1], pos);
      var (a, d) := ps[|ps| - 1];
      if Middle(d) == pos && a !in r then r + [a] else r
  }

  /** The merge result in closed form: the leading door-object waypoint, then one waypoint per
      distinct door middle, bordering exactly the areas of the rooms holding a door there. */
  function Expected(ps: seq<(Area, Area)>): seq<Waypoint> {
    if |ps| == 0 then []
    else
      var p := Positions(ps);
      [Waypoint([], [ps[0].0], DoorObject(ps[0].1))] +
      seq(|p|, j requires 0 <= j < |p| => Waypoint([], AreasAt(ps, p[j]), At(p[j])))
  }

  predicate NoDuplicates<T(==)>(s: seq<T>) {
    forall i, j :: 0 <= i < j < |s| ==> s[i] != s[j]
  }

  lemma {:induction false} PositionsAreTheDoorMiddles(ps: seq<(Area, Area)>)
    ensures NoDuplicates(Positions(ps))
    ensures forall q :: q in Positions(ps) <==> exists k :: 0 <= k < |ps| && Middle(ps[k].1) == q
  {
    if |ps| > 0 {
      var pre := ps[..|ps| - 1];
      PositionsAreTheDoorMiddles(pre);
      assert forall k :: 0 <= k < |pre| ==> pre[k] == ps[k];
    }
  }

  lemma {:induction false} AreasAtAreTheRoomAreas(ps: seq<(Area, Area)>, pos: Pos)
    ensures NoDuplicates(AreasAt(ps, pos))
    ensures forall a :: a in AreasAt(ps, pos) <==> exists k :: 0 <= k < |ps| && ps[k].0 == a && Middle(ps[k].1) == pos
  {
    if |ps| > 0 {
      var pre := ps[..|ps| - 1];
      AreasAtAreTheRoomAreas(pre, pos);
      assert forall k :: 0 <= k < |pre| ==> pre[k] == ps[k];
    }
  }

  lemma AreasAtSnoc(ps: seq<(Area, Area)>, a: Area, d: Area, q: Pos)
    ensures AreasAt(ps + [(a, d)], q) ==
      if Middle(d) == q && a !in AreasAt(ps, q) then AreasAt(ps, q) + [a] else AreasAt(ps, q)
  {
    assert (ps + [(a, d)])[..|ps|] == ps;
  }

  lemma PositionsSnoc(ps: seq<(Area, Area)>, a: Area, d: Area)
    ensures Positions(ps + [(a, d)]) ==
      if Middle(d) in Positions(ps) then Positions(ps) else Positions(ps) + [Middle(d)]
  {
    assert (ps + [(a, d)])[..|ps|] == ps;
  }

  lemma AreasAtEmptyOffPositions(ps: seq<(Area, Area)>, q: Pos)
    requires q !in Positions(ps)
    ensures AreasAt(ps, q) == []
  {
    PositionsAreTheDoorMiddles(ps);
    AreasAtAreTheRoomAreas(ps, q);
    if AreasAt(ps, q) != [] {
      assert AreasAt(ps, q)[0] in AreasAt(ps, q);
      assert false;
    }
  }

  lemma ExpectedShape(ps: seq<(Area, Area)>)
    requires |ps| > 0
    ensures |Expected(ps)| == |Positions(ps)| + 1
    ensures Expected(ps)[0] == Waypoint([], [ps[0].0], DoorObject(ps[0].1))
    ensures forall j :: 0 <= j < |Positions(ps)| ==>
      Expected(ps)[j + 1] == Waypoint([], AreasAt(ps, Positions(ps)[j]), At(Positions(ps)[j]))
  {
  }

  /** The first door step: the leading door-object waypoint, then the door middle's waypoint. */
  lemma MergeFirstDoor(a: Area, d: Area)
    ensures MergeDoor(Expected([]), a, d) == Expected([(a, d)])
  {
    var ps' := [(a, d)];
    var pos := Middle(d);
    PositionsSnoc([], a, d);
    AreasAtSnoc([], a, d, pos);
    ExpectedShape(ps');
    var e := Expected(ps');
    assert Positions(ps') == [pos];
    var w0 := [Waypoint([], [a], DoorObject(d))];
    assert !HasPosition(w0, pos);
    assert AddAreaAt(w0, pos, a) == w0;
    assert AreasAt(ps', pos) == [a];
    assert |e| == 2 && e[0] == w0[0] && e[1] == Waypoint([], [a], At(pos));
    assert e == w0 + [Waypoint([], [a], At(pos))];
  }

  /** A waypoint after the leading one whose position keeps its index when a door is added
      gains exactly the area the merge step adds there. */
  lemma MergedEntry(ps: seq<(Area, Area)>, a: Area, d: Area, idx: nat)
    requires |ps| > 0 && 0 < idx <= |Positions(ps)| <= |Positions(ps + [(a, d)])|
    requires Positions(ps + [(a, d)])[idx - 1] == Positions(ps)[idx - 1]
    ensures Expected(ps + [(a, d)])[idx] == AddAreaAt(Expected(ps), Middle(d), a)[idx]
  {
    var ps' := ps + [(a, d)];
    ExpectedShape(ps');
    ExpectedShape(ps);
    var q := Positions(ps)[idx - 1];
    AreasAtSnoc(ps, a, d, q);
    assert Expected(ps')[idx] == Waypoint([], AreasAt(ps', q), At(q));
    assert Expected(ps)[idx] == Waypoint([], AreasAt(ps, q), At(q));
  }

  /** A later door whose middle already has a waypoint only adds the room area there. */
  lemma MergeKnownDoor(ps: seq<(Area, Area)>, a: Area, d: Area, j: nat)
    requires |ps| > 0 && j < |Positions(ps)| && Positions(ps)[j] == Middle(d)
    ensures MergeDoor(Expected(ps), a, d) == Expected(ps + [(a, d)])
  {
    var ps' := ps + [(a, d)];
    var pos := Middle(d);
    var e, w0, p := Expected(ps'), Expected(ps), Positions(ps);
    assert pos in p;
    PositionsSnoc(ps, a, d);
    ExpectedShape(ps');
    ExpectedShape(ps);
    var w1 := AddAreaAt(w0, pos, a);
    assert w0[j + 1].position == At(pos);
    assert HasPosition(w0, pos);
    assert ps'[0] == ps[0];
    assert e[0] == w1[0];
    forall idx | 0 < idx < |e| ensures e[idx] == w1[idx] {
      MergedEntry(ps, a, d, idx);
    }
    assert e == w1;
  }

  /** The closed form has a waypoint at `pos` exactly when `pos` is one of the door middles. */
  lemma ExpectedHasPosition(ps: seq<(Area, Area)>, pos: Pos)
    requires |ps| > 0
    ensures HasPosition(Expected(ps), pos) <==> pos in Positions(ps)
  {
    ExpectedShape(ps);
    var w, p := Expected(ps), Positions(ps);
    if pos in p {
      var j :| 0 <= j < |p| && p[j] == pos;
      assert w[j + 1].position == At(pos);
    }
    if HasPosition(w, pos) {
      var i :| 0 <= i < |w| && w[i].position == At(pos);
      assert p[i - 1] == pos;
    }
  }

  /** The waypoint a new door middle gets in the closed form borders only the door's room. */
  lemma NewDoorWaypoint(ps: seq<(Area, Area)>, a: Area, d: Area)
    requires |ps| > 0 && Middle(d) !in Positions(ps)
    ensures |Expected(ps + [(a, d)])| == |Expected(ps)| + 1
    ensures Expected(ps + [(a, d)])[|Expected(ps)|] == Waypoint([], [a], At(Middle(d)))
  {
    var ps' := ps + [(a, d)];
    PositionsSnoc(ps, a, d);
    ExpectedShape(ps');
    ExpectedShape(ps);
    AreasAtEmptyOffPositions(ps, Middle(d));
    AreasAtSnoc(ps, a, d, Middle(d));
  }

  /** A later door with a new middle adds the room area nowhere and appends a waypoint there. */
  lemma MergeNewDoor(ps: seq<(Area, Area)>, a: Area, d: Area)
    requires |ps| > 0 && forall k :: 0 <= k < |ps| ==> Middle(ps[k].1) != Middle(d)
    ensures MergeDoor(Expected(ps), a, d) == Expected(ps + [(a, d)])
  {
    var ps' := ps + [(a, d)];
    var pos := Middle(d);
    PositionsAreTheDoorMiddles(ps);
    NewDoorWaypoint(ps, a, d);
    ExpectedHasPosition(ps, pos);
    PositionsSnoc(ps, a, d);
    ExpectedShape(ps);
    var e, w0 := Expected(ps'), Expected(ps);
    var w1 := AddAreaAt(w0, pos, a);
    var r := w1 + [Waypoint([], [a], At(pos))];
    assert ps'[0] == ps[0];
    assert e[0] == r[0];
    forall idx | 0 < idx < |e| - 1 ensures e[idx] == r[idx] {
      MergedEntry(ps, a, d, idx);
    }
    assert e == r;
  }

  /** One door step of the merge keeps the closed form. */
  lemma MergeDoorStep(ps: seq<(Area, Area)>, a: Area, d: Area)
    ensures MergeDoor(Expected(ps), a, d) == Expected(ps + [(a, d)])
  {
    if |ps| == 0 {
      assert ps + [(a, d)] == [(a, d)];
      MergeFirstDoor(a, d);
    } else if Middle(d) in Positions(ps) {
      var j :| 0 <= j < |Positions(ps)| && Positions(ps)[j] == Middle(d);
      MergeKnownDoor(ps, a, d, j);
    } else {
      PositionsAreTheDoorMiddles(ps);
      MergeNewDoor(ps, a, d);
    }
  }

  lemma MergeAllSnoc(ps: seq<(Area, Area)>, x: (Area, Area))
    ensures MergeAll(ps + [x]) == MergeDoor(MergeAll(ps), x.0, x.1)
  {
    assert (ps + [x])[..|ps|] == ps;
  }

  /** The merge phase equals its closed form. */
  lemma {:induction false} MergeAllIsExpected(ps: seq<(Area, Area)>)
    ensures MergeAll(ps) == Expected(ps)
  {
    if |ps| > 0 {
      var pre, x := ps[..|ps| - 1], ps[|ps| - 1];
      assert pre + [(x.0, x.1)] == ps;
      MergeAllIsExpected(pre);
      MergeDoorStep(pre, x.0, x.1);
    }
  }

  /** The merged list is empty exactly when there are no doors; otherwise it starts with a waypoint
      positioned at the first door area itself, bordering only the first room's area. Every waypoint
      starts with no neighbours and borders no area twice. */
  lemma MergedLeadingWaypoint(ps: seq<(Area, Area)>)
    ensures |ps| == 0 ==> MergeAll(ps) == []
    ensures |ps| > 0 ==> |MergeAll(ps)| > 0 && MergeAll(ps)[0] == Waypoint([], [ps[0].0], DoorObject(ps[0].1))
    ensures forall i :: 0 <= i < |MergeAll(ps)| ==>
      MergeAll(ps)[i].neighbours == [] && NoDuplicates(MergeAll(ps)[i].areas)
    ensures forall i :: 0 < i < |MergeAll(ps)| ==> MergeAll(ps)[i].position.At?
  {
    MergeAllIsExpected(ps);
    if |ps| > 0 {
      var w := MergeAll(ps);
      forall i | 0 < i < |w| ensures NoDuplicates(w[i].areas) {
        AreasAtAreTheRoomAreas(ps, Positions(ps)[i - 1]);
      }
    }
  }

  /** Every door has exactly one waypoint standing at its middle, and no two waypoints stand at the
      same coordinate pair. */
  lemma MergedOneWaypointPerDoor(ps: seq<(Area, Area)>)
    ensures forall k :: 0 <= k < |ps| ==>
      exists i :: 0 <= i < |MergeAll(ps)| && MergeAll(ps)[i].position == At(Middle(ps[k].1))
    ensures forall i, j ::
      (0 <= i < |MergeAll(ps)| && 0 <= j < |MergeAll(ps)| &&
       MergeAll(ps)[i].position.At? && MergeAll(ps)[i].position == MergeAll(ps)[j].position) ==> i == j
  {
    MergeAllIsExpected(ps);
    var w := Expected(ps);
    if |ps| > 0 {
      var p := Positions(ps);
      ExpectedShape(ps);
      PositionsAreTheDoorMiddles(ps);
      forall k | 0 <= k < |ps| ensures exists i :: 0 <= i < |w| && w[i].position == At(Middle(ps[k].1)) {
        assert Middle(ps[k].1) in p;
        var j :| 0 <= j < |p| && p[j] == Middle(ps[k].1);
        assert w[j + 1].position == At(Middle(ps[k].1));
      }
      forall i, j | 0 <= i < |w| && 0 <= j < |w| && w[i].position.At? && w[i].position == w[j].position
        ensures i == j
      {
        assert i > 0 && j > 0;
        assert p[i - 1] == p[j - 1];
      }
    }
  }

  /** A waypoint standing at a coordinate pair borders exactly the areas of the rooms that hold a
      door whose middle is that pair. */
  lemma MergedAreasAreTheRoomsHoldingTheDoor(ps: seq<(Area, Area)>, i: nat, a: Area)
    requires i < |MergeAll(ps)| && MergeAll(ps)[i].position.At?
    ensures a in MergeAll(ps)[i].areas <==>
      exists k :: 0 <= k < |ps| && ps[k].0 == a && Middle(ps[k].1) == MergeAll(ps)[i].position.p
  {
    MergeAllIsExpected(ps);
    assert |ps| > 0;
    ExpectedShape(ps);
    AreasAtAreTheRoomAreas(ps, Positions(ps)[i - 1]);
  }

  /** Pairs already merged change nothing when they come again: neither the distinct door middles
      nor the areas listed at any of them. */
  lemma {:induction false} RepeatedPairsAddNothing(ps: seq<(Area, Area)>, qs: seq<(Area, Area)>)
    requires forall k :: 0 <= k < |qs| ==> qs[k] in ps
    ensures Positions(ps + qs) == Positions(ps)
    ensures forall q :: AreasAt(ps + qs, q) == AreasAt(ps, q)
    decreases |qs|
  {
    if |qs| > 0 {
      var pre, x := qs[..|qs| - 1], qs[|qs| - 1];
      RepeatedPairsAddNothing(ps, pre);
      assert ps + qs == (ps + pre) + [x];
      var k :| 0 <= k < |ps| && ps[k] == x;
      PositionsAreTheDoorMiddles(ps);
      assert Middle(x.1) in Positions(ps) by {
        assert Middle(ps[k].1) == Middle(x.1);
      }
      PositionsSnoc(ps + pre, x.0, x.1);
      forall q ensures AreasAt(ps + qs, q) == AreasAt(ps, q) {
        AreasAtSnoc(ps + pre, x.0, x.1, q);
        if Middle(x.1) == q {
          AreasAtAreTheRoomAreas(ps, q);
          assert ps[k].0 == x.0 && Middle(ps[k].1) == q;
          assert x.0 in AreasAt(ps, q);
        }
      }
    } else {
      assert ps + qs == ps;
    }
  }

  /** The pairs of two room lists one after the other are the pairs of each, in order. */
  lemma {:induction false} PairsAppend(a: seq<Room>, b: seq<Room>)
    ensures Pairs(a + b) == Pairs(a) + Pairs(b)
    decreases |b|
  {
    if |b| > 0 {
      PairsAppend(a, b[..|b| - 1]);
      assert (a + b)[..|a + b| - 1] == a + b[..|b| - 1];
    } else {
      assert a + b == a;
    }
  }

  /** The loader keeps every room twice; merging the doubled list gives the same waypoints as
      merging the rooms once. */
  lemma DoubledRoomsMergeAsOnce(rooms: seq<Room>)
    ensures MergeAll(Pairs(rooms + rooms)) == MergeAll(Pairs(rooms))
  {
    var ps := Pairs(rooms);
    PairsAppend(rooms, rooms);
    RepeatedPairsAddNothing(ps, ps);
    MergeAllIsExpected(ps);
    MergeAllIsExpected(ps + ps);
    if |ps| > 0 {
      assert (ps + ps)[0] == ps[0];
    }
  }

  /** The inner scan of the merge phase: every waypoint at `pos` gets `a` unless it has it; reports
      whether no waypoint stands at `pos`. */
  method AddAreaToMatching(w0: seq<Waypoint>, pos: Pos, a: Area) returns (wps: seq<Waypoint>, newWaypoint: bool)
    ensures wps == AddAreaAt(w0, pos, a)
    ensures newWaypoint == !HasPosition(w0, pos)
  {
    wps := w0;
    newWaypoint := true;
    var i := 0;
    while i < |wps|
      invariant 0 <= i <= |wps| == |w0|
      invariant wps[..i] == AddAreaAt(w0, pos, a)[..i]
      invariant wps[i..] == w0[i..]
      invariant newWaypoint == !exists i' :: 0 <= i' < i && w0[i'].position == At(pos)
    {
      assert wps[i] == w0[i];
      if At(pos) == wps[i].position {
        newWaypoint := false;
        if a !in wps[i].areas {
          wps := wps[i := wps[i].(areas := wps[i].areas + [a])];
        }
      }
      i := i + 1;
    }
    assert wps == AddAreaAt(w0, pos, a);
  }

  /** The body of the door loop of the merge phase: it continues the merge of the pairs `done`
      by one more door. */
  method MergeOneDoor(wps: seq<Waypoint>, accessibleArea: Area, door: Area, ghost done: seq<(Area, Area)>)
    returns (r: seq<Waypoint>)
    requires wps == MergeAll(done)
    ensures r == MergeAll(done + [(accessibleArea, door)])
  {
    var doorPosition := Middle(door);
    r := wps;
    if |r| == 0 {
      r := r + [Waypoint([], [accessibleArea], DoorObject(door))];
    }
    var newWaypoint;
    r, newWaypoint := AddAreaToMatching(r, doorPosition, accessibleArea);
    if newWaypoint {
      r := r + [Waypoint([], [accessibleArea], At(doorPosition))];
    }
    MergeAllSnoc(done, (accessibleArea, door));
  }

  /** The merge phase of `get_map`, as nested loops over the rooms, their doors and the waypoints. */
  method BuildWaypoints(rooms: seq<Room>) returns (wps: seq<Waypoint>)
    ensures wps == MergeAll(Pairs(rooms))
  {
    wps := [];
    var r := 0;
    while r < |rooms|
      invariant 0 <= r <= |rooms|
      invariant wps == MergeAll(Pairs(rooms[..r]))
    {
      assert rooms[..r + 1][..r] == rooms[..r];
      wps := MergeRoomDoors(wps, rooms[r], Pairs(rooms[..r]));
      r := r + 1;
    }
    assert rooms[..r] == rooms;
  }

  lemma PrefixSnoc<T>(a: seq<T>, b: seq<T>, d: nat)
    requires d < |b|
    ensures a + b[..d + 1] == (a + b[..d]) + [b[d]]
  {
    assert b[..d + 1] == b[..d] + [b[d]];
  }

  /** The door loop of the merge phase for one room. */
  method MergeRoomDoors(w0: seq<Waypoint>, room: Room, ghost pre: seq<(Area, Area)>) returns (wps: seq<Waypoint>)
    requires w0 == MergeAll(pre)
    ensures wps == MergeAll(pre + RoomPairs(room))
  {
    wps := w0;
    var accessibleArea := room.area;
    ghost var roomPairs := RoomPairs(room);
    ghost var done := pre;
    assert pre + roomPairs[..0] == pre;
    var d := 0;
    while d < |room.doors|
      invariant 0 <= d <= |room.doors|
      invariant done == pre + roomPairs[..d]
      invariant wps == MergeAll(done)
    {
      var door := room.doors[d];
      wps := MergeOneDoor(wps, accessibleArea, door, done);
      PrefixSnoc(pre, roomPairs, d);
      done := done + [(accessibleArea, door)];
      d := d + 1;
    }
    assert roomPairs[..d] == roomPairs;
  }

  // ---------------------------------------------------------------------------------------------
  // Connection phase of get_map

  /** The two waypoints border a common area. */
  predicate SharesArea(u: Waypoint, v: Waypoint) {
    exists a :: a in u.areas && a in v.areas
  }

  /** Waypoint j is a different waypoint of the list that borders an area of waypoint i. */
  predicate LinkedByArea(wps: seq<Waypoint>, i: int, j: int)
    requires 0 <= i < |wps|
  {
    0 <= j < |wps| && j != i && SharesArea(wps[i], wps[j])
  }

  /** The neighbours of waypoint i before (`wps`) and after (`r`) its connection step: the old list
      is kept as a prefix, the new list holds exactly the old entries and the area-sharing
      waypoints, and no duplicate is introduced. */
  ghost predicate ConnectedAt(wps: seq<Waypoint>, i: int, nb: seq<nat>)
    requires 0 <= i < |wps|
  {
    && wps[i].neighbours <= nb
    && (forall j :: j in nb <==> j in wps[i].neighbours || LinkedByArea(wps, i, j))
    && (NoDuplicates(wps[i].neighbours) ==> NoDuplicates(nb))
  }

  /** The two inner loops of the connection phase for waypoint i: every other waypoint that borders
      one of its areas is appended to its neighbours unless already there. */
  method ConnectOne(wps: seq<Waypoint>, i: nat) returns (nb: seq<nat>)
    requires i < |wps|
    ensures ConnectedAt(wps, i, nb)
  {
    var areas := wps[i].areas;
    nb := wps[i].neighbours;
    var a := 0;
    while a < |areas|
      invariant 0 <= a <= |areas|
      invariant wps[i].neighbours <= nb
      invariant forall j :: j in nb <==> (j in wps[i].neighbours ||
        (0 <= j < |wps| && j != i && exists a' :: 0 <= a' < a && areas[a'] in wps[j].areas))
      invariant NoDuplicates(wps[i].neighbours) ==> NoDuplicates(nb)
    {
      var area := areas[a];
      var j := 0;
      while j < |wps|
        invariant 0 <= j <= |wps|
        invariant wps[i].neighbours <= nb
        invariant forall k :: k in nb <==> (k in wps[i].neighbours ||
          (0 <= k < |wps| && k != i && exists a' :: 0 <= a' < a && areas[a'] in wps[k].areas) ||
          (0 <= k < j && k != i && area in wps[k].areas))
        invariant NoDuplicates(wps[i].neighbours) ==> NoDuplicates(nb)
      {
        if i != j && area in wps[j].areas && j !in nb {
          nb := nb + [j];
        }
        j := j + 1;
      }
      a := a + 1;
    }
    forall j ensures j in nb <==> j in wps[i].neighbours || LinkedByArea(wps, i, j) {
      if 0 <= j < |wps| && j != i && SharesArea(wps[i], wps[j]) {
        var x :| x in wps[i].areas && x in wps[j].areas;
        var a' :| 0 <= a' < |areas| && areas[a'] == x;
      }
    }
  }

  /** The connection phase of `get_map`: each waypoint in turn gains every other waypoint that
      borders one of its areas; areas and positions are unchanged. */
  method ConnectWaypoints(wps: seq<Waypoint>) returns (r: seq<Waypoint>)
    ensures |r| == |wps|
    ensures forall i :: 0 <= i < |r| ==> r[i].areas == wps[i].areas && r[i].position == wps[i].position
    ensures forall i :: 0 <= i < |r| ==> ConnectedAt(wps, i, r[i].neighbours)
  {
    r := wps;
    var i := 0;
    while i < |wps|
      invariant 0 <= i <= |wps| == |r|
      invariant forall k :: 0 <= k < |r| ==> r[k].areas == wps[k].areas && r[k].position == wps[k].position
      invariant forall k :: i <= k < |r| ==> r[k] == wps[k]
      invariant forall k :: 0 <= k < i ==> ConnectedAt(wps, k, r[k].neighbours)
    {
      var nb := ConnectOne(r, i);
      assert forall k :: 0 <= k < |r| ==> r[k].areas == wps[k].areas;
      assert forall j :: LinkedByArea(r, i, j) == LinkedByArea(wps, i, j);
      r := r[i := r[i].(neighbours := nb)];
      i := i + 1;
    }
  }

  /** The waypoint graph of `get_map` links two waypoints exactly when they are different and share
      an area: the relation is irreflexive and symmetric, and no neighbour is listed twice. */
  lemma ConnectedGraphIsSharedAreaRelation(wps: seq<Waypoint>, r: seq<Waypoint>)
    requires |r| == |wps|
    requires forall i :: 0 <= i < |wps| ==> wps[i].neighbours == []
    requires forall i :: 0 <= i < |r| ==> r[i].areas == wps[i].areas && r[i].position == wps[i].position
    requires forall i :: 0 <= i < |r| ==> ConnectedAt(wps, i, r[i].neighbours)
    ensures WellFormed(r)
    ensures forall i, j :: 0 <= i < |r| && 0 <= j < |r| ==>
      (j in r[i].neighbours <==> i != j && SharesArea(r[i], r[j]))
    ensures forall i, j :: 0 <= i < |r| && 0 <= j < |r| ==> (j in r[i].neighbours <==> i in r[j].neighbours)
    ensures forall i :: 0 <= i < |r| ==> i !in r[i].neighbours && NoDuplicates(r[i].neighbours)
  {
    forall i, j | 0 <= i < |r| && 0 <= j < |r| ensures SharesArea(r[i], r[j]) == SharesArea(r[j], r[i]) {
    }
    forall i, k | 0 <= i < |r| && 0 <= k < |r[i].neighbours| ensures r[i].neighbours[k] < |r| {
      assert r[i].neighbours[k] in r[i].neighbours;
    }
  }

  // ---------------------------------------------------------------------------------------------
  // The loader object

  /** Loads the map: detects the door and room areas, builds the rooms and attaches the doors. */
  class MapLoader {
    const image: array2<Pixel>
    var doorPositions: seq<Area>
    var roomPositions: seq<Area>
    var rooms: seq<Room>

    /** Loading leaves every room area in the room list twice, in order, each time with its
        attaching doors. */
    constructor (image: array2<Pixel>, doorContours: seq<Contour>, roomContours: seq<Contour>)
      ensures this.image == image
      ensures doorPositions == Detected(doorContours, false, Shape(image.Length0, image.Length1))
      ensures roomPositions == Detected(roomContours, true, Shape(image.Length0, image.Length1))
      ensures rooms == RoomsWithDoors(roomPositions, doorPositions) + RoomsWithDoors(roomPositions, doorPositions)
      ensures |rooms| == 2 * |roomPositions|
    {
      this.image := image;
      var shape := Shape(image.Length0, image.Length1);
      var doors := DetectAreas(doorContours, false, shape);
      doorPositions := doors;
      rooms := [];
      var found := DetectAreas(roomContours, true, shape);
      roomPositions := found;
      new;
      CreateRooms();
      AssignDoorsToRooms();
      var e := EmptyRooms(roomPositions);
      assert rooms == WithDoors(e + e, doorPositions);
      assert WithDoors(e + e, doorPositions) == WithDoors(e, doorPositions) + WithDoors(e, doorPositions);
    }

    /** Appends one door-less room per detected room area. */
    method CreateRooms()
      modifies this
      ensures doorPositions == old(doorPositions) && roomPositions == old(roomPositions)
      ensures rooms == old(rooms) + EmptyRooms(roomPositions)
    {
      var i := 0;
      while i < |roomPositions|
        invariant 0 <= i <= |roomPositions|
        invariant doorPositions == old(doorPositions) && roomPositions == old(roomPositions)
        invariant rooms == old(rooms) + EmptyRooms(roomPositions[..i])
      {
        assert EmptyRooms(roomPositions[..i + 1]) == EmptyRooms(roomPositions[..i]) + [Room(roomPositions[i], [])];
        rooms := rooms + [Room(roomPositions[i], [])];
        i := i + 1;
      }
      assert roomPositions[..i] == roomPositions;
    }

    /** Appends the room areas once more as door-less rooms, then appends to every room, in order,
        each door that attaches to it. */
    method AssignDoorsToRooms()
      modifies this
      ensures doorPositions == old(doorPositions) && roomPositions == old(roomPositions)
      ensures rooms == WithDoors(old(rooms) + EmptyRooms(roomPositions), doorPositions)
    {
      var i := 0;
      while i < |roomPositions|
        invariant 0 <= i <= |roomPositions|
        invariant doorPositions == old(doorPositions) && roomPositions == old(roomPositions)
        invariant rooms == old(rooms) + EmptyRooms(roomPositions[..i])
      {
        assert EmptyRooms(roomPositions[..i + 1]) == EmptyRooms(roomPositions[..i]) + [Room(roomPositions[i], [])];
        rooms := rooms + [Room(roomPositions[i], [])];
        i := i + 1;
      }
      assert roomPositions[..i] == roomPositions;
      ghost var before := rooms;
      var k := 0;
      while k < |rooms|
        invariant 0 <= k <= |rooms| == |before|
        invariant doorPositions == old(doorPositions) && roomPositions == old(roomPositions)
        invariant forall m :: 0 <= m < k ==> rooms[m] == WithDoors(before, doorPositions)[m]
        invariant forall m :: k <= m < |rooms| ==> rooms[m] == before[m]
      {
        var room := AttachDoors(rooms[k], doorPositions);
        rooms := rooms[k := room];
        k := k + 1;
      }
    }

    /** Builds the waypoint graph: merges waypoints at the door middles of every room, then links
        every pair of different waypoints that share an area. Returns it with the loader's image. */
    method GetMap() returns (m: Map)
      ensures fresh(m) && m.image == image
      ensures |m.waypoints| == |MergeAll(Pairs(rooms))|
      ensures forall i :: 0 <= i < |m.waypoints| ==>
        m.waypoints[i].areas == MergeAll(Pairs(rooms))[i].areas &&
        m.waypoints[i].position == MergeAll(Pairs(rooms))[i].position
      ensures WellFormed(m.waypoints)
      ensures forall i, j :: 0 <= i < |m.waypoints| && 0 <= j < |m.waypoints| ==>
        (j in m.waypoints[i].neighbours <==> i != j && SharesArea(m.waypoints[i], m.waypoints[j]))
      ensures forall i :: 0 <= i < |m.waypoints| ==> NoDuplicates(m.waypoints[i].neighbours)
    {
      var wps := BuildWaypoints(rooms);
      MergedLeadingWaypoint(Pairs(rooms));
      var linked := ConnectWaypoints(wps);
      ConnectedGraphIsSharedAreaRelation(wps, linked);
      m := new Map(image, linked);
    }
  }

  /** The door loop for one room: appends each attaching door, in order. */
  method AttachDoors(room: Room, doors: seq<Area>) returns (r: Room)
    ensures r == room.(doors := room.doors + DoorsOf(room.area, doors))
  {
    r := room;
    var d := 0;
    while d < |doors|
      invariant 0 <= d <= |doors|
      invariant r == room.(doors := room.doors + DoorsOf(room.area, doors[..d]))
    {
      assert doors[..d + 1][..d] == doors[..d];
      var door := doors[d];
      if room.area.upperLeft.0 == door.lowerRight.0 {
        if door.lowerRight.1 > room.area.upperLeft.1 && door.upperLeft.1 < room.area.lowerRight.1 {
          r := r.(doors := r.doors + [door]);
        }
      } else if room.area.upperLeft.1 == door.lowerRight.1 {
        if TupleGreater(door.lowerRight, room.area.upperLeft) && door.upperLeft.0 < room.area.lowerRight.0 {
          r := r.(doors := r.doors + [door]);
        }
      } else if room.area.lowerRight.0 == door.upperLeft.0 {
        if door.lowerRight.1 > room.area.upperLeft.1 && door.upperLeft.1 < room.area.lowerRight.1 {
          r := r.(doors := r.doors + [door]);
        }
      } else if room.area.lowerRight.1 == door.upperLeft.1 {
        if TupleGreater(door.lowerRight, room.area.upperLeft) && door.upperLeft.0 < room.area.lowerRight.0 {
          r := r.(doors := r.doors + [door]);
        }
      }
      d := d + 1;
    }
    assert doors[..d] == doors;
  }
}
