/** The waypoint map: an arena of waypoints addressed by index, each holding the indices of the
    waypoints reachable from it, the areas it borders and its position, together with the
    processed image. Start and end points are inserted into it at query time. */
module WaypointMap {
  import opened Geometry

  datatype Option<T> = None | Some(value: T)

  /** Where a waypoint stands. Door waypoints stand at a door's middle; the very first waypoint the
      loader creates is given the door area object itself as its position (`DoorObject`), which
      never compares equal to a coordinate pair. */
  datatype WPos = At(p: Pos) | DoorObject(door: Area)

  /** A waypoint: the arena indices of its accessible waypoints, its accessible areas, its position. */
  datatype Waypoint = Waypoint(neighbours: seq<nat>, areas: seq<Area>, position: WPos)

  /** A pixel as its sequence of channel values; images are two-dimensional arrays of pixels
      indexed by row, then column. */
  type Pixel = seq<int>

  /** Every neighbour index names a waypoint of the arena. */
  predicate WellFormed(wps: seq<Waypoint>) {
    forall i, k :: 0 <= i < |wps| && 0 <= k < |wps[i].neighbours| ==> wps[i].neighbours[k] < |wps|
  }

  /** Every channel of the pixel is 255. */
  predicate IsWhite(px: Pixel) {
    forall c :: 0 <= c < |px| ==> px[c] == 255
  }

  /** Area k of waypoint i can locate the point: the waypoint borders more than one area and the
      area strictly contains the point. */
  predicate Locates(wps: seq<Waypoint>, point: Pos, i: int, k: int) {
    0 <= i < |wps| && 0 <= k < |wps[i].areas| && |wps[i].areas| > 1 && StrictlyInside(point, wps[i].areas[k])
  }

  /** Index of the last area of `areas` that strictly contains the point. */
  function LastInside(areas: seq<Area>, point: Pos): (r: Option<nat>)
    ensures r.Some? ==> r.value < |areas|
  {
    if |areas| == 0 then None
    else if StrictlyInside(point, areas[|areas| - 1]) then Some(|areas| - 1)
    else LastInside(areas[..|areas| - 1], point)
  }

  /** The (waypoint, area) indices that `locate_and_add_point` settles on: the last locating
      area in scan order. */
  function LocatedAt(wps: seq<Waypoint>, point: Pos): (r: Option<(nat, nat)>)
    ensures r.Some? ==> r.value.0 < |wps| && r.value.1 < |wps[r.value.0].areas|
  {
    if |wps| == 0 then None
    else
      var i := |wps| - 1;
      if |wps[i].areas| > 1 && LastInside(wps[i].areas, point).Some?
      then Some((i, LastInside(wps[i].areas, point).value))
      else LocatedAt(wps[..i], point)
  }

  /** The area the point is located in, if any. */
  function Located(wps: seq<Waypoint>, point: Pos): Option<Area> {
    match LocatedAt(wps, point)
    case None => None
    case Some((i, k)) => Some(wps[i].areas[k])
  }

  lemma {:induction false} LastInsideIsLast(areas: seq<Area>, point: Pos)
    ensures LastInside(areas, point).None? <==> forall k :: 0 <= k < |areas| ==> !StrictlyInside(point, areas[k])
    ensures LastInside(areas, point).Some? ==>
      var k := LastInside(areas, point).value;
      StrictlyInside(point, areas[k]) &&
      forall k' :: k < k' < |areas| ==> !StrictlyInside(point, areas[k'])
  {
    if |areas| > 0 {
      var pre := areas[..|areas| - 1];
      LastInsideIsLast(pre, point);
      assert forall k :: 0 <= k < |pre| ==> pre[k] == areas[k];
    }
  }

  /** The located area is the last locating one in scan order; there is none exactly when no area
      of a multi-area waypoint strictly contains the point. */
  lemma {:induction false} LocatedIsLastInScanOrder(wps: seq<Waypoint>, point: Pos)
    ensures LocatedAt(wps, point).None? <==> forall i, k :: !Locates(wps, point, i, k)
    ensures LocatedAt(wps, point).Some? ==>
      var (i, k) := LocatedAt(wps, point).value;
      Locates(wps, point, i, k) &&
      forall i', k' :: Locates(wps, point, i', k') ==> i' < i || (i' == i && k' <= k)
  {
    if |wps| > 0 {
      var i := |wps| - 1;
      var pre := wps[..i];
      LocatedIsLastInScanOrder(pre, point);
      LastInsideIsLast(wps[i].areas, point);
      assert forall j, k :: Locates(pre, point, j, k) <==> j < i && Locates(wps, point, j, k);
      if |wps[i].areas| > 1 && LastInside(wps[i].areas, point).Some? {
        assert Locates(wps, point, i, LastInside(wps[i].areas, point).value);
      } else {
        assert forall k :: !Locates(wps, point, i, k);
        assert LocatedAt(wps, point) == LocatedAt(pre, point);
        if LocatedAt(pre, point).None? {
          forall j, k ensures !Locates(wps, point, j, k) {
            if j < i { assert !Locates(pre, point, j, k); }
          }
        }
      }
    }
  }

  /** Number of times `a` occurs in `areas`. */
  function Occurrences(areas: seq<Area>, a: Area): nat {
    if |areas| == 0 then 0
    else Occurrences(areas[..|areas| - 1], a) + (if areas[|areas| - 1] == a then 1 else 0)
  }

  lemma {:induction false} OccurrencesPositive(areas: seq<Area>, a: Area)
    ensures Occurrences(areas, a) > 0 <==> a in areas
  {
    if |areas| > 0 {
      OccurrencesPositive(areas[..|areas| - 1], a);
      assert areas == areas[..|areas| - 1] + [areas[|areas| - 1]];
    }
  }

  /** `n` copies of `i`. */
  function Repeat(i: nat, n: nat): (r: seq<nat>)
    ensures |r| == n && forall k :: 0 <= k < n ==> r[k] == i
  {
    if n == 0 then [] else Repeat(i, n - 1) + [i]
  }

  /** The waypoints that border area `a`, in list order, each index once per occurrence of `a`
      among its areas (the source appends the waypoint once per matching area). */
  function Holders(wps: seq<Waypoint>, a: Area): seq<nat> {
    if |wps| == 0 then []
    else Holders(wps[..|wps| - 1], a) + Repeat(|wps| - 1, Occurrences(wps[|wps| - 1].areas, a))
  }

  /** A waypoint index is among the holders exactly when that waypoint borders the area; the
      holders are listed in ascending order. */
  lemma {:induction false} HoldersAreTheBorderingWaypoints(wps: seq<Waypoint>, a: Area)
    ensures forall k :: 0 <= k < |Holders(wps, a)| ==> Holders(wps, a)[k] < |wps|
    ensures forall i :: i in Holders(wps, a) <==> 0 <= i < |wps| && a in wps[i].areas
    ensures forall k, l :: 0 <= k <= l < |Holders(wps, a)| ==> Holders(wps, a)[k] <= Holders(wps, a)[l]
  {
    if |wps| > 0 {
      var pre := wps[..|wps| - 1];
      HoldersAreTheBorderingWaypoints(pre, a);
      OccurrencesPositive(wps[|wps| - 1].areas, a);
    }
  }

  /** Number of times `i` occurs in `hs`. */
  function Count(hs: seq<nat>, i: nat): nat {
    if |hs| == 0 then 0 else Count(hs[..|hs| - 1], i) + (if hs[|hs| - 1] == i then 1 else 0)
  }

  /** Appends `n` to the neighbour list of waypoint `h`. */
  function LinkOne(wps: seq<Waypoint>, h: nat, n: nat): (r: seq<Waypoint>)
    requires h < |wps|
    ensures |r| == |wps|
  {
    wps[h := wps[h].(neighbours := wps[h].neighbours + [n])]
  }

  /** Appends `n` to the neighbour list of every waypoint named in `hs`, in order. */
  function LinkBack(wps: seq<Waypoint>, hs: seq<nat>, n: nat): (r: seq<Waypoint>)
    requires forall k :: 0 <= k < |hs| ==> hs[k] < |wps|
    ensures |r| == |wps|
  {
    if |hs| == 0 then wps else LinkOne(LinkBack(wps, hs[..|hs| - 1], n), hs[|hs| - 1], n)
  }

  /** Linking back touches only the named waypoints, and appends `n` to each once per mention. */
  lemma {:induction false} LinkBackAt(wps: seq<Waypoint>, hs: seq<nat>, n: nat)
    requires forall k :: 0 <= k < |hs| ==> hs[k] < |wps|
    ensures forall i :: 0 <= i < |wps| ==>
      LinkBack(wps, hs, n)[i] == wps[i].(neighbours := wps[i].neighbours + Repeat(n, Count(hs, i)))
  {
    if |hs| > 0 {
      var pre := hs[..|hs| - 1];
      LinkBackAt(wps, pre, n);
      forall i | 0 <= i < |wps|
        ensures LinkBack(wps, hs, n)[i] == wps[i].(neighbours := wps[i].neighbours + Repeat(n, Count(hs, i)))
      {
        if hs[|hs| - 1] == i {
          assert Repeat(n, Count(hs, i)) == Repeat(n, Count(pre, i)) + [n];
        }
      }
    }
  }

  lemma {:induction false} CountOfHolders(wps: seq<Waypoint>, a: Area, i: nat)
    requires i < |wps|
    ensures Count(Holders(wps, a), i) == Occurrences(wps[i].areas, a)
  {
    var pre := wps[..|wps| - 1];
    var r := Repeat(|wps| - 1, Occurrences(wps[|wps| - 1].areas, a));
    CountAppend(Holders(pre, a), r, i);
    RepeatCount(|wps| - 1, Occurrences(wps[|wps| - 1].areas, a), i);
    if i < |wps| - 1 {
      CountOfHolders(pre, a, i);
    } else {
      HoldersAreTheBorderingWaypoints(pre, a);
      CountAbsent(Holders(pre, a), i);
    }
  }

  lemma {:induction false} CountAppend(s: seq<nat>, t: seq<nat>, i: nat)
    ensures Count(s + t, i) == Count(s, i) + Count(t, i)
  {
    if |t| > 0 {
      CountAppend(s, t[..|t| - 1], i);
      assert (s + t)[..|s + t| - 1] == s + t[..|t| - 1];
    } else {
      assert s + t == s;
    }
  }

  lemma {:induction false} RepeatCount(j: nat, m: nat, i: nat)
    ensures Count(Repeat(j, m), i) == if i == j then m else 0
  {
    if m > 0 {
      RepeatCount(j, m - 1, i);
      assert Repeat(j, m)[..m - 1] == Repeat(j, m - 1);
    }
  }

  lemma {:induction false} CountAbsent(s: seq<nat>, i: nat)
    requires i !in s
    ensures Count(s, i) == 0
  {
    if |s| > 0 {
      assert s[..|s| - 1] <= s;
      CountAbsent(s[..|s| - 1], i);
    }
  }

  /** The waypoint list after a successful insertion of `point` located in area `a`. */
  function Inserted(wps: seq<Waypoint>, point: Pos, a: Area): seq<Waypoint> {
    HoldersAreTheBorderingWaypoints(wps, a);
    var hs := Holders(wps, a);
    LinkBack(wps + [Waypoint(hs, [a], At(point))], hs, |wps|)
  }

  /** A successful insertion appends one waypoint at `point` bordering only `a`, whose neighbours
      are exactly the waypoints that border `a`; each of those gets the new waypoint appended to its
      own neighbours (once per occurrence of `a` among its areas), so the new links are symmetric;
      every other waypoint is unchanged, and a well-formed arena stays well-formed. */
  lemma InsertionLinksBothWays(wps: seq<Waypoint>, point: Pos, a: Area)
    requires WellFormed(wps)
    ensures var r := Inserted(wps, point, a);
      && |r| == |wps| + 1
      && r[|wps|].position == At(point) && r[|wps|].areas == [a]
      && (forall i :: i in r[|wps|].neighbours <==> 0 <= i < |wps| && a in wps[i].areas)
      && (forall i :: 0 <= i < |wps| ==> (i in r[|wps|].neighbours <==> |wps| in r[i].neighbours))
      && (forall i :: 0 <= i < |wps| ==>
            r[i] == wps[i].(neighbours := wps[i].neighbours + Repeat(|wps|, Occurrences(wps[i].areas, a))))
      && WellFormed(r)
  {
    HoldersAreTheBorderingWaypoints(wps, a);
    var hs := Holders(wps, a);
    var n := |wps|;
    var ext := wps + [Waypoint(hs, [a], At(point))];
    var r := Inserted(wps, point, a);
    LinkBackAt(ext, hs, n);
    forall i | 0 <= i < n
      ensures r[i] == wps[i].(neighbours := wps[i].neighbours + Repeat(n, Occurrences(wps[i].areas, a)))
      ensures i in r[n].neighbours <==> n in r[i].neighbours
    {
      CountOfHolders(wps, a, i);
      OccurrencesPositive(wps[i].areas, a);
      assert ext[i] == wps[i];
      assert n !in wps[i].neighbours;
    }
    CountAbsent(hs, n);
    assert r[n] == ext[n];
  }

  /** The scan of `locate_and_add_point` that finds the point's area: over the waypoints bordering
      more than one area, the last strictly containing area wins. */
  method FindPointArea(wps: seq<Waypoint>, point: Pos) returns (pointArea: Option<Area>)
    ensures pointArea == Located(wps, point)
  {
    pointArea := None;
    var i := 0;
    while i < |wps|
      invariant 0 <= i <= |wps|
      invariant pointArea == Located(wps[..i], point)
    {
      var areas := wps[i].areas;
      assert wps[..i + 1][..i] == wps[..i];
      if |areas| > 1 {
        var k := 0;
        while k < |areas|
          invariant 0 <= k <= |areas|
          invariant pointArea == match LastInside(areas[..k], point)
                                 case Some(j) => Some(areas[j])
                                 case None => Located(wps[..i], point)
        {
          assert areas[..k + 1][..k] == areas[..k];
          if StrictlyInside(point, areas[k]) {
            pointArea := Some(areas[k]);
          }
          k := k + 1;
        }
        assert areas[..k] == areas;
      }
      i := i + 1;
    }
    assert wps[..i] == wps;
  }

  /** The scan that collects the waypoints bordering area `a`, once per matching area. */
  method FindHolders(wps: seq<Waypoint>, a: Area) returns (holders: seq<nat>)
    ensures holders == Holders(wps, a)
  {
    holders := [];
    var i := 0;
    while i < |wps|
      invariant 0 <= i <= |wps|
      invariant holders == Holders(wps[..i], a)
    {
      var areas := wps[i].areas;
      assert wps[..i + 1][..i] == wps[..i];
      var k := 0;
      while k < |areas|
        invariant 0 <= k <= |areas|
        invariant holders == Holders(wps[..i], a) + Repeat(i, Occurrences(areas[..k], a))
      {
        assert areas[..k + 1][..k] == areas[..k];
        if areas[k] == a {
          holders := holders + [i];
        }
        k := k + 1;
      }
      assert areas[..k] == areas;
      i := i + 1;
    }
    assert wps[..i] == wps;
  }

  /** The loop that appends the new waypoint's index `n` to each holder's neighbours. */
  method LinkNewWaypoint(wps: seq<Waypoint>, holders: seq<nat>, n: nat) returns (r: seq<Waypoint>)
    requires forall k :: 0 <= k < |holders| ==> holders[k] < |wps|
    ensures r == LinkBack(wps, holders, n)
  {
    r := wps;
    var j := 0;
    while j < |holders|
      invariant 0 <= j <= |holders|
      invariant r == LinkBack(wps, holders[..j], n)
    {
      assert holders[..j + 1][..j] == holders[..j];
      var h := holders[j];
      r := r[h := r[h].(neighbours := r[h].neighbours + [n])];
      j := j + 1;
    }
    assert holders[..j] == holders;
  }

  /** The waypoint graph together with the processed image it was built from. The image is
      shared with whoever handed it over, not copied. */
  class Map {
    const image: array2<Pixel>
    var waypoints: seq<Waypoint>

    constructor (image: array2<Pixel>, waypoints: seq<Waypoint>)
      ensures this.image == image && this.waypoints == waypoints
    {
      this.image := image;
      this.waypoints := waypoints;
    }

    /** Inserts a start or end point. Fails, changing nothing, when a channel of the point's
        pixel is not 255 or when no area of a multi-area waypoint strictly contains the point;
        otherwise appends a waypoint at the point linked both ways to every waypoint bordering
        the located area. */
    method LocateAndAddPoint(point: Pos) returns (ok: bool)
      requires 0 <= point.1 < image.Length0 && 0 <= point.0 < image.Length1
      modifies this
      ensures ok <==> IsWhite(image[point.1, point.0]) && Located(old(waypoints), point).Some?
      ensures !ok ==> waypoints == old(waypoints)
      ensures ok ==> waypoints == Inserted(old(waypoints), point, Located(old(waypoints), point).value)
    {
      var px := image[point.1, point.0];
      var c := 0;
      while c < |px|
        invariant 0 <= c <= |px|
        invariant forall c' :: 0 <= c' < c ==> px[c'] == 255
      {
        if px[c] != 255 {
          return false;
        }
        c := c + 1;
      }

      var wps := waypoints;
      var pointArea := FindPointArea(wps, point);
      if pointArea.None? {
        return false;
      }
      var a := pointArea.value;
      var holders := FindHolders(wps, a);
      HoldersAreTheBorderingWaypoints(wps, a);
      wps := LinkNewWaypoint(wps + [Waypoint(holders, [a], At(point))], holders, |wps|);
      waypoints := wps;
      return true;
    }

    /** Returns the stored waypoint list. */
    method GetWaypoints() returns (r: seq<Waypoint>)
      ensures r == waypoints
    {
      return waypoints;
    }

    /** Returns the stored image. */
    method GetImage() returns (r: array2<Pixel>)
      ensures r == image
    {
      return image;
    }

    /** Appends a waypoint with the given neighbours, areas and position. The source guards the
        append with a membership test by object identity, which a freshly built waypoint never
        passes, so the append always happens and no existing waypoint changes. */
    method AddWaypoint(neighbours: seq<nat>, areas: seq<Area>, position: Pos)
      modifies this
      ensures waypoints == old(waypoints) + [Waypoint(neighbours, areas, At(position))]
    {
      waypoints := waypoints + [Waypoint(neighbours, areas, At(position))];
    }
  }
}
