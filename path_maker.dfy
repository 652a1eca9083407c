/** The two-tier path search: an A* over the waypoint graph from the start point to the end point,
    then, for each consecutive pair of waypoints on that route, an A* over the pixels of the
    binarised image, whose explored and final pixels are marked in the shared image. */
module PathMaking {
  import opened Geometry
  import opened WaypointMap
  import opened Search

  function Square(n: int): int { n * n }

  /** Squared Euclidean distance, the cost measure of the waypoint search and the heuristic of both. */
  function SquaredDistance(a: Pos, b: Pos): (d: int)
    ensures d >= 0
    ensures d == 0 <==> a == b
  {
    assert Square(a.0 - b.0) >= 0 && Square(a.1 - b.1) >= 0;
    Square(a.0 - b.0) + Square(a.1 - b.1)
  }

  /** The coordinate pair the waypoint search uses for a waypoint: an area standing in for a
      position is replaced by its middle. */
  function PointOf(w: WPos): (p: Pos)
    ensures w.At? ==> p == w.p
    ensures w.DoorObject? ==> p == Middle(w.door)
  {
    match w
    case At(q) => q
    case DoorObject(a) => Middle(a)
  }

  /** A walk through the waypoint graph: consecutive waypoints are linked. */
  predicate Walk(wps: seq<Waypoint>, route: seq<nat>) {
    && |route| >= 1
    && (forall k :: 0 <= k < |route| ==> route[k] < |wps|)
    && (forall k :: 0 <= k < |route| - 1 ==> route[k + 1] in wps[route[k]].neighbours)
  }

  /** Every position the waypoint search can give a node: the points of the waypoints. */
  ghost function WaypointPoints(wps: seq<Waypoint>): set<Pos> {
    set j | 0 <= j < |wps| :: PointOf(wps[j].position)
  }

  /** The node tree of the waypoint search: `origin[n]` is the waypoint node n was built from; a
      node stands at its waypoint's point and may expand to that waypoint's neighbours, and every
      node but the root comes from a neighbour of its parent's waypoint. */
  ghost predicate WaypointTree(wps: seq<Waypoint>, startPos: nat, nodes: seq<Node<Pos>>, origin: seq<nat>) {
    && Rooted(nodes)
    && |origin| == |nodes| && origin[0] == startPos
    && (forall n :: 0 <= n < |nodes| ==>
          origin[n] < |wps| && nodes[n].children == wps[origin[n]].neighbours &&
          nodes[n].position == PointOf(wps[origin[n]].position))
    && (forall n :: 0 < n < |nodes| ==> FromParentsNeighbour(nodes, origin, n))
  }

  /** Node n was built from a waypoint its parent may expand to. */
  ghost predicate FromParentsNeighbour(nodes: seq<Node<Pos>>, origin: seq<nat>, n: int)
    requires Rooted(nodes) && |origin| == |nodes| && 0 < n < |nodes|
  {
    origin[n] in nodes[nodes[n].parent.value].children
  }

  /** The cost rules of the waypoint search: the root costs nothing, and a child's g is its
      parent's plus the squared distance between them, its h the squared distance to the goal. */
  ghost predicate WaypointCosts(nodes: seq<Node<Pos>>, goal: Pos)
    requires Rooted(nodes)
  {
    && nodes[0].g == 0 && nodes[0].h == 0 && nodes[0].f == 0
    && forall n :: 0 < n < |nodes| ==> CostedFromParent(nodes, goal, n)
  }

  /** Node n's costs follow from its parent's by the waypoint search's rules. */
  ghost predicate CostedFromParent(nodes: seq<Node<Pos>>, goal: Pos, n: int)
    requires Rooted(nodes) && 0 < n < |nodes|
  {
    var p := nodes[nodes[n].parent.value];
    && nodes[n].g == p.g + SquaredDistance(nodes[n].position, p.position)
    && nodes[n].h == SquaredDistance(nodes[n].position, goal)
    && nodes[n].f == nodes[n].g + nodes[n].h
  }

  /** Every expanded node's successors stand at a position some closed or open node holds. */
  ghost predicate WaypointsCovered(wps: seq<Waypoint>, nodes: seq<Node<Pos>>, open: seq<nat>, closed: seq<nat>, upTo: int)
    requires InArena(nodes, open) && InArena(nodes, closed) && upTo <= |closed|
  {
    forall k, j :: 0 <= k < upTo && j in nodes[closed[k]].children && j < |wps| ==>
      Holds(nodes, closed, PointOf(wps[j].position)) || Holds(nodes, open, PointOf(wps[j].position))
  }

  /** The search invariant of the waypoint search. */
  ghost predicate WaypointSearch(wps: seq<Waypoint>, startPos: nat, goal: Pos,
                                 nodes: seq<Node<Pos>>, open: seq<nat>, closed: seq<nat>, origin: seq<nat>)
  {
    && WaypointTree(wps, startPos, nodes, origin)
    && WaypointCosts(nodes, goal)
    && InArena(nodes, open) && InArena(nodes, closed)
    && AncestorsClosed(nodes, closed) && SimpleChains(nodes)
    && !Holds(nodes, closed, goal)
    && WaypointsCovered(wps, nodes, open, closed, |closed|)
  }

  /** A child built by the cost rules keeps the arena's costs consistent. */
  lemma CostsOfPushedChild(nodes: seq<Node<Pos>>, goal: Pos, x: Node<Pos>, cur: nat)
    requires Rooted(nodes) && Rooted(nodes + [x]) && WaypointCosts(nodes, goal)
    requires cur < |nodes| && x.parent == Some(cur)
    requires x.g == nodes[cur].g + SquaredDistance(x.position, nodes[cur].position)
    requires x.h == SquaredDistance(x.position, goal) && x.f == x.g + x.h
    ensures WaypointCosts(nodes + [x], goal)
  {
    var nodes' := nodes + [x];
    forall n | 0 < n < |nodes'| ensures CostedFromParent(nodes', goal, n) {
      if n < |nodes| {
        assert CostedFromParent(nodes, goal, n);
        var p := nodes[n].parent.value;
        assert nodes'[n] == nodes[n] && nodes'[p] == nodes[p];
      } else {
        assert nodes'[n] == x && nodes'[cur] == nodes[cur];
      }
    }
  }

  /** A child built from neighbour j of the expanded node's waypoint keeps the node tree. */
  lemma TreeOfPushedChild(wps: seq<Waypoint>, startPos: nat, nodes: seq<Node<Pos>>, origin: seq<nat>,
                          x: Node<Pos>, cur: nat, j: nat)
    requires WaypointTree(wps, startPos, nodes, origin) && Rooted(nodes + [x])
    requires cur < |nodes| && x.parent == Some(cur) && j in nodes[cur].children && j < |wps|
    requires x.children == wps[j].neighbours && x.position == PointOf(wps[j].position)
    ensures WaypointTree(wps, startPos, nodes + [x], origin + [j])
  {
    var nodes', origin' := nodes + [x], origin + [j];
    forall n | 0 < n < |nodes'| ensures FromParentsNeighbour(nodes', origin', n) {
      if n < |nodes| {
        assert FromParentsNeighbour(nodes, origin, n);
        var p := nodes[n].parent.value;
        assert nodes'[n] == nodes[n] && nodes'[p] == nodes[p] && origin'[n] == origin[n];
      } else {
        assert nodes'[n] == x && nodes'[cur] == nodes[cur] && origin'[n] == j;
      }
    }
  }

  /** The points of the given waypoints are all held by the closed or the open list. */
  ghost predicate PointsHeld(wps: seq<Waypoint>, nodes: seq<Node<Pos>>, open: seq<nat>, closed: seq<nat>, js: seq<nat>)
    requires InArena(nodes, open) && InArena(nodes, closed)
  {
    forall j :: j in js && j < |wps| ==>
      Holds(nodes, closed, PointOf(wps[j].position)) || Holds(nodes, open, PointOf(wps[j].position))
  }

  /** Once the successors of the last closed node are held, every closed node is covered. */
  lemma CoverLast(wps: seq<Waypoint>, nodes: seq<Node<Pos>>, open: seq<nat>, closed: seq<nat>)
    requires InArena(nodes, open) && InArena(nodes, closed) && |closed| > 0
    requires WaypointsCovered(wps, nodes, open, closed, |closed| - 1)
    requires PointsHeld(wps, nodes, open, closed, nodes[closed[|closed| - 1]].children)
    ensures WaypointsCovered(wps, nodes, open, closed, |closed|)
  {
  }

  /** The three skip tests of the waypoint search for a child at `pos` with cost `g` built from
      `nodes[cur]`: the parent's position, a closed position, a strictly cheaper open node. */
  method WaypointChildSkipped(nodes: seq<Node<Pos>>, open: seq<nat>, closed: seq<nat>, cur: nat, pos: Pos, g: int)
    returns (skip: bool)
    requires Rooted(nodes) && InArena(nodes, open) && InArena(nodes, closed) && cur < |nodes|
    ensures skip <==>
      (nodes[cur].parent.Some? && pos == nodes[nodes[cur].parent.value].position) ||
      Holds(nodes, closed, pos) || HoldsCheaper(nodes, open, pos, g)
  {
    var current := nodes[cur];
    if current.parent.Some? && pos == nodes[current.parent.value].position {
      return true;
    }
    skip := AnyAt(nodes, closed, pos);
    if !skip {
      skip := AnyCheaperAt(nodes, open, pos, g);
    }
  }

  /** One step of the child loop of the waypoint search for the node just closed, `nodes[cur]`:
      neighbour waypoint j becomes a node at its point unless that point is the parent's, is
      closed, or is held by an open node with strictly smaller g. Either way its point ends up
      held by the closed or the open list. */
  method ConsiderWaypoint(wps: seq<Waypoint>, ghost startPos: nat, goal: Pos, nodes: seq<Node<Pos>>,
                          open: seq<nat>, closed: seq<nat>, ghost origin: seq<nat>, cur: nat, j: nat)
    returns (nodes': seq<Node<Pos>>, open': seq<nat>, ghost origin': seq<nat>, pushed: bool)
    requires WaypointTree(wps, startPos, nodes, origin) && WaypointCosts(nodes, goal)
    requires InArena(nodes, open) && InArena(nodes, closed)
    requires AncestorsClosed(nodes, closed) && SimpleChains(nodes)
    requires |closed| > 0 && closed[|closed| - 1] == cur && cur < |nodes|
    requires j in nodes[cur].children && j < |wps|
    ensures var c, pos := nodes[cur], PointOf(wps[j].position);
      var g := c.g + SquaredDistance(pos, c.position);
      && (pushed <==> !(c.parent.Some? && pos == nodes[c.parent.value].position) &&
                      !Holds(nodes, closed, pos) && !HoldsCheaper(nodes, open, pos, g))
      && (pushed ==> |nodes'| == |nodes| + 1 && open' == open + [|nodes|] && origin' == origin + [j]
                     && nodes'[|nodes|] == Node(Some(cur), pos, wps[j].neighbours, g, SquaredDistance(pos, goal), g + SquaredDistance(pos, goal)))
      && (!pushed ==> nodes' == nodes && open' == open && origin' == origin)
    ensures WaypointTree(wps, startPos, nodes', origin') && WaypointCosts(nodes', goal)
    ensures InArena(nodes', open') && InArena(nodes', closed)
    ensures AncestorsClosed(nodes', closed) && SimpleChains(nodes')
    ensures |nodes| <= |nodes'| && nodes'[..|nodes|] == nodes
    ensures Holds(nodes', closed, PointOf(wps[j].position)) || Holds(nodes', open', PointOf(wps[j].position))
    ensures forall q :: Holds(nodes, open, q) ==> Holds(nodes', open', q)
    ensures forall q :: Holds(nodes', closed, q) == Holds(nodes, closed, q)
    ensures PositionsOf(nodes', closed) == PositionsOf(nodes, closed)
    ensures Stale(nodes', closed, open') == Stale(nodes, closed, open)
  {
    var pos := PointOf(wps[j].position);
    var current := nodes[cur];
    var g := current.g + Square(pos.0 - current.position.0) + Square(pos.1 - current.position.1);
    var h := Square(pos.0 - goal.0) + Square(pos.1 - goal.1);
    var skip := WaypointChildSkipped(nodes, open, closed, cur, pos, g);
    if skip {
      if current.parent.Some? && pos == nodes[current.parent.value].position {
        ghost var c := Chain(nodes, cur);
        assert c == Chain(nodes, current.parent.value) + [current.position];
        assert c[|c| - 2] == pos;
      }
      nodes', open', origin', pushed := nodes, open, origin, false;
    } else {
      var x := Node(Some(cur), pos, wps[j].neighbours, g, h, g + h);
      PushChild(wps, startPos, goal, nodes, open, closed, origin, x, cur, j);
      nodes', open', origin', pushed := nodes + [x], open + [|nodes|], origin + [j], true;
    }
  }

  /** Pushing a child built from neighbour j of the just-closed node `nodes[cur]` at an unclosed
      point keeps every part of the waypoint search invariant that concerns the arena. */
  lemma PushChild(wps: seq<Waypoint>, startPos: nat, goal: Pos, nodes: seq<Node<Pos>>,
                  open: seq<nat>, closed: seq<nat>, origin: seq<nat>, x: Node<Pos>, cur: nat, j: nat)
    requires WaypointTree(wps, startPos, nodes, origin) && WaypointCosts(nodes, goal)
    requires InArena(nodes, open) && InArena(nodes, closed)
    requires AncestorsClosed(nodes, closed) && SimpleChains(nodes)
    requires |closed| > 0 && closed[|closed| - 1] == cur && cur < |nodes|
    requires j in nodes[cur].children && j < |wps|
    requires x.parent == Some(cur) && x.position == PointOf(wps[j].position) && x.children == wps[j].neighbours
    requires x.g == nodes[cur].g + SquaredDistance(x.position, nodes[cur].position)
    requires x.h == SquaredDistance(x.position, goal) && x.f == x.g + x.h
    requires !Holds(nodes, closed, x.position)
    ensures var nodes', open', origin' := nodes + [x], open + [|nodes|], origin + [j];
      && WaypointTree(wps, startPos, nodes', origin') && WaypointCosts(nodes', goal)
      && InArena(nodes', open') && InArena(nodes', closed)
      && AncestorsClosed(nodes', closed) && SimpleChains(nodes')
      && nodes'[..|nodes|] == nodes
      && Holds(nodes', open', x.position)
      && (forall q :: Holds(nodes, open, q) ==> Holds(nodes', open', q))
      && (forall q :: Holds(nodes', closed, q) == Holds(nodes, closed, q))
      && PositionsOf(nodes', closed) == PositionsOf(nodes, closed)
      && Stale(nodes', closed, open') == Stale(nodes, closed, open)
  {
    assert Holds(nodes, closed, nodes[cur].position) by {
      assert nodes[closed[|closed| - 1]].position == nodes[cur].position;
    }
    PushKeepsTree(nodes, open, closed, x, cur);
    CostsOfPushedChild(nodes, goal, x, cur);
    TreeOfPushedChild(wps, startPos, nodes, origin, x, cur, j);
    assert (nodes + [x])[..|nodes|] == nodes;
  }

  /** A step of the child loop that only adds nodes and open entries keeps the coverage of the
      earlier closed nodes and the points already held, and adds the point of neighbour j. */
  lemma HeldAfterConsider(wps: seq<Waypoint>, nodes: seq<Node<Pos>>, open: seq<nat>, closed: seq<nat>,
                          nodes': seq<Node<Pos>>, open': seq<nat>, js: seq<nat>, j: nat, upTo: nat)
    requires j < |wps|
    requires InArena(nodes, open) && InArena(nodes, closed) && InArena(nodes', open') && InArena(nodes', closed)
    requires upTo <= |closed| && |nodes| <= |nodes'| && nodes'[..|nodes|] == nodes
    requires forall q :: Holds(nodes, open, q) ==> Holds(nodes', open', q)
    requires forall q :: Holds(nodes', closed, q) == Holds(nodes, closed, q)
    requires WaypointsCovered(wps, nodes, open, closed, upTo) && PointsHeld(wps, nodes, open, closed, js)
    requires Holds(nodes', closed, PointOf(wps[j].position)) || Holds(nodes', open', PointOf(wps[j].position))
    ensures WaypointsCovered(wps, nodes', open', closed, upTo) && PointsHeld(wps, nodes', open', closed, js + [j])
  {
    forall k | 0 <= k < upTo ensures nodes'[closed[k]] == nodes[closed[k]] {
      assert nodes'[..|nodes|][closed[k]] == nodes'[closed[k]];
    }
  }

  /** The child loop of the waypoint search for the node just closed, `nodes[cur]`: afterwards the
      point of every neighbour of its waypoint is held by the closed or the open list. */
  method ExpandWaypoint(wps: seq<Waypoint>, ghost startPos: nat, goal: Pos, nodes: seq<Node<Pos>>,
                        open: seq<nat>, closed: seq<nat>, ghost origin: seq<nat>, cur: nat)
    returns (nodes': seq<Node<Pos>>, open': seq<nat>, ghost origin': seq<nat>)
    requires WellFormed(wps)
    requires WaypointTree(wps, startPos, nodes, origin) && WaypointCosts(nodes, goal)
    requires InArena(nodes, open) && InArena(nodes, closed)
    requires AncestorsClosed(nodes, closed) && SimpleChains(nodes)
    requires |closed| > 0 && closed[|closed| - 1] == cur && cur < |nodes|
    requires WaypointsCovered(wps, nodes, open, closed, |closed| - 1)
    ensures WaypointTree(wps, startPos, nodes', origin') && WaypointCosts(nodes', goal)
    ensures InArena(nodes', open') && InArena(nodes', closed)
    ensures AncestorsClosed(nodes', closed) && SimpleChains(nodes')
    ensures WaypointsCovered(wps, nodes', open', closed, |closed|)
    ensures forall q :: Holds(nodes', closed, q) == Holds(nodes, closed, q)
    ensures PositionsOf(nodes', closed) == PositionsOf(nodes, closed)
    ensures Stale(nodes', closed, open') == Stale(nodes, closed, open)
  {
    nodes', open', origin' := nodes, open, origin;
    var children := nodes[cur].children;
    assert forall i :: 0 <= i < |children| ==> children[i] < |wps| by {
      assert children == wps[origin[cur]].neighbours;
    }
    var i := 0;
    while i < |children|
      invariant 0 <= i <= |children|
      invariant |nodes| <= |nodes'| && nodes'[..|nodes|] == nodes
      invariant WaypointTree(wps, startPos, nodes', origin') && WaypointCosts(nodes', goal)
      invariant InArena(nodes', open') && InArena(nodes', closed)
      invariant AncestorsClosed(nodes', closed) && SimpleChains(nodes')
      invariant WaypointsCovered(wps, nodes', open', closed, |closed| - 1)
      invariant PointsHeld(wps, nodes', open', closed, children[..i])
      invariant forall q :: Holds(nodes', closed, q) == Holds(nodes, closed, q)
      invariant PositionsOf(nodes', closed) == PositionsOf(nodes, closed)
      invariant Stale(nodes', closed, open') == Stale(nodes, closed, open)
    {
      assert children[..i + 1] == children[..i] + [children[i]];
      assert nodes'[cur] == nodes[cur] by {
        assert nodes'[..|nodes|][cur] == nodes'[cur];
      }
      var n2, o2, or2, pushed := ConsiderWaypoint(wps, startPos, goal, nodes', open', closed, origin', cur, children[i]);
      HeldAfterConsider(wps, nodes', open', closed, n2, o2, children[..i], children[i], |closed| - 1);
      assert n2[..|nodes|] == nodes by {
        assert n2[..|nodes'|][..|nodes|] == n2[..|nodes|];
      }
      nodes', open', origin' := n2, o2, or2;
      i := i + 1;
    }
    assert nodes'[cur] == nodes[cur] by {
      assert nodes'[..|nodes|][cur] == nodes'[cur];
    }
    assert children[..i] == children;
    CoverLast(wps, nodes', open', closed);
  }

  /** After popping `closed'[|closed'| - 1]` the coverage of the earlier closed nodes carries over. */
  lemma CoveredAfterPop(wps: seq<Waypoint>, nodes: seq<Node<Pos>>, open: seq<nat>, closed: seq<nat>,
                        open': seq<nat>, closed': seq<nat>)
    requires InArena(nodes, open) && InArena(nodes, closed) && InArena(nodes, open') && InArena(nodes, closed')
    requires |closed'| == |closed| + 1 && closed'[..|closed|] == closed
    requires forall q :: Holds(nodes, open, q) ==> Holds(nodes, open', q) || Holds(nodes, closed', q)
    requires forall q :: Holds(nodes, closed, q) ==> Holds(nodes, closed', q)
    requires WaypointsCovered(wps, nodes, open, closed, |closed|)
    ensures WaypointsCovered(wps, nodes, open', closed', |closed'| - 1)
  {
    forall k | 0 <= k < |closed| ensures closed'[k] == closed[k] {
      assert closed'[..|closed|][k] == closed'[k];
    }
  }

  /** The waypoints the search built the nodes of a list from. */
  ghost function OriginsOf(origin: seq<nat>, list: seq<nat>): set<nat> {
    set k | 0 <= k < |list| && list[k] < |origin| :: origin[list[k]]
  }

  /** The waypoints behind the chain of node n, from the root down. */
  ghost function RouteTo(nodes: seq<Node<Pos>>, origin: seq<nat>, n: nat): seq<nat>
    requires Rooted(nodes) && n < |nodes| && |origin| == |nodes|
  {
    var c := ChainNodes(nodes, n);
    ChainNodesClimbParents(nodes, n);
    seq(|c|, i requires 0 <= i < |c| => origin[c[i]])
  }

  /** The chain of any node reads the points of a walk from the start waypoint through the graph,
      one waypoint per position. */
  lemma RouteIsWalk(wps: seq<Waypoint>, startPos: nat, nodes: seq<Node<Pos>>, origin: seq<nat>, n: nat)
    requires WaypointTree(wps, startPos, nodes, origin) && n < |nodes|
    ensures var route, path := RouteTo(nodes, origin, n), Chain(nodes, n);
      && Walk(wps, route) && route[0] == startPos && |route| == |path|
      && forall k :: 0 <= k < |route| ==> path[k] == PointOf(wps[route[k]].position)
  {
    var c := ChainNodes(nodes, n);
    ChainNodesClimbParents(nodes, n);
    var route := RouteTo(nodes, origin, n);
    forall k | 0 <= k < |route| - 1 ensures route[k + 1] in wps[route[k]].neighbours {
      assert nodes[c[k + 1]].parent == Some(c[k]);
      assert FromParentsNeighbour(nodes, origin, c[k + 1]);
    }
  }

  /** When the open list runs empty the closed list is closed under the graph: the start waypoint
      was expanded, every expanded waypoint's neighbours have reached points, every reached point
      is an expanded waypoint's, and the goal point was never reached. */
  lemma ExhaustedSearchIsClosed(wps: seq<Waypoint>, startPos: nat, goal: Pos,
                                nodes: seq<Node<Pos>>, closed: seq<nat>, origin: seq<nat>)
    requires WaypointSearch(wps, startPos, goal, nodes, [], closed, origin)
    requires |closed| > 0 && closed[0] == 0
    ensures WaypointsExhausted(wps, startPos, goal, OriginsOf(origin, closed), PositionsOf(nodes, closed))
  {
    var expanded, reached := OriginsOf(origin, closed), PositionsOf(nodes, closed);
    assert origin[closed[0]] == startPos;
    forall e, j | e in expanded && j in wps[e].neighbours && j < |wps| ensures PointOf(wps[j].position) in reached {
      var k :| 0 <= k < |closed| && closed[k] < |origin| && origin[closed[k]] == e;
      assert j in nodes[closed[k]].children;
      var m :| 0 <= m < |closed| && nodes[closed[m]].position == PointOf(wps[j].position);
    }
    forall p | p in reached ensures exists e :: e in expanded && PointOf(wps[e].position) == p {
      var k :| 0 <= k < |closed| && nodes[closed[k]].position == p;
      assert origin[closed[k]] in expanded;
    }
  }

  /** The first half of an iteration of the waypoint search: the cheapest-first open node moves to
      the closed list. The closed list gains only its position, the coverage of the earlier closed
      nodes carries over, and the pair (unclosed points, stale open entries) goes down. */
  method PopWaypoint(wps: seq<Waypoint>, nodes: seq<Node<Pos>>, open: seq<nat>, closed: seq<nat>)
    returns (open': seq<nat>, closed': seq<nat>, cur: nat, k: nat)
    requires Rooted(nodes) && InArena(nodes, open) && InArena(nodes, closed) && |open| > 0
    requires AncestorsClosed(nodes, closed) && WaypointsCovered(wps, nodes, open, closed, |closed|)
    requires forall n :: 0 <= n < |nodes| ==> nodes[n].position in WaypointPoints(wps)
    requires |closed| == 0 ==> open == [0]
    requires |closed| > 0 ==> closed[0] == 0
    ensures CheapestFirst(nodes, open, k) && cur == open[k]
    ensures open' == open[..k] + open[k + 1..] && closed' == closed + [cur]
    ensures InArena(nodes, open') && InArena(nodes, closed')
    ensures |closed'| > 0 && closed'[0] == 0 && closed'[|closed'| - 1] == cur && cur < |nodes|
    ensures AncestorsClosed(nodes, closed')
    ensures forall q :: Holds(nodes, closed', q) ==> Holds(nodes, closed, q) || q == nodes[cur].position
    ensures WaypointsCovered(wps, nodes, open', closed', |closed'| - 1)
    ensures |WaypointPoints(wps) - PositionsOf(nodes, closed')| < |WaypointPoints(wps) - PositionsOf(nodes, closed)| ||
      (|WaypointPoints(wps) - PositionsOf(nodes, closed')| == |WaypointPoints(wps) - PositionsOf(nodes, closed)| &&
       Stale(nodes, closed', open') < Stale(nodes, closed, open))
  {
    k := SelectCheapest(nodes, open);
    cur := open[k];
    PopProgresses(nodes, open, closed, k, WaypointPoints(wps));
    open', closed' := open[..k] + open[k + 1..], closed + [cur];
    AncestorsStayClosed(nodes, closed, closed');
    assert closed'[..|closed|] == closed;
    CoveredAfterPop(wps, nodes, open, closed, open', closed');
  }

  /** The path a successful waypoint search returns for the goal node n: the points of a walk from
      the start waypoint that never repeats a point and ends at the goal. */
  ghost predicate WaypointPath(wps: seq<Waypoint>, startPos: nat, goal: Pos, path: seq<Pos>, route: seq<nat>) {
    && Walk(wps, route) && route[0] == startPos && |route| == |path|
    && (forall k :: 0 <= k < |route| ==> path[k] == PointOf(wps[route[k]].position))
    && path[|path| - 1] == goal
    && NoRepeats(path)
  }

  /** One iteration of the waypoint search: pop the cheapest-first open node onto the closed list;
      if it stands at the goal, return the path to it; otherwise expand it. */
  method WaypointIteration(wps: seq<Waypoint>, ghost startPos: nat, goal: Pos, nodes: seq<Node<Pos>>,
                           open: seq<nat>, closed: seq<nat>, ghost origin: seq<nat>)
    returns (found: Option<seq<Pos>>, nodes': seq<Node<Pos>>, open': seq<nat>, closed': seq<nat>,
             ghost origin': seq<nat>, ghost route: seq<nat>)
    requires WellFormed(wps)
    requires WaypointSearch(wps, startPos, goal, nodes, open, closed, origin) && |open| > 0
    requires |closed| == 0 ==> open == [0]
    requires |closed| > 0 ==> closed[0] == 0
    ensures found.Some? ==> WaypointPath(wps, startPos, goal, found.value, route)
    ensures found.None? ==>
      && WaypointSearch(wps, startPos, goal, nodes', open', closed', origin')
      && |closed'| > 0 && closed'[0] == 0
      && (|WaypointPoints(wps) - PositionsOf(nodes', closed')| < |WaypointPoints(wps) - PositionsOf(nodes, closed)| ||
          (|WaypointPoints(wps) - PositionsOf(nodes', closed')| == |WaypointPoints(wps) - PositionsOf(nodes, closed)| &&
           Stale(nodes', closed', open') < Stale(nodes, closed, open)))
  {
    TreePointsInUniverse(wps, startPos, nodes, origin);
    var cur, k;
    open', closed', cur, k := PopWaypoint(wps, nodes, open, closed);
    if nodes[cur].position == goal {
      var path := TracePath(nodes, cur);
      RouteIsWalk(wps, startPos, nodes, origin, cur);
      route := RouteTo(nodes, origin, cur);
      return Some(path), nodes, open', closed', origin, route;
    }
    route := [];
    found := None;
    nodes', open', origin' := ExpandWaypoint(wps, startPos, goal, nodes, open', closed', origin, cur);
  }

  /** The search starts from the root alone on the open list, nothing closed. */
  lemma InitialWaypointSearch(wps: seq<Waypoint>, startPos: nat, goal: Pos)
    requires startPos < |wps|
    ensures var root := Node(None, PointOf(wps[startPos].position), wps[startPos].neighbours, 0, 0, 0);
      WaypointSearch(wps, startPos, goal, [root], [0], [], [startPos])
  {
    var root := Node(None, PointOf(wps[startPos].position), wps[startPos].neighbours, 0, 0, 0);
    assert Chain([root], 0) == [root.position];
  }

  /** What a failed waypoint search leaves: the expanded waypoints hold the start, their points and
      their neighbours' points are reached, every reached point is an expanded waypoint's, and
      the goal's point is not reached. */
  ghost predicate WaypointsExhausted(wps: seq<Waypoint>, startPos: nat, goal: Pos, expanded: set<nat>, reached: set<Pos>) {
    && startPos in expanded
    && (forall e :: e in expanded ==> e < |wps| && PointOf(wps[e].position) in reached)
    && (forall e, j :: e in expanded && j in wps[e].neighbours && j < |wps| ==> PointOf(wps[j].position) in reached)
    && (forall p :: p in reached ==> exists e :: e in expanded && PointOf(wps[e].position) == p)
    && goal !in reached
  }

  /** No two waypoints stand at the same point. */
  predicate DistinctPoints(wps: seq<Waypoint>) {
    forall a, b :: 0 <= a < |wps| && 0 <= b < |wps| && PointOf(wps[a].position) == PointOf(wps[b].position) ==> a == b
  }

  /** A failed waypoint search is complete on a graph whose waypoints stand at distinct points:
      every walk from the start waypoint stays among the expanded waypoints and never ends at the
      goal's point. */
  lemma {:induction false} ExhaustedSearchExcludesWalks(wps: seq<Waypoint>, startPos: nat, goal: Pos,
                                                        expanded: set<nat>, reached: set<Pos>, route: seq<nat>)
    requires WaypointsExhausted(wps, startPos, goal, expanded, reached) && DistinctPoints(wps)
    requires Walk(wps, route) && route[0] == startPos
    ensures forall k :: 0 <= k < |route| ==> route[k] in expanded
    ensures PointOf(wps[route[|route| - 1]].position) != goal
    decreases |route|
  {
    if |route| > 1 {
      var pre := route[..|route| - 1];
      assert Walk(wps, pre) by {
        forall k | 0 <= k < |pre| - 1 ensures pre[k + 1] in wps[pre[k]].neighbours {
          assert pre[k] == route[k] && pre[k + 1] == route[k + 1];
        }
      }
      ExhaustedSearchExcludesWalks(wps, startPos, goal, expanded, reached, pre);
      var last, before := route[|route| - 1], route[|route| - 2];
      assert before == pre[|pre| - 1] && before in expanded;
      assert PointOf(wps[last].position) in reached;
      var e :| e in expanded && PointOf(wps[e].position) == PointOf(wps[last].position);
      assert e == last;
      forall k | 0 <= k < |route| ensures route[k] in expanded {
        if k < |pre| {
          assert route[k] == pre[k];
        }
      }
    }
  }

  /** Every node of a waypoint tree stands at the point of a waypoint. */
  lemma TreePointsInUniverse(wps: seq<Waypoint>, startPos: nat, nodes: seq<Node<Pos>>, origin: seq<nat>)
    requires WaypointTree(wps, startPos, nodes, origin)
    ensures forall n :: 0 <= n < |nodes| ==> nodes[n].position in WaypointPoints(wps)
  {
    forall n | 0 <= n < |nodes| ensures nodes[n].position in WaypointPoints(wps) {
      assert origin[n] < |wps|;
    }
  }

  /** The binarised image has at least one row and all rows have the width of the first. */
  predicate Rectangular(grid: seq<seq<int>>) {
    |grid| > 0 && forall r :: 0 <= r < |grid| ==> |grid[r]| == |grid[0]|
  }

  /** The bounds test of the pixel search on a (row, col) cell: the row is below the height and
      the column at most the width of the first row minus one. */
  predicate InGrid(grid: seq<seq<int>>, p: Pos) {
    |grid| > 0 && 0 <= p.0 < |grid| && 0 <= p.1 <= |grid[0]| - 1
  }

  /** A cell the pixel search may step on: inside the grid and white (255). */
  predicate Walkable(grid: seq<seq<int>>, p: Pos) {
    InGrid(grid, p) && p.1 < |grid[p.0]| && grid[p.0][p.1] == 255
  }

  /** The four moves of the pixel search, in the order it tries them. */
  const Moves: seq<Pos> := [(0, -1), (0, 1), (-1, 0), (1, 0)]

  function Shift(p: Pos, m: Pos): Pos { (p.0 + m.0, p.1 + m.1) }

  /** `b` is one of the four moves away from `a`. */
  predicate UnitStep(a: Pos, b: Pos) {
    (b.0 - a.0, b.1 - a.1) in Moves
  }

  /** Some cell one move away from p is in `cells`: p is a step from one of them. */
  predicate NextToSome(cells: set<Pos>, p: Pos) {
    (p.0, p.1 + 1) in cells || (p.0, p.1 - 1) in cells || (p.0 + 1, p.1) in cells || (p.0 - 1, p.1) in cells
  }

  /** The walkable cells reached from p by the moves `ms`, in the order of `ms`. */
  function SuccessorsAmong(grid: seq<seq<int>>, p: Pos, ms: seq<Pos>): seq<Pos> {
    if |ms| == 0 then []
    else
      var q := Shift(p, ms[|ms| - 1]);
      SuccessorsAmong(grid, p, ms[..|ms| - 1]) + (if Walkable(grid, q) then [q] else [])
  }

  /** The children the pixel search builds for a node at p. */
  function Successors(grid: seq<seq<int>>, p: Pos): seq<Pos> {
    SuccessorsAmong(grid, p, Moves)
  }

  lemma {:induction false} SuccessorsAmongMembers(grid: seq<seq<int>>, p: Pos, ms: seq<Pos>)
    ensures forall q :: q in SuccessorsAmong(grid, p, ms) <==> Walkable(grid, q) && (q.0 - p.0, q.1 - p.1) in ms
    decreases |ms|
  {
    if |ms| > 0 {
      var pre := ms[..|ms| - 1];
      SuccessorsAmongMembers(grid, p, pre);
      assert ms == pre + [ms[|ms| - 1]];
      forall q: Pos ensures (q.0 - p.0, q.1 - p.1) in ms <==> (q.0 - p.0, q.1 - p.1) in pre || q == Shift(p, ms[|ms| - 1]) {
      }
    }
  }

  /** A cell is a child of p exactly when it is one move away from p and walkable. */
  lemma SuccessorsAreWalkableSteps(grid: seq<seq<int>>, p: Pos)
    ensures forall q :: q in Successors(grid, p) <==> UnitStep(p, q) && Walkable(grid, q)
  {
    SuccessorsAmongMembers(grid, p, Moves);
  }

  /** The first loop of an expansion of the pixel search: the moves that stay inside the grid and
      land on a white cell, in move order. */
  method NeighbourCells(grid: seq<seq<int>>, p: Pos) returns (cells: seq<Pos>)
    requires Rectangular(grid)
    ensures cells == Successors(grid, p)
  {
    cells := [];
    var i := 0;
    while i < |Moves|
      invariant 0 <= i <= |Moves|
      invariant cells == SuccessorsAmong(grid, p, Moves[..i])
    {
      var q := Shift(p, Moves[i]);
      var h := |grid|;
      var w := |grid[0]|;
      assert Moves[..i + 1][..i] == Moves[..i];
      if q.0 >= h || q.0 < 0 || q.1 > w - 1 || q.1 < 0 {
      } else if grid[q.0][q.1] != 255 {
      } else {
        cells := cells + [q];
      }
      i := i + 1;
    }
    assert Moves[..i] == Moves;
  }

  /** A walk over the grid from `start`: consecutive cells are one move apart and every cell after
      the first is walkable. */
  predicate GridWalk(grid: seq<seq<int>>, start: Pos, w: seq<Pos>) {
    && |w| >= 1 && w[0] == start
    && forall k :: 0 <= k < |w| - 1 ==> StepAt(grid, w, k)
  }

  /** The move from `w[k]` to `w[k + 1]` is one of the four and lands on a walkable cell. */
  predicate StepAt(grid: seq<seq<int>>, w: seq<Pos>, k: int)
    requires 0 <= k < |w| - 1
  {
    UnitStep(w[k], w[k + 1]) && Walkable(grid, w[k + 1])
  }

  /** The path a successful pixel search returns: a grid walk from the start to the goal that
      never visits a cell twice. */
  predicate PixelPath(grid: seq<seq<int>>, start: Pos, goal: Pos, path: seq<Pos>) {
    GridWalk(grid, start, path) && path[|path| - 1] == goal && NoRepeats(path)
  }

  /** The node tree of the pixel search: the root stands at the start, and every other node one
      move away from its parent on a walkable cell. */
  ghost predicate PixelTree(grid: seq<seq<int>>, start: Pos, nodes: seq<Node<Pos>>) {
    && Rooted(nodes) && nodes[0].position == start
    && forall n :: 0 < n < |nodes| ==> SteppedFromParent(grid, nodes, n)
  }

  /** Node n stands one move away from its parent, on a walkable cell. */
  ghost predicate SteppedFromParent(grid: seq<seq<int>>, nodes: seq<Node<Pos>>, n: int)
    requires Rooted(nodes) && 0 < n < |nodes|
  {
    UnitStep(nodes[nodes[n].parent.value].position, nodes[n].position) && Walkable(grid, nodes[n].position)
  }

  /** The cost rules of the pixel search: the root costs nothing, a child's g is its parent's plus
      one, its h the squared distance to the goal. */
  ghost predicate PixelCosts(nodes: seq<Node<Pos>>, goal: Pos)
    requires Rooted(nodes)
  {
    && nodes[0].g == 0 && nodes[0].h == 0 && nodes[0].f == 0
    && forall n :: 0 < n < |nodes| ==> CostedByStep(nodes, goal, n)
  }

  /** Node n's costs follow from its parent's by the pixel search's rules. */
  ghost predicate CostedByStep(nodes: seq<Node<Pos>>, goal: Pos, n: int)
    requires Rooted(nodes) && 0 < n < |nodes|
  {
    var p := nodes[nodes[n].parent.value];
    && nodes[n].g == p.g + 1
    && nodes[n].h == SquaredDistance(nodes[n].position, goal)
    && nodes[n].f == nodes[n].g + nodes[n].h
  }

  /** In the pixel search g counts the moves from the start: it is the length of the node's chain
      minus one. */
  lemma {:induction false} CostCountsMoves(nodes: seq<Node<Pos>>, goal: Pos, n: nat)
    requires Rooted(nodes) && PixelCosts(nodes, goal) && n < |nodes|
    ensures nodes[n].g == |Chain(nodes, n)| - 1
    decreases n
  {
    match nodes[n].parent
    case None =>
    case Some(p) =>
      CostCountsMoves(nodes, goal, p);
      assert CostedByStep(nodes, goal, n);
  }

  /** Every child of every expanded node stands at a cell some closed or open node holds. */
  ghost predicate PixelsCovered(grid: seq<seq<int>>, nodes: seq<Node<Pos>>, open: seq<nat>, closed: seq<nat>, upTo: int)
    requires InArena(nodes, open) && InArena(nodes, closed) && upTo <= |closed|
  {
    forall k, q :: 0 <= k < upTo && q in Successors(grid, nodes[closed[k]].position) ==>
      Holds(nodes, closed, q) || Holds(nodes, open, q)
  }

  /** The search invariant of the pixel search. */
  ghost predicate PixelSearch(grid: seq<seq<int>>, start: Pos, goal: Pos,
                              nodes: seq<Node<Pos>>, open: seq<nat>, closed: seq<nat>)
  {
    && PixelTree(grid, start, nodes)
    && PixelCosts(nodes, goal)
    && InArena(nodes, open) && InArena(nodes, closed)
    && AncestorsClosed(nodes, closed) && SimpleChains(nodes)
    && !Holds(nodes, closed, goal)
    && PixelsCovered(grid, nodes, open, closed, |closed|)
  }

  /** Pushing a child one move away from the just-closed node `nodes[cur]`, on a walkable cell nobody
      has closed, keeps every part of the pixel search invariant that concerns the arena. */
  lemma PushPixel(grid: seq<seq<int>>, start: Pos, goal: Pos, nodes: seq<Node<Pos>>,
                  open: seq<nat>, closed: seq<nat>, x: Node<Pos>, cur: nat)
    requires PixelTree(grid, start, nodes) && PixelCosts(nodes, goal)
    requires InArena(nodes, open) && InArena(nodes, closed)
    requires AncestorsClosed(nodes, closed) && SimpleChains(nodes)
    requires |closed| > 0 && closed[|closed| - 1] == cur && cur < |nodes|
    requires x.parent == Some(cur) && UnitStep(nodes[cur].position, x.position) && Walkable(grid, x.position)
    requires x.g == nodes[cur].g + 1 && x.h == SquaredDistance(x.position, goal) && x.f == x.g + x.h
    requires !Holds(nodes, closed, x.position)
    ensures var nodes', open' := nodes + [x], open + [|nodes|];
      && PixelTree(grid, start, nodes') && PixelCosts(nodes', goal)
      && InArena(nodes', open') && InArena(nodes', closed)
      && AncestorsClosed(nodes', closed) && SimpleChains(nodes')
      && nodes'[..|nodes|] == nodes
      && Holds(nodes', open', x.position)
      && (forall q :: Holds(nodes, open, q) ==> Holds(nodes', open', q))
      && (forall q :: Holds(nodes', closed, q) == Holds(nodes, closed, q))
      && PositionsOf(nodes', closed) == PositionsOf(nodes, closed)
      && Stale(nodes', closed, open') == Stale(nodes, closed, open)
  {
    assert Holds(nodes, closed, nodes[cur].position) by {
      assert nodes[closed[|closed| - 1]].position == nodes[cur].position;
    }
    PushKeepsTree(nodes, open, closed, x, cur);
    var nodes' := nodes + [x];
    forall n | 0 < n < |nodes'| ensures SteppedFromParent(grid, nodes', n) && CostedByStep(nodes', goal, n) {
      if n < |nodes| {
        assert SteppedFromParent(grid, nodes, n) && CostedByStep(nodes, goal, n);
        var p := nodes[n].parent.value;
        assert nodes'[n] == nodes[n] && nodes'[p] == nodes[p];
      } else {
        assert nodes'[n] == x && nodes'[cur] == nodes[cur];
      }
    }
    assert nodes'[..|nodes|] == nodes;
  }

  /** One step of the child loop of the pixel search for the node just closed, `nodes[cur]`: cell q
      becomes a node unless it is closed or held by an open node with strictly smaller g. Either
      way q ends up held by the closed or the open list; `pushed` tells whether a node was added. */
  method ConsiderPixel(grid: seq<seq<int>>, ghost start: Pos, goal: Pos, nodes: seq<Node<Pos>>,
                       open: seq<nat>, closed: seq<nat>, cur: nat, q: Pos)
    returns (nodes': seq<Node<Pos>>, open': seq<nat>, pushed: bool)
    requires PixelTree(grid, start, nodes) && PixelCosts(nodes, goal)
    requires InArena(nodes, open) && InArena(nodes, closed)
    requires AncestorsClosed(nodes, closed) && SimpleChains(nodes)
    requires |closed| > 0 && closed[|closed| - 1] == cur && cur < |nodes|
    requires UnitStep(nodes[cur].position, q) && Walkable(grid, q)
    ensures PixelTree(grid, start, nodes') && PixelCosts(nodes', goal)
    ensures InArena(nodes', open') && InArena(nodes', closed)
    ensures AncestorsClosed(nodes', closed) && SimpleChains(nodes')
    ensures |nodes| <= |nodes'| && nodes'[..|nodes|] == nodes
    ensures pushed <==> !Holds(nodes, closed, q) && !HoldsCheaper(nodes, open, q, nodes[cur].g + 1)
    ensures var g := nodes[cur].g + 1;
      pushed ==> nodes' == nodes + [Node(Some(cur), q, [], g, SquaredDistance(q, goal), g + SquaredDistance(q, goal))]
                 && open' == open + [|nodes|]
    ensures !pushed ==> nodes' == nodes && open' == open
    ensures Holds(nodes', closed, q) || Holds(nodes', open', q)
    ensures forall p :: Holds(nodes, open, p) ==> Holds(nodes', open', p)
    ensures forall p :: Holds(nodes', closed, p) == Holds(nodes, closed, p)
    ensures PositionsOf(nodes', closed) == PositionsOf(nodes, closed)
    ensures Stale(nodes', closed, open') == Stale(nodes, closed, open)
  {
    var isClosed := AnyAt(nodes, closed, q);
    if isClosed {
      return nodes, open, false;
    }
    var g := nodes[cur].g + 1;
    var h := Square(q.0 - goal.0) + Square(q.1 - goal.1);
    var cheaper := AnyCheaperAt(nodes, open, q, g);
    if cheaper {
      return nodes, open, false;
    }
    var x := Node(Some(cur), q, [], g, h, g + h);
    PushPixel(grid, start, goal, nodes, open, closed, x, cur);
    nodes', open', pushed := nodes + [x], open + [|nodes|], true;
  }

  /** The given cells are all held by the closed or the open list. */
  ghost predicate CellsHeld(nodes: seq<Node<Pos>>, open: seq<nat>, closed: seq<nat>, qs: seq<Pos>)
    requires InArena(nodes, open) && InArena(nodes, closed)
  {
    forall q :: q in qs ==> Holds(nodes, closed, q) || Holds(nodes, open, q)
  }

  /** Once the children of the last closed node are held, every closed node is covered. */
  lemma CoverLastPixel(grid: seq<seq<int>>, nodes: seq<Node<Pos>>, open: seq<nat>, closed: seq<nat>)
    requires InArena(nodes, open) && InArena(nodes, closed) && |closed| > 0
    requires PixelsCovered(grid, nodes, open, closed, |closed| - 1)
    requires CellsHeld(nodes, open, closed, Successors(grid, nodes[closed[|closed| - 1]].position))
    ensures PixelsCovered(grid, nodes, open, closed, |closed|)
  {
  }

  /** The cells of the nodes from index `from` on: the cells the search marked once it had `from` nodes. */
  ghost function PushedSince(nodes: seq<Node<Pos>>, from: nat): set<Pos> {
    set n | from <= n < |nodes| :: nodes[n].position
  }

  lemma PushedSinceGrows(nodes: seq<Node<Pos>>, x: Node<Pos>, from: nat)
    requires from <= |nodes|
    ensures PushedSince(nodes + [x], from) == PushedSince(nodes, from) + {x.position}
  {
    var nodes' := nodes + [x];
    assert nodes'[|nodes|] == x;
    forall n | from <= n < |nodes| ensures nodes'[n] == nodes[n] {
    }
  }

  lemma PushedSinceSplits(nodes: seq<Node<Pos>>, nodes': seq<Node<Pos>>, from: nat)
    requires from <= |nodes| <= |nodes'| && nodes'[..|nodes|] == nodes
    ensures PushedSince(nodes', from) == PushedSince(nodes, from) + PushedSince(nodes', |nodes|)
  {
    forall n | from <= n < |nodes| ensures nodes'[n] == nodes[n] {
      assert nodes'[..|nodes|][n] == nodes'[n];
    }
  }

  /** After popping `closed'[|closed'| - 1]` the coverage of the earlier closed nodes carries over. */
  lemma CoveredAfterPixelPop(grid: seq<seq<int>>, nodes: seq<Node<Pos>>, open: seq<nat>, closed: seq<nat>,
                             open': seq<nat>, closed': seq<nat>)
    requires InArena(nodes, open) && InArena(nodes, closed) && InArena(nodes, open') && InArena(nodes, closed')
    requires |closed'| == |closed| + 1 && closed'[..|closed|] == closed
    requires forall q :: Holds(nodes, open, q) ==> Holds(nodes, open', q) || Holds(nodes, closed', q)
    requires forall q :: Holds(nodes, closed, q) ==> Holds(nodes, closed', q)
    requires PixelsCovered(grid, nodes, open, closed, |closed|)
    ensures PixelsCovered(grid, nodes, open', closed', |closed'| - 1)
  {
    forall k | 0 <= k < |closed| ensures closed'[k] == closed[k] {
      assert closed'[..|closed|][k] == closed'[k];
    }
  }

  /** Every node the pixel search can build stands at the start or at a cell of the grid. */
  ghost function PixelUniverse(grid: seq<seq<int>>, start: Pos): set<Pos>
    requires |grid| > 0
  {
    (set r, c | 0 <= r < |grid| && 0 <= c < |grid[0]| :: (r, c)) + {start}
  }

  lemma TreeCellsInUniverse(grid: seq<seq<int>>, start: Pos, nodes: seq<Node<Pos>>)
    requires Rectangular(grid) && PixelTree(grid, start, nodes)
    ensures forall n :: 0 <= n < |nodes| ==> nodes[n].position in PixelUniverse(grid, start)
  {
    forall n | 0 < n < |nodes| ensures nodes[n].position in PixelUniverse(grid, start) {
      assert SteppedFromParent(grid, nodes, n);
      var p := nodes[n].position;
      assert p == (p.0, p.1);
    }
  }

  /** The first half of an iteration of the pixel search: the cheapest-first open node moves to
      the closed list, as in the waypoint search. */
  method PopPixel(grid: seq<seq<int>>, ghost start: Pos, nodes: seq<Node<Pos>>, open: seq<nat>, closed: seq<nat>)
    returns (open': seq<nat>, closed': seq<nat>, cur: nat, k: nat)
    requires Rectangular(grid) && PixelTree(grid, start, nodes)
    requires InArena(nodes, open) && InArena(nodes, closed) && |open| > 0
    requires AncestorsClosed(nodes, closed) && PixelsCovered(grid, nodes, open, closed, |closed|)
    requires |closed| == 0 ==> open == [0]
    requires |closed| > 0 ==> closed[0] == 0
    ensures CheapestFirst(nodes, open, k) && cur == open[k]
    ensures open' == open[..k] + open[k + 1..] && closed' == closed + [cur]
    ensures InArena(nodes, open') && InArena(nodes, closed')
    ensures |closed'| > 0 && closed'[0] == 0 && closed'[|closed'| - 1] == cur && cur < |nodes|
    ensures AncestorsClosed(nodes, closed')
    ensures forall q :: Holds(nodes, closed', q) ==> Holds(nodes, closed, q) || q == nodes[cur].position
    ensures PixelsCovered(grid, nodes, open', closed', |closed'| - 1)
    ensures |PixelUniverse(grid, start) - PositionsOf(nodes, closed')| < |PixelUniverse(grid, start) - PositionsOf(nodes, closed)| ||
      (|PixelUniverse(grid, start) - PositionsOf(nodes, closed')| == |PixelUniverse(grid, start) - PositionsOf(nodes, closed)| &&
       Stale(nodes, closed', open') < Stale(nodes, closed, open))
  {
    k := SelectCheapest(nodes, open);
    cur := open[k];
    TreeCellsInUniverse(grid, start, nodes);
    PopProgresses(nodes, open, closed, k, PixelUniverse(grid, start));
    open', closed' := open[..k] + open[k + 1..], closed + [cur];
    AncestorsStayClosed(nodes, closed, closed');
    assert closed'[..|closed|] == closed;
    CoveredAfterPixelPop(grid, nodes, open, closed, open', closed');
  }

  /** The chain of any node of the pixel tree is a grid walk from the start. */
  lemma {:induction false} ChainIsGridWalk(grid: seq<seq<int>>, start: Pos, nodes: seq<Node<Pos>>, n: nat)
    requires PixelTree(grid, start, nodes) && n < |nodes|
    ensures GridWalk(grid, start, Chain(nodes, n))
    decreases n
  {
    match nodes[n].parent
    case None =>
    case Some(p) =>
      ChainIsGridWalk(grid, start, nodes, p);
      assert SteppedFromParent(grid, nodes, n);
      var c, w := Chain(nodes, p), Chain(nodes, n);
      assert w == c + [nodes[n].position];
      forall k | 0 <= k < |w| - 1 ensures StepAt(grid, w, k) {
        if k < |c| - 1 {
          assert StepAt(grid, c, k);
          assert w[k] == c[k] && w[k + 1] == c[k + 1];
        } else {
          assert w[k] == nodes[p].position && w[k + 1] == nodes[n].position;
        }
      }
  }

  /** The pixel search starts from the root alone on the open list, nothing closed. */
  lemma InitialPixelSearch(grid: seq<seq<int>>, start: Pos, goal: Pos)
    ensures PixelSearch(grid, start, goal, [Node(None, start, [], 0, 0, 0)], [0], [])
  {
    assert Chain([Node(None, start, [], 0, 0, 0)], 0) == [start];
  }

  /** What a failed pixel search leaves: the explored cells hold the start, every walkable cell one
      move away from an explored cell is explored, and the goal is not. */
  ghost predicate PixelsExhausted(grid: seq<seq<int>>, start: Pos, goal: Pos, explored: set<Pos>) {
    && start in explored
    && (forall p, q :: p in explored && UnitStep(p, q) && Walkable(grid, q) ==> q in explored)
    && goal !in explored
  }

  /** When the open list runs empty the closed cells are closed under moves onto walkable cells. */
  lemma ExhaustedPixelSearchIsClosed(grid: seq<seq<int>>, start: Pos, goal: Pos,
                                     nodes: seq<Node<Pos>>, closed: seq<nat>)
    requires PixelSearch(grid, start, goal, nodes, [], closed)
    requires |closed| > 0 && closed[0] == 0
    ensures PixelsExhausted(grid, start, goal, PositionsOf(nodes, closed))
  {
    var explored := PositionsOf(nodes, closed);
    assert nodes[closed[0]].position == start;
    forall p, q | p in explored && UnitStep(p, q) && Walkable(grid, q) ensures q in explored {
      var k :| 0 <= k < |closed| && nodes[closed[k]].position == p;
      SuccessorsAreWalkableSteps(grid, p);
      assert Holds(nodes, closed, q);
      var m :| 0 <= m < |closed| && nodes[closed[m]].position == q;
    }
  }

  /** A failed pixel search is complete: every grid walk from the start stays among the explored
      cells, so none ends at the goal. */
  lemma {:induction false} ExhaustedPixelSearchExcludesWalks(grid: seq<seq<int>>, start: Pos, goal: Pos,
                                                             explored: set<Pos>, w: seq<Pos>)
    requires PixelsExhausted(grid, start, goal, explored) && GridWalk(grid, start, w)
    ensures forall k :: 0 <= k < |w| ==> w[k] in explored
    ensures w[|w| - 1] != goal
    decreases |w|
  {
    if |w| > 1 {
      var pre := w[..|w| - 1];
      assert GridWalk(grid, start, pre) by {
        forall k | 0 <= k < |pre| - 1 ensures StepAt(grid, pre, k) {
          assert StepAt(grid, w, k);
          assert pre[k] == w[k] && pre[k + 1] == w[k + 1];
        }
      }
      ExhaustedPixelSearchExcludesWalks(grid, start, goal, explored, pre);
      assert w[|w| - 2] == pre[|pre| - 1];
      assert StepAt(grid, w, |w| - 2);
      forall k | 0 <= k < |w| ensures w[k] in explored {
        if k < |pre| {
          assert w[k] == pre[k];
        }
      }
    }
  }

  /** The cells of the nodes but the root are the cells of the search's children: each is walkable
      and one move from a closed cell (its parent's), and every closed cell but the start's is one. */
  lemma PushedCellsBorderClosed(grid: seq<seq<int>>, start: Pos, nodes: seq<Node<Pos>>, closed: seq<nat>)
    requires PixelTree(grid, start, nodes) && InArena(nodes, closed) && AncestorsClosed(nodes, closed)
    ensures forall p :: p in PushedSince(nodes, 1) ==> Walkable(grid, p) && NextToSome(PositionsOf(nodes, closed), p)
    ensures PositionsOf(nodes, closed) - {start} <= PushedSince(nodes, 1)
  {
    forall p | p in PushedSince(nodes, 1) ensures Walkable(grid, p) && NextToSome(PositionsOf(nodes, closed), p) {
      var n :| 1 <= n < |nodes| && nodes[n].position == p;
      assert SteppedFromParent(grid, nodes, n);
      var e := nodes[nodes[n].parent.value].position;
      var c := Chain(nodes, n);
      assert c == Chain(nodes, nodes[n].parent.value) + [p];
      assert c[|c| - 2] == e;
      var k :| 0 <= k < |closed| && nodes[closed[k]].position == e;
    }
    forall p | p in PositionsOf(nodes, closed) - {start} ensures p in PushedSince(nodes, 1) {
      var k :| 0 <= k < |closed| && nodes[closed[k]].position == p;
    }
  }

  /** Every cell of a chain after the root's is the cell of a node other than the root. */
  lemma ChainPastRootPushed(nodes: seq<Node<Pos>>, n: nat)
    requires Rooted(nodes) && n < |nodes|
    ensures forall k :: 0 < k < |Chain(nodes, n)| ==> Chain(nodes, n)[k] in PushedSince(nodes, 1)
  {
    var c := ChainNodes(nodes, n);
    ChainNodesClimbParents(nodes, n);
    forall k | 0 < k < |c| ensures Chain(nodes, n)[k] in PushedSince(nodes, 1) {
      assert nodes[c[k]].parent == Some(c[k - 1]);
    }
  }

  /** The (x, y) to (row, col) conversion at the entry of the pixel search. */
  function Swap(p: Pos): Pos { (p.1, p.0) }

  /** The segments one after the other. */
  function Concat(segs: seq<seq<Pos>>): seq<Pos> {
    if |segs| == 0 then [] else Concat(segs[..|segs| - 1]) + segs[|segs| - 1]
  }

  /** Segment k is a pixel path from the cell of waypoint point k to that of point k + 1. */
  predicate PixelSegments(grid: seq<seq<int>>, points: seq<Pos>, segs: seq<seq<Pos>>) {
    && |points| == |segs| + 1
    && forall k :: 0 <= k < |segs| ==> PixelPath(grid, Swap(points[k]), Swap(points[k + 1]), segs[k])
  }

  /** Between entries i and i + 1 of `w` the walk moves by one of the four moves or stays put. */
  predicate MovesOrStaysAt(w: seq<Pos>, i: int)
    requires 0 <= i < |w| - 1
  {
    w[i + 1] == w[i] || UnitStep(w[i], w[i + 1])
  }

  /** The joined pixel path starts at the first waypoint's cell, ends at the last one's, and moves
      by at most one cell at a time: each segment ends on the cell where the next one starts, so
      the only repeats are those joints. */
  lemma {:induction false} JoinedSegmentsMoveByOne(grid: seq<seq<int>>, points: seq<Pos>, segs: seq<seq<Pos>>)
    requires PixelSegments(grid, points, segs)
    ensures |segs| > 0 ==>
      (|Concat(segs)| >= |segs| && Concat(segs)[0] == Swap(points[0]) &&
       Concat(segs)[|Concat(segs)| - 1] == Swap(points[|segs|]))
    ensures forall i :: 0 <= i < |Concat(segs)| - 1 ==> MovesOrStaysAt(Concat(segs), i)
    decreases |segs|
  {
    if |segs| > 0 {
      var pre, last := segs[..|segs| - 1], segs[|segs| - 1];
      assert PixelSegments(grid, points[..|points| - 1], pre) by {
        forall k | 0 <= k < |pre| ensures PixelPath(grid, Swap(points[k]), Swap(points[k + 1]), pre[k]) {
          assert PixelPath(grid, Swap(points[k]), Swap(points[k + 1]), segs[k]);
        }
      }
      JoinedSegmentsMoveByOne(grid, points[..|points| - 1], pre);
      var a := Concat(pre);
      var c := Concat(segs);
      assert c == a + last;
      assert PixelPath(grid, Swap(points[|segs| - 1]), Swap(points[|segs|]), last);
      forall i | 0 <= i < |c| - 1 ensures MovesOrStaysAt(c, i) {
        if i < |a| - 1 {
          assert MovesOrStaysAt(a, i);
          assert c[i] == a[i] && c[i + 1] == a[i + 1];
        } else if i == |a| - 1 {
          assert c[i] == a[|a| - 1] && c[i + 1] == last[0];
        } else {
          assert StepAt(grid, last, i - |a|);
          assert c[i] == last[i - |a|] && c[i + 1] == last[i - |a| + 1];
        }
      }
    }
  }

  /** The colours the path maker marks pixels with (blue, green, red channel order). */
  const Red: Pixel := [0, 0, 255]
  const Green: Pixel := [0, 255, 0]

  /** The path maker: the shared image it marks, the binarised grid it searches (0 or 255 per
      pixel, row by row) and the waypoint graph. */
  class PathMaker {
    const image: array2<Pixel>
    const grid: seq<seq<int>>
    const waypointList: seq<Waypoint>

    constructor (image: array2<Pixel>, grid: seq<seq<int>>, waypointList: seq<Waypoint>)
      ensures this.image == image && this.grid == grid && this.waypointList == waypointList
    {
      this.image := image;
      this.grid := grid;
      this.waypointList := waypointList;
    }

    /** A* over the waypoint graph from waypoint `startPos` to waypoint `endPos`. A returned path
        reads the points of a walk through the graph that starts at the start waypoint, ends at the
        goal's point and never repeats a point. No path means the search closed a set of
        waypoints that holds the start, is closed under the graph and never reaches the goal's
        point. */
    method AStarForWaypoints(startPos: nat, endPos: nat)
      returns (r: Option<seq<Pos>>, ghost route: seq<nat>, ghost expanded: set<nat>, ghost reached: set<Pos>)
      requires WellFormed(waypointList) && startPos < |waypointList| && endPos < |waypointList|
      requires waypointList[startPos].position.At? && waypointList[endPos].position.At?
      ensures r.Some? ==> WaypointPath(waypointList, startPos, waypointList[endPos].position.p, r.value, route)
      ensures r.None? ==> WaypointsExhausted(waypointList, startPos, waypointList[endPos].position.p, expanded, reached)
    {
      var wps := waypointList;
      var goal := wps[endPos].position.p;
      var nodes := [Node(None, wps[startPos].position.p, wps[startPos].neighbours, 0, 0, 0)];
      InitialWaypointSearch(wps, startPos, goal);
      var open: seq<nat> := [0];
      var closed: seq<nat> := [];
      ghost var origin: seq<nat> := [startPos];
      ghost var universe := WaypointPoints(wps);
      route, expanded, reached := [], {}, {};
      while |open| > 0
        invariant WaypointSearch(wps, startPos, goal, nodes, open, closed, origin)
        invariant |closed| == 0 ==> open == [0]
        invariant |closed| > 0 ==> closed[0] == 0
        decreases |universe - PositionsOf(nodes, closed)|, Stale(nodes, closed, open)
      {
        var found;
        found, nodes, open, closed, origin, route := WaypointIteration(wps, startPos, goal, nodes, open, closed, origin);
        if found.Some? {
          return found, route, expanded, reached;
        }
      }
      ExhaustedSearchIsClosed(wps, startPos, goal, nodes, closed, origin);
      expanded, reached := OriginsOf(origin, closed), PositionsOf(nodes, closed);
      return None, route, expanded, reached;
    }

    /** Marks the single pixel at (x, y) = `pos` with `color`; a point outside the image marks nothing. */
    method DrawPoint(pos: Pos, color: Pixel)
      modifies image
      ensures forall i, j :: 0 <= i < image.Length0 && 0 <= j < image.Length1 ==>
        image[i, j] == (if (j, i) == pos then color else old(image[i, j]))
    {
      if 0 <= pos.1 < image.Length0 && 0 <= pos.0 < image.Length1 {
        image[pos.1, pos.0] := color;
      }
    }

    /** Climbs from node n to the root of the pixel search, marking each cell red and collecting
        the cells into the path from the root to n. */
    method TracePixelPath(nodes: seq<Node<Pos>>, n: nat) returns (path: seq<Pos>)
      requires Rooted(nodes) && n < |nodes|
      modifies image
      ensures path == Chain(nodes, n)
      ensures forall i, j :: 0 <= i < image.Length0 && 0 <= j < image.Length1 ==>
        image[i, j] == (if (i, j) in path then Red else old(image[i, j]))
    {
      path := [];
      var cur: nat := n;
      while true
        invariant cur < |nodes|
        invariant Chain(nodes, cur) + path == Chain(nodes, n)
        invariant forall i, j :: 0 <= i < image.Length0 && 0 <= j < image.Length1 ==>
          image[i, j] == (if (i, j) in path then Red else old(image[i, j]))
        decreases cur
      {
        var pos := nodes[cur].position;
        DrawPoint((pos.1, pos.0), Red);
        match nodes[cur].parent
        case None =>
          path := [pos] + path;
          return;
        case Some(p) =>
          assert Chain(nodes, cur) == Chain(nodes, p) + [pos];
          path := [pos] + path;
          cur := p;
      }
    }

    /** One step of the child loop of the pixel search: cell q becomes a node under the rule of
        `ConsiderPixel`, and the cell of the node it adds, if any, is marked green. */
    method ConsiderAndMark(ghost start: Pos, goal: Pos, nodes: seq<Node<Pos>>,
                           open: seq<nat>, closed: seq<nat>, cur: nat, q: Pos)
      returns (nodes': seq<Node<Pos>>, open': seq<nat>, pushed: bool)
      requires PixelTree(grid, start, nodes) && PixelCosts(nodes, goal)
      requires InArena(nodes, open) && InArena(nodes, closed)
      requires AncestorsClosed(nodes, closed) && SimpleChains(nodes)
      requires |closed| > 0 && closed[|closed| - 1] == cur && cur < |nodes|
      requires UnitStep(nodes[cur].position, q) && Walkable(grid, q)
      modifies image
      ensures pushed <==> !Holds(nodes, closed, q) && !HoldsCheaper(nodes, open, q, nodes[cur].g + 1)
      ensures var g := nodes[cur].g + 1;
        pushed ==> nodes' == nodes + [Node(Some(cur), q, [], g, SquaredDistance(q, goal), g + SquaredDistance(q, goal))]
                   && open' == open + [|nodes|]
      ensures !pushed ==> nodes' == nodes && open' == open
      ensures PixelTree(grid, start, nodes') && PixelCosts(nodes', goal)
      ensures InArena(nodes', open') && InArena(nodes', closed)
      ensures AncestorsClosed(nodes', closed) && SimpleChains(nodes')
      ensures |nodes| <= |nodes'| && nodes'[..|nodes|] == nodes
      ensures Holds(nodes', closed, q) || Holds(nodes', open', q)
      ensures forall p :: Holds(nodes, open, p) ==> Holds(nodes', open', p)
      ensures forall p :: Holds(nodes', closed, p) == Holds(nodes, closed, p)
      ensures PositionsOf(nodes', closed) == PositionsOf(nodes, closed)
      ensures Stale(nodes', closed, open') == Stale(nodes, closed, open)
      ensures forall i, j :: 0 <= i < image.Length0 && 0 <= j < image.Length1 ==>
        image[i, j] == (if (i, j) in PushedSince(nodes', |nodes|) then Green else old(image[i, j]))
    {
      nodes', open', pushed := ConsiderPixel(grid, start, goal, nodes, open, closed, cur, q);
      if pushed {
        DrawPoint((q.1, q.0), Green);
        PushedSinceGrows(nodes, nodes'[|nodes|], |nodes|);
      } else {
        assert PushedSince(nodes', |nodes|) == {};
      }
    }

    /** The child loops of the pixel search for the node just closed, `nodes[cur]`: its walkable
        neighbour cells are collected, then each becomes a node unless closed or held more cheaply,
        and each new node's cell is marked green. Afterwards every such neighbour is held by the
        closed or the open list, and exactly the cells of the new nodes are marked. */
    method ExpandPixel(ghost start: Pos, goal: Pos, nodes: seq<Node<Pos>>,
                       open: seq<nat>, closed: seq<nat>, cur: nat)
      returns (nodes': seq<Node<Pos>>, open': seq<nat>)
      requires Rectangular(grid)
      requires PixelTree(grid, start, nodes) && PixelCosts(nodes, goal)
      requires InArena(nodes, open) && InArena(nodes, closed)
      requires AncestorsClosed(nodes, closed) && SimpleChains(nodes)
      requires |closed| > 0 && closed[|closed| - 1] == cur && cur < |nodes|
      requires PixelsCovered(grid, nodes, open, closed, |closed| - 1)
      modifies image
      ensures PixelTree(grid, start, nodes') && PixelCosts(nodes', goal)
      ensures InArena(nodes', open') && InArena(nodes', closed)
      ensures AncestorsClosed(nodes', closed) && SimpleChains(nodes')
      ensures PixelsCovered(grid, nodes', open', closed, |closed|)
      ensures |nodes| <= |nodes'| && nodes'[..|nodes|] == nodes
      ensures forall q :: Holds(nodes', closed, q) == Holds(nodes, closed, q)
      ensures PositionsOf(nodes', closed) == PositionsOf(nodes, closed)
      ensures Stale(nodes', closed, open') == Stale(nodes, closed, open)
      ensures forall i, j :: 0 <= i < image.Length0 && 0 <= j < image.Length1 ==>
        image[i, j] == (if (i, j) in PushedSince(nodes', |nodes|) then Green else old(image[i, j]))
    {
      var children := NeighbourCells(grid, nodes[cur].position);
      SuccessorsAreWalkableSteps(grid, nodes[cur].position);
      nodes', open' := nodes, open;
      var i := 0;
      while i < |children|
        invariant 0 <= i <= |children|
        invariant |nodes| <= |nodes'| && nodes'[..|nodes|] == nodes
        invariant PixelTree(grid, start, nodes') && PixelCosts(nodes', goal)
        invariant InArena(nodes', open') && InArena(nodes', closed)
        invariant AncestorsClosed(nodes', closed) && SimpleChains(nodes')
        invariant PixelsCovered(grid, nodes', open', closed, |closed| - 1)
        invariant CellsHeld(nodes', open', closed, children[..i])
        invariant forall q :: Holds(nodes', closed, q) == Holds(nodes, closed, q)
        invariant PositionsOf(nodes', closed) == PositionsOf(nodes, closed)
        invariant Stale(nodes', closed, open') == Stale(nodes, closed, open)
        invariant forall i, j :: 0 <= i < image.Length0 && 0 <= j < image.Length1 ==>
          image[i, j] == (if (i, j) in PushedSince(nodes', |nodes|) then Green else old(image[i, j]))
      {
        assert children[..i + 1] == children[..i] + [children[i]];
        assert nodes'[cur] == nodes[cur] by {
          assert nodes'[..|nodes|][cur] == nodes'[cur];
        }
        var n2, o2, pushed := ConsiderAndMark(start, goal, nodes', open', closed, cur, children[i]);
        PushedSinceSplits(nodes', n2, |nodes|);
        assert n2[..|nodes|] == nodes by {
          assert n2[..|nodes'|][..|nodes|] == n2[..|nodes|];
        }
        nodes', open' := n2, o2;
        i := i + 1;
      }
      assert nodes'[cur] == nodes[cur] by {
        assert nodes'[..|nodes|][cur] == nodes'[cur];
      }
      assert children[..i] == children;
      CoverLastPixel(grid, nodes', open', closed);
    }

    /** One iteration of the pixel search: pop the cheapest-first open node onto the closed list;
        if it stands at the goal, mark and return the path to it; otherwise expand it. */
    method PixelIteration(ghost start: Pos, goal: Pos, nodes: seq<Node<Pos>>, open: seq<nat>, closed: seq<nat>)
      returns (found: Option<seq<Pos>>, nodes': seq<Node<Pos>>, open': seq<nat>, closed': seq<nat>)
      requires Rectangular(grid)
      requires PixelSearch(grid, start, goal, nodes, open, closed) && |open| > 0
      requires |closed| == 0 ==> open == [0]
      requires |closed| > 0 ==> closed[0] == 0
      modifies image
      ensures found.Some? ==> PixelPath(grid, start, goal, found.value)
      ensures found.Some? ==> forall k :: 0 < k < |found.value| ==> found.value[k] in PushedSince(nodes, 1)
      ensures found.Some? ==> forall i, j :: 0 <= i < image.Length0 && 0 <= j < image.Length1 ==>
        image[i, j] == (if (i, j) in found.value then Red else old(image[i, j]))
      ensures found.None? ==>
        && PixelSearch(grid, start, goal, nodes', open', closed')
        && |closed'| > 0 && closed'[0] == 0
        && |nodes| <= |nodes'| && nodes'[..|nodes|] == nodes
        && (|PixelUniverse(grid, start) - PositionsOf(nodes', closed')| < |PixelUniverse(grid, start) - PositionsOf(nodes, closed)| ||
            (|PixelUniverse(grid, start) - PositionsOf(nodes', closed')| == |PixelUniverse(grid, start) - PositionsOf(nodes, closed)| &&
             Stale(nodes', closed', open') < Stale(nodes, closed, open)))
        && forall i, j :: 0 <= i < image.Length0 && 0 <= j < image.Length1 ==>
             image[i, j] == (if (i, j) in PushedSince(nodes', |nodes|) then Green else old(image[i, j]))
    {
      var cur, k;
      open', closed', cur, k := PopPixel(grid, start, nodes, open, closed);
      if nodes[cur].position == goal {
        var path := TracePixelPath(nodes, cur);
        ChainIsGridWalk(grid, start, nodes, cur);
        ChainPastRootPushed(nodes, cur);
        return Some(path), nodes, open', closed';
      }
      found := None;
      nodes', open' := ExpandPixel(start, goal, nodes, open', closed', cur);
    }

    /** A* over the pixels of the grid from (x, y) = `startPos` to `endPos`, on (row, col) cells and
        unit moves. A returned path is a grid walk from the start cell to the goal cell that never
        visits a cell twice, and its pixels are marked red. No path means the explored cells hold
        the start, are closed under moves onto walkable cells and exclude the goal. The cells
        marked green are those of the children pushed: each is walkable and one move from an
        explored cell, every explored cell but the start is one, and so is every cell of a
        returned path but the first; the path's red overrides their green. */
    method AStarForPixels(startPos: Pos, endPos: Pos)
      returns (r: Option<seq<Pos>>, ghost explored: set<Pos>, ghost marked: set<Pos>)
      requires Rectangular(grid)
      modifies image
      ensures r.Some? ==> PixelPath(grid, Swap(startPos), Swap(endPos), r.value)
      ensures r.None? ==> PixelsExhausted(grid, Swap(startPos), Swap(endPos), explored)
      ensures forall p :: p in marked ==> Walkable(grid, p) && NextToSome(explored, p)
      ensures explored - {Swap(startPos)} <= marked
      ensures r.Some? ==> forall k :: 0 < k < |r.value| ==> r.value[k] in marked
      ensures forall i, j :: 0 <= i < image.Length0 && 0 <= j < image.Length1 ==>
        image[i, j] == (if r.Some? && (i, j) in r.value then Red
                        else if (i, j) in marked then Green
                        else old(image[i, j]))
    {
      var start := Swap(startPos);
      var goal := Swap(endPos);
      var nodes := [Node(None, start, [], 0, 0, 0)];
      InitialPixelSearch(grid, start, goal);
      var open: seq<nat> := [0];
      var closed: seq<nat> := [];
      ghost var universe := PixelUniverse(grid, start);
      while |open| > 0
        invariant PixelSearch(grid, start, goal, nodes, open, closed)
        invariant |closed| == 0 ==> open == [0]
        invariant |closed| > 0 ==> closed[0] == 0
        invariant forall i, j :: 0 <= i < image.Length0 && 0 <= j < image.Length1 ==>
          image[i, j] == (if (i, j) in PushedSince(nodes, 1) then Green else old(image[i, j]))
        decreases |universe - PositionsOf(nodes, closed)|, Stale(nodes, closed, open)
      {
        var found, nodes', open', closed' := PixelIteration(start, goal, nodes, open, closed);
        if found.Some? {
          explored, marked := PositionsOf(nodes, closed), PushedSince(nodes, 1);
          PushedCellsBorderClosed(grid, start, nodes, closed);
          return found, explored, marked;
        }
        PushedSinceSplits(nodes, nodes', 1);
        nodes, open, closed := nodes', open', closed';
      }
      ExhaustedPixelSearchIsClosed(grid, start, goal, nodes, closed);
      explored, marked := PositionsOf(nodes, closed), PushedSince(nodes, 1);
      PushedCellsBorderClosed(grid, start, nodes, closed);
      return None, explored, marked;
    }

    /** The whole path search: A* over the waypoints from the second-to-last waypoint to the last,
        then A* over the pixels between each consecutive pair of points on that route, the pixel
        paths joined in order; the image is returned with its marks. No result stands for the
        source's failure when either search finds nothing: then the failed search's closure
        (over waypoints or over cells) is returned, after the segments found before it. */
    method MakePath()
      returns (r: Option<seq<Pos>>, img: array2<Pixel>, ghost waypointPath: seq<Pos>, ghost route: seq<nat>,
               ghost segments: seq<seq<Pos>>, ghost expanded: set<nat>, ghost reached: set<Pos>, ghost explored: set<Pos>)
      requires WellFormed(waypointList) && |waypointList| >= 2
      requires waypointList[|waypointList| - 2].position.At? && waypointList[|waypointList| - 1].position.At?
      requires Rectangular(grid)
      modifies image
      ensures img == image
      ensures r.Some? ==>
        && WaypointPath(waypointList, |waypointList| - 2, waypointList[|waypointList| - 1].position.p, waypointPath, route)
        && PixelSegments(grid, waypointPath, segments)
        && r.value == Concat(segments)
      ensures r.None? ==>
        || WaypointsExhausted(waypointList, |waypointList| - 2, waypointList[|waypointList| - 1].position.p, expanded, reached)
        || (&& WaypointPath(waypointList, |waypointList| - 2, waypointList[|waypointList| - 1].position.p, waypointPath, route)
            && |segments| < |waypointPath| - 1
            && PixelSegments(grid, waypointPath[..|segments| + 1], segments)
            && PixelsExhausted(grid, Swap(waypointPath[|segments|]), Swap(waypointPath[|segments| + 1]), explored))
    {
      img := image;
      var last := |waypointList| - 1;
      var found;
      found, route, expanded, reached := AStarForWaypoints(last - 1, last);
      waypointPath, segments, explored := [], [], {};
      if found.None? {
        return None, img, waypointPath, route, segments, expanded, reached, explored;
      }
      var points := found.value;
      waypointPath := points;
      var pixelPath: seq<Pos> := [];
      var k := 0;
      while k < |points| - 1
        invariant 0 <= k <= |points| - 1
        invariant |segments| == k && PixelSegments(grid, points[..k + 1], segments)
        invariant pixelPath == Concat(segments)
      {
        var segment, ex, marked := AStarForPixels(points[k], points[k + 1]);
        if segment.None? {
          return None, img, waypointPath, route, segments, expanded, reached, ex;
        }
        assert points[..k + 2][..k + 1] == points[..k + 1];
        assert segments + [segment.value] == (segments + [segment.value])[..k] + [segment.value];
        pixelPath := pixelPath + segment.value;
        segments := segments + [segment.value];
        k := k + 1;
      }
      assert points[..k + 1] == points;
      return Some(pixelPath), img, waypointPath, route, segments, expanded, reached, explored;
    }
  }
}
