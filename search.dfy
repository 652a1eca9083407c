/** The open/closed list discipline shared by both A* searches of the path maker. Nodes live in an
    arena addressed by index; a node's parent is the arena index of the node it was expanded from,
    and the open and closed lists hold arena indices in list order. */
module Search {
  import opened WaypointMap

  /** A search node: its parent, its position, the waypoint indices it may expand to (empty in the
      pixel search) and its costs g (from the start), h (to the goal) and f = g + h. */
  datatype Node<P> = Node(parent: Option<nat>, position: P, children: seq<nat>, g: int, h: int, f: int)

  /** The arena is a tree grown from node 0: node 0 has no parent and every other node's parent
      was created before it. */
  predicate Rooted<P>(nodes: seq<Node<P>>) {
    && |nodes| > 0
    && nodes[0].parent.None?
    && forall n :: 0 < n < |nodes| ==> nodes[n].parent.Some? && nodes[n].parent.value < n
  }

  /** Every entry of the list names a node of the arena. */
  predicate InArena<P>(nodes: seq<Node<P>>, list: seq<nat>) {
    forall k :: 0 <= k < |list| ==> list[k] < |nodes|
  }

  /** The positions from the root down to node n, following parents: the reversed walk the source
      collects by climbing from n to the root. */
  function Chain<P>(nodes: seq<Node<P>>, n: nat): (path: seq<P>)
    requires Rooted(nodes) && n < |nodes|
    ensures |path| >= 1
    ensures path[0] == nodes[0].position && path[|path| - 1] == nodes[n].position
    decreases n
  {
    match nodes[n].parent
    case None => [nodes[n].position]
    case Some(p) => Chain(nodes, p) + [nodes[n].position]
  }

  /** The arena indices from the root down to node n. */
  function ChainNodes<P>(nodes: seq<Node<P>>, n: nat): (c: seq<nat>)
    requires Rooted(nodes) && n < |nodes|
    decreases n
  {
    match nodes[n].parent
    case None => [n]
    case Some(p) => ChainNodes(nodes, p) + [n]
  }

  /** The index chain starts at the root, ends at n, climbs one parent per step, and the position
      chain reads the positions of its nodes. */
  lemma {:induction false} ChainNodesClimbParents<P>(nodes: seq<Node<P>>, n: nat)
    requires Rooted(nodes) && n < |nodes|
    ensures var c := ChainNodes(nodes, n);
      && |c| == |Chain(nodes, n)|
      && c[0] == 0 && c[|c| - 1] == n
      && (forall k :: 0 <= k < |c| ==> c[k] < |nodes| && Chain(nodes, n)[k] == nodes[c[k]].position)
      && (forall k :: 0 <= k < |c| - 1 ==> nodes[c[k + 1]].parent == Some(c[k]))
    decreases n
  {
    match nodes[n].parent
    case None =>
    case Some(p) =>
      ChainNodesClimbParents(nodes, p);
  }

  /** Adding a node to the arena leaves the chains of the existing nodes as they were. */
  lemma {:induction false} ChainUnchangedByGrowth<P>(nodes: seq<Node<P>>, x: Node<P>, n: nat)
    requires Rooted(nodes) && Rooted(nodes + [x]) && n < |nodes|
    ensures Chain(nodes + [x], n) == Chain(nodes, n)
    decreases n
  {
    assert (nodes + [x])[n] == nodes[n];
    match nodes[n].parent
    case None =>
    case Some(p) =>
      ChainUnchangedByGrowth(nodes, x, p);
  }

  /** Whether some node of the list stands at position p. */
  predicate Holds<P(==)>(nodes: seq<Node<P>>, list: seq<nat>, p: P)
    requires InArena(nodes, list)
  {
    exists k :: 0 <= k < |list| && nodes[list[k]].position == p
  }

  /** The positions of the nodes of a list. */
  ghost function PositionsOf<P>(nodes: seq<Node<P>>, list: seq<nat>): set<P>
    requires InArena(nodes, list)
  {
    set k | 0 <= k < |list| :: nodes[list[k]].position
  }

  /** The search invariant on the closed list: every strict ancestor of every node has a closed
      position, so a node created at an unclosed position never repeats a position of its chain. */
  ghost predicate AncestorsClosed<P>(nodes: seq<Node<P>>, closed: seq<nat>)
    requires Rooted(nodes) && InArena(nodes, closed)
  {
    forall n, k :: 0 <= n < |nodes| && 0 <= k < |Chain(nodes, n)| - 1 ==> Holds(nodes, closed, Chain(nodes, n)[k])
  }

  /** No chain repeats a position. */
  ghost predicate SimpleChains<P>(nodes: seq<Node<P>>)
    requires Rooted(nodes)
  {
    forall n :: 0 <= n < |nodes| ==> NoRepeats(Chain(nodes, n))
  }

  predicate NoRepeats<T(==)>(s: seq<T>) {
    forall i, j :: 0 <= i < j < |s| ==> s[i] != s[j]
  }

  /** The list entry the source pops: the one with the least f, the earliest one on ties. */
  predicate CheapestFirst<P>(nodes: seq<Node<P>>, open: seq<nat>, k: int)
    requires InArena(nodes, open)
  {
    && 0 <= k < |open|
    && (forall m :: 0 <= m < |open| ==> nodes[open[k]].f <= nodes[open[m]].f)
    && (forall m :: 0 <= m < k ==> nodes[open[m]].f > nodes[open[k]].f)
  }

  /** The scan that picks the node to expand: a later entry replaces the current choice only when
      its f is strictly smaller. */
  method SelectCheapest<P>(nodes: seq<Node<P>>, open: seq<nat>) returns (k: nat)
    requires InArena(nodes, open) && |open| > 0
    ensures CheapestFirst(nodes, open, k)
  {
    k := 0;
    var i := 0;
    while i < |open|
      invariant 0 <= i <= |open| && k < |open| && k <= i
      invariant forall m :: 0 <= m < i ==> nodes[open[k]].f <= nodes[open[m]].f
      invariant forall m :: 0 <= m < k ==> nodes[open[m]].f > nodes[open[k]].f
    {
      if nodes[open[i]].f < nodes[open[k]].f {
        k := i;
      }
      i := i + 1;
    }
  }

  /** The closed-list test: whether a node at position p has been closed. */
  method AnyAt<P(==)>(nodes: seq<Node<P>>, list: seq<nat>, p: P) returns (found: bool)
    requires InArena(nodes, list)
    ensures found <==> Holds(nodes, list, p)
  {
    found := false;
    var k := 0;
    while k < |list|
      invariant 0 <= k <= |list|
      invariant found <==> exists m :: 0 <= m < k && nodes[list[m]].position == p
    {
      if nodes[list[k]].position == p {
        found := true;
      }
      k := k + 1;
    }
  }

  /** Whether the list holds a node at position p whose g is strictly below `g`. */
  predicate HoldsCheaper<P(==)>(nodes: seq<Node<P>>, list: seq<nat>, p: P, g: int)
    requires InArena(nodes, list)
  {
    exists k :: 0 <= k < |list| && nodes[list[k]].position == p && g > nodes[list[k]].g
  }

  /** The open-list test: whether an open node at position p is strictly cheaper than `g`. */
  method AnyCheaperAt<P(==)>(nodes: seq<Node<P>>, list: seq<nat>, p: P, g: int) returns (found: bool)
    requires InArena(nodes, list)
    ensures found <==> HoldsCheaper(nodes, list, p, g)
  {
    found := false;
    var k := 0;
    while k < |list|
      invariant 0 <= k <= |list|
      invariant found <==> exists m :: 0 <= m < k && nodes[list[m]].position == p && g > nodes[list[m]].g
    {
      if nodes[list[k]].position == p && g > nodes[list[k]].g {
        found := true;
      }
      k := k + 1;
    }
  }

  /** Climbs from node n to the root collecting positions, giving the path from the root to n. */
  method TracePath<P>(nodes: seq<Node<P>>, n: nat) returns (path: seq<P>)
    requires Rooted(nodes) && n < |nodes|
    ensures path == Chain(nodes, n)
  {
    path := [];
    var cur: nat := n;
    while true
      invariant cur < |nodes|
      invariant Chain(nodes, cur) + path == Chain(nodes, n)
      decreases cur
    {
      match nodes[cur].parent
      case None =>
        path := [nodes[cur].position] + path;
        return;
      case Some(p) =>
        assert Chain(nodes, cur) == Chain(nodes, p) + [nodes[cur].position];
        path := [nodes[cur].position] + path;
        cur := p;
    }
  }

  /** The number of list entries standing at a closed position. */
  ghost function Stale<P>(nodes: seq<Node<P>>, closed: seq<nat>, list: seq<nat>): nat
    requires InArena(nodes, closed) && InArena(nodes, list)
  {
    if |list| == 0 then 0
    else
      var last := if Holds(nodes, closed, nodes[list[|list| - 1]].position) then 1 else 0;
      Stale(nodes, closed, list[..|list| - 1]) + last
  }

  /** Growing the arena changes neither which positions a list holds nor its stale count. */
  lemma {:induction false} GrowthKeepsLists<P>(nodes: seq<Node<P>>, x: Node<P>, closed: seq<nat>, list: seq<nat>)
    requires InArena(nodes, closed) && InArena(nodes, list)
    ensures InArena(nodes + [x], closed) && InArena(nodes + [x], list)
    ensures PositionsOf(nodes + [x], closed) == PositionsOf(nodes, closed)
    ensures forall p :: Holds(nodes + [x], closed, p) == Holds(nodes, closed, p)
    ensures Stale(nodes + [x], closed, list) == Stale(nodes, closed, list)
    decreases |list|
  {
    assert forall k :: 0 <= k < |closed| ==> (nodes + [x])[closed[k]] == nodes[closed[k]];
    assert forall k :: 0 <= k < |list| ==> (nodes + [x])[list[k]] == nodes[list[k]];
    if |list| > 0 {
      GrowthKeepsLists(nodes, x, closed, list[..|list| - 1]);
    }
  }

  /** The stale count of two lists one after the other is the sum of their counts. */
  lemma {:induction false} StaleConcat<P>(nodes: seq<Node<P>>, closed: seq<nat>, a: seq<nat>, b: seq<nat>)
    requires InArena(nodes, closed) && InArena(nodes, a) && InArena(nodes, b)
    ensures InArena(nodes, a + b)
    ensures Stale(nodes, closed, a + b) == Stale(nodes, closed, a) + Stale(nodes, closed, b)
    decreases |b|
  {
    assert InArena(nodes, a + b);
    if |b| > 0 {
      var b' := b[..|b| - 1];
      assert (a + b)[..|a + b| - 1] == a + b';
      StaleConcat(nodes, closed, a, b');
    } else {
      assert a + b == a;
    }
  }

  /** Taking entry k out of a list lowers its stale count by one exactly when that entry is stale. */
  lemma RemovalLowersStale<P>(nodes: seq<Node<P>>, closed: seq<nat>, list: seq<nat>, k: nat)
    requires InArena(nodes, closed) && InArena(nodes, list) && k < |list|
    ensures InArena(nodes, list[..k] + list[k + 1..])
    ensures Stale(nodes, closed, list[..k] + list[k + 1..]) +
      (if Holds(nodes, closed, nodes[list[k]].position) then 1 else 0) == Stale(nodes, closed, list)
  {
    var a, b := list[..k], list[k + 1..];
    assert list == a + [list[k]] + b;
    StaleConcat(nodes, closed, a, [list[k]]);
    StaleConcat(nodes, closed, a + [list[k]], b);
    StaleConcat(nodes, closed, a, b);
    assert [list[k]][..0] == [];
  }

  /** Closing node n adds its position to the closed positions. */
  lemma ClosingAddsPosition<P>(nodes: seq<Node<P>>, closed: seq<nat>, n: nat)
    requires InArena(nodes, closed) && n < |nodes|
    ensures InArena(nodes, closed + [n])
    ensures PositionsOf(nodes, closed + [n]) == PositionsOf(nodes, closed) + {nodes[n].position}
  {
    assert forall k :: 0 <= k < |closed| ==> (closed + [n])[k] == closed[k];
    assert (closed + [n])[|closed|] == n;
  }

  /** Closing the node of a position nobody had closed removes that position from the unclosed
      part of any finite universe holding it. */
  lemma ClosingShrinksUnclosed<P>(nodes: seq<Node<P>>, closed: seq<nat>, universe: set<P>, n: nat)
    requires InArena(nodes, closed) && n < |nodes|
    requires nodes[n].position in universe && !Holds(nodes, closed, nodes[n].position)
    ensures InArena(nodes, closed + [n])
    ensures |universe - PositionsOf(nodes, closed + [n])| < |universe - PositionsOf(nodes, closed)|
  {
    var p := nodes[n].position;
    var before := PositionsOf(nodes, closed);
    var after := PositionsOf(nodes, closed + [n]);
    ClosingAddsPosition(nodes, closed, n);
    assert p !in before;
    assert universe - before == (universe - after) + {p};
  }

  /** Closing a node whose position was already closed leaves the closed positions as they were. */
  lemma ReclosingKeepsPositions<P>(nodes: seq<Node<P>>, closed: seq<nat>, n: nat)
    requires InArena(nodes, closed) && n < |nodes| && Holds(nodes, closed, nodes[n].position)
    ensures InArena(nodes, closed + [n])
    ensures PositionsOf(nodes, closed + [n]) == PositionsOf(nodes, closed)
    ensures forall q :: Holds(nodes, closed + [n], q) == Holds(nodes, closed, q)
  {
    assert forall k :: 0 <= k < |closed| ==> (closed + [n])[k] == closed[k];
    assert (closed + [n])[|closed|] == n;
  }

  /** The stale count depends on the closed list only through the positions it holds. */
  lemma {:induction false} StaleFollowsClosedPositions<P>(nodes: seq<Node<P>>, c1: seq<nat>, c2: seq<nat>, list: seq<nat>)
    requires InArena(nodes, c1) && InArena(nodes, c2) && InArena(nodes, list)
    requires forall q :: Holds(nodes, c1, q) == Holds(nodes, c2, q)
    ensures Stale(nodes, c1, list) == Stale(nodes, c2, list)
    decreases |list|
  {
    if |list| > 0 {
      StaleFollowsClosedPositions(nodes, c1, c2, list[..|list| - 1]);
    }
  }

  /** Pushing a node created from the just-closed node `cur` at a position nobody has closed keeps
      the tree rooted, every strict ancestor closed and every chain free of repeats; the new chain
      is the chain of `cur` followed by the new position, the old chains are unchanged, and the
      positions held and the stale count of the lists carry over, the new entry being fresh. */
  lemma PushKeepsTree<P>(nodes: seq<Node<P>>, open: seq<nat>, closed: seq<nat>, x: Node<P>, cur: nat)
    requires Rooted(nodes) && InArena(nodes, open) && InArena(nodes, closed)
    requires AncestorsClosed(nodes, closed) && SimpleChains(nodes)
    requires cur < |nodes| && Holds(nodes, closed, nodes[cur].position)
    requires x.parent == Some(cur) && !Holds(nodes, closed, x.position)
    ensures Rooted(nodes + [x]) && InArena(nodes + [x], open + [|nodes|]) && InArena(nodes + [x], closed)
    ensures forall n :: 0 <= n < |nodes| ==> Chain(nodes + [x], n) == Chain(nodes, n)
    ensures Chain(nodes + [x], |nodes|) == Chain(nodes, cur) + [x.position]
    ensures AncestorsClosed(nodes + [x], closed) && SimpleChains(nodes + [x])
    ensures forall q :: Holds(nodes + [x], closed, q) == Holds(nodes, closed, q)
    ensures forall q :: Holds(nodes, open, q) ==> Holds(nodes + [x], open + [|nodes|], q)
    ensures Holds(nodes + [x], open + [|nodes|], x.position)
    ensures PositionsOf(nodes + [x], closed) == PositionsOf(nodes, closed)
    ensures Stale(nodes + [x], closed, open + [|nodes|]) == Stale(nodes, closed, open)
  {
    var nodes' := nodes + [x];
    var open' := open + [|nodes|];
    assert Rooted(nodes');
    forall n | 0 <= n < |nodes| ensures Chain(nodes', n) == Chain(nodes, n) {
      ChainUnchangedByGrowth(nodes, x, n);
    }
    GrowthKeepsLists(nodes, x, closed, open);
    var c := Chain(nodes, cur);
    assert Chain(nodes', |nodes|) == c + [x.position];
    forall k | 0 <= k < |c| ensures Holds(nodes, closed, c[k]) {
      if k < |c| - 1 {
      }
    }
    forall n, k | 0 <= n < |nodes'| && 0 <= k < |Chain(nodes', n)| - 1
      ensures Holds(nodes', closed, Chain(nodes', n)[k])
    {
      if n < |nodes| {
        assert Holds(nodes, closed, Chain(nodes, n)[k]);
      } else {
        assert Chain(nodes', n)[k] == c[k];
      }
    }
    assert NoRepeats(Chain(nodes', |nodes|)) by {
      forall k | 0 <= k < |c| ensures c[k] != x.position {
        assert Holds(nodes, closed, c[k]);
      }
    }
    forall q | Holds(nodes, open, q) ensures Holds(nodes', open', q) {
      var k :| 0 <= k < |open| && nodes[open[k]].position == q;
      assert open'[k] == open[k] && nodes'[open[k]] == nodes[open[k]];
    }
    assert open'[|open|] == |nodes| && nodes'[|nodes|] == x;
    StaleConcat(nodes', closed, open, [|nodes|]);
    assert [|nodes|][..0] == [];
  }

  /** Popping entry k of the open list onto the closed list: every position held before is still
      held by one of the two lists, the closed positions only grow, the popped position is closed,
      and the pair (unclosed positions of the universe, stale open entries) goes down
      lexicographically. */
  lemma PopProgresses<P>(nodes: seq<Node<P>>, open: seq<nat>, closed: seq<nat>, k: nat, universe: set<P>)
    requires Rooted(nodes) && InArena(nodes, open) && InArena(nodes, closed) && k < |open|
    requires forall n :: 0 <= n < |nodes| ==> nodes[n].position in universe
    ensures var open', closed' := open[..k] + open[k + 1..], closed + [open[k]];
      && InArena(nodes, open') && InArena(nodes, closed')
      && (forall q :: Holds(nodes, open, q) ==> Holds(nodes, open', q) || Holds(nodes, closed', q))
      && (forall q :: Holds(nodes, closed, q) ==> Holds(nodes, closed', q))
      && Holds(nodes, closed', nodes[open[k]].position)
      && (forall q :: Holds(nodes, closed', q) ==> Holds(nodes, closed, q) || q == nodes[open[k]].position)
      && (|universe - PositionsOf(nodes, closed')| < |universe - PositionsOf(nodes, closed)| ||
          (|universe - PositionsOf(nodes, closed')| == |universe - PositionsOf(nodes, closed)| &&
           Stale(nodes, closed', open') < Stale(nodes, closed, open)))
  {
    var open', closed' := open[..k] + open[k + 1..], closed + [open[k]];
    assert forall m :: 0 <= m < |closed| ==> closed'[m] == closed[m];
    assert closed'[|closed|] == open[k];
    forall q | Holds(nodes, closed', q) ensures Holds(nodes, closed, q) || q == nodes[open[k]].position {
      var m :| 0 <= m < |closed'| && nodes[closed'[m]].position == q;
      if m < |closed| {
        assert nodes[closed[m]].position == q;
      }
    }
    forall q | Holds(nodes, open, q) ensures Holds(nodes, open', q) || Holds(nodes, closed', q) {
      var m :| 0 <= m < |open| && nodes[open[m]].position == q;
      if m < k {
        assert open'[m] == open[m];
      } else if m > k {
        assert open'[m - 1] == open[m];
      }
    }
    RemovalLowersStale(nodes, closed, open, k);
    if Holds(nodes, closed, nodes[open[k]].position) {
      ReclosingKeepsPositions(nodes, closed, open[k]);
      StaleFollowsClosedPositions(nodes, closed, closed', open');
    } else {
      ClosingShrinksUnclosed(nodes, closed, universe, open[k]);
    }
  }

  /** Closing one more node keeps every strict ancestor closed. */
  lemma AncestorsStayClosed<P>(nodes: seq<Node<P>>, closed: seq<nat>, closed': seq<nat>)
    requires Rooted(nodes) && InArena(nodes, closed) && InArena(nodes, closed')
    requires forall q :: Holds(nodes, closed, q) ==> Holds(nodes, closed', q)
    requires AncestorsClosed(nodes, closed)
    ensures AncestorsClosed(nodes, closed')
  {
  }
}
