# Indoor path finder: waypoint graph and two-tier A*

This project models the core of an indoor route planner that reads a floor plan image. Rooms are white rectangles with black walls. Doors are small green rectangles on room edges. The model is written in Dafny.

- **The map loader** turns detected contours into door and room areas. A room area grows by one pixel per side and must pass a size filter. Doors attach to a room when their edges coincide exactly with the room's edges. The loader then builds a waypoint graph:
  - one waypoint per door middle, with waypoints merged by position;
  - a link between every two different waypoints that border a common room area.
- **The waypoint map** holds the waypoints and the image. It can insert a start or end point. The insertion fails, changing nothing, unless the point's pixel is white and the point lies strictly inside an area of a waypoint that borders more than one area. On success the new waypoint is linked both ways to every waypoint that borders the located area.
- **The path maker** runs an A* over the waypoint graph, from the second-to-last waypoint to the last. It then runs an A* over the pixels of the binarised image between each consecutive pair of waypoints on that route, and joins the pixel paths.
  - The waypoint search uses squared Euclidean costs.
  - The pixel search uses four-connected unit moves.
  - The pixel search marks the cell of every child it pushes green, and every pixel of a returned path red, in the image shared with the map and the loader. The start cell gets a node but is not marked green: only children are drawn.

## Layout

| file | module | models |
|---|---|---|
| geometry.dfy | `Geometry` | coordinate pairs, areas, the middle, the door/room edge test |
| loader.dfy | `Loader` | area detection, rooms, the loader object, the waypoint merge and connection phases |
| waypoints.dfy | `WaypointMap` | waypoints as an index arena, point location, insertion, the map object |
| search.dfy | `Search` | the node arena and the open/closed list discipline the two searches share |
| path_maker.dfy | `PathMaking` | both A* searches, the path maker object, the joined path |

## Modelling decisions

- **Waypoints.** A waypoint's accessible waypoints are arena indices, not object references. The first waypoint the loader creates gets the first door's area object as its position, not the door's middle. `WPos.DoorObject` keeps that apart from coordinate pairs, so it never equals a door middle in later merges. The path maker replaces it by its middle (`PointOf`).
- **Search nodes.** Nodes live in an arena, and a node's parent is an index below its own. The open and closed lists hold arena indices. The node class's equality compares positions only, so every membership test in the model compares the positions of the listed nodes.
- **The image.** The image is one `array2<Pixel>` value shared by the loader, the map and the path maker, as the source shares one image buffer. Drawing a point writes the single pixel at (x, y), that is the array cell at row y and column x, when that cell exists.
- **Inputs taken as given.**
  - The binarised grid (0 or 255 per cell, row by row) is an input of the path maker.
  - The door and room contours enter as their first and third corner points.
  - The image shape is taken from the array.
- **Halving.** `int((a + b) / 2)` is modelled as halving truncated toward zero (`Geometry.TruncHalf`).
- **The doubled room list.** The loader appends every room area to its room list twice: once while creating rooms and again while assigning doors. The model keeps the list as written. `Loader.DoubledRoomsMergeAsOnce` shows that merging the doubled list yields the same waypoints as merging each room once.
- **Where the code and its stated design differ, the model follows the code.**
  - Point insertion does not reject a point that lies inside several areas. It takes the last one in scan order.
  - Inserting the same point twice adds two waypoints.
  - When a search finds nothing the source does not report a distinct failure. It crashes with a `TypeError`, and the model returns `None` there.
  - A contour is not checked to be a rectangle. For a contour of at least three points, the loader reads its first and third points whatever the shape is.
  - `add_waypoint` creates no reverse links, and point insertion does.

## Model

| member | source | states |
|---|---|---|
| Geometry.TruncHalf | core/map_loader.py:17-18 | the half of a non-negative sum is rounded down and the half of a negative sum is rounded up (truncation toward zero) |
| Geometry.Middle | core/map_loader.py:16-19 | the middle lies between the two corners on each axis, whichever order the corners are in |
| Geometry.Attaches | core/map_loader.py:108-126 | a door attaches only when one of its edges coincides with the matching room edge and that edge's overlap test passes |
| Geometry.LexicographicTestIsHorizontalOverlap | core/map_loader.py:113-126 | the lexicographic tuple comparison on the top and bottom edges decides exactly as a plain horizontal overlap test would |
| Geometry.FirstCoincidingEdgeDecides | core/map_loader.py:108-111 | when the left edges coincide but the spans do not overlap, the door is not attached and no later edge is tried |
| Geometry.EdgeOrderIrrelevant | core/map_loader.py:108-126 | for a room with positive size and a door with ordered corners, the elif order of the edge tests does not change the outcome |
| Loader.DetectAreas | core/map_loader.py:70-91 | the per-contour loop yields the expanded and filtered areas in contour order |
| Loader.DoorsKeptUnchanged | core/map_loader.py:77-78 | every door contour becomes exactly one area, in order, with its corners unchanged |
| Loader.RoomsExpandedAndFiltered | core/map_loader.py:75-89 | a room area is kept exactly when it is the one-pixel expansion of a contour at least 7 wide and 7 tall whose width is below the row count less one and whose height is below the column count less one |
| Loader.DoorsOfCountsEachPairOnce | core/map_loader.py:105-126 | each door is added to a room as many times as it occurs in the door list if it attaches, and never otherwise |
| Loader.AttachDoors | core/map_loader.py:106-126 | the door loop for one room appends exactly the attaching doors, in door order |
| Loader.MapLoader.constructor | core/map_loader.py:37-47 | after loading, the door and room areas are the detected ones and the room list holds every room area twice, in order, each time with its attaching doors |
| Loader.MapLoader.CreateRooms | core/map_loader.py:95-98 | one door-less room is appended per room area, in order |
| Loader.MapLoader.AssignDoorsToRooms | core/map_loader.py:100-126 | the room areas are appended again as door-less rooms, then every room gains its attaching doors |
| Loader.AddAreaToMatching | core/map_loader.py:139-144 | every waypoint at the door middle gains the room area unless it already borders it; reports whether none stands there |
| Loader.MergeOneDoor | core/map_loader.py:133-147 | from the merge of the pairs seen so far, one door step yields the merge with this (room area, door) pair added, including the leading door-object waypoint on the very first step |
| Loader.MergeRoomDoors | core/map_loader.py:133-147 | the door loop of one room continues the merge over that room's (area, door) pairs |
| Loader.BuildWaypoints | core/map_loader.py:130-147 | the merge phase over all rooms yields the merge of all (room area, door) pairs in visiting order |
| Loader.MergeAllIsExpected | core/map_loader.py:130-147 | the merge yields the leading waypoint, then one waypoint per distinct door middle in first-appearance order, each bordering the distinct areas of the rooms holding such a door |
| Loader.PositionsAreTheDoorMiddles | core/map_loader.py:134-147 | the merged positions are exactly the door middles, without repeats |
| Loader.AreasAtAreTheRoomAreas | core/map_loader.py:141-144 | the areas at a position are exactly the areas of the rooms holding a door with that middle, without repeats |
| Loader.MergedLeadingWaypoint | core/map_loader.py:136-137 | with no doors there are no waypoints; otherwise the first waypoint stands at the first door's area object and borders only the first room's area; every waypoint starts unlinked and borders no area twice |
| Loader.MergedOneWaypointPerDoor | core/map_loader.py:139-147 | every door has a waypoint at its middle, and no two waypoints stand at the same coordinate pair |
| Loader.MergedAreasAreTheRoomsHoldingTheDoor | core/map_loader.py:141-147 | a waypoint at a coordinate pair borders exactly the areas of the rooms holding a door whose middle is that pair |
| Loader.DoubledRoomsMergeAsOnce | core/map_loader.py:95-103 | merging the doubled room list gives the same waypoints as merging each room once |
| Loader.ConnectOne | core/map_loader.py:151-158 | waypoint i keeps its neighbours and gains exactly the other waypoints that share an area with it, none twice |
| Loader.ConnectWaypoints | core/map_loader.py:150-158 | every waypoint is connected in turn; areas and positions stay as they were |
| Loader.ConnectedGraphIsSharedAreaRelation | core/map_loader.py:150-158 | starting from unlinked waypoints, j is a neighbour of i exactly when i and j differ and share an area, so links are symmetric and irreflexive, lists have no repeats and every index is valid |
| Loader.MapLoader.GetMap | core/map_loader.py:128-160 | the map holds the loader's image and the merged waypoints, linked exactly by shared areas, well-formed and without repeated neighbours |
| WaypointMap.LastInsideIsLast | core/map.py:39-42 | the chosen area strictly contains the point and no later area does; none is chosen exactly when no area contains it |
| WaypointMap.LocatedIsLastInScanOrder | core/map.py:36-45 | the located area is the last one in scan order that belongs to a waypoint with more than one area and strictly contains the point; there is none exactly when no such area exists |
| WaypointMap.FindPointArea | core/map.py:34-45 | the scan finds the located area |
| WaypointMap.HoldersAreTheBorderingWaypoints | core/map.py:47-51 | the collected waypoints are exactly those bordering the area, in list order |
| WaypointMap.FindHolders | core/map.py:47-51 | the scan collects every waypoint once per matching area |
| WaypointMap.LinkNewWaypoint | core/map.py:55-56 | each collected waypoint gets the new index appended to its neighbours |
| WaypointMap.InsertionLinksBothWays | core/map.py:47-56 | insertion appends one waypoint at the point bordering only the area, linked to exactly the waypoints bordering it and back; others are unchanged and the arena stays well-formed |
| WaypointMap.Map.constructor | core/map.py:19-21 | the map holds the given image and waypoints |
| WaypointMap.Map.LocateAndAddPoint | core/map.py:23-58 | succeeds exactly when every channel of the pixel is 255 and an area is located; on failure nothing changes, on success the waypoints are the insertion result |
| WaypointMap.Map.GetWaypoints | core/map.py:60-62 | returns the stored waypoints |
| WaypointMap.Map.GetImage | core/map.py:64-65 | returns the stored image |
| WaypointMap.Map.AddWaypoint | core/map.py:67-71 | appends exactly one waypoint and changes no existing waypoint |
| Search.Chain | core/path_maker.py:73-78 | the reversed parent walk starts at the root's position and ends at the node's |
| Search.ChainNodesClimbParents | core/path_maker.py:75-77 | the walk climbs one parent per step from the node to the root |
| Search.SelectCheapest | core/path_maker.py:62-67 | the chosen open entry has the least f, and every earlier entry has a strictly larger f |
| Search.AnyAt | core/path_maker.py:94-95 | reports exactly whether a listed node stands at the position |
| Search.AnyCheaperAt | core/path_maker.py:102-104 | reports exactly whether an open node at the position has a strictly smaller g |
| Search.TracePath | core/path_maker.py:73-78 | returns the positions from the root to the node |
| Search.PushKeepsTree | core/path_maker.py:92-106 | pushing a child of the just-closed node at an unclosed position keeps the tree rooted, every strict ancestor closed and every chain free of repeats |
| Search.PopProgresses | core/path_maker.py:62-70 | popping keeps every position held, closes the popped position, and lowers the pair (unclosed positions, open entries at closed positions) lexicographically |
| Search.ClosingAddsPosition | core/path_maker.py:69-70 | appending a node to the closed list adds exactly its position to the closed positions |
| PathMaking.SquaredDistance | core/path_maker.py:97-99 | the cost is non-negative and zero exactly for equal points |
| PathMaking.PointOf | core/path_maker.py:85-87 | an area position is replaced by its middle, a coordinate pair is kept |
| PathMaking.WaypointChildSkipped | core/path_maker.py:89-104 | a child is skipped exactly when it stands at the parent's position, at a closed position, or at an open node's position with strictly smaller g |
| PathMaking.ConsiderWaypoint | core/path_maker.py:85-106 | a child is pushed exactly when its point is not the parent's, not closed and not held by an open node with strictly smaller g, so ties are pushed; a pushed child is the node at that point with g the parent's g plus the squared step, h the squared distance to the goal and f = g + h, appended to the arena and the open list; otherwise nothing changes; the search tree and cost rules hold and the point ends up held |
| PathMaking.HeldAfterConsider | core/path_maker.py:83-106 | a child step that only adds nodes keeps the earlier closed nodes covered and the earlier neighbours' points held, and adds the new neighbour's point |
| PathMaking.ExpandWaypoint | core/path_maker.py:83-106 | after the child loop every neighbour of the expanded waypoint has its point held |
| PathMaking.PopWaypoint | core/path_maker.py:62-70 | the popped node is the open entry with the least f, the earliest one on ties; it is removed from the open list at its index and appended to the closed list; coverage carries over and the termination measure goes down |
| PathMaking.WaypointIteration | core/path_maker.py:60-106 | an iteration either returns a valid waypoint path or keeps the search invariant with a smaller measure |
| PathMaking.RouteIsWalk | core/path_maker.py:73-78 | every node's chain reads the points of a walk through the graph from the start waypoint |
| PathMaking.ExhaustedSearchIsClosed | core/path_maker.py:60-106 | when the open list empties, the expanded waypoints hold the start, are closed under links and never reach the goal's point |
| PathMaking.ExhaustedSearchExcludesWalks | core/path_maker.py:60-106 | after a failed search no walk from the start ends at the goal's point |
| PathMaking.PathMaker.constructor | core/path_maker.py:27-34 | the path maker holds the given image, grid and waypoints |
| PathMaking.PathMaker.AStarForWaypoints | core/path_maker.py:50-106 | a returned path reads the points of a walk from the start waypoint, ends at the goal and repeats no point; no path means the closed set holds the start, is closed under links and misses the goal |
| PathMaking.SuccessorsAreWalkableSteps | core/path_maker.py:139-151 | a cell is a child exactly when it is one of the four moves away and walkable |
| PathMaking.NeighbourCells | core/path_maker.py:138-151 | the first child loop yields the in-grid, white neighbour cells in move order |
| PathMaking.CostCountsMoves | core/path_maker.py:158 | a pixel node's g is the number of moves from the start |
| PathMaking.ConsiderPixel | core/path_maker.py:153-167 | a child is pushed exactly when its cell is not closed and not held by an open node with strictly smaller g, so ties are pushed; a pushed child has g the parent's g plus one, h the squared distance to the goal and f = g + h, and is appended to the arena and the open list; otherwise nothing changes; the search tree and cost rules hold and the cell ends up held |
| PathMaking.PopPixel | core/path_maker.py:118-126 | the popped node is the open entry with the least f, the earliest one on ties; it is removed from the open list at its index and appended to the closed list; coverage carries over and the measure goes down |
| PathMaking.ChainIsGridWalk | core/path_maker.py:128-136 | every pixel node's chain is a grid walk from the start |
| PathMaking.ExhaustedPixelSearchIsClosed | core/path_maker.py:117-167 | when the open list empties, the explored cells hold the start, are closed under moves onto walkable cells and miss the goal |
| PathMaking.ExhaustedPixelSearchExcludesWalks | core/path_maker.py:117-167 | after a failed pixel search no grid walk from the start reaches the goal |
| PathMaking.PushedCellsBorderClosed | core/path_maker.py:115-167 | the cells of the nodes other than the start node are walkable and one move from a closed cell, and every closed cell other than the start is one of them |
| PathMaking.ChainPastRootPushed | core/path_maker.py:128-136 | every cell of a traced path after the first is the cell of a pushed child |
| PathMaking.PathMaker.DrawPoint | core/path_maker.py:47-48 | exactly the pixel at (x, y) takes the colour, if it exists |
| PathMaking.PathMaker.TracePixelPath | core/path_maker.py:128-136 | returns the cells from the start to the goal node and marks exactly those red |
| PathMaking.PathMaker.ConsiderAndMark | core/path_maker.py:153-167 | the child is pushed under the same rule and with the same node as in `ConsiderPixel`; a pushed child's cell is marked green and nothing else is |
| PathMaking.PathMaker.ExpandPixel | core/path_maker.py:138-167 | every walkable neighbour of the expanded cell ends up held, and exactly the new nodes' cells are marked green |
| PathMaking.PathMaker.PixelIteration | core/path_maker.py:117-167 | an iteration either returns a valid pixel path marked red, or keeps the search invariant with a smaller measure and marks its new nodes green |
| PathMaking.PathMaker.AStarForPixels | core/path_maker.py:108-167 | a returned path runs from the swapped start to the swapped end in unit moves over walkable cells without repeats; no path means the explored cells are closed under moves and miss the goal; every green cell is walkable and one move from an explored cell, every explored cell but the start is green, and so is every path cell after the first; the path is red over the green, the rest unchanged |
| PathMaking.JoinedSegmentsMoveByOne | core/path_maker.py:40-44 | the joined pixel path runs from the first waypoint's cell to the last one's, moving at most one cell at a time |
| PathMaking.PathMaker.MakePath | core/path_maker.py:36-45 | the result joins, in order, one pixel path per consecutive pair of a valid waypoint route; no result carries the failed search's closure |

## Left out

- Image decoding, colour masking, thresholding, contour finding and grey conversion are done by an image library. The model takes the corner points, the image shape, the binarised grid and the pixel values as inputs. The library's contour order and corner semantics are not modelled.
- The obstacle recolouring step and the mask preparation inside area detection are thin wrappers over the image library and are not modelled.
- The user interface and the program entry point are not part of this model.
- A contour of fewer than three points makes the loader's read of the third point raise an `IndexError` (core/map_loader.py:73-74). The model takes each contour as its first and third points, so it does not model that crash.
- Floating-point rounding of the halved sums is not modelled: halving is exact integer truncation toward zero.
- The check for a child list equal to `[None]` in the waypoint search is not modelled. Waypoint neighbour lists never contain `None`, so the branch cannot fire.
- The `connections` field of an area is always empty and is not kept.
- Object identity is replaced by arena indices. The connection phase's membership test by identity becomes a test on indices; the two agree because each waypoint object occurs once in the list.
- The parent walk prepends positions while climbing. The source appends and reverses at the end; both give the same sequence.
- WaypointMap.Map.LocateAndAddPoint: requires the point to lie inside the image; numpy's negative-index wrap-around and out-of-range errors are not modelled.
- PathMaking.PathMaker.AStarForWaypoints: requires the start and end waypoints to stand at coordinate pairs. An area position there makes the source fail with a `TypeError`. Its result is stated as a valid walk, not a cheapest one: the squared-distance heuristic carries no optimality guarantee.
- PathMaking.ExhaustedSearchExcludesWalks: requires that no two waypoints stand at the same point, which the loader's graph does not meet. Its leading waypoint and the waypoint at the first door's middle share a point. The search invariant itself does not depend on this.
- PathMaking.PathMaker.AStarForPixels: requires a rectangular grid, as a binarised image always is. The grid and the image are not required to have the same size; drawing outside the image marks nothing.
- PathMaking.PathMaker.MakePath: states the marks of each pixel search separately (in `AStarForPixels`) and not the combined marks of all segments.
- PathMaking.PathMaker.MakePath: where the source raises a `TypeError` because a search returned nothing, the model returns `None` and does not model the crash.
- Loader.MapLoader.GetMap: the neighbour lists are stated by membership and absence of repeats, not by their order. The recolouring of the returned image is not modelled.
