# Dungeon layout: a verified model

This project models the procedural dungeon-layout core of a Unity game. The
core has five parts:

- **Partition tree.** A binary space partition tree (`BSPNode`) recursively
  splits an integer map rectangle. It lists its leaves, places one inset room
  in each leaf that has space for it, and reports room or area centres.
- **Room generator.** The `RoomGenerator` component clamps its room-size
  settings, partitions the map, and rebuilds its room list from the leaves.
- **MST connector.** It runs Kruskal's algorithm over every pair of rooms. The
  algorithm uses a union-find `parent` map with path compression.
- **"Delaunay-like" connector.** It links every room to its nearest rooms
  without duplicates, and runs the same Kruskal scan over those links. It then
  appends a bounded number of the leftover links as loops. Its comments say the
  scan ensures connectivity, but rooms in far-apart clusters stay apart (see
  "Findings").
- **Corridor router.** It turns a pair of centres into an L-shaped corridor of
  at most two axis-aligned sections. It does this for every sibling pair of
  the tree and for every connection a connector returns.

The model is in Dafny. Each file follows one source file, except for three
shared modules:

| file | module | follows |
|---|---|---|
| `geometry.dfy` | `Geometry` | `RectInt`, `Vector2Int`, `RoomInfo`, the repeated `GetRoomCenter` arithmetic |
| `unity_random.dfy` | `UnityRandom` | `Random.value` and `Random.Range` |
| `bsp.dfy` | `Bsp` | `BSPNode.cs` |
| `corridors.dfy` | `CorridorGenerator` | `CorridorGenerator.cs` |
| `corridor_extensions.dfy` | `RoomGeneratorExtensions` | `Dungeon/RoomGeneratorCorridorExtensions.cs` |
| `graphs.dfy` | `Graphs` | edge lists, walks, connectivity, forests |
| `union_find.dfy` | `UnionFind` | the `parent` map with `Find` and `Union` |
| `kruskal.dfy` | `Kruskal` | the sort and the Kruskal loop, identical in both connectors |
| `mst_connections.dfy` | `MSTConnectionGenerator` | `Dungeon/MSTRoomConnectionGenerator.cs` |
| `delaunay_connections.dfy` | `DelaunayConnectionGenerator` | `Dungeon/DelaunayMSTRoomConnectionGenerator.cs` |
| `room_generator.dfy` | `RoomGeneratorBase` | `RoomGeneratorBase.cs` |

Modelling choices:

- **Randomness.** Unity's global generator is an infinite stream of raw draws,
  `nat -> nat`. Every call reads the draw at a cursor, and the cursor is
  threaded through the calls in the source's order.
  - `Random.value > 0.5f` is "the draw is odd".
  - The integer `Random.Range(lo, hi)` excludes `hi` and returns `lo` when the
    two are equal. When `hi < lo` the bounds are swapped, and the draw is taken
    from `(hi, lo]`, the mirror image of `[lo, hi)`.
  - The lemmas `RangeReachable` and `CoinReachable` show that this rules out no
    outcome Unity may return.
- **Integer division.** C#'s `/ 2` truncates toward zero, so it is written out
  as `Half`.
- **Distances.** Every centre is an integer point, so the float
  `Vector2.Distance` is replaced by the squared distance. That distance orders
  pairs the same way.
- **Partition nodes.** `BSPNode` is a class with the source's mutable fields
  (`area`, `left`, `right`, `room`). It also has a ghost footprint `Repr` and a
  ghost value `Model : Tree`. `Split` and `CreateRoom` are proved to turn
  `Model` into what the functions `SplitTree` and `PlaceRoom` compute. The
  properties are proved about those functions.
- **The split `RoomGenerator` calls.** `RoomGeneratorBase.cs` calls
  `Split(maxDepth, minLeafSize)`, which `BSPNode.cs` does not declare. The model
  keeps its recursion (`SplitBy`, specified by `SplitTreeBy`) and takes the
  halves it picks as a parameter, a `Chooser`. The one-argument `Split` is the
  instance `Halves`. The tiling, size and leaf-count facts are proved for every
  chooser whose halves add up (`Cuts`) and stay non-negative (`KeepsSizes`).
- **Rooms in the connectors** are identified by their index in the room list.
  The `parent` dictionary keyed by room is therefore a sequence indexed by room.

## Model

| member | source | states |
|---|---|---|
| `Geometry.Half` | Assets/_Scripts/BSPNode.cs:105-107 | C#'s truncating `n / 2`: for `n >= 0` it is the floor of the half; for negative `n` it rounds toward zero |
| `Geometry.Center` | Assets/_Scripts/BSPNode.cs:102-108 | `(x + width/2, y + height/2)` is a cell of the rectangle when both sizes are positive, and lies in its lower half on each axis |
| `Geometry.Dist2` | Assets/_Scripts/Dungeon/MSTRoomConnectionGenerator.cs:29-32 | the squared distance that replaces `Vector2.Distance` is zero exactly when the two points coincide |
| `Geometry.Dist2Symmetric` | Assets/_Scripts/Dungeon/DelaunayMSTRoomConnectionGenerator.cs:59-61 | the distance between two centres does not depend on their order |
| `UnityRandom.Range` | Assets/_Scripts/BSPNode.cs:66-70 | `Random.Range(lo, hi)` returns a value in `[lo, hi)`, `lo` when the bounds are equal, and a value in `(hi, lo]` when they are swapped |
| `UnityRandom.RangeReachable` | Assets/_Scripts/BSPNode.cs:66-70 | every value Unity's `Range` may return is produced by some draw |
| `UnityRandom.CoinReachable` | Assets/_Scripts/BSPNode.cs:20 | both outcomes of `Random.value > 0.5f` are produced by some draw |
| `Bsp.Cut` | Assets/_Scripts/BSPNode.cs:25-34 | a horizontal cut keeps x and width, and stacks two heights that add up to the parent's, the upper child starting at `y + left.height`; a vertical cut keeps y and height, with widths that add up and the right child starting at `x + left.width` |
| `Bsp.ArithmeticTilingCoversCells` | Assets/_Scripts/BSPNode.cs:25-34 | when neither child has a negative size, the two children of a cut cover every cell of the parent, no cell outside it, and no cell twice |
| `Bsp.SplitPos` | Assets/_Scripts/BSPNode.cs:21-23 | the drawn position lies within the side when the side is at least 5; it keeps 5 cells on both ends when the side exceeds 10, is 5 when the side is 10, and lies in the swapped range `(side - 5, 5]` when the side is below 10 |
| `Bsp.SplitTree` | Assets/_Scripts/BSPNode.cs:16-38 | `depth <= 0` leaves the node and the cursor unchanged; otherwise the node keeps its area and room and gains both children; the cursor never moves back |
| `Bsp.SplitTreeFull` | Assets/_Scripts/BSPNode.cs:16-38 | after `Split(d)` every node above depth `d` has both children and none at depth `d` has any |
| `Bsp.SplitTreeTiled` | Assets/_Scripts/BSPNode.cs:25-34 | after `Split`, every node's two children are stacked or side by side with sizes that add up to the parent's |
| `Bsp.SplitTreeRoomsOnlyOnLeaves` | Assets/_Scripts/BSPNode.cs:16-38 | `Split` on a fresh node leaves every node with children without a room |
| `Bsp.ShortSideSplitOverruns` | Assets/_Scripts/BSPNode.cs:21-29 | with a side below 5 the cut can land past the side: with the draws shown, the first child of a 10x3 area is 4 high and holds a cell outside the parent, and the second child has a negative height |
| `Bsp.ShortSideCanReachMargin` | Assets/_Scripts/BSPNode.cs:21-23 | on any side below 10 some draw puts the cut at 5, beyond the end of any side below 5 |
| `Bsp.SplitTreeBy` | Assets/_Scripts/RoomGeneratorBase.cs:53-54 | the split `RoomGenerator` calls keeps the node's area and room; it leaves the node and the cursor unchanged when `depth <= 0`, and otherwise either leaves the node as it was or gives it both children |
| `Bsp.SplitTreeByHalves` | Assets/_Scripts/BSPNode.cs:16-38 | the one-argument `Split` is the split whose chooser always picks the two halves of one axis draw and one position draw |
| `Bsp.ShallowLeafCount` | Assets/_Scripts/BSPNode.cs:40-51 | a tree whose nodes have no child or two, no deeper than `d`, has between 1 and `2^d` leaves |
| `Bsp.SplitTreeByShallow` | Assets/_Scripts/RoomGeneratorBase.cs:53-54 | a split of a fresh node `d` levels deep gives every node no child or two, and no path longer than `d` |
| `Bsp.SplitTreeByLeafBound` | Assets/_Scripts/RoomGeneratorBase.cs:53-57 | `Split(maxDepth, minLeafSize)` on a fresh node followed by `GetLeafNodes` gives at least one and at most `2^maxDepth` leaves |
| `Bsp.SplitTreeByTiled` | Assets/_Scripts/RoomGeneratorBase.cs:53-54 | when every pair of halves the chooser picks adds up to the parent, every node's two children are stacked or side by side with sizes adding up to the parent's |
| `Bsp.SplitTreeByNonNegative` | Assets/_Scripts/RoomGeneratorBase.cs:53-54 | when the chooser never gives a half a negative size, no node of the split has one |
| `Bsp.SplitTreeByPartition` | Assets/_Scripts/RoomGeneratorBase.cs:53-57 | with such a chooser, the leaves of a split over an area without negative sizes cover every cell of it, no cell outside it, and no cell twice |
| `Bsp.SplitTreeByRoomsOnlyOnLeaves` | Assets/_Scripts/RoomGeneratorBase.cs:53-54 | a split of a fresh node leaves every node with children without a room |
| `Bsp.Leaves` | Assets/_Scripts/BSPNode.cs:40-51 | every listed node is childless, and a childless node lists only itself |
| `Bsp.FullLeafCount` | Assets/_Scripts/BSPNode.cs:40-51 | a tree with both children down to depth `d` has exactly `2^d` leaves |
| `Bsp.SplitLeafCount` | Assets/_Scripts/BSPNode.cs:16-51 | `Split(d)` on a fresh node followed by `GetLeafNodes` gives exactly `2^d` leaves |
| `Bsp.LeavesPartition` | Assets/_Scripts/BSPNode.cs:16-51 | when no node has a negative size, the leaves cover every cell of the root, no cell outside it, and no cell twice |
| `Bsp.LeavesCover` | Assets/_Scripts/BSPNode.cs:40-51 | in a tiled tree without negative sizes, a cell lies in the root's area exactly when it lies in some leaf |
| `Bsp.LeavesDisjoint` | Assets/_Scripts/BSPNode.cs:40-51 | in a tiled tree without negative sizes, no cell lies in two leaves |
| `Bsp.PlaceRoom` | Assets/_Scripts/BSPNode.cs:55-72 | no room and no draws when the leaf minus the 2-cell padding on each side is below 4 on either axis; otherwise four draws and a room with sides between 4 and the leaf's size minus 4, at least 2 cells clear of every border |
| `Bsp.PlacedRoomInsideLeaf` | Assets/_Scripts/BSPNode.cs:66-72 | every cell of a placed room is a cell of its leaf |
| `Bsp.RoomCenter` | Assets/_Scripts/BSPNode.cs:102-108 | the centre is a cell of the room when there is a room with positive sizes, and otherwise a cell of the area when the area has positive sizes |
| `Bsp.RoomCenterAsWritten` | Assets/_Scripts/BSPNode.cs:102-108 | with a room it agrees with `RoomCenter`; without one it returns `(0, 0)`, the centre of the default rectangle |
| `Bsp.UnsetRoomCenterOutsideArea` | Assets/_Scripts/BSPNode.cs:104-107 | for a roomless node over `(10, 10, 20, 20)`, the as-written centre lies outside the node while `RoomCenter` lies inside |
| `Bsp.SiblingPairs` | Assets/_Scripts/BSPNode.cs:80-100 | the walk visits no pair below a node missing a child; when only leaves hold rooms, the same holds in every subtree it visits |
| `Bsp.StraightCorridors` | Assets/_Scripts/BSPNode.cs:80-100 | one corridor per sibling pair of `SiblingPairs`, in walk order, from the centre of the first sibling to the centre of the second, for whichever centre function is given |
| `Bsp.FullCorridorCount` | Assets/_Scripts/BSPNode.cs:80-100 | a tree with both children down to depth `d` has exactly `2^d - 1` sibling pairs, one per internal node |
| `Bsp.AsWrittenInnerCorridors` | Assets/_Scripts/BSPNode.cs:80-108 | as written, when only leaves hold rooms, the corridor between two siblings that both have children runs from `(0, 0)` to `(0, 0)` |
| `Bsp.BSPNode.constructor` | Assets/_Scripts/BSPNode.cs:11-14 | a new node owns the given area and has no children and no room |
| `Bsp.BSPNode.Split` | Assets/_Scripts/BSPNode.cs:16-38 | the subtree becomes `SplitTree` of the old one, its new nodes are all freshly allocated, and the draws consumed are those `SplitTree` reads |
| `Bsp.BSPNode.Divide` | Assets/_Scripts/BSPNode.cs:20-37 | the `depth > 0` branch of `Split` produces the same tree and cursor as `SplitTree` |
| `Bsp.BSPNode.SplitBy` | Assets/_Scripts/RoomGeneratorBase.cs:53-54 | the subtree becomes `SplitTreeBy` of the old one for the given chooser, its new nodes are all freshly allocated, and the draws consumed are those `SplitTreeBy` reads |
| `Bsp.BSPNode.DivideBy` | Assets/_Scripts/RoomGeneratorBase.cs:53-54 | once the chooser has picked two halves, the node gets split children over them with the same tree and cursor as `SplitTreeBy` |
| `Bsp.BSPNode.SplitChild` | Assets/_Scripts/RoomGeneratorBase.cs:53-54 | a new node over an area, split, is a valid fresh subtree whose value is `SplitTreeBy` of a fresh node |
| `Bsp.BSPNode.Link` | Assets/_Scripts/BSPNode.cs:25-34 | the node's children become the two given disjoint subtrees, and its value is rebuilt from theirs |
| `Bsp.BSPNode.GetLeafNodes` | Assets/_Scripts/BSPNode.cs:40-51 | the listed nodes belong to the subtree, are childless, match `Leaves(Model)` one for one in order, and are the node itself when it has no children |
| `Bsp.BSPNode.CreateRoom` | Assets/_Scripts/BSPNode.cs:55-72 | only the room slot changes: it becomes the room `PlaceRoom` places, or keeps its old value when the leaf is too small |
| `CorridorGenerator.CorridorSection` | Assets/_Scripts/CorridorGenerator.cs:63-88 | no section exactly when the two ends coincide; otherwise one section from start to end of positive length, classed along x exactly when it runs horizontally |
| `CorridorGenerator.SectionLength` | Assets/_Scripts/CorridorGenerator.cs:68-69 | the length of a section is the distance between its two ends |
| `CorridorGenerator.Elbow` | Assets/_Scripts/CorridorGenerator.cs:29-60 | the turn is at `(end.x, start.y)` when going horizontally first and at `(start.x, end.y)` otherwise, aligned with both ends |
| `CorridorGenerator.LShape` | Assets/_Scripts/CorridorGenerator.cs:29-60 | the sections chain from start to end and are axis-aligned; 0 sections for equal ends, 1 when exactly one coordinate differs, and otherwise 2 that turn at the elbow with the chosen axis first |
| `CorridorGenerator.CreateLShapedCorridor` | Assets/_Scripts/CorridorGenerator.cs:22-61 | one draw picks the direction; the corridor is on the given floor, joins start to end, and has at most two sections |
| `CorridorGenerator.CreateCorridors` | Assets/_Scripts/CorridorGenerator.cs:6-20 | one L-shaped corridor per sibling pair, each joining the same two centres as the straight corridor of that pair, one draw each; a corridor has no section exactly when its two centres coincide |
| `CorridorGenerator.FullTreeCorridors` | Assets/_Scripts/CorridorGenerator.cs:6-20 | a full tree of depth `d` gets exactly `2^d - 1` L-shaped corridors |
| `CorridorGenerator.AsWrittenInnerCorridorsEmpty` | Assets/_Scripts/CorridorGenerator.cs:6-20 | as written, when only leaves hold rooms, no section is built between two siblings that both have children |
| `RoomGeneratorExtensions.CreateCorridorsFromConnections` | Assets/_Scripts/Dungeon/RoomGeneratorCorridorExtensions.cs:13-39 | no corridor prefab means no corridors and no draws; otherwise exactly one corridor per connection, in order, on floor 0, joining the centre of the first room to the centre of the second |
| `Graphs.ConnectedSymmetric` | Assets/_Scripts/Dungeon/MSTRoomConnectionGenerator.cs:62-73 | corridors connect rooms in both directions |
| `Graphs.ConnectedTransitive` | Assets/_Scripts/Dungeon/MSTRoomConnectionGenerator.cs:62-73 | connections chain |
| `Graphs.ConnectedAfterAdding` | Assets/_Scripts/Dungeon/MSTRoomConnectionGenerator.cs:68-72 | after adding an edge `(u, v)`, two rooms are connected exactly when they were already connected, or one was connected to `u` and the other to `v` |
| `Graphs.ForestExtend` | Assets/_Scripts/Dungeon/MSTRoomConnectionGenerator.cs:68-72 | adding an edge between rooms a forest does not connect keeps it a forest |
| `Graphs.ForestNoDuplicates` | Assets/_Scripts/Dungeon/DelaunayMSTRoomConnectionGenerator.cs:141-145 | a forest never lists the same pair of rooms twice, in either orientation |
| `Graphs.NoDuplicatesPermuted` | Assets/_Scripts/Dungeon/DelaunayMSTRoomConnectionGenerator.cs:176-177 | reordering a list that repeats no pair gives a list that repeats no pair |
| `UnionFind.RootIsTop` | Assets/_Scripts/Dungeon/MSTRoomConnectionGenerator.cs:48-53 | following parents from a room ends at a room that is its own parent |
| `UnionFind.CompressKeepsRoots` | Assets/_Scripts/Dungeon/MSTRoomConnectionGenerator.cs:50-51 | pointing a room straight at its root changes no room's root |
| `UnionFind.LinkMovesOneSet` | Assets/_Scripts/Dungeon/MSTRoomConnectionGenerator.cs:56-59 | linking one root below another moves exactly the rooms of the first set to the second root |
| `UnionFind.DisjointSets.constructor` | Assets/_Scripts/Dungeon/MSTRoomConnectionGenerator.cs:41-45 | every room starts as its own parent |
| `UnionFind.DisjointSets.Find` | Assets/_Scripts/Dungeon/MSTRoomConnectionGenerator.cs:48-53 | returns the root of the room's set, which is its own parent, and leaves the room pointing at it; no room's root and no set change |
| `UnionFind.DisjointSets.Union` | Assets/_Scripts/Dungeon/MSTRoomConnectionGenerator.cs:56-59 | the set of `a` joins the set of `b` and every other set stays as it was; when the sets differ one root fewer remains, and otherwise nothing changes |
| `Kruskal.InsertByDistance` | Assets/_Scripts/Dungeon/MSTRoomConnectionGenerator.cs:38 | inserting into a list sorted by distance keeps it sorted and adds exactly the one entry |
| `Kruskal.SortByDistance` | Assets/_Scripts/Dungeon/MSTRoomConnectionGenerator.cs:38 | the result is sorted by non-decreasing distance and is a permutation of the input |
| `Kruskal.EdgesPermuted` | Assets/_Scripts/Dungeon/MSTRoomConnectionGenerator.cs:38 | reordering candidates reorders their pairs the same way |
| `Kruskal.PermutedConnections` | Assets/_Scripts/Dungeon/DelaunayMSTRoomConnectionGenerator.cs:112 | the sorted list connects exactly the rooms the unsorted one does |
| `Kruskal.Greedy` | Assets/_Scripts/Dungeon/MSTRoomConnectionGenerator.cs:62-73 | Kruskal's rule keeps no more edges than it is given |
| `Kruskal.MergeMatchesConnectivity` | Assets/_Scripts/Dungeon/MSTRoomConnectionGenerator.cs:68-72 | `Union` on the two roots has the same effect on the sets as adding the edge has on connectivity |
| `Kruskal.KeepEdge` | Assets/_Scripts/Dungeon/MSTRoomConnectionGenerator.cs:68-72 | keeping a candidate whose roots differ keeps a forest, keeps the sets equal to the connected groups, and connects every candidate seen so far |
| `Kruskal.StartScan` | Assets/_Scripts/Dungeon/MSTRoomConnectionGenerator.cs:41-45 | before the loop every room is alone in its set and no edge is kept |
| `Kruskal.FindRoots` | Assets/_Scripts/Dungeon/MSTRoomConnectionGenerator.cs:64-65 | the two `Find` calls return the roots of the candidate's rooms and keep the scan's state |
| `Kruskal.KeepAndUnion` | Assets/_Scripts/Dungeon/MSTRoomConnectionGenerator.cs:70-71 | appending the edge and calling `Union` moves the scan on by one candidate |
| `Kruskal.Consider` | Assets/_Scripts/Dungeon/MSTRoomConnectionGenerator.cs:62-73 | one turn of the loop moves the scan on by one candidate, keeping the candidate exactly when its roots differ |
| `Kruskal.ScanConnectsCandidates` | Assets/_Scripts/Dungeon/MSTRoomConnectionGenerator.cs:62-73 | kept edges drawn from the candidates that connect every candidate's rooms connect exactly what all the candidates connect |
| `Kruskal.RootsOfGroups` | Assets/_Scripts/Dungeon/MSTRoomConnectionGenerator.cs:41-73 | at least one set remains, and exactly one when the kept edges reach every room |
| `Kruskal.ScanFinished` | Assets/_Scripts/Dungeon/MSTRoomConnectionGenerator.cs:62-75 | after the loop, the kept edges are what Kruskal's rule keeps and connect exactly what the candidates connect; at most `n - 1` of them, and exactly `n - 1` when the candidates reach every room |
| `Kruskal.Scan` | Assets/_Scripts/Dungeon/MSTRoomConnectionGenerator.cs:41-75 | the kept edges are drawn from the candidates, are what Kruskal's rule keeps, form a forest, and connect exactly what the candidates connect; at most `n - 1` of them, and exactly `n - 1` when the candidates reach every room |
| `MSTConnectionGenerator.Row` | Assets/_Scripts/Dungeon/MSTRoomConnectionGenerator.cs:27-34 | the inner loop for room `i` adds the pairs `(i, i+1), (i, i+2), ...` in order |
| `MSTConnectionGenerator.RowExactly` | Assets/_Scripts/Dungeon/MSTRoomConnectionGenerator.cs:27-34 | room `i`'s row holds exactly the pairs `(i, j)` with `i < j` below the bound, each with its distance |
| `MSTConnectionGenerator.RowDistances` | Assets/_Scripts/Dungeon/MSTRoomConnectionGenerator.cs:29-33 | each entry of room `i`'s row carries the squared distance between the two centres |
| `MSTConnectionGenerator.PairsExactly` | Assets/_Scripts/Dungeon/MSTRoomConnectionGenerator.cs:25-35 | the candidate list holds exactly the pairs `a < b` of rooms, each with its distance |
| `MSTConnectionGenerator.PairsCount` | Assets/_Scripts/Dungeon/MSTRoomConnectionGenerator.cs:25-35 | after `i` outer iterations there are `i(2n - i - 1)/2` candidates |
| `MSTConnectionGenerator.AllPairsCount` | Assets/_Scripts/Dungeon/MSTRoomConnectionGenerator.cs:25-35 | there are `n(n - 1)/2` candidates |
| `MSTConnectionGenerator.CandidatesSpan` | Assets/_Scripts/Dungeon/MSTRoomConnectionGenerator.cs:25-38 | any reordering of the candidates connects every room to every other |
| `MSTConnectionGenerator.CandidatePairs` | Assets/_Scripts/Dungeon/MSTRoomConnectionGenerator.cs:25-35 | the nested loops build exactly the list of all pairs in input order |
| `MSTConnectionGenerator.FewRooms` | Assets/_Scripts/Dungeon/MSTRoomConnectionGenerator.cs:18-19 | with at most one room there are no candidates, and the empty list already connects everything |
| `MSTConnectionGenerator.GenerateConnections` | Assets/_Scripts/Dungeon/MSTRoomConnectionGenerator.cs:14-76 | empty for at most one room; otherwise `n - 1` edges that form a forest and connect every room, each a candidate pair with the lower index first; the result is what Kruskal's rule keeps from the candidates sorted by distance |
| `DelaunayConnectionGenerator.Min` | Assets/_Scripts/Dungeon/DelaunayMSTRoomConnectionGenerator.cs:70 | `Mathf.Min` is the smaller of its arguments |
| `DelaunayConnectionGenerator.Clamp` | Assets/_Scripts/Dungeon/DelaunayMSTRoomConnectionGenerator.cs:16 | `Mathf.Clamp` lies within the bounds, keeps a value already within them, and maps a value outside them to the nearer bound |
| `DelaunayConnectionGenerator.Clamp01` | Assets/_Scripts/Dungeon/DelaunayMSTRoomConnectionGenerator.cs:17 | `Mathf.Clamp01` lies in `[0, 1]`, keeps a value already in it, and maps values outside it to the nearer bound |
| `DelaunayConnectionGenerator.Others` | Assets/_Scripts/Dungeon/DelaunayMSTRoomConnectionGenerator.cs:55-64 | room `i`'s list has one entry for every other room handled so far |
| `DelaunayConnectionGenerator.OthersExactly` | Assets/_Scripts/Dungeon/DelaunayMSTRoomConnectionGenerator.cs:55-64 | room `i`'s list holds exactly one entry per other room, never `i` itself, each with its distance |
| `DelaunayConnectionGenerator.NearerComeFirst` | Assets/_Scripts/Dungeon/DelaunayMSTRoomConnectionGenerator.cs:67-73 | in the sorted list, fewer than `t + 1` rooms are strictly closer than entry `t`, so the first `k` entries are among the `k` nearest rooms |
| `DelaunayConnectionGenerator.NearestWithoutTies` | Assets/_Scripts/Dungeon/DelaunayMSTRoomConnectionGenerator.cs:67-73 | when no other room is exactly as far from `i` as `j`, "fewer than `m` rooms strictly closer" and "at most `m` rooms, `j` included, no farther" agree |
| `DelaunayConnectionGenerator.OthersOnce` | Assets/_Scripts/Dungeon/DelaunayMSTRoomConnectionGenerator.cs:55-64 | room `i`'s list names each entry at most once |
| `DelaunayConnectionGenerator.OthersAscending` | Assets/_Scripts/Dungeon/DelaunayMSTRoomConnectionGenerator.cs:55-64 | room `i`'s list names the rooms below `upTo` in increasing order |
| `DelaunayConnectionGenerator.OthersDistinct` | Assets/_Scripts/Dungeon/DelaunayMSTRoomConnectionGenerator.cs:55-67 | any reordering of room `i`'s list names no room twice |
| `DelaunayConnectionGenerator.FirstEntriesDistinct` | Assets/_Scripts/Dungeon/DelaunayMSTRoomConnectionGenerator.cs:70-73 | the first `t` entries of a list without repeated rooms name `t` different rooms |
| `DelaunayConnectionGenerator.NearRoomsComeFirst` | Assets/_Scripts/Dungeon/DelaunayMSTRoomConnectionGenerator.cs:67-73 | in room `i`'s list sorted by distance, every room with at most `m` rooms (itself included) no farther from `i` sits among the first `m` entries |
| `DelaunayConnectionGenerator.FirstsNoFarther` | Assets/_Scripts/Dungeon/DelaunayMSTRoomConnectionGenerator.cs:67-73 | the rooms of the first `p + 1` sorted entries are no farther from `i` than the room of entry `p` |
| `DelaunayConnectionGenerator.NearestLinked` | Assets/_Scripts/Dungeon/DelaunayMSTRoomConnectionGenerator.cs:70-84 | once room `i` is linked with its first `min(k, n - 1)` sorted entries, every room up to `i` is linked with each room surely among its `k` nearest |
| `DelaunayConnectionGenerator.AddLink` | Assets/_Scripts/Dungeon/DelaunayMSTRoomConnectionGenerator.cs:80-83 | linking the room of the next sorted entry, a near room not yet linked, keeps the links free of duplicates, adds one to the room's count, and leaves the room linked with every entry handled so far |
| `DelaunayConnectionGenerator.SkipLink` | Assets/_Scripts/Dungeon/DelaunayMSTRoomConnectionGenerator.cs:76-80 | an existing link in either orientation is not added again, and the room stays linked with every entry handled so far |
| `DelaunayConnectionGenerator.FinishRoom` | Assets/_Scripts/Dungeon/DelaunayMSTRoomConnectionGenerator.cs:70-84 | once room `i` has gone through the first `min(k, n - 1)` sorted entries, it has made at most that many links, has a link when there are two rooms or more, and is linked with every room surely among its `k` nearest |
| `DelaunayConnectionGenerator.Leftovers` | Assets/_Scripts/Dungeon/DelaunayMSTRoomConnectionGenerator.cs:163-173 | a link is left over exactly when it matches no MST link in either orientation |
| `DelaunayConnectionGenerator.LeftoversNoDuplicates` | Assets/_Scripts/Dungeon/DelaunayMSTRoomConnectionGenerator.cs:163-173 | the leftovers repeat no pair when the links repeat none |
| `DelaunayConnectionGenerator.ShuffledExtras` | Assets/_Scripts/Dungeon/DelaunayMSTRoomConnectionGenerator.cs:176-183 | the first `m` shuffled leftovers are links that match no MST link, and appending them repeats no pair when neither list does |
| `DelaunayConnectionGenerator.AppendedNoDuplicates` | Assets/_Scripts/Dungeon/DelaunayMSTRoomConnectionGenerator.cs:179-183 | appending links that match no MST link and repeat no pair among themselves repeats no pair |
| `DelaunayConnectionGenerator.FinalInherits` | Assets/_Scripts/Dungeon/DelaunayMSTRoomConnectionGenerator.cs:25-40 | every final link is a nearest-neighbour link, within range and not a self-pair |
| `DelaunayConnectionGenerator.FinalTouches` | Assets/_Scripts/Dungeon/DelaunayMSTRoomConnectionGenerator.cs:25-40 | a room with a nearest-neighbour link is an end of some final link |
| `DelaunayConnectionGenerator.FinalOpensWithForest` | Assets/_Scripts/Dungeon/DelaunayMSTRoomConnectionGenerator.cs:25-40 | the final list opens with a forest that already connects what the whole list connects |
| `DelaunayConnectionGenerator.DelaunayConnectionGenerator.constructor` | Assets/_Scripts/Dungeon/DelaunayMSTRoomConnectionGenerator.cs:14-18 | stores `neighborCount` clamped to `[1, 5]` and `extraConnectionChance` clamped to `[0, 1]` |
| `DelaunayConnectionGenerator.DelaunayConnectionGenerator.DistancesFrom` | Assets/_Scripts/Dungeon/DelaunayMSTRoomConnectionGenerator.cs:53-64 | the inner loop builds room `i`'s list of every other room with its distance |
| `DelaunayConnectionGenerator.DelaunayConnectionGenerator.LinkNearest` | Assets/_Scripts/Dungeon/DelaunayMSTRoomConnectionGenerator.cs:50-85 | one outer iteration appends room `i`'s links and keeps the earlier links unchanged; afterwards room `i` is linked, in one orientation or the other, with every room that has at most `neighborCount` rooms (itself included) no farther from `i` |
| `DelaunayConnectionGenerator.DelaunayConnectionGenerator.GenerateDelaunayConnections` | Assets/_Scripts/Dungeon/DelaunayMSTRoomConnectionGenerator.cs:45-88 | no self-pairs and no pair twice in either orientation; every link goes from a room to one of its `neighborCount` nearest; no room makes more than `min(neighborCount, n - 1)` links; with two rooms or more every room has a link; and every room is linked with each room that is among its `neighborCount` nearest however ties are ordered |
| `DelaunayConnectionGenerator.DelaunayConnectionGenerator.GenerateMSTFromDelaunay` | Assets/_Scripts/Dungeon/DelaunayMSTRoomConnectionGenerator.cs:93-149 | the result is drawn from the links, forms a forest with at most `n - 1` edges (exactly `n - 1` when the links connect every room), and connects exactly what the links connect; it is what Kruskal's rule keeps from the links sorted by distance |
| `DelaunayConnectionGenerator.DelaunayConnectionGenerator.LeftoverLinks` | Assets/_Scripts/Dungeon/DelaunayMSTRoomConnectionGenerator.cs:160-173 | the loop collects exactly the leftover links in order |
| `DelaunayConnectionGenerator.DelaunayConnectionGenerator.Shuffle` | Assets/_Scripts/Dungeon/DelaunayMSTRoomConnectionGenerator.cs:176-177 | the shuffle is a permutation and takes one draw per link |
| `DelaunayConnectionGenerator.DelaunayConnectionGenerator.AppendFirst` | Assets/_Scripts/Dungeon/DelaunayMSTRoomConnectionGenerator.cs:180-183 | the final loop appends exactly the first `m` extras |
| `DelaunayConnectionGenerator.DelaunayConnectionGenerator.AddExtraConnections` | Assets/_Scripts/Dungeon/DelaunayMSTRoomConnectionGenerator.cs:154-186 | the MST links come first, unchanged and in order, followed by `min(floor(mstCount * chance), leftovers)` extras; each extra is a link matching no MST link, and no pair repeats when neither input repeats one |
| `DelaunayConnectionGenerator.DelaunayConnectionGenerator.GenerateConnections` | Assets/_Scripts/Dungeon/DelaunayMSTRoomConnectionGenerator.cs:25-40 | empty for at most one room; otherwise no self-pairs and no duplicate pairs, every link is to one of the `neighborCount` nearest rooms, every room has a link, every room is connected, directly or through other rooms, with each room surely among its `neighborCount` nearest, and the list opens with a forest that connects what the whole list connects (not necessarily every room: see "Findings") |
| `DelaunayConnectionGenerator.FinalConnectsNearest` | Assets/_Scripts/Dungeon/DelaunayMSTRoomConnectionGenerator.cs:25-40 | a list that opens with a forest connecting exactly what the nearest-neighbour links connect leads from every room to each room surely among its `m` nearest |
| `DelaunayConnectionGenerator.WalkStaysOnSide` | Assets/_Scripts/Dungeon/DelaunayMSTRoomConnectionGenerator.cs:30-37 | a walk along links that never cross between two groups of rooms ends in the group it starts in |
| `DelaunayConnectionGenerator.NearestStaysOnSide` | Assets/_Scripts/Dungeon/DelaunayMSTRoomConnectionGenerator.cs:45-88 | when each room has at least `m` rooms of its own group nearer than any room of the other group, links to the `m` nearest rooms connect no room of one group with a room of the other |
| `DelaunayConnectionGenerator.FarClustersSeparated` | Assets/_Scripts/Dungeon/DelaunayMSTRoomConnectionGenerator.cs:53-70 | with eight 2x2 rooms on one row in two clusters of four, whose x positions start 94 cells apart, each room has three rooms of its own cluster nearer than any room of the other cluster |
| `DelaunayConnectionGenerator.FarClustersStayApart` | Assets/_Scripts/Dungeon/DelaunayMSTRoomConnectionGenerator.cs:30-37 | as written: any links to the three nearest rooms of those eight rooms leave room 0 unconnected to room 4, so they do not connect every room |
| `DelaunayConnectionGenerator.DefaultSplitsFarClusters` | Assets/_Scripts/Dungeon/DelaunayMSTRoomConnectionGenerator.cs:14-40 | as written: the generator with its default settings returns, for those eight rooms and any draws, connections that do not connect every room |
| `DelaunayConnectionGenerator.BridgedSpans` | Assets/_Scripts/Dungeon/MSTRoomConnectionGenerator.cs:25-35 | the links followed by every pair of rooms stay within the rooms, pair no room with itself, and connect every room |
| `DelaunayConnectionGenerator.OpeningSpans` | Assets/_Scripts/Dungeon/DelaunayMSTRoomConnectionGenerator.cs:154-186 | a list that opens with a spanning list connects every room |
| `DelaunayConnectionGenerator.BridgedFinal` | Assets/_Scripts/Dungeon/DelaunayMSTRoomConnectionGenerator.cs:25-40 | a spanning tree followed by nearest-neighbour links stays within the rooms, has no self-pairs, connects every room, and every link after the tree is a nearest-neighbour link |
| `DelaunayConnectionGenerator.DelaunayConnectionGenerator.BridgedTree` | Assets/_Scripts/Dungeon/DelaunayMSTRoomConnectionGenerator.cs:90-149 | corrected MST step: Kruskal's scan over the links followed by every pair of rooms yields a spanning tree of `n - 1` links with no self-pairs |
| `DelaunayConnectionGenerator.DelaunayConnectionGenerator.GenerateSpanningConnections` | Assets/_Scripts/Dungeon/DelaunayMSTRoomConnectionGenerator.cs:25-40 | corrected: empty for at most one room; otherwise no self-pairs or duplicate pairs, every room connected to every other, a spanning tree of `n - 1` links first, and every later link a link to one of the `neighborCount` nearest rooms |
| `RoomGeneratorBase.Max` | Assets/_Scripts/RoomGeneratorBase.cs:90-95 | `Mathf.Max` is the larger of its arguments |
| `RoomGeneratorBase.Validated` | Assets/_Scripts/RoomGeneratorBase.cs:87-96 | the minima become at least 3 and the maxima exceed the minima; valid settings stay unchanged, a minimum that was already at least 3 is kept, and no setting decreases |
| `RoomGeneratorBase.ValidatedIdempotent` | Assets/_Scripts/RoomGeneratorBase.cs:87-96 | validating twice is the same as validating once |
| `RoomGeneratorBase.RoomsFor` | Assets/_Scripts/RoomGeneratorBase.cs:71-78 | there are never more rooms than leaves |
| `RoomGeneratorBase.RoomsForMade` | Assets/_Scripts/RoomGeneratorBase.cs:71-78 | every listed room is the room `CreateRoom` made for some leaf |
| `RoomGeneratorBase.RoomsForEveryLeaf` | Assets/_Scripts/RoomGeneratorBase.cs:71-78 | when every leaf gets a room, room `i` is exactly the room of leaf `i` |
| `RoomGeneratorBase.RoomsForPrefix` | Assets/_Scripts/RoomGeneratorBase.cs:71-78 | the rooms of the first `m` leaves are a prefix of the list, so the order follows the leaves |
| `RoomGeneratorBase.RoomGenerator.constructor` | Assets/_Scripts/RoomGeneratorBase.cs:7-29 | the field defaults: a 50x50 map, depth 4, minimum leaf 10, room sizes 4, 4, 12, 12, no prefab, and empty lists |
| `RoomGeneratorBase.RoomGenerator.ValidateRoomSizeParameters` | Assets/_Scripts/RoomGeneratorBase.cs:87-96 | only the four size settings change, and they become `Validated` of their old values |
| `RoomGeneratorBase.RoomGenerator.CreateRooms` | Assets/_Scripts/RoomGeneratorBase.cs:66-79 | the old list is dropped; the new one holds the non-null `CreateRoom` results for the leaves, in leaf order |
| `RoomGeneratorBase.RoomGenerator.PartitionMap` | Assets/_Scripts/RoomGeneratorBase.cs:53-57 | a fresh root over `(0, 0, mapWidth, mapHeight)` is split `maxDepth` levels with the given chooser, as `SplitTreeBy` says, and `leafNodes` holds its leaves in order |
| `RoomGeneratorBase.RoomGenerator.GenerateRooms` | Assets/_Scripts/RoomGeneratorBase.cs:37-64 | without a room prefab nothing changes and nothing is drawn; otherwise the sizes are validated, the map is partitioned with a fresh root by the chooser for `minLeafSize`, and the room list is rebuilt from the leaves with the validated sizes |

## Findings

| source | as written | input that shows it | evidently intended | confidence | as-written member | corrected member |
|---|---|---|---|---|---|---|
| Assets/_Scripts/BSPNode.cs:102-108 | `room` is a `RectInt` value and can never be null, so the test always holds and the area fallback is dead code. A node without a placed room (every internal node, and every leaf too small for one) reports the centre of the default rectangle, `(0, 0)`. | a roomless node over `(10, 10, 20, 20)`: the centre reported is `(0, 0)`, outside the node | the centre of the area when no room was placed, as the `else` branch says | not executed; high for the dead fallback (the code compiles only if `RectInt` has an equality operator, and then the comparison is always true) | `Bsp.RoomCenterAsWritten`, `Bsp.UnsetRoomCenterOutsideArea` | `Bsp.RoomCenter` |
| Assets/_Scripts/Dungeon/DelaunayMSTRoomConnectionGenerator.cs:30-37 | the comments say the MST step ensures connectivity, but Kruskal's scan only keeps what the nearest-neighbour links already connect, and those links can leave groups of rooms apart | eight 2x2 rooms at x = 0, 2, 4, 6, 100, 102, 104, 106 (y = 0) with the default `neighborCount` of 3: the two clusters of four start 94 cells apart, every room's three nearest rooms are in its own cluster, so no connection joins the clusters | every room reachable from every other, as the MST step's comments say | not executed; high (the as-written half is proved for any draws from the model's contract) | `DelaunayConnectionGenerator.DefaultSplitsFarClusters`, `DelaunayConnectionGenerator.FarClustersStayApart` | `DelaunayConnectionGenerator.DelaunayConnectionGenerator.GenerateSpanningConnections` |

`GenerateSpanningConnections` is one way to deliver the promised connectivity.
It gives `GenerateMSTFromDelaunay` the nearest-neighbour links followed by
every pair of rooms. That method sorts the whole list by distance, so the tree
is Kruskal's choice over all pairs, the same as `MSTRoomConnectionGenerator`'s,
and the links only decide ties between equal distances. The tree may therefore
use pairs that are not nearest-neighbour links; the extras are still drawn from
the nearest-neighbour links. The comment at line 91 of the
same file ("minimum connectivity") says the same as the one at line 33.
`GenerateConnections` itself keeps the code as written.

The corridor walks take the centre function as a parameter, so both readings
are modelled. `Split` never gives a node with children a room
(`SplitTreeRoomsOnlyOnLeaves`), so as written every such node reports `(0, 0)`.
A corridor between two siblings that both have children then runs from `(0, 0)`
to `(0, 0)` (`AsWrittenInnerCorridors`). `BSPNode.CreateCorridors` places a
zero-length corridor object at the origin for it. `CorridorGenerator.CreateCorridors`
builds no section for it, because `CreateCorridorSection` skips a section of
length zero (`AsWrittenInnerCorridorsEmpty`). Only pairs with a leaf among them
can get a real corridor. With `RoomCenter` every corridor joins centres inside
the two siblings. The room slot is an `Option<Rect>`: `None` is a slot that
`CreateRoom` never filled.

`Bsp.ShortSideSplitOverruns` records a second behaviour of the source. `Split`
draws its position from `Random.Range(5, side - 5)` without checking `side`.
When the side is below 10 the bounds are swapped, and the position lies in
`(side - 5, 5]`. When the side is also below 5, that range reaches past the
side. The first child can then reach outside its parent, and the second child
can get a negative size. Nothing in the code says what was intended instead,
so this is a proved property, not a finding. The tiling and partition lemmas
hold whenever no size is negative.

## Left out

- Scene plumbing: `GameObject.Instantiate`, transforms, `SetParent`, `Destroy`, the
  float world positions (`floor * 5f`), the midpoints and the scales. The model keeps
  the rectangles, points and corridor sections that these are computed from.
- `ClearExistingRooms`, `OnRoomsGenerated`, `OnDrawGizmos`, `GetRoomInfos`, `Start`
  and the `Debug.LogError` messages: scene queries, an empty hook, drawing and logging.
- `BSPDungeonGenerator.cs` and the other scripts of the repository (audio, quests, meshes,
  editor tools, visualisers): they are not part of this model.
- `Bsp.BSPNode.CreateRoom`: the scene parameters (`prefab`, `floor`, `parent`) and the
  object it instantiates are left out; the room rectangle and the draws are modelled.
- `BSPNode.CreateCorridors` builds scene objects only; its walk and endpoints are the
  function `Bsp.StraightCorridors`.
- `Split(maxDepth, minLeafSize)` and the six-argument `CreateRoom` returning `RoomInfo`
  that `RoomGeneratorBase.cs` calls are not part of `BSPNode.cs`; the other `BSPNode`
  declaration (`Dungeon Layout/BSPNode.cs`) is not part of this model.
  - `RoomGeneratorBase.RoomGenerator.PartitionMap`, `Partitioned` and
    `RoomGeneratorBase.RoomGenerator.GenerateRooms` keep the split's recursion
    (`SplitBy`) but not its choice of halves: the early stops at `minLeafSize`, the
    aspect-ratio rule and the position draw are the parameter `chooseFor(minLeafSize)`.
    So they promise no particular leaf count. What holds for every chooser is proved:
    at most `2^maxDepth` leaves (`SplitTreeByLeafBound`), and a partition of the map
    when the halves add up and stay non-negative (`SplitTreeByPartition`). The full
    `2^d`-leaf tree (`SplitLeafCount`) is proved for the one-argument `Split` only.
  - `CreateRoom` is a parameter `createRoom`: a function of the leaf's position, its
    area and the validated sizes, whose `None` is the source's `null`.
  - Its draws are not threaded through the random stream, and the room it stores in
    the leaf node is not modelled.
- `RoomInfo` is declared in `Dungeon Layout/RoomInfo.cs`, which is not part of this
  model; `RoomInfo` is reduced to its `RoomRect`.
- The connectors key their `parent` dictionary and their duplicate checks on
  `RoomInfo` references. The model uses room indices, which assumes the rooms of the
  input list are distinct objects. The `roomInfos == null` test becomes the empty list.
- `Vector2.Distance` (a float) is replaced by the squared integer distance. Both order
  pairs of integer points the same way, but float rounding of distances is not modelled.
- `Kruskal.SortByDistance`: `List.Sort` is not stable, so the contract claims only that
  the result is sorted and a permutation, not which of several equally distant entries
  comes first. The connectors' results are stated for some sorted order, not a
  particular one.
- `DelaunayConnectionGenerator.DelaunayConnectionGenerator.Shuffle`: `System.Random` and
  `OrderBy` are modelled as a sort on one drawn key per link, whose contract states only
  that the result is a permutation; the distribution of orders is not modelled.
- `DelaunayConnectionGenerator.DelaunayConnectionGenerator.AddExtraConnections`:
  `Mathf.FloorToInt(count * chance)` is computed on exact reals. Single-precision
  rounding of the product is not modelled.
- `MSTConnectionGenerator.GenerateConnections`: minimality of the total distance is not
  proved. The contract states the spanning forest and that it is Kruskal's choice over
  the sorted candidates.
- `DelaunayConnectionGenerator.DelaunayConnectionGenerator.GenerateMSTFromDelaunay`,
  `DelaunayConnectionGenerator.DelaunayConnectionGenerator.BridgedTree` and
  `DelaunayConnectionGenerator.DelaunayConnectionGenerator.GenerateSpanningConnections`:
  likewise, no minimal total distance is stated for the forest they keep. The contracts
  state that it is a forest, that it connects exactly what its input connects, and that
  it is Kruskal's choice over the links sorted by distance.
- `UnityRandom.Range`: Unity documents that the integer `Random.Range(lo, hi)` excludes
  `hi`, returns `lo` when the bounds are equal, and swaps them when `hi < lo`. Which end
  of a swapped range is excluded is an assumption here: the model takes `(hi, lo]`.
  `Bsp.SplitPos` and `Bsp.ShortSideSplitOverruns` rest on it for sides below 10. The
  overrun holds with either end excluded, since the cut at 4 is in both readings.
  Unity's generator itself is a stream of arbitrary draws.
- `GetRoomCenter` in both connectors is the same arithmetic as in `BSPNode.cs` and is
  modelled once, as `Geometry.Center`.
- `CreateLShapedCorridor` is `private` in `CorridorGenerator.cs` but is called from
  `RoomGeneratorCorridorExtensions.cs`. The model lets the extension call it.
