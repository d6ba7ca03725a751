/** `RoomGeneratorBase.cs`: the `RoomGenerator` component's bookkeeping. It
    clamps the room-size settings, partitions the map with a `BSPNode` tree, and
    rebuilds its room list from the tree's leaves. The component calls two
    `BSPNode` members that `BSPNode.cs` does not have: `Split(depth, minLeafSize)`
    and `CreateRoom` with the size settings. The first is `SplitBy` with the
    halves it picks given by a parameter `chooseFor(minLeafSize)`; the second is a
    parameter `createRoom`, given the leaf's position in the leaf list, the
    leaf's area and the size settings. */
module RoomGeneratorBase {
  import opened Wrappers
  import opened Geometry
  import opened UnityRandom
  import opened Bsp

  /** The four room-size settings. */
  datatype RoomSizes = RoomSizes(minWidth: int, minHeight: int, maxWidth: int, maxHeight: int)

  function Max(a: int, b: int): (m: int)
    ensures m >= a && m >= b && (m == a || m == b)
  {
    if a < b then b else a
  }

  /** Minimums of at least 3, and each maximum above its minimum. */
  predicate SizesValid(s: RoomSizes)
  {
    s.minWidth >= 3 && s.minHeight >= 3 && s.maxWidth > s.minWidth && s.maxHeight > s.minHeight
  }

  /** `ValidateRoomSizeParameters` on values: raise the minimums to 3, then raise
      each maximum to one above its (raised) minimum. Settings are only ever
      raised, the result is valid, and valid settings come back unchanged. */
  function Validated(s: RoomSizes): (v: RoomSizes)
    ensures SizesValid(v)
    ensures SizesValid(s) ==> v == s
    ensures v.minWidth >= s.minWidth && v.minHeight >= s.minHeight
    ensures v.maxWidth >= s.maxWidth && v.maxHeight >= s.maxHeight
    ensures s.minWidth >= 3 ==> v.minWidth == s.minWidth
    ensures s.minHeight >= 3 ==> v.minHeight == s.minHeight
  {
    var minWidth := Max(3, s.minWidth);
    var minHeight := Max(3, s.minHeight);
    RoomSizes(minWidth, minHeight, Max(minWidth + 1, s.maxWidth), Max(minHeight + 1, s.maxHeight))
  }

  /** Validating twice is validating once. */
  lemma ValidatedIdempotent(s: RoomSizes)
    ensures Validated(Validated(s)) == Validated(s)
  {
  }

  /** What `CreateRooms` keeps: the rooms `createRoom` returns for the leaves,
      skipping the leaves it returns none for, in leaf order. */
  function RoomsFor(createRoom: (nat, Rect, RoomSizes) -> Option<RoomInfo>, areas: seq<Rect>,
                    sizes: RoomSizes): (rooms: seq<RoomInfo>)
    ensures |rooms| <= |areas|
  {
    if areas == [] then []
    else
      var n := |areas| - 1;
      var before := RoomsFor(createRoom, areas[..n], sizes);
      var made := createRoom(n, areas[n], sizes);
      if made.Some? then before + [made.value] else before
  }

  /** Every room kept is the room `createRoom` made for some leaf. */
  lemma {:induction false} RoomsForMade(createRoom: (nat, Rect, RoomSizes) -> Option<RoomInfo>,
                                        areas: seq<Rect>, sizes: RoomSizes, j: nat)
    requires j < |RoomsFor(createRoom, areas, sizes)|
    ensures exists i :: 0 <= i < |areas| && createRoom(i, areas[i], sizes) == Some(RoomsFor(createRoom, areas, sizes)[j])
  {
    var n := |areas| - 1;
    var before := RoomsFor(createRoom, areas[..n], sizes);
    if j < |before| {
      RoomsForMade(createRoom, areas[..n], sizes, j);
      var i :| 0 <= i < n && createRoom(i, areas[..n][i], sizes) == Some(before[j]);
      assert areas[..n][i] == areas[i];
    } else {
      assert createRoom(n, areas[n], sizes) == Some(RoomsFor(createRoom, areas, sizes)[j]);
    }
  }

  /** When `createRoom` makes a room for every leaf, the list holds exactly those
      rooms, one per leaf, in leaf order. */
  lemma {:induction false} RoomsForEveryLeaf(createRoom: (nat, Rect, RoomSizes) -> Option<RoomInfo>,
                                             areas: seq<Rect>, sizes: RoomSizes)
    requires forall i :: 0 <= i < |areas| ==> createRoom(i, areas[i], sizes).Some?
    ensures var rooms := RoomsFor(createRoom, areas, sizes);
      |rooms| == |areas| && forall i :: 0 <= i < |areas| ==> createRoom(i, areas[i], sizes) == Some(rooms[i])
  {
    if areas != [] {
      var n := |areas| - 1;
      assert forall i :: 0 <= i < n ==> areas[..n][i] == areas[i];
      RoomsForEveryLeaf(createRoom, areas[..n], sizes);
    }
  }

  /** Rooms of earlier leaves come before rooms of later leaves: the rooms for a
      prefix of the leaves are a prefix of the rooms for all of them. */
  lemma {:induction false} RoomsForPrefix(createRoom: (nat, Rect, RoomSizes) -> Option<RoomInfo>,
                                          areas: seq<Rect>, sizes: RoomSizes, m: nat)
    requires m <= |areas|
    ensures var early := RoomsFor(createRoom, areas[..m], sizes);
      |early| <= |RoomsFor(createRoom, areas, sizes)| &&
      RoomsFor(createRoom, areas, sizes)[..|early|] == early
    decreases |areas| - m
  {
    if m < |areas| {
      var n := |areas| - 1;
      assert areas[..n][..m] == areas[..m];
      RoomsForPrefix(createRoom, areas[..n], sizes, m);
    } else {
      assert areas[..m] == areas;
    }
  }

  class RoomGenerator {
    var mapWidth: int
    var mapHeight: int
    var maxDepth: int
    var minLeafSize: int
    /** Whether `roomPrefab` is assigned. */
    var hasRoomPrefab: bool
    var minRoomWidth: int
    var minRoomHeight: int
    var maxRoomWidth: int
    var maxRoomHeight: int
    var leafNodes: seq<BSPNode>
    var rootNode: BSPNode?
    var roomInfos: seq<RoomInfo>

    /** The field initialisers. `leafNodes` starts out empty rather than null. */
    constructor ()
      ensures mapWidth == 50 && mapHeight == 50 && maxDepth == 4 && minLeafSize == 10
      ensures !hasRoomPrefab
      ensures Sizes() == RoomSizes(4, 4, 12, 12)
      ensures leafNodes == [] && rootNode == null && roomInfos == []
    {
      mapWidth, mapHeight, maxDepth, minLeafSize := 50, 50, 4, 10;
      hasRoomPrefab := false;
      minRoomWidth, minRoomHeight, maxRoomWidth, maxRoomHeight := 4, 4, 12, 12;
      leafNodes, rootNode, roomInfos := [], null, [];
    }

    function Sizes(): RoomSizes
      reads this`minRoomWidth, this`minRoomHeight, this`maxRoomWidth, this`maxRoomHeight
    {
      RoomSizes(minRoomWidth, minRoomHeight, maxRoomWidth, maxRoomHeight)
    }

    /** The areas of the nodes in `leafNodes`. */
    function LeafAreas(): (areas: seq<Rect>)
      reads this`leafNodes, leafNodes
      ensures |areas| == |leafNodes| && forall i :: 0 <= i < |leafNodes| ==> areas[i] == leafNodes[i].area
    {
      var nodes := leafNodes;
      seq(|nodes|, i reads nodes requires 0 <= i < |nodes| => nodes[i].area)
    }

    /** `ValidateRoomSizeParameters`: only the four size settings change, to `Validated`. */
    method ValidateRoomSizeParameters()
      modifies this`minRoomWidth, this`minRoomHeight, this`maxRoomWidth, this`maxRoomHeight
      ensures Sizes() == Validated(old(Sizes()))
    {
      minRoomWidth := Max(3, minRoomWidth);
      minRoomHeight := Max(3, minRoomHeight);
      maxRoomWidth := Max(minRoomWidth + 1, maxRoomWidth);
      maxRoomHeight := Max(minRoomHeight + 1, maxRoomHeight);
    }

    /** `CreateRooms`: the previous list is dropped, and the new one holds the
        rooms made for the current leaves, in leaf order. */
    method CreateRooms(createRoom: (nat, Rect, RoomSizes) -> Option<RoomInfo>)
      modifies this`roomInfos
      ensures roomInfos == RoomsFor(createRoom, LeafAreas(), Sizes())
    {
      ghost var areas := LeafAreas();
      var sizes := Sizes();
      roomInfos := [];
      for i := 0 to |leafNodes|
        invariant roomInfos == RoomsFor(createRoom, areas[..i], sizes)
      {
        assert areas[..i + 1][..i] == areas[..i];
        var roomInfo := createRoom(i, leafNodes[i].area, sizes);
        if roomInfo.Some? {
          roomInfos := roomInfos + [roomInfo.value];
        }
      }
      assert areas[..|leafNodes|] == areas;
    }

    /** The partition tree `GenerateRooms` builds: `rootNode` covers
        `(0, 0, mapWidth, mapHeight)`, has been split `maxDepth` levels picking
        halves with `choose` and reading the draws from cursor `k` up to `k'`, and
        `leafNodes` holds its leaves in order. */
    ghost predicate Partitioned(choose: Chooser, rng: Stream, k: nat, k': nat)
      reads this`rootNode, this`leafNodes, this`mapWidth, this`mapHeight, this`maxDepth
      reads if rootNode != null then {rootNode} + rootNode.Repr else {}
      reads leafNodes
    {
      rootNode != null && rootNode.Valid() &&
      (rootNode.Model, k') == SplitTreeBy(choose, NewNode(Rect(0, 0, mapWidth, mapHeight)), maxDepth, rng, k) &&
      |leafNodes| == |Leaves(rootNode.Model)| &&
      forall i :: 0 <= i < |leafNodes| ==> leafNodes[i].area == Leaves(rootNode.Model)[i].area
    }

    /** `GenerateRooms`. Without a room prefab nothing changes and nothing is drawn.
        Otherwise: the size settings are validated; a fresh root is split over the
        map with `Split(maxDepth, minLeafSize)` and its leaves listed
        (`Partitioned`); and the room list is rebuilt from the leaves with the
        validated sizes. */
    method GenerateRooms(rng: Stream, k: nat, chooseFor: int -> Chooser,
                         createRoom: (nat, Rect, RoomSizes) -> Option<RoomInfo>)
      returns (k': nat)
      modifies this`minRoomWidth, this`minRoomHeight, this`maxRoomWidth, this`maxRoomHeight
      modifies this`rootNode, this`leafNodes, this`roomInfos
      ensures !old(hasRoomPrefab) ==> k' == k && unchanged(this)
      ensures old(hasRoomPrefab) ==> Sizes() == Validated(old(Sizes()))
      ensures old(hasRoomPrefab) ==> Partitioned(chooseFor(minLeafSize), rng, k, k') && fresh(rootNode)
      ensures old(hasRoomPrefab) ==> roomInfos == RoomsFor(createRoom, LeafAreas(), Sizes())
    {
      if !hasRoomPrefab {
        return k;
      }
      ValidateRoomSizeParameters();
      k' := PartitionMap(chooseFor(minLeafSize), rng, k);
      assert Partitioned(chooseFor(minLeafSize), rng, k, k');
      CreateRooms(createRoom);
    }

    /** The tree-building steps of `GenerateRooms`: a fresh root over the whole map,
        split `maxDepth` levels from cursor `k` picking halves with `choose`, and
        the list of its leaves. */
    method PartitionMap(choose: Chooser, rng: Stream, k: nat) returns (k': nat)
      modifies this`rootNode, this`leafNodes
      ensures Partitioned(choose, rng, k, k') && fresh(rootNode) && fresh(rootNode.Repr)
    {
      var root := new BSPNode(0, 0, mapWidth, mapHeight);
      k' := root.SplitBy(choose, maxDepth, rng, k);
      rootNode := root;
      leafNodes := root.GetLeafNodes();
    }
  }
}
