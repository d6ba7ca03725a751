/** The binary space partition of `BSPNode.cs`: a node owns a rectangle, at most
    two children and at most one room. The class `BSPNode` is the object the
    source mutates; `Tree` is its abstract value, and the functions on `Tree`
    specify what the methods do to it. */
module Bsp {
  import opened Wrappers
  import opened Geometry
  import opened UnityRandom

  /** The smallest split position `Split` asks for, on either side. */
  const SplitMargin := 5
  /** The gap `CreateRoom` keeps between a room and its leaf's border. */
  const Padding := 2
  /** The smallest room side `CreateRoom` places. */
  const MinRoomSide := 4

  /** The value of a node: its area, its room slot, and its two child slots. */
  datatype Tree = Tree(area: Rect, room: Option<Rect>, left: Option<Tree>, right: Option<Tree>)

  /** A node as the constructor leaves it: no room and no children. */
  function NewNode(area: Rect): Tree
  {
    Tree(area, None, None, None)
  }

  predicate IsLeaf(t: Tree)
  {
    t.left.None? && t.right.None?
  }

  function Pow2(n: nat): (p: nat)
    ensures p >= 1
  {
    if n == 0 then 1 else 2 * Pow2(n - 1)
  }

  // ---------------------------------------------------------------- splitting

  /** `l` and `r` share the parent's x and width and stack up its height. */
  predicate Stacked(area: Rect, l: Rect, r: Rect)
  {
    l.x == area.x && r.x == area.x && l.width == area.width && r.width == area.width &&
    l.y == area.y && r.y == area.y + l.height && l.height + r.height == area.height
  }

  /** `l` and `r` share the parent's y and height and line up along its width. */
  predicate SideBySide(area: Rect, l: Rect, r: Rect)
  {
    l.y == area.y && r.y == area.y && l.height == area.height && r.height == area.height &&
    l.x == area.x && r.x == area.x + l.width && l.width + r.width == area.width
  }

  /** Every cell of `area` lies in exactly one of `l` and `r`, and no other cell does. */
  ghost predicate CellsTile(area: Rect, l: Rect, r: Rect)
  {
    (forall p :: Contains(area, p) <==> Contains(l, p) || Contains(r, p)) &&
    (forall p :: !(Contains(l, p) && Contains(r, p)))
  }

  /** The two child rectangles of a split at `pos`. */
  function Cut(area: Rect, horizontally: bool, pos: int): (c: (Rect, Rect))
    ensures horizontally ==> Stacked(area, c.0, c.1) && c.0.height == pos
    ensures !horizontally ==> SideBySide(area, c.0, c.1) && c.0.width == pos
  {
    if horizontally then
      (Rect(area.x, area.y, area.width, pos), Rect(area.x, area.y + pos, area.width, area.height - pos))
    else
      (Rect(area.x, area.y, pos, area.height), Rect(area.x + pos, area.y, area.width - pos, area.height))
  }

  /** Sizes that add up tile the parent cell by cell, as long as neither child is negative. */
  lemma ArithmeticTilingCoversCells(area: Rect, l: Rect, r: Rect)
    requires Stacked(area, l, r) || SideBySide(area, l, r)
    requires l.width >= 0 && l.height >= 0 && r.width >= 0 && r.height >= 0
    ensures CellsTile(area, l, r)
  {
  }

  /** The split position `Split` draws for a side of length `side`. */
  function SplitPos(side: int, rng: Stream, k: nat): (pos: int)
    ensures side >= SplitMargin ==> 0 <= pos <= side
    ensures side > 2 * SplitMargin ==> SplitMargin <= pos < side - SplitMargin
    ensures side == 2 * SplitMargin ==> pos == SplitMargin
    ensures side < 2 * SplitMargin ==> side - SplitMargin < pos <= SplitMargin
  {
    Range(SplitMargin, side - SplitMargin, rng, k)
  }

  /** The two child areas of one split, from the axis draw at `k` and the position draw at `k + 1`. */
  function SplitHalves(area: Rect, rng: Stream, k: nat): (Rect, Rect)
  {
    var horizontally := Coin(rng, k);
    Cut(area, horizontally, SplitPos(if horizontally then area.height else area.width, rng, k + 1))
  }

  /** What `Split(depth)` makes of a node: nothing when `depth <= 0`; otherwise two
      fresh children that are split in turn, left before right. The second
      component is the cursor after the draws. */
  function SplitTree(t: Tree, depth: int, rng: Stream, k: nat): (r: (Tree, nat))
    ensures k <= r.1
    ensures depth <= 0 ==> r == (t, k)
    ensures depth > 0 ==> r.0.area == t.area && r.0.room == t.room && r.0.left.Some? && r.0.right.Some?
    decreases depth
  {
    if depth <= 0 then (t, k)
    else
      var halves := SplitHalves(t.area, rng, k);
      var l := SplitTree(NewNode(halves.0), depth - 1, rng, k + 2);
      var r := SplitTree(NewNode(halves.1), depth - 1, rng, l.1);
      (Tree(t.area, t.room, Some(l.0), Some(r.0)), r.1)
  }

  /** One level of `SplitTree`, given what the two recursive splits produced. */
  lemma SplitTreeStep(t: Tree, depth: int, rng: Stream, k: nat, halves: (Rect, Rect),
                      l: Tree, k1: nat, r: Tree, k2: nat)
    requires depth > 0 && halves == SplitHalves(t.area, rng, k)
    requires (l, k1) == SplitTree(NewNode(halves.0), depth - 1, rng, k + 2)
    requires (r, k2) == SplitTree(NewNode(halves.1), depth - 1, rng, k1)
    ensures SplitTree(t, depth, rng, k) == (Tree(t.area, t.room, Some(l), Some(r)), k2)
  {
  }

  /** Every node down to `depth` has both children, and none below it has any. */
  predicate Full(t: Tree, depth: nat)
  {
    if depth == 0 then IsLeaf(t)
    else t.left.Some? && t.right.Some? && Full(t.left.value, depth - 1) && Full(t.right.value, depth - 1)
  }

  /** Every node has no child or two, and two children split the parent's sizes exactly. */
  predicate Tiled(t: Tree)
  {
    match t
    case Tree(_, _, None, None) => true
    case Tree(area, _, Some(l), Some(r)) =>
      (Stacked(area, l.area, r.area) || SideBySide(area, l.area, r.area)) && Tiled(l) && Tiled(r)
    case _ => false
  }

  /** No node of the tree has a negative width or height. */
  predicate NonNegative(t: Tree)
  {
    t.area.width >= 0 && t.area.height >= 0 &&
    (t.left.Some? ==> NonNegative(t.left.value)) &&
    (t.right.Some? ==> NonNegative(t.right.value))
  }

  lemma {:induction false} SplitTreeFull(t: Tree, depth: int, rng: Stream, k: nat)
    requires depth > 0 || (depth == 0 && IsLeaf(t))
    ensures Full(SplitTree(t, depth, rng, k).0, depth)
    decreases depth
  {
    if depth > 0 {
      var halves := SplitHalves(t.area, rng, k);
      var l := SplitTree(NewNode(halves.0), depth - 1, rng, k + 2);
      SplitTreeFull(NewNode(halves.0), depth - 1, rng, k + 2);
      SplitTreeFull(NewNode(halves.1), depth - 1, rng, l.1);
    }
  }

  lemma {:induction false} SplitTreeTiled(t: Tree, depth: int, rng: Stream, k: nat)
    requires depth > 0 || Tiled(t)
    ensures Tiled(SplitTree(t, depth, rng, k).0)
    decreases depth
  {
    if depth > 0 {
      var halves := SplitHalves(t.area, rng, k);
      var l := SplitTree(NewNode(halves.0), depth - 1, rng, k + 2);
      SplitTreeTiled(NewNode(halves.0), depth - 1, rng, k + 2);
      SplitTreeTiled(NewNode(halves.1), depth - 1, rng, l.1);
    }
  }

  // ------------------------------------------------- splitting with a chooser

  /** How a split picks the halves of a node's area from the draws at cursor `k`
      on: the two halves, or `None` when the node stays a leaf, with the cursor
      after the draws it made. */
  type Chooser = (Rect, Stream, nat) -> (Option<(Rect, Rect)>, nat)

  /** The choice `Split(depth)` makes: always the halves of `SplitHalves`, from two draws. */
  function Halves(area: Rect, rng: Stream, k: nat): (Option<(Rect, Rect)>, nat)
  {
    (Some(SplitHalves(area, rng, k)), k + 2)
  }

  /** Every pair of halves `choose` picks splits the parent's sizes exactly. */
  ghost predicate Cuts(choose: Chooser)
  {
    forall area, rng, k :: choose(area, rng, k).0.Some? ==>
      Stacked(area, choose(area, rng, k).0.value.0, choose(area, rng, k).0.value.1) ||
      SideBySide(area, choose(area, rng, k).0.value.0, choose(area, rng, k).0.value.1)
  }

  /** `choose` never gives an area without negative sizes a half with one. */
  ghost predicate KeepsSizes(choose: Chooser)
  {
    forall area: Rect, rng, k :: area.width >= 0 && area.height >= 0 && choose(area, rng, k).0.Some? ==>
      choose(area, rng, k).0.value.0.width >= 0 && choose(area, rng, k).0.value.0.height >= 0 &&
      choose(area, rng, k).0.value.1.width >= 0 && choose(area, rng, k).0.value.1.height >= 0
  }

  /** What a split that picks its halves with `choose` makes of a node: nothing
      when `depth <= 0` or when `choose` picks none; otherwise two fresh children
      over the halves, split in turn, left before right. */
  function SplitTreeBy(choose: Chooser, t: Tree, depth: int, rng: Stream, k: nat): (r: (Tree, nat))
    ensures r.0.area == t.area && r.0.room == t.room
    ensures depth <= 0 ==> r == (t, k)
    ensures r.0 == t || (r.0.left.Some? && r.0.right.Some?)
    decreases depth
  {
    if depth <= 0 then (t, k)
    else
      var choice := choose(t.area, rng, k);
      if choice.0.None? then (t, choice.1)
      else
        var l := SplitTreeBy(choose, NewNode(choice.0.value.0), depth - 1, rng, choice.1);
        var r := SplitTreeBy(choose, NewNode(choice.0.value.1), depth - 1, rng, l.1);
        (Tree(t.area, t.room, Some(l.0), Some(r.0)), r.1)
  }

  /** One level of `SplitTreeBy`, given what the two recursive splits produced. */
  lemma SplitTreeByStep(choose: Chooser, t: Tree, depth: int, rng: Stream, k: nat,
                        halves: (Rect, Rect), k0: nat, l: Tree, k1: nat, r: Tree, k2: nat)
    requires depth > 0 && choose(t.area, rng, k) == (Some(halves), k0)
    requires (l, k1) == SplitTreeBy(choose, NewNode(halves.0), depth - 1, rng, k0)
    requires (r, k2) == SplitTreeBy(choose, NewNode(halves.1), depth - 1, rng, k1)
    ensures SplitTreeBy(choose, t, depth, rng, k) == (Tree(t.area, t.room, Some(l), Some(r)), k2)
  {
  }

  /** The two fresh children `Split` makes of `t`. */
  function ChildrenOf(t: Tree, rng: Stream, k: nat): set<Tree>
  {
    {NewNode(SplitHalves(t.area, rng, k).0), NewNode(SplitHalves(t.area, rng, k).1)}
  }

  /** One level of `SplitTreeBy` with `Halves` agrees with one level of
      `SplitTree` when the two splits of each child agree. */
  lemma HalvesStep(t: Tree, depth: int, d: int, rng: Stream, k: nat)
    requires depth > 0 && d == depth - 1
    requires forall c: Tree, k1: nat :: c in ChildrenOf(t, rng, k) ==>
      SplitTreeBy(Halves, c, d, rng, k1) == SplitTree(c, d, rng, k1)
    ensures SplitTreeBy(Halves, t, depth, rng, k) == SplitTree(t, depth, rng, k)
  {
    var halves := SplitHalves(t.area, rng, k);
    var c0, c1 := NewNode(halves.0), NewNode(halves.1);
    var l := SplitTree(c0, d, rng, k + 2);
    var r := SplitTree(c1, d, rng, l.1);
    var split := (Tree(t.area, t.room, Some(l.0), Some(r.0)), r.1);
    assert SplitTreeBy(Halves, t, depth, rng, k) == split by {
      assert c0 in ChildrenOf(t, rng, k) && c1 in ChildrenOf(t, rng, k);
      assert Halves(t.area, rng, k) == (Some(halves), k + 2);
      SplitTreeByStep(Halves, t, depth, rng, k, halves, k + 2, l.0, l.1, r.0, r.1);
    }
    assert SplitTree(t, depth, rng, k) == split by {
      SplitTreeStep(t, depth, rng, k, halves, l.0, l.1, r.0, r.1);
    }
  }

  /** `Split(depth)` is the split that always picks `Halves`. */
  lemma {:induction false} SplitTreeByHalves(t: Tree, depth: int, rng: Stream, k: nat)
    ensures SplitTreeBy(Halves, t, depth, rng, k) == SplitTree(t, depth, rng, k)
    decreases depth
  {
    if depth > 0 {
      var d := depth - 1;
      forall c: Tree, k1: nat | c in ChildrenOf(t, rng, k)
        ensures SplitTreeBy(Halves, c, d, rng, k1) == SplitTree(c, d, rng, k1)
      {
        SplitTreeByHalves(c, d, rng, k1);
      }
      HalvesStep(t, depth, d, rng, k);
    }
  }

  /** Every node has no child or two, and no path from the root is longer than `depth`. */
  predicate Shallow(t: Tree, depth: nat)
  {
    IsLeaf(t) ||
    (depth > 0 && t.left.Some? && t.right.Some? &&
     Shallow(t.left.value, depth - 1) && Shallow(t.right.value, depth - 1))
  }

  lemma {:induction false} ShallowLeafCount(t: Tree, depth: nat)
    requires Shallow(t, depth)
    ensures 1 <= |Leaves(t)| <= Pow2(depth)
  {
    if !IsLeaf(t) {
      ShallowLeafCount(t.left.value, depth - 1);
      ShallowLeafCount(t.right.value, depth - 1);
    }
  }

  lemma {:induction false} SplitTreeByShallow(choose: Chooser, t: Tree, depth: nat, rng: Stream, k: nat)
    requires IsLeaf(t)
    ensures Shallow(SplitTreeBy(choose, t, depth, rng, k).0, depth)
    decreases depth
  {
    if depth > 0 {
      var choice := choose(t.area, rng, k);
      if choice.0.Some? {
        var l := SplitTreeBy(choose, NewNode(choice.0.value.0), depth - 1, rng, choice.1);
        SplitTreeByShallow(choose, NewNode(choice.0.value.0), depth - 1, rng, choice.1);
        SplitTreeByShallow(choose, NewNode(choice.0.value.1), depth - 1, rng, l.1);
      }
    }
  }

  /** A split from a fresh node has at least one leaf and at most `2^depth`. */
  lemma SplitTreeByLeafBound(choose: Chooser, area: Rect, depth: nat, rng: Stream, k: nat)
    ensures 1 <= |Leaves(SplitTreeBy(choose, NewNode(area), depth, rng, k).0)| <= Pow2(depth)
  {
    SplitTreeByShallow(choose, NewNode(area), depth, rng, k);
    ShallowLeafCount(SplitTreeBy(choose, NewNode(area), depth, rng, k).0, depth);
  }

  lemma {:induction false} SplitTreeByTiled(choose: Chooser, t: Tree, depth: int, rng: Stream, k: nat)
    requires Cuts(choose) && Tiled(t)
    ensures Tiled(SplitTreeBy(choose, t, depth, rng, k).0)
    decreases depth
  {
    if depth > 0 {
      var choice := choose(t.area, rng, k);
      if choice.0.Some? {
        var l := SplitTreeBy(choose, NewNode(choice.0.value.0), depth - 1, rng, choice.1);
        SplitTreeByTiled(choose, NewNode(choice.0.value.0), depth - 1, rng, choice.1);
        SplitTreeByTiled(choose, NewNode(choice.0.value.1), depth - 1, rng, l.1);
      }
    }
  }

  lemma {:induction false} SplitTreeByNonNegative(choose: Chooser, t: Tree, depth: int, rng: Stream, k: nat)
    requires KeepsSizes(choose) && NonNegative(t)
    ensures NonNegative(SplitTreeBy(choose, t, depth, rng, k).0)
    decreases depth
  {
    if depth > 0 {
      var choice := choose(t.area, rng, k);
      if choice.0.Some? {
        var l := SplitTreeBy(choose, NewNode(choice.0.value.0), depth - 1, rng, choice.1);
        SplitTreeByNonNegative(choose, NewNode(choice.0.value.0), depth - 1, rng, choice.1);
        SplitTreeByNonNegative(choose, NewNode(choice.0.value.1), depth - 1, rng, l.1);
      }
    }
  }

  /** A split whose halves add up and never go negative partitions an area without
      negative sizes: every cell of it is in exactly one leaf, and no other cell is
      in any leaf. */
  lemma SplitTreeByPartition(choose: Chooser, area: Rect, depth: int, rng: Stream, k: nat)
    requires Cuts(choose) && KeepsSizes(choose) && area.width >= 0 && area.height >= 0
    ensures var ls := Leaves(SplitTreeBy(choose, NewNode(area), depth, rng, k).0);
      forall p :: Contains(area, p) <==> exists i :: 0 <= i < |ls| && Contains(ls[i].area, p)
    ensures var ls := Leaves(SplitTreeBy(choose, NewNode(area), depth, rng, k).0);
      forall i, j, p :: 0 <= i < j < |ls| ==> !(Contains(ls[i].area, p) && Contains(ls[j].area, p))
  {
    var t := SplitTreeBy(choose, NewNode(area), depth, rng, k).0;
    assert t.area == area;
    SplitTreeByTiled(choose, NewNode(area), depth, rng, k);
    SplitTreeByNonNegative(choose, NewNode(area), depth, rng, k);
    LeavesPartition(t);
  }

  lemma {:induction false} SplitTreeByRoomsOnlyOnLeaves(choose: Chooser, t: Tree, depth: int, rng: Stream, k: nat)
    requires IsLeaf(t) && t.room.None?
    ensures RoomsOnlyOnLeaves(SplitTreeBy(choose, t, depth, rng, k).0)
    decreases depth
  {
    if depth > 0 {
      var choice := choose(t.area, rng, k);
      if choice.0.Some? {
        var l := SplitTreeBy(choose, NewNode(choice.0.value.0), depth - 1, rng, choice.1);
        SplitTreeByRoomsOnlyOnLeaves(choose, NewNode(choice.0.value.0), depth - 1, rng, choice.1);
        SplitTreeByRoomsOnlyOnLeaves(choose, NewNode(choice.0.value.1), depth - 1, rng, l.1);
      }
    }
  }

  /** On a side shorter than `2 * SplitMargin` some draw puts the cut at
      `SplitMargin`, past the end of any side shorter than `SplitMargin`. */
  lemma ShortSideCanReachMargin(side: int, k: nat)
    requires side < 2 * SplitMargin
    ensures SplitPos(side, (_: nat) => DrawFor(SplitMargin, SplitMargin, side - SplitMargin), k) == SplitMargin
  {
    RangeReachable(SplitMargin, side - SplitMargin, SplitMargin, k);
  }

  /** A split across a side shorter than `SplitMargin` draws its position from
      the swapped range `(side - SplitMargin, SplitMargin]`, which reaches past
      the side: the first child can then reach outside its parent and the second
      get a negative size. With the draws below, a 10x3 area split once
      horizontally gives a 4-cell-high first child that holds the cell (0, 3),
      outside the area. */
  lemma ShortSideSplitOverruns()
    ensures var t := SplitTree(NewNode(Rect(0, 0, 10, 3)), 1, (_: nat) => 5, 0).0;
            t.left.Some? && t.left.value.area == Rect(0, 0, 10, 4) &&
            Contains(t.left.value.area, Point(0, 3)) && !Contains(t.area, Point(0, 3)) &&
            !NonNegative(t)
  {
    var rng: Stream := (_: nat) => 5;
    var area := Rect(0, 0, 10, 3);
    assert Coin(rng, 0);
    assert SplitPos(3, rng, 1) == 4;
    var halves := Cut(area, true, 4);
    assert halves == (Rect(0, 0, 10, 4), Rect(0, 4, 10, -1));
    var t := SplitTree(NewNode(area), 1, rng, 0).0;
    assert t.left == Some(NewNode(Rect(0, 0, 10, 4)));
    assert t.right == Some(NewNode(Rect(0, 4, 10, -1)));
  }

  // ------------------------------------------------------------------ leaves

  /** `GetLeafNodes`: the childless nodes, left subtree before right subtree. */
  function Leaves(t: Tree): (ls: seq<Tree>)
    ensures forall i :: 0 <= i < |ls| ==> IsLeaf(ls[i])
    ensures IsLeaf(t) ==> ls == [t]
  {
    if IsLeaf(t) then [t]
    else
      (if t.left.Some? then Leaves(t.left.value) else []) +
      (if t.right.Some? then Leaves(t.right.value) else [])
  }

  lemma {:induction false} FullLeafCount(t: Tree, depth: nat)
    requires Full(t, depth)
    ensures |Leaves(t)| == Pow2(depth)
  {
    if depth > 0 {
      FullLeafCount(t.left.value, depth - 1);
      FullLeafCount(t.right.value, depth - 1);
    }
  }

  /** `Split(depth)` on a fresh node yields exactly `2^depth` leaves. */
  lemma SplitLeafCount(area: Rect, depth: nat, rng: Stream, k: nat)
    ensures |Leaves(SplitTree(NewNode(area), depth, rng, k).0)| == Pow2(depth)
  {
    SplitTreeFull(NewNode(area), depth, rng, k);
    FullLeafCount(SplitTree(NewNode(area), depth, rng, k).0, depth);
  }

  /** Whenever no node has a negative size, the leaves of a tiled tree partition
      the root's area: every cell of it is in some leaf, no cell outside it is,
      and no cell is in two leaves. */
  lemma {:induction false} LeavesPartition(t: Tree)
    requires Tiled(t) && NonNegative(t)
    ensures forall p :: Contains(t.area, p) <==>
      exists i :: 0 <= i < |Leaves(t)| && Contains(Leaves(t)[i].area, p)
    ensures forall i, j, p :: 0 <= i < j < |Leaves(t)| ==>
      !(Contains(Leaves(t)[i].area, p) && Contains(Leaves(t)[j].area, p))
  {
    LeavesCover(t);
    LeavesDisjoint(t);
  }

  /** The leaves of a tiled tree without negative sizes cover exactly the root's cells. */
  lemma {:induction false} LeavesCover(t: Tree)
    requires Tiled(t) && NonNegative(t)
    ensures forall p :: Contains(t.area, p) <==>
      exists i :: 0 <= i < |Leaves(t)| && Contains(Leaves(t)[i].area, p)
  {
    if !IsLeaf(t) {
      var l, r := t.left.value, t.right.value;
      LeavesCover(l);
      LeavesCover(r);
      ArithmeticTilingCoversCells(t.area, l.area, r.area);
      var L, Ll, Lr := Leaves(t), Leaves(l), Leaves(r);
      assert L == Ll + Lr;
      forall p
        ensures Contains(t.area, p) <==> exists i :: 0 <= i < |L| && Contains(L[i].area, p)
      {
        if Contains(t.area, p) {
          if Contains(l.area, p) {
            var i :| 0 <= i < |Ll| && Contains(Ll[i].area, p);
            assert L[i] == Ll[i];
          } else {
            var i :| 0 <= i < |Lr| && Contains(Lr[i].area, p);
            assert L[|Ll| + i] == Lr[i];
          }
        }
        if exists i :: 0 <= i < |L| && Contains(L[i].area, p) {
          var i :| 0 <= i < |L| && Contains(L[i].area, p);
          if i < |Ll| {
            assert L[i] == Ll[i];
          } else {
            assert L[i] == Lr[i - |Ll|];
          }
        }
      }
    } else {
      assert Leaves(t)[0] == t;
    }
  }

  /** No cell lies in two leaves of a tiled tree without negative sizes. */
  lemma {:induction false} LeavesDisjoint(t: Tree)
    requires Tiled(t) && NonNegative(t)
    ensures forall i, j, p :: 0 <= i < j < |Leaves(t)| ==>
      !(Contains(Leaves(t)[i].area, p) && Contains(Leaves(t)[j].area, p))
  {
    if !IsLeaf(t) {
      var l, r := t.left.value, t.right.value;
      LeavesDisjoint(l);
      LeavesDisjoint(r);
      LeavesCover(l);
      LeavesCover(r);
      ArithmeticTilingCoversCells(t.area, l.area, r.area);
      var L, Ll, Lr := Leaves(t), Leaves(l), Leaves(r);
      assert L == Ll + Lr;
      forall i, j, p | 0 <= i < j < |L|
        ensures !(Contains(L[i].area, p) && Contains(L[j].area, p))
      {
        if j < |Ll| {
          assert L[i] == Ll[i] && L[j] == Ll[j];
        } else if i >= |Ll| {
          assert L[i] == Lr[i - |Ll|] && L[j] == Lr[j - |Ll|];
        } else {
          assert L[i] == Ll[i] && L[j] == Lr[j - |Ll|];
          assert Contains(L[i].area, p) ==> Contains(l.area, p);
          assert Contains(L[j].area, p) ==> Contains(r.area, p);
        }
      }
    }
  }

  // ------------------------------------------------------------------- rooms

  /** The room stays clear of every border of `area` by at least `pad` cells. */
  predicate InsetBy(room: Rect, area: Rect, pad: int)
  {
    area.x + pad <= room.x && room.x + room.width <= area.x + area.width - pad &&
    area.y + pad <= room.y && room.y + room.height <= area.y + area.height - pad
  }

  /** The room `CreateRoom` places in a leaf, if the leaf has space for one, and
      the cursor after its draws (width, height, x offset, y offset). */
  function PlaceRoom(area: Rect, rng: Stream, k: nat): (r: (Option<Rect>, nat))
    ensures r.0.None? <==> area.width - 2 * Padding < MinRoomSide || area.height - 2 * Padding < MinRoomSide
    ensures r.0.None? ==> r.1 == k
    ensures r.0.Some? ==>
      var room := r.0.value;
      MinRoomSide <= room.width <= area.width - 2 * Padding &&
      MinRoomSide <= room.height <= area.height - 2 * Padding &&
      InsetBy(room, area, Padding) && r.1 == k + 4
  {
    var maxRoomWidth := area.width - Padding * 2;
    var maxRoomHeight := area.height - Padding * 2;
    if maxRoomWidth < MinRoomSide || maxRoomHeight < MinRoomSide then (None, k)
    else
      var roomWidth := Range(MinRoomSide, maxRoomWidth, rng, k);
      var roomHeight := Range(MinRoomSide, maxRoomHeight, rng, k + 1);
      var roomX := area.x + Range(Padding, area.width - roomWidth - Padding, rng, k + 2);
      var roomY := area.y + Range(Padding, area.height - roomHeight - Padding, rng, k + 3);
      (Some(Rect(roomX, roomY, roomWidth, roomHeight)), k + 4)
  }

  /** A placed room is part of its leaf: every cell of the room is a cell of the leaf. */
  lemma PlacedRoomInsideLeaf(area: Rect, rng: Stream, k: nat, p: Point)
    requires PlaceRoom(area, rng, k).0.Some?
    requires Contains(PlaceRoom(area, rng, k).0.value, p)
    ensures Contains(area, p)
  {
  }

  /** `GetRoomCenter`: the centre of the node's room, or of its area when it has none. */
  function RoomCenter(t: Tree): (c: Point)
    ensures t.room.Some? && t.room.value.width > 0 && t.room.value.height > 0 ==> Contains(t.room.value, c)
    ensures t.room.None? && t.area.width > 0 && t.area.height > 0 ==> Contains(t.area, c)
  {
    if t.room.Some? then Center(t.room.value) else Center(t.area)
  }

  /** `GetRoomCenter` as written: `room` is a `RectInt` value, never null, so the
      test against null always holds and a node without a placed room reports the
      centre of the default rectangle `(0, 0, 0, 0)`. */
  function RoomCenterAsWritten(t: Tree): (c: Point)
    ensures t.room.Some? ==> c == RoomCenter(t)
    ensures t.room.None? ==> c == Point(0, 0)
  {
    Center(if t.room.Some? then t.room.value else Rect(0, 0, 0, 0))
  }

  /** A node with no room away from the origin: the reading above gives a
      centre outside the node, where `RoomCenter` stays inside it. */
  lemma UnsetRoomCenterOutsideArea()
    ensures var t := NewNode(Rect(10, 10, 20, 20));
            !Contains(t.area, RoomCenterAsWritten(t)) && Contains(t.area, RoomCenter(t))
  {
    var area := Rect(10, 10, 20, 20);
    assert Half(20) == 10;
    assert RoomCenter(NewNode(area)) == Center(area) == Point(20, 20);
  }

  // --------------------------------------------------------------- corridors

  /** A node with children has no room of its own, at every level: true of every
      tree `Split` builds from a fresh node, whatever rooms its leaves get later. */
  predicate RoomsOnlyOnLeaves(t: Tree)
  {
    (!IsLeaf(t) ==> t.room.None?) &&
    (t.left.Some? ==> RoomsOnlyOnLeaves(t.left.value)) &&
    (t.right.Some? ==> RoomsOnlyOnLeaves(t.right.value))
  }

  lemma {:induction false} SplitTreeRoomsOnlyOnLeaves(t: Tree, depth: int, rng: Stream, k: nat)
    requires IsLeaf(t) && t.room.None?
    ensures RoomsOnlyOnLeaves(SplitTree(t, depth, rng, k).0)
    decreases depth
  {
    if depth > 0 {
      var halves := SplitHalves(t.area, rng, k);
      var l := SplitTree(NewNode(halves.0), depth - 1, rng, k + 2);
      SplitTreeRoomsOnlyOnLeaves(NewNode(halves.0), depth - 1, rng, k + 2);
      SplitTreeRoomsOnlyOnLeaves(NewNode(halves.1), depth - 1, rng, l.1);
    }
  }

  /** The pairs of children the corridor walks join: those of every node that has
      both, the node's own first, then the left subtree's, then the right
      subtree's. A node missing a child stops the walk. */
  function SiblingPairs(t: Tree): (ps: seq<(Tree, Tree)>)
    ensures t.left.None? || t.right.None? ==> ps == []
    ensures RoomsOnlyOnLeaves(t) ==>
      forall i :: 0 <= i < |ps| ==> RoomsOnlyOnLeaves(ps[i].0) && RoomsOnlyOnLeaves(ps[i].1)
  {
    if t.left.Some? && t.right.Some? then
      [(t.left.value, t.right.value)] + SiblingPairs(t.left.value) + SiblingPairs(t.right.value)
    else []
  }

  /** `BSPNode.CreateCorridors`: one straight corridor per pair of siblings, in
      walk order, from `center` of the first to `center` of the second. The
      source's `GetRoomCenter` is `RoomCenterAsWritten`; `RoomCenter` is the
      corrected one. */
  function StraightCorridors(t: Tree, center: Tree -> Point): (cs: seq<(Point, Point)>)
    ensures |cs| == |SiblingPairs(t)|
    ensures forall i :: 0 <= i < |cs| ==>
      cs[i] == (center(SiblingPairs(t)[i].0), center(SiblingPairs(t)[i].1))
  {
    if t.left.Some? && t.right.Some? then
      [(center(t.left.value), center(t.right.value))] +
      StraightCorridors(t.left.value, center) + StraightCorridors(t.right.value, center)
    else []
  }

  lemma {:induction false} FullCorridorCount(t: Tree, depth: nat)
    requires Full(t, depth)
    ensures |SiblingPairs(t)| == Pow2(depth) - 1
  {
    if depth > 0 {
      FullCorridorCount(t.left.value, depth - 1);
      FullCorridorCount(t.right.value, depth - 1);
    }
  }

  /** As written, a corridor between two siblings that both have children runs
      from the origin to the origin: neither has a room, so both report `(0, 0)`. */
  lemma AsWrittenInnerCorridors(t: Tree, i: nat)
    requires RoomsOnlyOnLeaves(t) && i < |SiblingPairs(t)|
    requires !IsLeaf(SiblingPairs(t)[i].0) && !IsLeaf(SiblingPairs(t)[i].1)
    ensures StraightCorridors(t, RoomCenterAsWritten)[i] == (Point(0, 0), Point(0, 0))
  {
  }

  // ------------------------------------------------------------ the objects

  /** The mutable node of `BSPNode.cs`. `Repr` is the set of nodes of the subtree
      and `Model` its value; the two subtrees are disjoint, so the structure is a tree. */
  class BSPNode {
    var area: Rect
    var left: BSPNode?
    var right: BSPNode?
    var room: Option<Rect>
    ghost var Model: Tree
    ghost var Repr: set<object>

    ghost predicate Valid()
      reads this, Repr
      decreases Repr
    {
      this in Repr &&
      (left != null ==>
        left in Repr && left.Repr <= Repr && this !in left.Repr && left.Valid()) &&
      (right != null ==>
        right in Repr && right.Repr <= Repr && this !in right.Repr && right.Valid()) &&
      (left != null && right != null ==> left.Repr !! right.Repr) &&
      Model == Tree(area, room,
                    if left == null then None else Some(left.Model),
                    if right == null then None else Some(right.Model))
    }

    constructor (x: int, y: int, width: int, height: int)
      ensures Valid() && Repr == {this}
      ensures Model == NewNode(Rect(x, y, width, height)) && left == null && right == null
    {
      area := Rect(x, y, width, height);
      left := null;
      right := null;
      room := None;
      Model := NewNode(Rect(x, y, width, height));
      Repr := {this};
    }

    /** Split the node `depth` levels down, drawing from `rng` at cursor `k`;
        returns the cursor after the last draw. */
    method Split(depth: int, rng: Stream, k: nat) returns (k': nat)
      requires Valid()
      modifies this
      ensures Valid() && fresh(Repr - old(Repr))
      ensures (Model, k') == SplitTree(old(Model), depth, rng, k)
      decreases depth, 1
    {
      if depth <= 0 {
        return k;
      }
      k' := Divide(depth, rng, k);
    }

    /** The `depth > 0` part of `Split`: draw the direction and the position, put a
        `new BSPNode(...)` over each half, split the left child then the right one
        `depth - 1` levels, and link them in as this node's children. The source
        assigns `left` and `right` before splitting them; nothing reads this node
        in between, so linking them afterwards gives the same tree. */
    method Divide(depth: int, rng: Stream, k: nat) returns (k': nat)
      requires Valid() && depth > 0
      modifies this
      ensures Valid() && fresh(Repr - old(Repr))
      ensures (Model, k') == SplitTree(old(Model), depth, rng, k)
      decreases depth, 0
    {
      var splitHorizontally := Coin(rng, k);
      var splitPos := SplitPos(if splitHorizontally then area.height else area.width, rng, k + 1);
      var halves := Cut(area, splitHorizontally, splitPos);
      assert halves == SplitHalves(area, rng, k);
      var l := new BSPNode(halves.0.x, halves.0.y, halves.0.width, halves.0.height);
      var r := new BSPNode(halves.1.x, halves.1.y, halves.1.width, halves.1.height);
      var k1 := l.Split(depth - 1, rng, k + 2);
      assert this !in l.Repr && r !in l.Repr && fresh(l.Repr);
      ghost var lRepr, lModel := l.Repr, l.Model;
      k' := r.Split(depth - 1, rng, k1);
      assert this !in r.Repr && l !in r.Repr && fresh(r.Repr);
      assert l.Repr == lRepr && l.Model == lModel && l.Valid();
      SplitTreeStep(Model, depth, rng, k, halves, l.Model, k1, r.Model, k');
      Link(l, r);
    }

    /** The `Split(depth, minLeafSize)` that `RoomGenerator` calls, with its choice
        of halves given as `choose`: nothing happens when `depth <= 0` or when
        `choose` picks no halves; otherwise the halves are split as in `Split`. */
    method SplitBy(choose: Chooser, depth: int, rng: Stream, k: nat) returns (k': nat)
      requires Valid()
      modifies this
      ensures Valid() && fresh(Repr - old(Repr))
      ensures (Model, k') == SplitTreeBy(choose, old(Model), depth, rng, k)
      decreases depth, 2
    {
      if depth <= 0 {
        return k;
      }
      var choice := choose(area, rng, k);
      if choice.0.None? {
        return choice.1;
      }
      k' := DivideBy(choose, depth, rng, k, choice.0.value, choice.1);
    }

    /** The part of `SplitBy` after `choose` has picked `halves`, leaving the cursor
        at `k0`: a split child over each half, left first, linked in as this node's children. */
    method DivideBy(choose: Chooser, depth: int, rng: Stream, k: nat, halves: (Rect, Rect), k0: nat)
      returns (k': nat)
      requires Valid() && depth > 0 && choose(area, rng, k) == (Some(halves), k0)
      modifies this
      ensures Valid() && fresh(Repr - old(Repr))
      ensures (Model, k') == SplitTreeBy(choose, old(Model), depth, rng, k)
      decreases depth, 1
    {
      ghost var t := Model;
      var l, k1 := SplitChild(choose, halves.0, depth - 1, rng, k0);
      var r;
      r, k' := SplitChild(choose, halves.1, depth - 1, rng, k1);
      SplitTreeByStep(choose, t, depth, rng, k, halves, k0, l.Model, k1, r.Model, k');
      Link(l, r);
    }

    /** `new BSPNode(...)` over `area`, split `depth` levels. */
    static method SplitChild(choose: Chooser, area: Rect, depth: int, rng: Stream, k: nat)
      returns (n: BSPNode, k': nat)
      ensures n.Valid() && fresh(n.Repr)
      ensures (n.Model, k') == SplitTreeBy(choose, NewNode(area), depth, rng, k)
      decreases depth, 3
    {
      n := new BSPNode(area.x, area.y, area.width, area.height);
      k' := n.SplitBy(choose, depth, rng, k);
    }

    /** The assignments to `left` and `right` in `Split`: two valid, separate
        subtrees become this node's children. */
    method Link(l: BSPNode, r: BSPNode)
      requires l.Valid() && r.Valid() && l.Repr !! r.Repr && this !in l.Repr && this !in r.Repr
      modifies this`left, this`right, this`Model, this`Repr
      ensures Valid() && left == l && right == r && Repr == {this} + l.Repr + r.Repr
      ensures Model == Tree(area, room, Some(l.Model), Some(r.Model))
    {
      left, right := l, r;
      Model := Tree(area, room, Some(l.Model), Some(r.Model));
      Repr := {this} + l.Repr + r.Repr;
    }

    /** `GetLeafNodes`: the childless nodes of the subtree, in the order of `Leaves`. */
    function GetLeafNodes(): (leaves: seq<BSPNode>)
      reads this, Repr
      requires Valid()
      ensures forall i :: 0 <= i < |leaves| ==> leaves[i] in Repr
      ensures left == null && right == null ==> leaves == [this]
      ensures |leaves| == |Leaves(Model)|
      ensures forall i :: 0 <= i < |leaves| ==>
        leaves[i].left == null && leaves[i].right == null &&
        Leaves(Model)[i] == Tree(leaves[i].area, leaves[i].room, None, None)
      decreases Repr
    {
      if left == null && right == null then [this]
      else
        (if left != null then left.GetLeafNodes() else []) +
        (if right != null then right.GetLeafNodes() else [])
    }

    /** `CreateRoom`: place a room in this node's area when it has space for one;
        when it has none the room slot keeps what it held. */
    method CreateRoom(rng: Stream, k: nat) returns (k': nat)
      requires Valid()
      modifies this`room, this`Model
      ensures Valid()
      ensures var placed := PlaceRoom(area, rng, k);
        k' == placed.1 &&
        room == (if placed.0.Some? then placed.0 else old(room)) &&
        Model == old(Model).(room := room)
    {
      var placed := PlaceRoom(area, rng, k);
      if placed.0.Some? {
        room := placed.0;
        Model := Model.(room := room);
      }
      k' := placed.1;
    }
  }
}
