/** `CorridorGenerator.cs`: L-shaped corridors between two cell centres, built
    from at most two axis-aligned sections, and the walk over the partition tree
    that asks for one corridor per pair of sibling nodes. The scene objects the
    source instantiates are modelled by the sections they are placed and scaled for. */
module CorridorGenerator {
  import opened Wrappers
  import opened Geometry
  import opened UnityRandom
  import opened Bsp

  /** The world axis a section is stretched along: x, or z (the grid's second coordinate). */
  datatype Axis = XAxis | ZAxis

  /** One instantiated corridor piece: from `start` to `end`, stretched along
      `axis` to `length` cells. */
  datatype Section = Section(start: Point, end: Point, axis: Axis, length: nat)

  /** The pieces of one `CreateLShapedCorridor` call, on floor `floor`. */
  datatype Corridor = Corridor(floor: int, sections: seq<Section>)

  function Abs(n: int): nat
  {
    if n < 0 then -n else n
  }

  /** The two ends differ in at most one coordinate. */
  predicate AxisAligned(a: Point, b: Point)
  {
    a.x == b.x || a.y == b.y
  }

  /** The sections form one walk from `a` to `b`: each begins where the previous
      ends, and no sections at all means `a` and `b` coincide. */
  predicate Joins(s: seq<Section>, a: Point, b: Point)
  {
    if s == [] then a == b
    else
      s[0].start == a && s[|s| - 1].end == b &&
      forall i :: 0 <= i < |s| - 1 ==> s[i].end == s[i + 1].start
  }

  /** `CreateCorridorSection`: nothing for a section of length zero (the source's
      `Distance < 0.1` on integer points), otherwise one piece, classed along x
      exactly when it runs horizontally, whose length is the true distance. */
  function CorridorSection(start: Point, end: Point): (s: Option<Section>)
    requires AxisAligned(start, end)
    ensures s.None? <==> start == end
    ensures s.Some? ==>
      s.value.start == start && s.value.end == end && s.value.length > 0 &&
      (s.value.axis == XAxis <==> start.y == end.y)
  {
    if start == end then None
    else
      var dx := end.x - start.x;
      var dz := end.y - start.y;
      Some(Section(start, end, if Abs(dx) > Abs(dz) then XAxis else ZAxis, Abs(dx) + Abs(dz)))
  }

  /** The length of a section is the true distance between its ends. */
  lemma SectionLength(start: Point, end: Point)
    requires AxisAligned(start, end) && start != end
    ensures var l := CorridorSection(start, end).value.length; l * l == Dist2(start, end)
  {
    var dx, dz := end.x - start.x, end.y - start.y;
    var length := Abs(dx) + Abs(dz);
    if dx == 0 {
      assert length * length == dz * dz;
    } else {
      assert length * length == dx * dx;
    }
  }

  function AsSeq(s: Option<Section>): seq<Section>
  {
    if s.Some? then [s.value] else []
  }

  /** The corner the corridor turns at: below/above `end` when it goes along x first,
      beside `end` when it goes along z first. */
  function Elbow(start: Point, end: Point, horizontalFirst: bool): (e: Point)
    ensures AxisAligned(start, e) && AxisAligned(e, end)
    ensures horizontalFirst ==> e.y == start.y && e.x == end.x
    ensures !horizontalFirst ==> e.x == start.x && e.y == end.y
  {
    if horizontalFirst then Point(end.x, start.y) else Point(start.x, end.y)
  }

  /** The sections of an L-shaped corridor once the first direction is chosen. */
  function LShape(start: Point, end: Point, horizontalFirst: bool): (s: seq<Section>)
    ensures Joins(s, start, end)
    ensures forall i :: 0 <= i < |s| ==> AxisAligned(s[i].start, s[i].end) && s[i].length > 0
    ensures start == end ==> |s| == 0
    ensures (start.x == end.x) != (start.y == end.y) ==> |s| == 1
    ensures start.x != end.x && start.y != end.y ==>
      |s| == 2 && s[0].end == Elbow(start, end, horizontalFirst) &&
      s[0].axis == (if horizontalFirst then XAxis else ZAxis) &&
      s[1].axis == (if horizontalFirst then ZAxis else XAxis)
  {
    var elbow := Elbow(start, end, horizontalFirst);
    AsSeq(CorridorSection(start, elbow)) + AsSeq(CorridorSection(elbow, end))
  }

  /** `CreateLShapedCorridor`: draws the direction (cursor `k`) and builds the corridor. */
  function CreateLShapedCorridor(start: Point, end: Point, floor: int, rng: Stream, k: nat): (c: Corridor)
    ensures c.floor == floor && Joins(c.sections, start, end)
    ensures |c.sections| <= 2 && (c.sections == [] <==> start == end)
  {
    Corridor(floor, LShape(start, end, Coin(rng, k)))
  }

  /** `CorridorGenerator.CreateCorridors`: walks the tree like `BSPNode.CreateCorridors`,
      one L-shaped corridor per pair of siblings, each joining the centres the
      straight corridor of that pair joins; one draw per corridor. A corridor
      has no section exactly when its two centres coincide. */
  function CreateCorridors(t: Tree, center: Tree -> Point, floor: int, rng: Stream, k: nat): (r: (seq<Corridor>, nat))
    ensures |r.0| == |SiblingPairs(t)| && r.1 == k + |r.0|
    ensures AllFollow(r.0, StraightCorridors(t, center), floor)
  {
    if t.left.Some? && t.right.Some? then
      var ends := (center(t.left.value), center(t.right.value));
      var here := CreateLShapedCorridor(ends.0, ends.1, floor, rng, k);
      var l := CreateCorridors(t.left.value, center, floor, rng, k + 1);
      var r := CreateCorridors(t.right.value, center, floor, rng, l.1);
      AllFollowConcat(here, ends, l.0, StraightCorridors(t.left.value, center),
                      r.0, StraightCorridors(t.right.value, center), floor);
      ([here] + l.0 + r.0, r.1)
    else ([], k)
  }

  /** Corridor `c` lies on `floor` and runs along `ends`: its sections join the two
      ends, and it has none exactly when the ends coincide. */
  predicate Follows(c: Corridor, ends: (Point, Point), floor: int)
  {
    c.floor == floor && Joins(c.sections, ends.0, ends.1) && (c.sections == [] <==> ends.0 == ends.1)
  }

  /** Each corridor of `cs` follows the straight corridor at the same position. */
  predicate AllFollow(cs: seq<Corridor>, ends: seq<(Point, Point)>, floor: int)
  {
    |cs| == |ends| && forall i :: 0 <= i < |cs| ==> Follows(cs[i], ends[i], floor)
  }

  lemma AllFollowConcat(c: Corridor, e: (Point, Point), cs: seq<Corridor>, es: seq<(Point, Point)>,
                        ds: seq<Corridor>, fs: seq<(Point, Point)>, floor: int)
    requires Follows(c, e, floor) && AllFollow(cs, es, floor) && AllFollow(ds, fs, floor)
    ensures AllFollow([c] + cs + ds, [e] + es + fs, floor)
  {
    var all, ends := [c] + cs + ds, [e] + es + fs;
    forall i | 0 <= i < |all|
      ensures Follows(all[i], ends[i], floor)
    {
      if i == 0 {
      } else if i < 1 + |cs| {
        assert all[i] == cs[i - 1] && ends[i] == es[i - 1];
      } else {
        assert all[i] == ds[i - 1 - |cs|] && ends[i] == fs[i - 1 - |cs|];
      }
    }
  }

  /** A full tree of depth `d` gets `2^d - 1` L-shaped corridors. */
  lemma FullTreeCorridors(t: Tree, depth: nat, center: Tree -> Point, floor: int, rng: Stream, k: nat)
    requires Full(t, depth)
    ensures |CreateCorridors(t, center, floor, rng, k).0| == Pow2(depth) - 1
  {
    FullCorridorCount(t, depth);
  }

  /** As written, no section is built between two siblings that both have
      children: both ends are `(0, 0)`, and `CreateCorridorSection` skips a
      section of length zero. Only pairs with a leaf among them can get one. */
  lemma AsWrittenInnerCorridorsEmpty(t: Tree, floor: int, rng: Stream, k: nat, i: nat)
    requires RoomsOnlyOnLeaves(t) && i < |SiblingPairs(t)|
    requires !IsLeaf(SiblingPairs(t)[i].0) && !IsLeaf(SiblingPairs(t)[i].1)
    ensures CreateCorridors(t, RoomCenterAsWritten, floor, rng, k).0[i].sections == []
  {
    AsWrittenInnerCorridors(t, i);
  }
}
