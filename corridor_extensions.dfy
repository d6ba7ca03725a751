/** `RoomGeneratorCorridorExtensions.cs`: one L-shaped corridor, on floor 0, for
    every connection a connection generator returns. */
module RoomGeneratorExtensions {
  import opened Geometry
  import opened UnityRandom
  import opened CorridorGenerator

  /** `CreateCorridorsFromConnections`. `hasPrefab` says whether a corridor prefab
      was assigned; without one nothing is built and nothing is drawn. Corridor `i`
      joins the centres of the two rooms of connection `i` and reads draw `k + i`. */
  method CreateCorridorsFromConnections(connections: seq<(RoomInfo, RoomInfo)>, hasPrefab: bool,
                                        rng: Stream, k: nat)
    returns (corridors: seq<Corridor>, k': nat)
    ensures !hasPrefab ==> corridors == [] && k' == k
    ensures hasPrefab ==> |corridors| == |connections| && k' == k + |connections|
    ensures hasPrefab ==> forall i :: 0 <= i < |corridors| ==>
      corridors[i] == CreateLShapedCorridor(Center(connections[i].0.roomRect),
                                            Center(connections[i].1.roomRect), 0, rng, k + i)
    ensures forall i :: 0 <= i < |corridors| ==>
      corridors[i].floor == 0 &&
      Joins(corridors[i].sections, Center(connections[i].0.roomRect), Center(connections[i].1.roomRect))
  {
    corridors := [];
    k' := k;
    if !hasPrefab {
      return;
    }
    for i := 0 to |connections|
      invariant |corridors| == i && k' == k + i
      invariant forall j :: 0 <= j < i ==>
        corridors[j] == CreateLShapedCorridor(Center(connections[j].0.roomRect),
                                              Center(connections[j].1.roomRect), 0, rng, k + j)
    {
      var startCenter := Center(connections[i].0.roomRect);
      var endCenter := Center(connections[i].1.roomRect);
      corridors := corridors + [CreateLShapedCorridor(startCenter, endCenter, 0, rng, k')];
      k' := k' + 1;
    }
  }
}
