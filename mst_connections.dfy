/** `MSTRoomConnectionGenerator.cs`: every pair of rooms is a candidate, the
    candidates are sorted by the distance between room centres, and Kruskal's
    scan keeps a minimum spanning tree. Rooms are the indices `0 .. n-1` of the
    input list, and a connection is a pair of indices. */
module MSTConnectionGenerator {
  import opened Geometry
  import opened Graphs
  import opened Kruskal

  /** The candidates the inner loop adds for room `i` before reaching room `j`:
      `(i, i+1), (i, i+2), .., (i, j-1)` with their distances. */
  function Row(rooms: seq<RoomInfo>, i: nat, j: nat): (cs: seq<Candidate>)
    requires i < |rooms| && j <= |rooms|
    ensures |cs| == if j > i then j - i - 1 else 0
    ensures forall t :: 0 <= t < |cs| ==> cs[t].a == i && cs[t].b == i + 1 + t
  {
    if j <= i + 1 then [] else Row(rooms, i, j - 1) + [Candidate(i, j - 1, RoomDist2(rooms[i], rooms[j - 1]))]
  }

  /** The candidates after the outer loop has handled rooms `0 .. i-1`. */
  function Pairs(rooms: seq<RoomInfo>, i: nat): seq<Candidate>
    requires i <= |rooms|
  {
    if i == 0 then [] else Pairs(rooms, i - 1) + Row(rooms, i - 1, |rooms|)
  }

  /** All candidates: every pair of rooms, the lower index first. */
  function AllPairs(rooms: seq<RoomInfo>): seq<Candidate>
  {
    Pairs(rooms, |rooms|)
  }

  lemma RowExactly(rooms: seq<RoomInfo>, i: nat, j: nat, c: Candidate)
    requires i < |rooms| && j <= |rooms|
    ensures c in Row(rooms, i, j) <==>
      c.a == i && i < c.b < j && c.dist == RoomDist2(rooms[c.a], rooms[c.b])
  {
    if c.a == i && i < c.b < j && c.dist == RoomDist2(rooms[c.a], rooms[c.b]) {
      assert Row(rooms, i, j)[c.b - i - 1] == c by {
        RowDistances(rooms, i, j);
      }
    }
    if c in Row(rooms, i, j) {
      RowDistances(rooms, i, j);
    }
  }

  lemma {:induction false} RowDistances(rooms: seq<RoomInfo>, i: nat, j: nat)
    requires i < |rooms| && j <= |rooms|
    ensures forall t :: 0 <= t < |Row(rooms, i, j)| ==>
      Row(rooms, i, j)[t].dist == RoomDist2(rooms[i], rooms[i + 1 + t])
  {
    if j > i + 1 {
      RowDistances(rooms, i, j - 1);
    }
  }

  /** The candidate list holds exactly the pairs `a < b` of rooms, each with the
      distance between the two room centres. */
  lemma {:induction false} PairsExactly(rooms: seq<RoomInfo>, i: nat, c: Candidate)
    requires i <= |rooms|
    ensures c in Pairs(rooms, i) <==>
      c.a < i && c.a < c.b < |rooms| && c.dist == RoomDist2(rooms[c.a], rooms[c.b])
  {
    if i > 0 {
      var before, row := Pairs(rooms, i - 1), Row(rooms, i - 1, |rooms|);
      assert Pairs(rooms, i) == before + row;
      assert c in Pairs(rooms, i) <==> c in before || c in row;
      PairsExactly(rooms, i - 1, c);
      RowExactly(rooms, i - 1, |rooms|, c);
    }
  }

  /** There are `n(n-1)/2` candidates. */
  lemma {:induction false} PairsCount(rooms: seq<RoomInfo>, i: nat)
    requires i <= |rooms|
    ensures 2 * |Pairs(rooms, i)| == i * (2 * |rooms| - i - 1)
  {
    if i > 0 {
      PairsCount(rooms, i - 1);
      var n := |rooms|;
      var before, row := |Pairs(rooms, i - 1)|, |Row(rooms, i - 1, n)|;
      assert |Pairs(rooms, i)| == before + row && row == n - i;
      assert 2 * before == (i - 1) * (2 * n - i);
      RowCountStep(i, n);
    }
  }

  lemma RowCountStep(i: int, n: int)
    ensures (i - 1) * (2 * n - i) + 2 * (n - i) == i * (2 * n - i - 1)
  {
    var m := 2 * n - i;
    assert (i - 1) * m == i * m - m;
    assert i * (m - 1) == i * m - i;
  }

  lemma AllPairsCount(rooms: seq<RoomInfo>)
    ensures 2 * |AllPairs(rooms)| == |rooms| * (|rooms| - 1)
  {
    PairsCount(rooms, |rooms|);
  }

  /** Any reordering of the candidates connects every room to every other. */
  lemma CandidatesSpan(rooms: seq<RoomInfo>, sorted: seq<Candidate>)
    requires multiset(sorted) == multiset(AllPairs(rooms))
    ensures Spanning(Edges(sorted), |rooms|)
  {
    var E := Edges(sorted);
    forall a: nat, b: nat | a < |rooms| && b < |rooms|
      ensures Connected(E, a, b)
    {
      if a == b {
        ConnectedSelf(E, a);
      } else {
        var lo, hi := if a < b then a else b, if a < b then b else a;
        var c := Candidate(lo, hi, RoomDist2(rooms[lo], rooms[hi]));
        PairsExactly(rooms, |rooms|, c);
        assert c in multiset(sorted);
        var k :| 0 <= k < |sorted| && sorted[k] == c;
        assert Links(E[k], a, b);
        ConnectedByEdge(E, a, b);
      }
    }
  }

  /** The nested loops: every pair `i < j` in input order, with its distance. */
  method CandidatePairs(rooms: seq<RoomInfo>) returns (candidates: seq<Candidate>)
    requires |rooms| >= 2
    ensures candidates == AllPairs(rooms)
  {
    var n := |rooms|;
    candidates := [];
    for i := 0 to n - 1
      invariant candidates == Pairs(rooms, i)
    {
      for j := i + 1 to n
        invariant candidates == Pairs(rooms, i) + Row(rooms, i, j)
      {
        var distance := RoomDist2(rooms[i], rooms[j]);
        candidates := candidates + [Candidate(i, j, distance)];
      }
    }
    assert Row(rooms, n - 1, n) == [];
  }

  /** With at most one room the empty list is the whole answer. */
  lemma FewRooms(rooms: seq<RoomInfo>)
    requires |rooms| <= 1
    ensures AllPairs(rooms) == [] && Spanning([], |rooms|)
  {
    forall a: nat, b: nat | a < |rooms| && b < |rooms|
      ensures Connected([], a, b)
    {
      ConnectedSelf([], a);
    }
    if |rooms| == 1 {
      assert AllPairs(rooms) == Pairs(rooms, 0) + Row(rooms, 0, 1);
    }
  }

  /** `GenerateConnections`. With at most one room there is nothing to connect.
      Otherwise the result is a spanning tree of the rooms: `n - 1` edges, no
      cycle, every room reachable from every other, each edge a candidate pair
      with the lower index first; and it is what Kruskal's rule keeps from the
      candidates put in order of distance. */
  method GenerateConnections(rooms: seq<RoomInfo>) returns (mst: seq<Edge>)
    ensures |rooms| <= 1 ==> mst == []
    ensures |rooms| >= 1 ==> |mst| == |rooms| - 1
    ensures Forest(mst) && Spanning(mst, |rooms|)
    ensures forall j :: 0 <= j < |mst| ==> mst[j].0 < mst[j].1 < |rooms|
    ensures exists sorted ::
      SortedByDist(sorted) && multiset(sorted) == multiset(AllPairs(rooms)) && mst == Greedy(Edges(sorted))
  {
    var n := |rooms|;
    if n <= 1 {
      mst := [];
      FewRooms(rooms);
      assert SortedByDist([]) && mst == Greedy(Edges([]));
      return;
    }
    var candidates := CandidatePairs(rooms);
    var sorted := SortByDistance(candidates);
    forall t | 0 <= t < |sorted|
      ensures sorted[t].a < sorted[t].b < n
    {
      assert sorted[t] in multiset(candidates);
      PairsExactly(rooms, n, sorted[t]);
    }
    mst := Scan(n, sorted);
    CandidatesSpan(rooms, sorted);
    forall j | 0 <= j < |mst|
      ensures mst[j].0 < mst[j].1 < n
    {
      var k :| 0 <= k < |sorted| && Edges(sorted)[k] == mst[j];
    }
  }
}
