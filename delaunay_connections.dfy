/** `DelaunayMSTRoomConnectionGenerator.cs`: each room is linked to its nearest
    neighbours, Kruskal's scan keeps a spanning forest of those links, and a
    shuffled share of the remaining links is added back to make loops. Rooms are
    the indices `0 .. n-1` of the input list, and a connection is a pair of indices. */
module DelaunayConnectionGenerator {
  import opened Geometry
  import opened UnityRandom
  import opened Graphs
  import opened Kruskal
  import MSTConnectionGenerator

  function Min(a: int, b: int): (m: int)
    ensures m <= a && m <= b && (m == a || m == b)
  {
    if a < b then a else b
  }

  /** `Mathf.Clamp` on integers. */
  function Clamp(v: int, lo: int, hi: int): (r: int)
    requires lo <= hi
    ensures lo <= r <= hi
    ensures lo <= v <= hi ==> r == v
    ensures v < lo ==> r == lo
    ensures v > hi ==> r == hi
  {
    if v < lo then lo else if v > hi then hi else v
  }

  /** `Mathf.Clamp01`. */
  function Clamp01(v: real): (r: real)
    ensures 0.0 <= r <= 1.0
    ensures 0.0 <= v <= 1.0 ==> r == v
    ensures v < 0.0 ==> r == 0.0
    ensures v > 1.0 ==> r == 1.0
  {
    if v < 0.0 then 0.0 else if v > 1.0 then 1.0 else v
  }

  /** The list `roomsByDistance` for room `i` before sorting, once the inner loop
      has looked at rooms `0 .. upTo-1`: every other room, in index order. */
  function Others(rooms: seq<RoomInfo>, i: nat, upTo: nat): (cs: seq<Candidate>)
    requires i < |rooms| && upTo <= |rooms|
    ensures |cs| == if i < upTo then upTo - 1 else upTo
  {
    if upTo == 0 then []
    else
      Others(rooms, i, upTo - 1) +
      (if upTo - 1 == i then [] else [Candidate(i, upTo - 1, RoomDist2(rooms[i], rooms[upTo - 1]))])
  }

  /** Room `i`'s list holds exactly one entry per other room, with its distance. */
  lemma {:induction false} OthersExactly(rooms: seq<RoomInfo>, i: nat, upTo: nat, c: Candidate)
    requires i < |rooms| && upTo <= |rooms|
    ensures c in Others(rooms, i, upTo) <==>
      c.a == i && c.b < upTo && c.b != i && c.dist == RoomDist2(rooms[i], rooms[c.b])
  {
    if upTo > 0 {
      OthersExactly(rooms, i, upTo - 1, c);
    }
  }

  /** The rooms other than `i` strictly closer to it than `d`. */
  function Closer(rooms: seq<RoomInfo>, i: nat, d: nat): set<nat>
    requires i < |rooms|
  {
    set j | 0 <= j < |rooms| && j != i && RoomDist2(rooms[i], rooms[j]) < d
  }

  /** Room `j` is one of room `i`'s `m` nearest: fewer than `m` rooms are strictly closer. */
  predicate AmongNearest(rooms: seq<RoomInfo>, i: nat, j: nat, m: int)
  {
    i < |rooms| && j < |rooms| && |Closer(rooms, i, RoomDist2(rooms[i], rooms[j]))| < m
  }

  /** The rooms named by the first `t` entries of a list. */
  lemma {:induction false} FirstEntriesCount(s: seq<Candidate>, t: nat)
    requires t <= |s|
    ensures |set u | 0 <= u < t :: s[u].b| <= t
  {
    if t > 0 {
      FirstEntriesCount(s, t - 1);
      assert (set u | 0 <= u < t :: s[u].b) == (set u | 0 <= u < t - 1 :: s[u].b) + {s[t - 1].b};
    }
  }

  lemma {:induction false} SubsetCount(A: set<nat>, B: set<nat>)
    requires A <= B
    ensures |A| <= |B|
  {
    if A != {} {
      var x :| x in A;
      SubsetCount(A - {x}, B - {x});
    }
  }

  /** In room `i`'s list sorted by distance, fewer rooms are strictly closer than
      the entry at position `t` than there are entries before it. */
  lemma NearerComeFirst(rooms: seq<RoomInfo>, i: nat, s: seq<Candidate>, t: nat)
    requires i < |rooms| && t < |s|
    requires SortedByDist(s) && multiset(s) == multiset(Others(rooms, i, |rooms|))
    ensures |Closer(rooms, i, s[t].dist)| <= t
  {
    var first := set u | 0 <= u < t :: s[u].b;
    forall j | j in Closer(rooms, i, s[t].dist)
      ensures j in first
    {
      var c := Candidate(i, j, RoomDist2(rooms[i], rooms[j]));
      OthersExactly(rooms, i, |rooms|, c);
      assert c in multiset(s);
      var u :| 0 <= u < |s| && s[u] == c;
      assert u < t;
    }
    FirstEntriesCount(s, t);
    SubsetCount(Closer(rooms, i, s[t].dist), first);
  }

  /** The rooms other than `i` no farther from it than `d`. */
  function NoFarther(rooms: seq<RoomInfo>, i: nat, d: nat): set<nat>
    requires i < |rooms|
  {
    set j | 0 <= j < |rooms| && j != i && RoomDist2(rooms[i], rooms[j]) <= d
  }

  /** Room `j` is among room `i`'s `m` nearest however ties are ordered: at most
      `m` other rooms, `j` among them, are no farther from `i` than `j` is. */
  predicate SurelyNearest(rooms: seq<RoomInfo>, i: nat, j: nat, m: int)
  {
    i < |rooms| && j < |rooms| && j != i && |NoFarther(rooms, i, RoomDist2(rooms[i], rooms[j]))| <= m
  }

  /** When no other room is exactly as far from `i` as `j`, the two readings of
      "one of the `m` nearest" agree. */
  lemma NearestWithoutTies(rooms: seq<RoomInfo>, i: nat, j: nat, m: int)
    requires i < |rooms| && j < |rooms| && j != i
    requires forall u :: 0 <= u < |rooms| && u != i && u != j ==>
      RoomDist2(rooms[i], rooms[u]) != RoomDist2(rooms[i], rooms[j])
    ensures AmongNearest(rooms, i, j, m) <==> SurelyNearest(rooms, i, j, m)
  {
    var d := RoomDist2(rooms[i], rooms[j]);
    assert NoFarther(rooms, i, d) == Closer(rooms, i, d) + {j};
    assert j !in Closer(rooms, i, d);
  }

  /** Entries in strictly increasing order of the room they name. */
  predicate Ascending(s: seq<Candidate>)
  {
    forall u, v :: 0 <= u < v < |s| ==> s[u].b < s[v].b
  }

  /** Room `i`'s list names the rooms below `upTo` in increasing order. */
  lemma {:induction false} OthersAscending(rooms: seq<RoomInfo>, i: nat, upTo: nat)
    requires i < |rooms| && upTo <= |rooms|
    ensures Ascending(Others(rooms, i, upTo))
    ensures forall u :: 0 <= u < |Others(rooms, i, upTo)| ==> Others(rooms, i, upTo)[u].b < upTo
  {
    if upTo > 0 {
      OthersAscending(rooms, i, upTo - 1);
    }
  }

  /** A list in increasing room order holds each candidate at most once. */
  lemma {:induction false} AscendingOnce(s: seq<Candidate>, c: Candidate)
    requires Ascending(s)
    ensures multiset(s)[c] <= 1
  {
    if |s| > 0 {
      var init, last := s[..|s| - 1], s[|s| - 1];
      assert s == init + [last];
      AscendingOnce(init, c);
      if c == last {
        assert c !in init by {
          assert forall u :: 0 <= u < |init| ==> init[u].b < last.b;
        }
      }
    }
  }

  /** Room `i`'s list names each candidate at most once. */
  lemma OthersOnce(rooms: seq<RoomInfo>, i: nat, upTo: nat, c: Candidate)
    requires i < |rooms| && upTo <= |rooms|
    ensures multiset(Others(rooms, i, upTo))[c] <= 1
  {
    OthersAscending(rooms, i, upTo);
    AscendingOnce(Others(rooms, i, upTo), c);
  }

  /** No room appears twice in a list. */
  predicate DistinctRooms(s: seq<Candidate>)
  {
    forall u, v :: 0 <= u < v < |s| ==> s[u].b != s[v].b
  }

  /** Every entry of a reordering of room `i`'s list is room `i`'s entry for some
      other room, with its distance. */
  lemma OthersEntry(rooms: seq<RoomInfo>, i: nat, s: seq<Candidate>, u: nat)
    requires i < |rooms| && multiset(s) == multiset(Others(rooms, i, |rooms|)) && u < |s|
    ensures s[u].a == i && s[u].b < |rooms| && s[u].b != i
    ensures s[u].dist == RoomDist2(rooms[i], rooms[s[u].b])
  {
    assert s[u] in multiset(s);
    OthersExactly(rooms, i, |rooms|, s[u]);
  }

  /** A list holding the same candidate at two positions counts it twice. */
  lemma TwoCopies(s: seq<Candidate>, u: nat, v: nat)
    requires u < v < |s|
    ensures s[u] == s[v] ==> multiset(s)[s[u]] >= 2
  {
    assert s == s[..v] + [s[v]] + s[v + 1..];
    assert s[..v][u] == s[u];
    assert multiset(s)[s[u]] == multiset(s[..v])[s[u]] + multiset([s[v]])[s[u]] + multiset(s[v + 1..])[s[u]];
  }

  /** Any reordering of room `i`'s list names every other room once. */
  lemma OthersDistinct(rooms: seq<RoomInfo>, i: nat, s: seq<Candidate>)
    requires i < |rooms| && multiset(s) == multiset(Others(rooms, i, |rooms|))
    ensures DistinctRooms(s)
  {
    forall u, v | 0 <= u < v < |s|
      ensures s[u].b != s[v].b
    {
      OthersEntry(rooms, i, s, u);
      OthersEntry(rooms, i, s, v);
      TwoCopies(s, u, v);
      OthersOnce(rooms, i, |rooms|, s[u]);
    }
  }

  /** The first `t` entries of a list without repeated rooms name `t` rooms. */
  lemma {:induction false} FirstEntriesDistinct(s: seq<Candidate>, t: nat)
    requires t <= |s| && DistinctRooms(s)
    ensures |set u | 0 <= u < t :: s[u].b| == t
  {
    if t > 0 {
      FirstEntriesDistinct(s, t - 1);
      assert (set u | 0 <= u < t :: s[u].b) == (set u | 0 <= u < t - 1 :: s[u].b) + {s[t - 1].b};
      assert s[t - 1].b !in (set u | 0 <= u < t - 1 :: s[u].b);
    }
  }

  /** In room `i`'s list sorted by distance, each of its surely `m` nearest rooms
      sits among the first `m` entries. */
  lemma NearRoomsComeFirst(rooms: seq<RoomInfo>, i: nat, s: seq<Candidate>, j: nat, m: int)
    requires i < |rooms| && SortedByDist(s) && multiset(s) == multiset(Others(rooms, i, |rooms|))
    requires SurelyNearest(rooms, i, j, m)
    ensures exists p :: 0 <= p < |s| && p < m && s[p].b == j
  {
    var d := RoomDist2(rooms[i], rooms[j]);
    var c := Candidate(i, j, d);
    OthersExactly(rooms, i, |rooms|, c);
    assert c in multiset(s);
    var p :| 0 <= p < |s| && s[p] == c;
    OthersDistinct(rooms, i, s);
    FirstEntriesDistinct(s, p + 1);
    FirstsNoFarther(rooms, i, s, p);
    SubsetCount(set u | 0 <= u < p + 1 :: s[u].b, NoFarther(rooms, i, d));
  }

  /** The rooms of the first `p + 1` entries of room `i`'s sorted list are no
      farther from `i` than the room of entry `p`. */
  lemma FirstsNoFarther(rooms: seq<RoomInfo>, i: nat, s: seq<Candidate>, p: nat)
    requires i < |rooms| && SortedByDist(s) && multiset(s) == multiset(Others(rooms, i, |rooms|))
    requires p < |s|
    ensures (set u | 0 <= u < p + 1 :: s[u].b) <= NoFarther(rooms, i, s[p].dist)
  {
    forall x | x in (set u | 0 <= u < p + 1 :: s[u].b)
      ensures x in NoFarther(rooms, i, s[p].dist)
    {
      var u :| 0 <= u < p + 1 && s[u].b == x;
      OthersEntry(rooms, i, s, u);
    }
  }

  /** How many edges of `E` start at room `r`: the links room `r` made itself. */
  function OutDegree(E: seq<Edge>, r: nat): nat
  {
    if E == [] then 0
    else OutDegree(E[..|E| - 1], r) + (if E[|E| - 1].0 == r then 1 else 0)
  }

  lemma OutDegreeAppend(E: seq<Edge>, e: Edge, r: nat)
    ensures OutDegree(E + [e], r) == OutDegree(E, r) + (if e.0 == r then 1 else 0)
  {
    assert (E + [e])[..|E|] == E;
  }

  lemma {:induction false} OutDegreeNone(E: seq<Edge>, r: nat)
    requires forall j :: 0 <= j < |E| ==> E[j].0 != r
    ensures OutDegree(E, r) == 0
  {
    if E != [] {
      OutDegreeNone(E[..|E| - 1], r);
    }
  }

  /** The connections to the nearest rooms once rooms `0 .. i-1` have made theirs. */
  ghost predicate Linked(rooms: seq<RoomInfo>, k: int, i: nat, E: seq<Edge>)
  {
    var n := |rooms|;
    i <= n && EdgesWithin(E, n) && NoSelfPairs(E) && NoDuplicatePairs(E) &&
    (forall j :: 0 <= j < |E| ==> E[j].0 < i && AmongNearest(rooms, E[j].0, E[j].1, k)) &&
    (forall r :: 0 <= r < n ==> OutDegree(E, r) <= Min(k, n - 1)) &&
    (n >= 2 ==> forall r :: 0 <= r < i ==> Touches(E, r)) &&
    (forall r, j :: 0 <= r < i && SurelyNearest(rooms, r, j, k) ==> Adjacent(E, r, j))
  }

  lemma AdjacentKept(E: seq<Edge>, F: seq<Edge>, a: nat, b: nat)
    requires |E| <= |F| && F[..|E|] == E && Adjacent(E, a, b)
    ensures Adjacent(F, a, b)
  {
    var j :| 0 <= j < |E| && Links(E[j], a, b);
    assert F[j] == E[j];
  }

  lemma TouchesKept(E: seq<Edge>, F: seq<Edge>, r: nat)
    requires |E| <= |F| && F[..|E|] == E && Touches(E, r)
    ensures Touches(F, r)
  {
    var j :| 0 <= j < |E| && (E[j].0 == r || E[j].1 == r);
    assert F[j] == E[j];
  }

  /** The connections while room `i` works through its sorted list `s`, the
      first `t` entries so far: the list `base` it started from is kept as a
      prefix, only room `i`'s own links have been added, and room `i` is linked
      with every room those entries name. */
  ghost predicate Linking(rooms: seq<RoomInfo>, k: int, i: nat, base: seq<Edge>, E: seq<Edge>, s: seq<Candidate>, t: nat)
  {
    var n := |rooms|;
    i < n && |base| <= |E| && E[..|base|] == base && t <= |s| &&
    (forall u :: 0 <= u < t ==> Adjacent(E, i, s[u].b)) &&
    EdgesWithin(E, n) && NoSelfPairs(E) && NoDuplicatePairs(E) &&
    (forall j :: 0 <= j < |E| ==> E[j].0 <= i && AmongNearest(rooms, E[j].0, E[j].1, k)) &&
    OutDegree(E, i) <= t &&
    (forall r :: 0 <= r < n && r != i ==> OutDegree(E, r) == OutDegree(base, r)) &&
    (t >= 1 ==> Touches(E, i))
  }

  /** Room `i` links to `other`, which it is not yet linked with. */
  lemma AddLink(rooms: seq<RoomInfo>, k: int, i: nat, base: seq<Edge>, E: seq<Edge>, s: seq<Candidate>, t: nat, other: nat)
    requires Linking(rooms, k, i, base, E, s, t)
    requires t < |s| && other == s[t].b
    requires other < |rooms| && other != i && AmongNearest(rooms, i, other, k)
    requires !Adjacent(E, i, other)
    ensures Linking(rooms, k, i, base, E + [(i, other)], s, t + 1)
  {
    var E' := E + [(i, other)];
    assert E'[..|base|] == E[..|base|];
    assert E'[..|E|] == E;
    forall u | 0 <= u < t + 1
      ensures Adjacent(E', i, s[u].b)
    {
      if u < t {
        AdjacentKept(E, E', i, s[u].b);
      } else {
        assert Links(E'[|E|], i, s[u].b);
      }
    }
    forall r | 0 <= r < |rooms|
      ensures OutDegree(E', r) == OutDegree(E, r) + (if r == i then 1 else 0)
    {
      OutDegreeAppend(E, (i, other), r);
    }
    assert E'[|E|] == (i, other);
  }

  /** Room `i` is already linked with `other` in one orientation or the other. */
  lemma SkipLink(rooms: seq<RoomInfo>, k: int, i: nat, base: seq<Edge>, E: seq<Edge>, s: seq<Candidate>, t: nat, other: nat)
    requires Linking(rooms, k, i, base, E, s, t)
    requires t < |s| && other == s[t].b
    requires Adjacent(E, i, other)
    ensures Linking(rooms, k, i, base, E, s, t + 1)
  {
    var j :| 0 <= j < |E| && Links(E[j], i, other);
    assert E[j].0 == i || E[j].1 == i;
  }

  /** Once room `i` is linked with its first `min(k, n - 1)` sorted entries, every
      room up to `i` is linked with each room surely among its `k` nearest. */
  lemma NearestLinked(rooms: seq<RoomInfo>, k: int, i: nat, base: seq<Edge>, E: seq<Edge>, s: seq<Candidate>, t: nat)
    requires i < |rooms| && |base| <= |E| && E[..|base|] == base
    requires forall r, j :: 0 <= r < i && SurelyNearest(rooms, r, j, k) ==> Adjacent(base, r, j)
    requires t <= |s| && forall u :: 0 <= u < t ==> Adjacent(E, i, s[u].b)
    requires SortedByDist(s) && multiset(s) == multiset(Others(rooms, i, |rooms|)) && t == Min(k, |s|)
    ensures forall r, j :: 0 <= r < i + 1 && SurelyNearest(rooms, r, j, k) ==> Adjacent(E, r, j)
  {
    forall r, j | 0 <= r < i + 1 && SurelyNearest(rooms, r, j, k)
      ensures Adjacent(E, r, j)
    {
      if r < i {
        AdjacentKept(base, E, r, j);
      } else {
        NearRoomsComeFirst(rooms, i, s, j, k);
      }
    }
  }

  /** Room `i` has gone through the first `min(k, n - 1)` entries of its sorted
      list, and so has made all its links. */
  lemma FinishRoom(rooms: seq<RoomInfo>, k: int, i: nat, base: seq<Edge>, E: seq<Edge>, s: seq<Candidate>, t: nat)
    requires Linked(rooms, k, i, base) && Linking(rooms, k, i, base, E, s, t)
    requires SortedByDist(s) && multiset(s) == multiset(Others(rooms, i, |rooms|)) && t == Min(k, |s|)
    requires t <= Min(k, |rooms| - 1) && (|rooms| >= 2 ==> t >= 1)
    ensures Linked(rooms, k, i + 1, E)
  {
    var n := |rooms|;
    NearestLinked(rooms, k, i, base, E, s, t);
    forall r | 0 <= r < n
      ensures OutDegree(E, r) <= Min(k, n - 1)
    {
    }
    forall r | 0 <= r <= i
      ensures n >= 2 ==> Touches(E, r)
    {
      if n >= 2 && r < i {
        TouchesKept(base, E, r);
      }
    }
  }

  /** The list `edges` of `GenerateMSTFromDelaunay`: each link with the distance between its rooms. */
  function WithDistances(rooms: seq<RoomInfo>, D: seq<Edge>): (cs: seq<Candidate>)
    requires EdgesWithin(D, |rooms|)
    ensures Edges(cs) == D
    ensures forall j :: 0 <= j < |cs| ==> cs[j].dist == RoomDist2(rooms[D[j].0], rooms[D[j].1])
  {
    seq(|D|, j requires 0 <= j < |D| => Candidate(D[j].0, D[j].1, RoomDist2(rooms[D[j].0], rooms[D[j].1])))
  }

  /** The links of `D` that match no MST link in either orientation, in their order in `D`. */
  function Leftovers(mst: seq<Edge>, D: seq<Edge>): (L: seq<Edge>)
    ensures |L| <= |D|
    ensures forall e :: e in L <==> e in D && !Adjacent(mst, e.0, e.1)
  {
    if D == [] then []
    else
      var e := D[|D| - 1];
      Leftovers(mst, D[..|D| - 1]) + if Adjacent(mst, e.0, e.1) then [] else [e]
  }

  /** Leaving links out repeats no pair that was not repeated before. */
  lemma {:induction false} LeftoversNoDuplicates(mst: seq<Edge>, D: seq<Edge>)
    requires NoDuplicatePairs(D)
    ensures NoDuplicatePairs(Leftovers(mst, D))
  {
    if D != [] {
      var D', e := D[..|D| - 1], D[|D| - 1];
      assert NoDuplicatePairs(D') by {
        forall s, t | 0 <= s < t < |D'|
          ensures !Links(D'[s], D'[t].0, D'[t].1)
        {
          assert D'[s] == D[s] && D'[t] == D[t];
        }
      }
      LeftoversNoDuplicates(mst, D');
      var L' := Leftovers(mst, D');
      if !Adjacent(mst, e.0, e.1) {
        forall s | 0 <= s < |L'|
          ensures !Links(L'[s], e.0, e.1)
        {
          assert L'[s] in D';
          var m :| 0 <= m < |D'| && D'[m] == L'[s];
          assert D[m] == L'[s];
        }
      }
    }
  }

  /** The first `m` of a shuffled copy of the leftover links, appended to the
      tree: each is a Delaunay link the tree does not have, and without
      duplicates in the tree and in the Delaunay list there are none after. */
  lemma ShuffledExtras(mst: seq<Edge>, delaunay: seq<Edge>, extras: seq<Edge>, m: nat)
    requires multiset(extras) == multiset(Leftovers(mst, delaunay)) && m <= |extras|
    ensures forall j :: |mst| <= j < |mst| + m ==>
      (mst + extras[..m])[j] in delaunay && !Adjacent(mst, (mst + extras[..m])[j].0, (mst + extras[..m])[j].1)
    ensures NoDuplicatePairs(mst) && NoDuplicatePairs(delaunay) ==> NoDuplicatePairs(mst + extras[..m])
  {
    var leftovers := Leftovers(mst, delaunay);
    forall j | 0 <= j < |extras|
      ensures extras[j] in leftovers
    {
      assert extras[j] in multiset(leftovers);
    }
    forall j | |mst| <= j < |mst| + m
      ensures (mst + extras[..m])[j] in leftovers
    {
      assert (mst + extras[..m])[j] == extras[j - |mst|];
    }
    if NoDuplicatePairs(mst) && NoDuplicatePairs(delaunay) {
      LeftoversNoDuplicates(mst, delaunay);
      NoDuplicatesPermuted(leftovers, extras);
      AppendedNoDuplicates(mst, extras, m);
    }
  }

  /** Links that repeat no pair among themselves and match no MST link, appended
      to an MST that repeats none, repeat none. */
  lemma AppendedNoDuplicates(mst: seq<Edge>, extras: seq<Edge>, m: nat)
    requires m <= |extras| && NoDuplicatePairs(mst) && NoDuplicatePairs(extras)
    requires forall j :: 0 <= j < |extras| ==> !Adjacent(mst, extras[j].0, extras[j].1)
    ensures NoDuplicatePairs(mst + extras[..m])
  {
    var F := mst + extras[..m];
    forall s, t | 0 <= s < t < |F|
      ensures !Links(F[s], F[t].0, F[t].1)
    {
      if t >= |mst| {
        assert F[t] == extras[t - |mst|];
        if s >= |mst| {
          assert F[s] == extras[s - |mst|];
        }
      }
    }
  }

  /** Every link of the final list is one of the nearest-neighbour links. */
  lemma FinalInherits(rooms: seq<RoomInfo>, k: int, D: seq<Edge>, F: seq<Edge>)
    requires EdgesWithin(D, |rooms|) && NoSelfPairs(D)
    requires forall j :: 0 <= j < |D| ==> AmongNearest(rooms, D[j].0, D[j].1, k)
    requires forall j :: 0 <= j < |F| ==> F[j] in D
    ensures EdgesWithin(F, |rooms|) && NoSelfPairs(F)
    ensures forall j :: 0 <= j < |F| ==> AmongNearest(rooms, F[j].0, F[j].1, k)
  {
    forall j | 0 <= j < |F|
      ensures F[j].0 < |rooms| && F[j].1 < |rooms| && F[j].0 != F[j].1
      ensures AmongNearest(rooms, F[j].0, F[j].1, k)
    {
      var q :| 0 <= q < |D| && D[q] == F[j];
    }
  }

  /** A room with a nearest-neighbour link is an end of some MST link, hence of some final link. */
  lemma FinalTouches(n: nat, D: seq<Edge>, mst: seq<Edge>, F: seq<Edge>, r: nat)
    requires r < n && EdgesWithin(D, n) && NoSelfPairs(D) && Touches(D, r)
    requires SameConnections(mst, D, n)
    requires |mst| <= |F| && F[..|mst|] == mst
    ensures Touches(F, r)
  {
    var j :| 0 <= j < |D| && (D[j].0 == r || D[j].1 == r);
    var other := if D[j].0 == r then D[j].1 else D[j].0;
    assert Links(D[j], r, other);
    ConnectedByEdge(D, r, other);
    ConnectedTouches(mst, r, other);
    TouchesKept(mst, F, r);
  }

  /** A list that opens with an MST of the links and adds only links connects
      what its opening connects. */
  lemma FinalOpensWithForest(n: nat, D: seq<Edge>, mst: seq<Edge>, F: seq<Edge>)
    requires Forest(mst) && SameConnections(mst, D, n)
    requires |mst| <= |F| && F[..|mst|] == mst
    requires forall j :: 0 <= j < |F| ==> F[j] in D
    ensures OpensWithForest(F, n)
  {
    forall x: nat, y: nat | x < n && y < n
      ensures Connected(F[..|mst|], x, y) <==> Connected(F, x, y)
    {
      if Connected(F, x, y) {
        forall j | 0 <= j < |F|
          ensures Adjacent(D, F[j].0, F[j].1)
        {
          var q :| 0 <= q < |D| && D[q] == F[j];
          assert Links(D[q], F[j].0, F[j].1);
        }
        ConnectedSubset(F, D, x, y);
      }
      if Connected(F[..|mst|], x, y) {
        forall j | 0 <= j < |mst|
          ensures Adjacent(F, mst[j].0, mst[j].1)
        {
          assert Links(F[j], mst[j].0, mst[j].1);
        }
        ConnectedSubset(mst, F, x, y);
      }
    }
    assert SameConnections(F[..|mst|], F, n);
  }

  // ----------------------------------------------- rooms in far-apart clusters

  /** Every link joins two of the first `h` rooms or two of the others. */
  predicate StaysOnSide(E: seq<Edge>, h: nat)
  {
    forall j :: 0 <= j < |E| ==> (E[j].0 < h <==> E[j].1 < h)
  }

  /** A walk along links that never cross between the first `h` rooms and the
      others ends on the side it starts on. */
  lemma {:induction false} WalkStaysOnSide(E: seq<Edge>, p: seq<nat>, a: nat, b: nat, h: nat)
    requires Walk(E, p, a, b) && StaysOnSide(E, h)
    ensures a < h <==> b < h
  {
    if |p| > 1 {
      assert Adjacent(E, p[0], p[1]);
      var j :| 0 <= j < |E| && Links(E[j], p[0], p[1]);
      var q := p[1..];
      forall i | 0 <= i < |q| - 1
        ensures Adjacent(E, q[i], q[i + 1])
      {
        assert q[i] == p[i + 1] && q[i + 1] == p[i + 2];
      }
      assert Walk(E, q, p[1], b);
      WalkStaysOnSide(E, q, p[1], b, h);
    }
  }

  /** Each room has at least `m` rooms of its own side strictly nearer to it than
      any room of the other side, the sides being the first `h` rooms and the rest. */
  predicate Separated(rooms: seq<RoomInfo>, m: int, h: nat)
  {
    forall i, j :: 0 <= i < |rooms| && 0 <= j < |rooms| && (i < h <==> h <= j) ==>
      |Closer(rooms, i, RoomDist2(rooms[i], rooms[j]))| >= m
  }

  /** On separated rooms, links to the `m` nearest rooms never cross between the
      sides, so no room of one side is connected to a room of the other. */
  lemma NearestStaysOnSide(rooms: seq<RoomInfo>, m: int, h: nat, E: seq<Edge>, a: nat, b: nat)
    requires Separated(rooms, m, h)
    requires forall j :: 0 <= j < |E| ==> AmongNearest(rooms, E[j].0, E[j].1, m)
    requires a < h <= b
    ensures !Connected(E, a, b)
  {
    forall j | 0 <= j < |E|
      ensures E[j].0 < h <==> E[j].1 < h
    {
      assert AmongNearest(rooms, E[j].0, E[j].1, m);
    }
    if Connected(E, a, b) {
      var p :| Walk(E, p, a, b);
      WalkStaysOnSide(E, p, a, b, h);
    }
  }

  /** A 2x2 room with its lower-left corner at `(x, 0)`; its centre is `(x + 1, 1)`. */
  function Box(x: int): RoomInfo
  {
    RoomInfo(Rect(x, 0, 2, 2))
  }

  /** Where room `r` of `FarClusters` starts: 0, 2, 4, 6, then 100, 102, 104, 106. */
  function Pos(r: int): int
  {
    if r < 4 then 2 * r else 92 + 2 * r
  }

  /** Eight 2x2 rooms on one row (y = 0) in two clusters of four, whose x
      positions start 94 cells apart. */
  function FarClusters(): (rooms: seq<RoomInfo>)
    ensures |rooms| == 8 && forall r :: 0 <= r < 8 ==> rooms[r] == Box(Pos(r))
  {
    seq(8, r => Box(Pos(r)))
  }

  lemma BoxDist(x: int, y: int)
    ensures RoomDist2(Box(x), Box(y)) == (x - y) * (x - y)
  {
  }

  lemma MulBelow(a: int, b: int, c: int)
    requires 0 <= a <= b && 0 <= c
    ensures a * c <= b * c
  {
  }

  lemma NearSquares(d: int, e: int)
    requires -6 <= d <= 6 && (e <= -94 || 94 <= e)
    ensures d * d < e * e
  {
    var ad, ae := if d < 0 then -d else d, if e < 0 then -e else e;
    assert d * d == ad * ad && e * e == ae * ae;
    MulBelow(ad, 6, ad);
    MulBelow(ad, 6, 6);
    MulBelow(94, ae, ae);
    MulBelow(94, ae, 94);
  }

  lemma {:induction false} ThreeCount(A: set<nat>, x: nat, y: nat, z: nat)
    requires x in A && y in A && z in A && x != y && y != z && x != z
    ensures |A| >= 3
  {
    assert |{x, y, z}| == 3;
    SubsetCount({x, y, z}, A);
  }

  /** In `FarClusters`, the three other rooms of a cluster are nearer to a room
      than any room of the other cluster. */
  lemma FarPair(i: nat, j: nat)
    requires i < 8 && j < 8 && (i < 4 <==> 4 <= j)
    ensures |Closer(FarClusters(), i, RoomDist2(FarClusters()[i], FarClusters()[j]))| >= 3
  {
    var lo := if i < 4 then 0 else 4;
    var x := if i == lo then lo + 1 else lo;
    var y := if i <= lo + 1 then lo + 2 else lo + 1;
    var z := if i <= lo + 2 then lo + 3 else lo + 2;
    NearerInCluster(i, j, x);
    NearerInCluster(i, j, y);
    NearerInCluster(i, j, z);
    ThreeCount(Closer(FarClusters(), i, RoomDist2(FarClusters()[i], FarClusters()[j])), x, y, z);
  }

  lemma NearerInCluster(i: nat, j: nat, r: nat)
    requires i < 8 && j < 8 && (i < 4 <==> 4 <= j)
    requires r < 8 && r != i && (i < 4 <==> r < 4)
    ensures r in Closer(FarClusters(), i, RoomDist2(FarClusters()[i], FarClusters()[j]))
  {
    BoxDist(Pos(i), Pos(j));
    BoxDist(Pos(i), Pos(r));
    NearSquares(Pos(i) - Pos(r), Pos(i) - Pos(j));
  }

  lemma FarClustersSeparated()
    ensures Separated(FarClusters(), 3, 4)
  {
    forall i, j | 0 <= i < 8 && 0 <= j < 8 && (i < 4 <==> 4 <= j)
      ensures |Closer(FarClusters(), i, RoomDist2(FarClusters()[i], FarClusters()[j]))| >= 3
    {
      FarPair(i, j);
    }
  }

  /** As written, links to the three nearest rooms (the generator's default) of
      two far-apart clusters never join the clusters: room 0 cannot reach room 4,
      so the links do not connect every room. */
  lemma FarClustersStayApart(E: seq<Edge>)
    requires forall j :: 0 <= j < |E| ==> AmongNearest(FarClusters(), E[j].0, E[j].1, 3)
    ensures !Connected(E, 0, 4) && !Spanning(E, 8)
  {
    FarClustersSeparated();
    NearestStaysOnSide(FarClusters(), 3, 4, E, 0, 4);
  }

  /** The generator with its default settings, run on `FarClusters`: whatever
      the draws, the connections it returns leave the two clusters apart, though
      its MST step is there to connect the rooms. `GenerateSpanningConnections`
      connects them. */
  method DefaultSplitsFarClusters(keys: Stream, k: nat) returns (connections: seq<Edge>)
    ensures !Connected(connections, 0, 4) && !Spanning(connections, |FarClusters()|)
  {
    var generator := new DelaunayConnectionGenerator(3, 1.0);
    var k';
    connections, k' := generator.GenerateConnections(FarClusters(), keys, k);
    FarClustersStayApart(connections);
  }

  /** The nearest-neighbour links followed by every pair of rooms stay within
      the rooms, pair no room with itself, and connect every room. */
  lemma BridgedSpans(rooms: seq<RoomInfo>, D: seq<Edge>, pairs: seq<Candidate>)
    requires EdgesWithin(D, |rooms|) && NoSelfPairs(D)
    requires pairs == MSTConnectionGenerator.AllPairs(rooms)
    ensures EdgesWithin(D + Edges(pairs), |rooms|) && NoSelfPairs(D + Edges(pairs))
    ensures Spanning(D + Edges(pairs), |rooms|)
  {
    var n, B := |rooms|, D + Edges(pairs);
    forall j | |D| <= j < |B|
      ensures B[j].0 < B[j].1 < n
    {
      assert B[j] == Edges(pairs)[j - |D|];
      MSTConnectionGenerator.PairsExactly(rooms, n, pairs[j - |D|]);
    }
    MSTConnectionGenerator.CandidatesSpan(rooms, pairs);
    forall x: nat, y: nat | x < n && y < n
      ensures Connected(B, x, y)
    {
      forall j | 0 <= j < |pairs|
        ensures Adjacent(B, Edges(pairs)[j].0, Edges(pairs)[j].1)
      {
        assert Links(B[|D| + j], Edges(pairs)[j].0, Edges(pairs)[j].1);
      }
      ConnectedSubset(Edges(pairs), B, x, y);
    }
  }

  /** A list that opens with a spanning list connects every room. */
  lemma OpeningSpans(mst: seq<Edge>, F: seq<Edge>, n: nat)
    requires Spanning(mst, n) && |mst| <= |F| && F[..|mst|] == mst
    ensures Spanning(F, n)
  {
    forall x: nat, y: nat | x < n && y < n
      ensures Connected(F, x, y)
    {
      forall j | 0 <= j < |mst|
        ensures Adjacent(F, mst[j].0, mst[j].1)
      {
        assert Links(F[j], mst[j].0, mst[j].1);
      }
      ConnectedSubset(mst, F, x, y);
    }
  }

  /** What the corrected generator returns: a spanning tree of the bridged links
      followed by nearest-neighbour links. The whole list stays within the rooms,
      pairs no room with itself, connects every room, and every link after the
      tree is a link to one of the `m` nearest rooms. */
  lemma BridgedFinal(rooms: seq<RoomInfo>, m: int, D: seq<Edge>, mst: seq<Edge>, F: seq<Edge>)
    requires EdgesWithin(D, |rooms|) && NoSelfPairs(D)
    requires forall j :: 0 <= j < |D| ==> AmongNearest(rooms, D[j].0, D[j].1, m)
    requires EdgesWithin(mst, |rooms|) && NoSelfPairs(mst)
    requires Spanning(mst, |rooms|) && |mst| == |rooms| - 1
    requires |mst| <= |F| && F[..|mst|] == mst
    requires forall j :: |mst| <= j < |F| ==> F[j] in D
    ensures EdgesWithin(F, |rooms|) && NoSelfPairs(F) && Spanning(F, |rooms|)
    ensures forall j :: |mst| <= j < |F| ==> AmongNearest(rooms, F[j].0, F[j].1, m)
  {
    OpeningSpans(mst, F, |rooms|);
    forall j | 0 <= j < |F|
      ensures F[j].0 < |rooms| && F[j].1 < |rooms| && F[j].0 != F[j].1
    {
      if j < |mst| {
        assert F[j] == mst[j];
      } else {
        assert F[j] in D;
        var q :| 0 <= q < |D| && D[q] == F[j];
      }
    }
    forall j | |mst| <= j < |F|
      ensures AmongNearest(rooms, F[j].0, F[j].1, m)
    {
      assert F[j] in D;
      var q :| 0 <= q < |D| && D[q] == F[j];
    }
  }

  /** A list that opens with a forest connecting what the nearest-neighbour
      links connect leads from every room to each room surely among its `m`
      nearest. */
  lemma FinalConnectsNearest(rooms: seq<RoomInfo>, m: int, D: seq<Edge>, mst: seq<Edge>, F: seq<Edge>)
    requires forall r, j :: 0 <= r < |rooms| && SurelyNearest(rooms, r, j, m) ==> Adjacent(D, r, j)
    requires SameConnections(mst, D, |rooms|)
    requires |mst| <= |F| && F[..|mst|] == mst
    ensures forall r, j :: 0 <= r < |rooms| && SurelyNearest(rooms, r, j, m) ==> Connected(F, r, j)
  {
    forall j | 0 <= j < |mst|
      ensures Adjacent(F, mst[j].0, mst[j].1)
    {
      assert Links(F[j], mst[j].0, mst[j].1);
    }
    forall r, j | 0 <= r < |rooms| && SurelyNearest(rooms, r, j, m)
      ensures Connected(F, r, j)
    {
      ConnectedByEdge(D, r, j);
      assert Connected(mst, r, j);
      ConnectedSubset(mst, F, r, j);
    }
  }

  class DelaunayConnectionGenerator {
    /** How many nearest rooms each room links to: between 1 and 5. */
    const neighborCount: int
    /** The share of the MST's size added back as loops: between 0 and 1. */
    const extraConnectionChance: real

    predicate Valid()
    {
      1 <= neighborCount <= 5 && 0.0 <= extraConnectionChance <= 1.0
    }

    /** The constructor clamps both settings into range. */
    constructor (neighborCount: int, extraConnectionChance: real)
      ensures Valid()
      ensures this.neighborCount == Clamp(neighborCount, 1, 5)
      ensures this.extraConnectionChance == Clamp01(extraConnectionChance)
    {
      this.neighborCount := Clamp(neighborCount, 1, 5);
      this.extraConnectionChance := Clamp01(extraConnectionChance);
    }

    /** The inner `j` loop: the distance from room `i` to every other room. */
    method DistancesFrom(rooms: seq<RoomInfo>, i: nat) returns (roomsByDistance: seq<Candidate>)
      requires i < |rooms|
      ensures roomsByDistance == Others(rooms, i, |rooms|)
    {
      roomsByDistance := [];
      for j := 0 to |rooms|
        invariant roomsByDistance == Others(rooms, i, j)
      {
        if i != j {
          var distance := RoomDist2(rooms[i], rooms[j]);
          roomsByDistance := roomsByDistance + [Candidate(i, j, distance)];
        }
      }
    }

    /** One turn of the outer loop: room `i` links to each of its `neighborCount`
        nearest rooms (fewer when there are fewer rooms) unless the pair is
        already linked in either orientation; afterwards it is linked with each
        room surely among its `neighborCount` nearest. */
    method LinkNearest(rooms: seq<RoomInfo>, i: nat, connections: seq<Edge>) returns (connections': seq<Edge>)
      requires Valid() && i < |rooms| && Linked(rooms, neighborCount, i, connections)
      ensures Linked(rooms, neighborCount, i + 1, connections')
      ensures |connections| <= |connections'| && connections'[..|connections|] == connections
    {
      var n := |rooms|;
      var roomsByDistance := DistancesFrom(rooms, i);
      var sorted := SortByDistance(roomsByDistance);
      var connectionsToMake := Min(neighborCount, |sorted|);
      assert |sorted| == |multiset(sorted)| == n - 1;
      connections' := connections;
      OutDegreeNone(connections, i);
      assert connections[..|connections|] == connections;
      for t := 0 to connectionsToMake
        invariant Linking(rooms, neighborCount, i, connections, connections', sorted, t)
      {
        var otherRoomIndex := sorted[t].b;
        assert sorted[t] in multiset(roomsByDistance);
        OthersExactly(rooms, i, n, sorted[t]);
        NearerComeFirst(rooms, i, sorted, t);
        var connectionExists := Adjacent(connections', i, otherRoomIndex);
        if !connectionExists {
          AddLink(rooms, neighborCount, i, connections, connections', sorted, t, otherRoomIndex);
          connections' := connections' + [(i, otherRoomIndex)];
        } else {
          SkipLink(rooms, neighborCount, i, connections, connections', sorted, t, otherRoomIndex);
        }
      }
      FinishRoom(rooms, neighborCount, i, connections, connections', sorted, connectionsToMake);
    }

    /** `GenerateDelaunayConnections`: no room is linked to itself, no pair is
        listed twice in either orientation, every link goes from a room to one of
        its `neighborCount` nearest rooms, no room makes more than
        `min(neighborCount, n - 1)` links, with two rooms or more every room
        has a link, and every room is linked with each room that is among its
        `neighborCount` nearest however ties are ordered. */
    method GenerateDelaunayConnections(rooms: seq<RoomInfo>) returns (connections: seq<Edge>)
      requires Valid()
      ensures EdgesWithin(connections, |rooms|) && NoSelfPairs(connections) && NoDuplicatePairs(connections)
      ensures forall j :: 0 <= j < |connections| ==>
        AmongNearest(rooms, connections[j].0, connections[j].1, neighborCount)
      ensures forall r :: 0 <= r < |rooms| ==> OutDegree(connections, r) <= Min(neighborCount, |rooms| - 1)
      ensures |rooms| >= 2 ==> forall r :: 0 <= r < |rooms| ==> Touches(connections, r)
      ensures forall r, j :: 0 <= r < |rooms| && SurelyNearest(rooms, r, j, neighborCount) ==>
        Adjacent(connections, r, j)
    {
      connections := [];
      for i := 0 to |rooms|
        invariant Linked(rooms, neighborCount, i, connections)
      {
        connections := LinkNearest(rooms, i, connections);
      }
    }
  
    /** `GenerateMSTFromDelaunay`: the links with their distances, sorted, then
        Kruskal's scan. The result is drawn from the links, has no cycle, and
        connects exactly the rooms the links connect, which need not be all of
        them. */
    method GenerateMSTFromDelaunay(rooms: seq<RoomInfo>, delaunay: seq<Edge>) returns (mst: seq<Edge>)
      requires EdgesWithin(delaunay, |rooms|)
      ensures forall j :: 0 <= j < |mst| ==> mst[j] in delaunay
      ensures Forest(mst)
      ensures SameConnections(mst, delaunay, |rooms|)
      ensures |rooms| >= 1 ==> |mst| <= |rooms| - 1
      ensures |rooms| >= 1 && Spanning(delaunay, |rooms|) ==> |mst| == |rooms| - 1
      ensures exists sorted ::
        SortedByDist(sorted) && multiset(sorted) == multiset(WithDistances(rooms, delaunay)) &&
        mst == Greedy(Edges(sorted))
    {
      var n := |rooms|;
      var edges: seq<Candidate> := [];
      for j := 0 to |delaunay|
        invariant |edges| == j && forall m :: 0 <= m < j ==> edges[m] == WithDistances(rooms, delaunay)[m]
      {
        var distance := RoomDist2(rooms[delaunay[j].0], rooms[delaunay[j].1]);
        edges := edges + [Candidate(delaunay[j].0, delaunay[j].1, distance)];
      }
      assert edges == WithDistances(rooms, delaunay);
      var sorted := SortByDistance(edges);
      forall t | 0 <= t < |sorted|
        ensures sorted[t].a < n && sorted[t].b < n
      {
        assert sorted[t] in multiset(edges);
      }
      mst := Scan(n, sorted);
      forall x: nat, y: nat | x < n && y < n
        ensures Connected(mst, x, y) <==> Connected(delaunay, x, y)
      {
        PermutedConnections(sorted, edges, x, y);
      }
      assert Spanning(delaunay, n) ==> Spanning(Edges(sorted), n);
      forall j | 0 <= j < |mst|
        ensures mst[j] in delaunay
      {
        var m :| 0 <= m < |sorted| && Edges(sorted)[m] == mst[j];
        assert sorted[m] in multiset(edges);
        var q :| 0 <= q < |edges| && edges[q] == sorted[m];
        assert delaunay[q] == Edges(edges)[q];
      }
    }

    /** The first loop of `AddExtraConnections`: the links matching no MST link. */
    method LeftoverLinks(mst: seq<Edge>, delaunay: seq<Edge>) returns (extraConnections: seq<Edge>)
      ensures extraConnections == Leftovers(mst, delaunay)
    {
      extraConnections := [];
      for j := 0 to |delaunay|
        invariant extraConnections == Leftovers(mst, delaunay[..j])
      {
        assert delaunay[..j + 1][..j] == delaunay[..j];
        var inMST := Adjacent(mst, delaunay[j].0, delaunay[j].1);
        if !inMST {
          extraConnections := extraConnections + [delaunay[j]];
        }
      }
      assert delaunay[..|delaunay|] == delaunay;
    }

    /** `OrderBy(x => random.Next())`: one draw per link from `keys`, from cursor
        `k` on, and the links sorted on their draws; the result is a reordering. */
    method Shuffle(links: seq<Edge>, keys: Stream, k: nat) returns (shuffled: seq<Edge>, k': nat)
      ensures multiset(shuffled) == multiset(links) && |shuffled| == |links| && k' == k + |links|
    {
      var keyed: seq<Candidate> := [];
      for j := 0 to |links|
        invariant |keyed| == j
        invariant forall m :: 0 <= m < j ==> keyed[m] == Candidate(links[m].0, links[m].1, keys(k + m))
      {
        keyed := keyed + [Candidate(links[j].0, links[j].1, keys(k + j))];
      }
      assert Edges(keyed) == links;
      k' := k + |keyed|;
      var sorted := SortByDistance(keyed);
      EdgesPermuted(sorted, keyed);
      shuffled := Edges(sorted);
    }

    /** The last loop of `AddExtraConnections`: the first `m` links of `extras` appended to `links`. */
    method AppendFirst(links: seq<Edge>, extras: seq<Edge>, m: int) returns (result: seq<Edge>)
      requires 0 <= m <= |extras|
      ensures result == links + extras[..m]
    {
      result := links;
      for i := 0 to m
        invariant result == links + extras[..i]
      {
        result := result + [extras[i]];
        assert extras[..i + 1] == extras[..i] + [extras[i]];
      }
    }

    /** `AddExtraConnections`. The MST links come first, unchanged and in order.
        The links left over are shuffled by one draw each from `keys` (cursor `k`),
        and the first `min(floor(|mst| * extraConnectionChance), number left over)`
        of them are appended. Each appended link is a leftover, so when neither
        list repeats a pair, the result repeats none. */
    method AddExtraConnections(mst: seq<Edge>, delaunay: seq<Edge>, keys: Stream, k: nat)
      returns (finalConnections: seq<Edge>, k': nat)
      requires Valid()
      ensures |mst| <= |finalConnections| && finalConnections[..|mst|] == mst
      ensures |finalConnections| ==
        |mst| + Min(((|mst| as real) * extraConnectionChance).Floor, |Leftovers(mst, delaunay)|)
      ensures forall j :: |mst| <= j < |finalConnections| ==>
        finalConnections[j] in delaunay && !Adjacent(mst, finalConnections[j].0, finalConnections[j].1)
      ensures k' == k + |Leftovers(mst, delaunay)|
      ensures NoDuplicatePairs(mst) && NoDuplicatePairs(delaunay) ==> NoDuplicatePairs(finalConnections)
    {
      finalConnections := mst;
      var extraConnections := LeftoverLinks(mst, delaunay);
      ghost var leftovers := extraConnections;
      extraConnections, k' := Shuffle(extraConnections, keys, k);
      var extraToAdd := ((|mst| as real) * extraConnectionChance).Floor;
      var toAdd := Min(extraToAdd, |extraConnections|);
      finalConnections := AppendFirst(finalConnections, extraConnections, toAdd);
      ShuffledExtras(mst, delaunay, extraConnections, toAdd);
    }

    /** `GenerateConnections`. With at most one room there is nothing to connect
        and nothing is drawn. Otherwise every connection goes from a room to one of
        its `neighborCount` nearest rooms, no room is connected to itself, no pair
        is listed twice in either orientation, every room has a connection, and
        the list opens with a forest that already connects whatever the whole
        list connects. Every room is connected, directly or through other rooms,
        with each room surely among its `neighborCount` nearest. That need not be
        every room: `DefaultSplitsFarClusters` shows rooms the connections leave
        apart. */
    method GenerateConnections(rooms: seq<RoomInfo>, keys: Stream, k: nat)
      returns (finalConnections: seq<Edge>, k': nat)
      requires Valid()
      ensures |rooms| <= 1 ==> finalConnections == [] && k' == k
      ensures EdgesWithin(finalConnections, |rooms|) && NoSelfPairs(finalConnections)
      ensures NoDuplicatePairs(finalConnections)
      ensures forall j :: 0 <= j < |finalConnections| ==>
        AmongNearest(rooms, finalConnections[j].0, finalConnections[j].1, neighborCount)
      ensures |rooms| >= 2 ==> forall r :: 0 <= r < |rooms| ==> Touches(finalConnections, r)
      ensures OpensWithForest(finalConnections, |rooms|)
      ensures forall r, j :: 0 <= r < |rooms| && SurelyNearest(rooms, r, j, neighborCount) ==>
        Connected(finalConnections, r, j)
    {
      if |rooms| <= 1 {
        finalConnections, k' := [], k;
        assert finalConnections[..0] == [];
        assert SameConnections(finalConnections[..0], finalConnections, |rooms|);
        return;
      }
      var delaunayConnections := GenerateDelaunayConnections(rooms);
      var mstConnections := GenerateMSTFromDelaunay(rooms, delaunayConnections);
      finalConnections, k' := AddExtraConnections(mstConnections, delaunayConnections, keys, k);
      ForestNoDuplicates(mstConnections);
      forall j | 0 <= j < |finalConnections|
        ensures finalConnections[j] in delaunayConnections
      {
        if j < |mstConnections| {
          assert finalConnections[j] == mstConnections[j];
        }
      }
      FinalInherits(rooms, neighborCount, delaunayConnections, finalConnections);
      forall r | 0 <= r < |rooms|
        ensures Touches(finalConnections, r)
      {
        FinalTouches(|rooms|, delaunayConnections, mstConnections, finalConnections, r);
      }
      FinalOpensWithForest(|rooms|, delaunayConnections, mstConnections, finalConnections);
      FinalConnectsNearest(rooms, neighborCount, delaunayConnections, mstConnections, finalConnections);
    }
    /** `GenerateConnections` as its comments intend, with the MST step connecting
        every room. The MST step is given the nearest-neighbour links followed by
        every pair of rooms; `GenerateMSTFromDelaunay` sorts that whole list by
        distance, so the tree is Kruskal's choice over all pairs, as in
        `MSTRoomConnectionGenerator`, and the links only decide ties. The extras
        are still drawn from the nearest-neighbour links only. The result opens with a
        spanning tree of `n - 1` links, every later link is a link to one of the
        `neighborCount` nearest rooms, and no pair is listed twice. */
    method GenerateSpanningConnections(rooms: seq<RoomInfo>, keys: Stream, k: nat)
      returns (finalConnections: seq<Edge>, k': nat)
      requires Valid()
      ensures |rooms| <= 1 ==> finalConnections == [] && k' == k
      ensures EdgesWithin(finalConnections, |rooms|) && NoSelfPairs(finalConnections)
      ensures NoDuplicatePairs(finalConnections)
      ensures Spanning(finalConnections, |rooms|)
      ensures |rooms| >= 1 ==> (|rooms| - 1 <= |finalConnections| &&
        Forest(finalConnections[..|rooms| - 1]) && Spanning(finalConnections[..|rooms| - 1], |rooms|))
      ensures forall j :: 0 <= j && |rooms| - 1 <= j < |finalConnections| ==>
        AmongNearest(rooms, finalConnections[j].0, finalConnections[j].1, neighborCount)
    {
      var n := |rooms|;
      if n <= 1 {
        finalConnections, k' := [], k;
        MSTConnectionGenerator.FewRooms(rooms);
        assert finalConnections[..0] == [];
        return;
      }
      var delaunayConnections := GenerateDelaunayConnections(rooms);
      var mstConnections := BridgedTree(rooms, delaunayConnections);
      finalConnections, k' := AddExtraConnections(mstConnections, delaunayConnections, keys, k);
      ForestNoDuplicates(mstConnections);
      BridgedFinal(rooms, neighborCount, delaunayConnections, mstConnections, finalConnections);
      assert finalConnections[..n - 1] == mstConnections;
    }

    /** The corrected MST step: `GenerateMSTFromDelaunay` over the links followed
        by every pair of rooms. It sorts the whole list by distance, so the tree
        is Kruskal's choice over all pairs and the links only decide ties. The
        result is a spanning tree of the rooms. */
    method BridgedTree(rooms: seq<RoomInfo>, delaunay: seq<Edge>) returns (mst: seq<Edge>)
      requires |rooms| >= 2 && EdgesWithin(delaunay, |rooms|) && NoSelfPairs(delaunay)
      ensures Forest(mst) && Spanning(mst, |rooms|) && |mst| == |rooms| - 1
      ensures EdgesWithin(mst, |rooms|) && NoSelfPairs(mst)
    {
      var pairs := MSTConnectionGenerator.CandidatePairs(rooms);
      BridgedSpans(rooms, delaunay, pairs);
      var bridged := delaunay + Edges(pairs);
      mst := GenerateMSTFromDelaunay(rooms, bridged);
      forall j | 0 <= j < |mst|
        ensures mst[j].0 < |rooms| && mst[j].1 < |rooms| && mst[j].0 != mst[j].1
      {
        assert mst[j] in bridged;
      }
    }
  }
}
