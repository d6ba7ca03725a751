/** The part both connection generators share: sorting the candidate edges by
    distance (`List.Sort`), then Kruskal's scan, which keeps an edge exactly when
    its two rooms lie in different sets of the union-find. */
module Kruskal {
  import opened Graphs
  import opened UnionFind

  /** An entry of a candidate list: two rooms and the squared distance between their centres. */
  datatype Candidate = Candidate(a: nat, b: nat, dist: nat)

  /** The room pairs of a candidate list, in the same order and orientation. */
  function Edges(cs: seq<Candidate>): (E: seq<Edge>)
    ensures |E| == |cs| && forall i :: 0 <= i < |cs| ==> E[i] == (cs[i].a, cs[i].b)
  {
    seq(|cs|, i requires 0 <= i < |cs| => (cs[i].a, cs[i].b))
  }

  /** Every candidate names two of the rooms `0 .. n-1`. */
  predicate CandidatesWithin(cs: seq<Candidate>, n: nat)
  {
    forall i :: 0 <= i < |cs| ==> cs[i].a < n && cs[i].b < n
  }

  /** Shortest first. */
  predicate SortedByDist(s: seq<Candidate>)
  {
    forall i, j :: 0 <= i < j < |s| ==> s[i].dist <= s[j].dist
  }

  /** Puts `c` into the sorted list `s`, after the entries no farther than it. */
  method InsertByDistance(s: seq<Candidate>, c: Candidate) returns (r: seq<Candidate>)
    requires SortedByDist(s)
    ensures SortedByDist(r) && multiset(r) == multiset(s) + multiset{c} && |r| == |s| + 1
  {
    var j := 0;
    while j < |s| && s[j].dist <= c.dist
      invariant 0 <= j <= |s|
      invariant forall t :: 0 <= t < j ==> s[t].dist <= c.dist
    {
      j := j + 1;
    }
    r := s[..j] + [c] + s[j..];
    InsertedSorted(s, c, j);
    assert s == s[..j] + s[j..];
    assert multiset(r) == multiset(s[..j]) + multiset{c} + multiset(s[j..]);
  }

  /** Placing `c` between the entries no farther than it and the rest keeps a list sorted. */
  lemma InsertedSorted(s: seq<Candidate>, c: Candidate, j: nat)
    requires SortedByDist(s) && j <= |s|
    requires forall t :: 0 <= t < j ==> s[t].dist <= c.dist
    requires j < |s| ==> c.dist < s[j].dist
    ensures SortedByDist(s[..j] + [c] + s[j..])
  {
    var r := s[..j] + [c] + s[j..];
    forall u, v | 0 <= u < v < |r|
      ensures r[u].dist <= r[v].dist
    {
      if v < j {
        assert r[u] == s[u] && r[v] == s[v];
      } else if v == j {
        assert r[u] == s[u] && r[v] == c;
      } else if u < j {
        assert r[u] == s[u] && r[v] == s[v - 1];
      } else if u == j {
        assert r[u] == c && r[v] == s[v - 1];
      } else {
        assert r[u] == s[u - 1] && r[v] == s[v - 1];
      }
    }
  }

  /** `List.Sort` with the comparison on distance: the result is sorted and holds
      the same entries. Which of several equally distant entries comes first is
      left open, as `List.Sort` is not stable. */
  method SortByDistance(cs: seq<Candidate>) returns (sorted: seq<Candidate>)
    ensures SortedByDist(sorted) && multiset(sorted) == multiset(cs) && |sorted| == |cs|
  {
    sorted := [];
    for i := 0 to |cs|
      invariant SortedByDist(sorted) && multiset(sorted) == multiset(cs[..i]) && |sorted| == i
    {
      sorted := InsertByDistance(sorted, cs[i]);
      assert cs[..i + 1] == cs[..i] + [cs[i]];
    }
    assert cs[..|cs|] == cs;
  }

  lemma EdgesAppend(a: seq<Candidate>, b: seq<Candidate>)
    ensures Edges(a + b) == Edges(a) + Edges(b)
  {
    assert |Edges(a + b)| == |Edges(a) + Edges(b)|;
    forall i | 0 <= i < |a + b|
      ensures Edges(a + b)[i] == (Edges(a) + Edges(b))[i]
    {
      if i < |a| {
        assert (a + b)[i] == a[i];
      } else {
        assert (a + b)[i] == b[i - |a|];
      }
    }
  }

  /** Taking entry `q` out of a candidate list takes its pair out of the pairs. */
  lemma EdgesWithout(t: seq<Candidate>, q: nat)
    requires q < |t|
    ensures multiset(t[..q] + t[q + 1..]) == multiset(t) - multiset{t[q]}
    ensures multiset(Edges(t)) == multiset(Edges(t[..q] + t[q + 1..])) + multiset{(t[q].a, t[q].b)}
  {
    var x := t[q];
    var e := (x.a, x.b);
    assert t == t[..q] + [x] + t[q + 1..];
    assert multiset(t) == multiset(t[..q]) + multiset{x} + multiset(t[q + 1..]);
    EdgesAppend(t[..q] + [x], t[q + 1..]);
    EdgesAppend(t[..q], [x]);
    EdgesAppend(t[..q], t[q + 1..]);
    assert Edges([x]) == [e];
    assert multiset(Edges(t)) == multiset(Edges(t[..q])) + multiset{e} + multiset(Edges(t[q + 1..]));
  }

  /** Reordering candidates reorders their pairs the same way. */
  lemma {:induction false} EdgesPermuted(s: seq<Candidate>, t: seq<Candidate>)
    requires multiset(s) == multiset(t)
    ensures multiset(Edges(s)) == multiset(Edges(t))
    decreases |s|
  {
    if s != [] {
      var n := |s| - 1;
      var x := s[n];
      var s' := s[..n] + s[n + 1..];
      EdgesWithout(s, n);
      assert x in multiset(t);
      var q :| 0 <= q < |t| && t[q] == x;
      var t' := t[..q] + t[q + 1..];
      EdgesWithout(t, q);
      EdgesPermuted(s', t');
      calc {
        multiset(Edges(s));
        multiset(Edges(s')) + multiset{(x.a, x.b)};
        multiset(Edges(t')) + multiset{(x.a, x.b)};
        multiset(Edges(t));
      }
    }
  }

  /** Reordering candidates connects the same rooms. */
  lemma PermutedConnections(s: seq<Candidate>, t: seq<Candidate>, x: nat, y: nat)
    requires multiset(s) == multiset(t)
    ensures Connected(Edges(s), x, y) <==> Connected(Edges(t), x, y)
  {
    forall j | 0 <= j < |s|
      ensures Adjacent(Edges(t), Edges(s)[j].0, Edges(s)[j].1)
    {
      assert s[j] in multiset(t);
      var q :| 0 <= q < |t| && t[q] == s[j];
      assert Links(Edges(t)[q], Edges(s)[j].0, Edges(s)[j].1);
    }
    forall j | 0 <= j < |t|
      ensures Adjacent(Edges(s), Edges(t)[j].0, Edges(t)[j].1)
    {
      assert t[j] in multiset(s);
      var q :| 0 <= q < |s| && s[q] == t[j];
      assert Links(Edges(s)[q], Edges(t)[j].0, Edges(t)[j].1);
    }
    if Connected(Edges(s), x, y) {
      ConnectedSubset(Edges(s), Edges(t), x, y);
    }
    if Connected(Edges(t), x, y) {
      ConnectedSubset(Edges(t), Edges(s), x, y);
    }
  }

  /** Kruskal's rule over a list of edges in its order: an edge is kept exactly
      when the edges kept before it do not already connect its two rooms. */
  ghost function Greedy(E: seq<Edge>): (F: seq<Edge>)
    ensures |F| <= |E|
  {
    if E == [] then []
    else
      var kept := Greedy(E[..|E| - 1]);
      var e := E[|E| - 1];
      if Connected(kept, e.0, e.1) then kept else kept + [e]
  }

  /** One more candidate: the rule keeps it exactly when the edges kept so far do not connect its rooms. */
  lemma GreedyStep(candidates: seq<Candidate>, i: nat)
    requires i < |candidates|
    ensures Greedy(Edges(candidates[..i + 1])) ==
      var kept := Greedy(Edges(candidates[..i]));
      if Connected(kept, candidates[i].a, candidates[i].b) then kept
      else kept + [(candidates[i].a, candidates[i].b)]
  {
    assert Edges(candidates[..i + 1])[..i] == Edges(candidates[..i]);
  }

  /** Merging the set of `a` into the set of `b` matches adding the edge `(a, b)`:
      if the sets were the connected groups before, they still are after. */
  lemma MergeMatchesConnectivity(E: seq<Edge>, R: seq<nat>, R': seq<nat>, a: nat, b: nat)
    requires a < |R| && b < |R| && |R'| == |R| && R[a] != R[b]
    requires forall x, y :: 0 <= x < |R| && 0 <= y < |R| ==> (R[x] == R[y] <==> Connected(E, x, y))
    requires forall y :: 0 <= y < |R| ==> R'[y] == if R[y] == R[a] then R[b] else R[y]
    ensures forall x, y :: 0 <= x < |R| && 0 <= y < |R| ==>
      (R'[x] == R'[y] <==> Connected(E + [(a, b)], x, y))
  {
    forall x, y | 0 <= x < |R| && 0 <= y < |R|
      ensures R'[x] == R'[y] <==> Connected(E + [(a, b)], x, y)
    {
      ConnectedAfterAdding(E, a, b, x, y);
    }
  }

  /** When every room is its own parent, every room is a root. */
  lemma {:induction false} AllRoots(p: seq<nat>)
    requires forall x :: 0 <= x < |p| ==> p[x] == x
    ensures |RootSet(p)| == |p|
  {
    if |p| > 0 {
      var q := p[..|p| - 1];
      AllRoots(q);
      assert RootSet(p) == RootSet(q) + {|p| - 1};
    }
  }

  /** One kept edge: the forest grows by the candidate's pair, stays a forest,
      the merged sets are its new connected groups, and every candidate seen so
      far is still connected. */
  lemma KeepEdge(before: seq<Edge>, candidates: seq<Candidate>, i: nat, R: seq<nat>, R': seq<nat>)
    requires i < |candidates| && candidates[i].a < |R| && candidates[i].b < |R| && |R'| == |R|
    requires R[candidates[i].a] != R[candidates[i].b]
    requires Forest(before)
    requires forall x, y :: 0 <= x < |R| && 0 <= y < |R| ==> (R[x] == R[y] <==> Connected(before, x, y))
    requires forall j :: 0 <= j < i ==> Connected(before, candidates[j].a, candidates[j].b)
    requires forall y :: 0 <= y < |R| ==>
      R'[y] == if R[y] == R[candidates[i].a] then R[candidates[i].b] else R[y]
    ensures Forest(before + [(candidates[i].a, candidates[i].b)])
    ensures forall x, y :: 0 <= x < |R| && 0 <= y < |R| ==>
      (R'[x] == R'[y] <==> Connected(before + [(candidates[i].a, candidates[i].b)], x, y))
    ensures forall j :: 0 <= j <= i ==>
      Connected(before + [(candidates[i].a, candidates[i].b)], candidates[j].a, candidates[j].b)
  {
    var a, b := candidates[i].a, candidates[i].b;
    ForestExtend(before, a, b);
    ConnectedGrows(before, a, b);
    MergeMatchesConnectivity(before, R, R', a, b);
    forall j | 0 <= j <= i
      ensures Connected(before + [(a, b)], candidates[j].a, candidates[j].b)
    {
      if j < i {
        assert Connected(before, candidates[j].a, candidates[j].b);
      }
    }
  }

  /** A forest drawn from the candidates that connects every candidate's rooms
      connects exactly what the candidates connect. */
  lemma ScanConnectsCandidates(forest: seq<Edge>, candidates: seq<Candidate>, x: nat, y: nat)
    requires forall j :: 0 <= j < |forest| ==> forest[j] in Edges(candidates)
    requires forall j :: 0 <= j < |candidates| ==> Connected(forest, candidates[j].a, candidates[j].b)
    ensures Connected(forest, x, y) <==> Connected(Edges(candidates), x, y)
  {
    if Connected(forest, x, y) {
      ConnectedSubset(forest, Edges(candidates), x, y);
    }
    if Connected(Edges(candidates), x, y) {
      ConnectedLift(Edges(candidates), forest, x, y);
    }
  }

  /** When the sets are the connected groups of `forest`, at least one set
      remains, and exactly one when `forest` connects all rooms. */
  lemma RootsOfGroups(p: seq<nat>, rank: seq<nat>, R: seq<nat>, forest: seq<Edge>)
    requires Ranked(p, rank) && |R| == |p| >= 1
    requires forall x :: 0 <= x < |p| ==> Root(p, rank, x) == R[x]
    requires forall x, y :: 0 <= x < |p| && 0 <= y < |p| ==> (R[x] == R[y] <==> Connected(forest, x, y))
    ensures |RootSet(p)| >= 1
    ensures Spanning(forest, |p|) ==> |RootSet(p)| == 1
  {
    RootIsTop(p, rank, 0);
    assert R[0] in RootSet(p);
    if Spanning(forest, |p|) {
      forall x | x in RootSet(p)
        ensures x == R[0]
      {
        assert Connected(forest, 0, x);
        RootIsTop(p, rank, x);
      }
      assert RootSet(p) == {R[0]};
    }
  }

  /** The state of the scan after the first `i` candidates: the sets are the
      connected groups of the edges kept so far (`R` names each room's root),
      and those edges are what Kruskal's rule keeps from that prefix. */
  ghost predicate Scanned(sets: DisjointSets, n: nat, candidates: seq<Candidate>, i: nat,
                          forest: seq<Edge>, R: seq<nat>)
    reads sets
  {
    i <= |candidates| && CandidatesWithin(candidates, n) &&
    sets.Valid() && |sets.parent| == n && |R| == n &&
    (forall x :: 0 <= x < n ==> sets.RootOf(x) == R[x]) &&
    forest == Greedy(Edges(candidates[..i])) &&
    (forall j :: 0 <= j < |forest| ==> forest[j] in Edges(candidates)) &&
    Forest(forest) &&
    (forall x, y :: 0 <= x < n && 0 <= y < n ==> (R[x] == R[y] <==> Connected(forest, x, y))) &&
    (forall j :: 0 <= j < i ==> Connected(forest, candidates[j].a, candidates[j].b)) &&
    |forest| + |sets.Roots()| == n
  }

  /** `Find` on both rooms of candidate `i`: their roots, with the scan state kept. */
  method FindRoots(sets: DisjointSets, n: nat, candidates: seq<Candidate>, i: nat,
                   forest: seq<Edge>, ghost R: seq<nat>)
    returns (rootA: nat, rootB: nat)
    requires i < |candidates| && Scanned(sets, n, candidates, i, forest, R)
    modifies sets
    ensures Scanned(sets, n, candidates, i, forest, R)
    ensures rootA == R[candidates[i].a] && rootB == R[candidates[i].b] && rootA in sets.Roots()
  {
    rootA := sets.Find(candidates[i].a);
    rootB := sets.Find(candidates[i].b);
  }

  /** Keeping candidate `i`, whose rooms lie in different sets: append the edge and `Union` the sets. */
  method KeepAndUnion(sets: DisjointSets, n: nat, candidates: seq<Candidate>, i: nat,
                      forest: seq<Edge>, ghost R: seq<nat>)
    returns (forest': seq<Edge>, ghost R': seq<nat>)
    requires i < |candidates| && Scanned(sets, n, candidates, i, forest, R)
    requires R[candidates[i].a] != R[candidates[i].b]
    modifies sets
    ensures Scanned(sets, n, candidates, i + 1, forest', R')
  {
    var c := candidates[i];
    assert (c.a, c.b) == Edges(candidates)[i];
    GreedyStep(candidates, i);
    RootIsTop(sets.parent, sets.rank, c.a);
    assert R[c.a] in sets.Roots();
    R' := seq(n, y requires 0 <= y < n => if R[y] == R[c.a] then R[c.b] else R[y]);
    KeepEdge(forest, candidates, i, R, R');
    forest' := forest + [(c.a, c.b)];
    sets.Union(c.a, c.b);
  }

  /** The body of the scan for candidate `i`: `Find` both rooms and, when the roots
      differ, keep the edge and `Union` the two sets. */
  method Consider(sets: DisjointSets, n: nat, candidates: seq<Candidate>, i: nat,
                  forest: seq<Edge>, ghost R: seq<nat>)
    returns (forest': seq<Edge>, ghost R': seq<nat>)
    requires i < |candidates| && Scanned(sets, n, candidates, i, forest, R)
    modifies sets
    ensures Scanned(sets, n, candidates, i + 1, forest', R')
  {
    var rootA, rootB := FindRoots(sets, n, candidates, i, forest, R);
    if rootA != rootB {
      forest', R' := KeepAndUnion(sets, n, candidates, i, forest, R);
    } else {
      var c := candidates[i];
      GreedyStep(candidates, i);
      forest', R' := forest, R;
      assert Connected(forest, c.a, c.b);
      assert forall j :: 0 <= j <= i ==> Connected(forest, candidates[j].a, candidates[j].b);
    }
  }

  /** Kruskal's scan over `candidates` in list order, as both generators run it:
      an edge is kept exactly when its rooms are not yet in one set. The result
      is a forest drawn from the candidates that connects exactly the rooms the
      candidates connect; on rooms the candidates connect completely it has
      `n - 1` edges. */
  method Scan(n: nat, candidates: seq<Candidate>) returns (forest: seq<Edge>)
    requires CandidatesWithin(candidates, n)
    ensures forall j :: 0 <= j < |forest| ==> forest[j] in Edges(candidates)
    ensures forest == Greedy(Edges(candidates))
    ensures Forest(forest)
    ensures forall x: nat, y: nat :: x < n && y < n ==>
      (Connected(forest, x, y) <==> Connected(Edges(candidates), x, y))
    ensures n >= 1 ==> |forest| <= n - 1
    ensures n >= 1 && Spanning(Edges(candidates), n) ==> |forest| == n - 1
  {
    var sets;
    ghost var R;
    sets, R := StartScan(n, candidates);
    forest := [];
    for i := 0 to |candidates|
      invariant Scanned(sets, n, candidates, i, forest, R)
    {
      forest, R := Consider(sets, n, candidates, i, forest, R);
    }
    ScanFinished(sets, n, candidates, forest, R);
  }

  /** Before the loop: every room alone in its set, and no edge kept yet. */
  method StartScan(n: nat, candidates: seq<Candidate>) returns (sets: DisjointSets, ghost R: seq<nat>)
    requires CandidatesWithin(candidates, n)
    ensures fresh(sets) && Scanned(sets, n, candidates, 0, [], R)
  {
    sets := new DisjointSets(n);
    R := seq(n, x => x);
    AllRoots(sets.parent);
    forall x, y | 0 <= x < n && 0 <= y < n
      ensures R[x] == R[y] <==> Connected([], x, y)
    {
      NoEdgesConnected(x, y);
    }
    assert candidates[..0] == [];
  }

  /** After the loop: the kept edges connect what all the candidates connect, and
      there are as many of them as sets were merged. */
  lemma ScanFinished(sets: DisjointSets, n: nat, candidates: seq<Candidate>, forest: seq<Edge>, R: seq<nat>)
    requires Scanned(sets, n, candidates, |candidates|, forest, R)
    ensures forest == Greedy(Edges(candidates))
    ensures forall x: nat, y: nat :: x < n && y < n ==>
      (Connected(forest, x, y) <==> Connected(Edges(candidates), x, y))
    ensures n >= 1 ==> |forest| <= n - 1
    ensures n >= 1 && Spanning(Edges(candidates), n) ==> |forest| == n - 1
  {
    assert candidates[..|candidates|] == candidates;
    forall x: nat, y: nat | x < n && y < n
      ensures Connected(forest, x, y) <==> Connected(Edges(candidates), x, y)
    {
      ScanConnectsCandidates(forest, candidates, x, y);
    }
    if n >= 1 {
      if Spanning(Edges(candidates), n) {
        assert Spanning(forest, n);
      }
      RootsOfGroups(sets.parent, sets.rank, R, forest);
    }
  }
}
