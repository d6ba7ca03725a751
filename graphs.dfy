/** Undirected graphs over room indices, as the connection generators build them:
    an edge list, walks along it, and the connectivity and acyclicity notions the
    generators' results are judged by. */
module Graphs {

  /** A connection between two rooms, by index. Both orientations mean the same corridor. */
  type Edge = (nat, nat)

  /** `e` joins `a` and `b`, in either orientation. */
  predicate Links(e: Edge, a: nat, b: nat)
  {
    e == (a, b) || e == (b, a)
  }

  /** Some edge of `E` joins `a` and `b`. */
  predicate Adjacent(E: seq<Edge>, a: nat, b: nat)
  {
    exists j :: 0 <= j < |E| && Links(E[j], a, b)
  }

  /** `p` visits rooms from `a` to `b`, each step along an edge of `E`. */
  predicate Walk(E: seq<Edge>, p: seq<nat>, a: nat, b: nat)
  {
    |p| >= 1 && p[0] == a && p[|p| - 1] == b &&
    forall i :: 0 <= i < |p| - 1 ==> Adjacent(E, p[i], p[i + 1])
  }

  /** The corridors `E` lead from room `a` to room `b`. */
  ghost predicate Connected(E: seq<Edge>, a: nat, b: nat)
  {
    exists p :: Walk(E, p, a, b)
  }

  /** Every pair of the rooms `0 .. n-1` is connected by `E`. */
  ghost predicate Spanning(E: seq<Edge>, n: nat)
  {
    forall a: nat, b: nat :: a < n && b < n ==> Connected(E, a, b)
  }

  /** No edge closes a cycle: each one joins two rooms the edges before it do not connect. */
  ghost predicate Forest(E: seq<Edge>)
  {
    forall i :: 0 <= i < |E| ==> !Connected(E[..i], E[i].0, E[i].1)
  }

  /** No two edges of `E` join the same two rooms, in either orientation. */
  predicate NoDuplicatePairs(E: seq<Edge>)
  {
    forall s, t :: 0 <= s < t < |E| ==> !Links(E[s], E[t].0, E[t].1)
  }

  /** Every endpoint is one of the rooms `0 .. n-1`. */
  predicate EdgesWithin(E: seq<Edge>, n: nat)
  {
    forall j :: 0 <= j < |E| ==> E[j].0 < n && E[j].1 < n
  }

  // ------------------------------------------------------------------ walks

  lemma ConnectedSelf(E: seq<Edge>, a: nat)
    ensures Connected(E, a, a)
  {
    assert Walk(E, [a], a, a);
  }

  lemma ConnectedByEdge(E: seq<Edge>, a: nat, b: nat)
    requires Adjacent(E, a, b)
    ensures Connected(E, a, b)
  {
    assert Walk(E, [a, b], a, b);
  }

  function Reverse(p: seq<nat>): (r: seq<nat>)
    ensures |r| == |p| && forall i :: 0 <= i < |p| ==> r[i] == p[|p| - 1 - i]
  {
    if p == [] then [] else Reverse(p[1..]) + [p[0]]
  }

  lemma ConnectedSymmetric(E: seq<Edge>, a: nat, b: nat)
    requires Connected(E, a, b)
    ensures Connected(E, b, a)
  {
    var p :| Walk(E, p, a, b);
    var r := Reverse(p);
    forall i | 0 <= i < |r| - 1
      ensures Adjacent(E, r[i], r[i + 1])
    {
      var k := |p| - 2 - i;
      assert r[i] == p[k + 1] && r[i + 1] == p[k];
      assert Adjacent(E, p[k], p[k + 1]);
      var j :| 0 <= j < |E| && Links(E[j], p[k], p[k + 1]);
      assert Links(E[j], r[i], r[i + 1]);
    }
    assert Walk(E, r, b, a);
  }

  lemma ConnectedTransitive(E: seq<Edge>, a: nat, b: nat, c: nat)
    requires Connected(E, a, b) && Connected(E, b, c)
    ensures Connected(E, a, c)
  {
    var p :| Walk(E, p, a, b);
    var q :| Walk(E, q, b, c);
    var w := p + q[1..];
    forall i | 0 <= i < |w| - 1
      ensures Adjacent(E, w[i], w[i + 1])
    {
      if i < |p| - 1 {
        assert w[i] == p[i] && w[i + 1] == p[i + 1];
      } else {
        var k := i - (|p| - 1);
        assert w[i] == q[k] && w[i + 1] == q[k + 1];
      }
    }
    assert Walk(E, w, a, c);
  }

  /** Without edges every room is connected to itself only. */
  lemma NoEdgesConnected(a: nat, b: nat)
    ensures Connected([], a, b) <==> a == b
  {
    if Connected([], a, b) {
      var p :| Walk([], p, a, b);
      assert |p| == 1 || Adjacent([], p[0], p[1]);
    } else if a == b {
      ConnectedSelf([], a);
    }
  }

  /** A walk along `E` can be redrawn along `F` when `F` connects the two ends of
      every edge of `E`. */
  lemma {:induction false} WalkLift(E: seq<Edge>, F: seq<Edge>, p: seq<nat>)
    requires forall j :: 0 <= j < |E| ==> Connected(F, E[j].0, E[j].1)
    requires |p| >= 1 && Walk(E, p, p[0], p[|p| - 1])
    ensures Connected(F, p[0], p[|p| - 1])
    decreases |p|
  {
    if |p| == 1 {
      ConnectedSelf(F, p[0]);
    } else {
      var q := p[..|p| - 1];
      assert Walk(E, q, q[0], q[|q| - 1]) by {
        forall i | 0 <= i < |q| - 1
          ensures Adjacent(E, q[i], q[i + 1])
        {
          assert q[i] == p[i] && q[i + 1] == p[i + 1];
        }
      }
      WalkLift(E, F, q);
      var x, y := p[|p| - 2], p[|p| - 1];
      assert Adjacent(E, x, y);
      var j :| 0 <= j < |E| && Links(E[j], x, y);
      if E[j] == (x, y) {
        assert Connected(F, x, y);
      } else {
        ConnectedSymmetric(F, y, x);
      }
      ConnectedTransitive(F, p[0], x, y);
    }
  }

  /** `F` connects everything `E` does when it connects the ends of each edge of `E`. */
  lemma ConnectedLift(E: seq<Edge>, F: seq<Edge>, a: nat, b: nat)
    requires forall j :: 0 <= j < |E| ==> Connected(F, E[j].0, E[j].1)
    requires Connected(E, a, b)
    ensures Connected(F, a, b)
  {
    var p :| Walk(E, p, a, b);
    WalkLift(E, F, p);
  }

  /** A sub-list connects no more than the list. */
  lemma ConnectedSubset(E: seq<Edge>, F: seq<Edge>, a: nat, b: nat)
    requires forall j :: 0 <= j < |E| ==> Adjacent(F, E[j].0, E[j].1)
    requires Connected(E, a, b)
    ensures Connected(F, a, b)
  {
    forall j | 0 <= j < |E|
      ensures Connected(F, E[j].0, E[j].1)
    {
      ConnectedByEdge(F, E[j].0, E[j].1);
    }
    ConnectedLift(E, F, a, b);
  }

  // ------------------------------------------------------- adding one edge

  /** A walk along `E + [(u, v)]` from `x` either avoids the new edge or passes it. */
  lemma {:induction false} WalkWithNewEdge(E: seq<Edge>, u: nat, v: nat, p: seq<nat>)
    requires |p| >= 1 && Walk(E + [(u, v)], p, p[0], p[|p| - 1])
    ensures var x, y := p[0], p[|p| - 1];
      Connected(E, x, y) ||
      (Connected(E, x, u) && Connected(E, v, y)) ||
      (Connected(E, x, v) && Connected(E, u, y))
    decreases |p|
  {
    var E' := E + [(u, v)];
    var x, y := p[0], p[|p| - 1];
    if |p| == 1 {
      ConnectedSelf(E, x);
    } else {
      var q := p[..|p| - 1];
      assert Walk(E', q, q[0], q[|q| - 1]) by {
        forall i | 0 <= i < |q| - 1
          ensures Adjacent(E', q[i], q[i + 1])
        {
          assert q[i] == p[i] && q[i + 1] == p[i + 1];
        }
      }
      WalkWithNewEdge(E, u, v, q);
      var z := p[|p| - 2];
      assert q[0] == x && q[|q| - 1] == z;
      assert Adjacent(E', z, y);
      var j :| 0 <= j < |E'| && Links(E'[j], z, y);
      if j < |E| {
        assert Links(E[j], z, y);
        // the last step is an old edge: extend whichever case held for `z`
        assert Connected(E, z, y) by {
          if E[j] == (z, y) {
            ConnectedByEdge(E, z, y);
          } else {
            ConnectedByEdge(E, y, z);
            ConnectedSymmetric(E, y, z);
          }
        }
        if Connected(E, x, z) {
          ConnectedTransitive(E, x, z, y);
        } else if Connected(E, x, u) && Connected(E, v, z) {
          ConnectedTransitive(E, v, z, y);
        } else {
          ConnectedTransitive(E, u, z, y);
        }
      } else {
        // the last step is the new edge
        assert Links((u, v), z, y);
        ConnectedSelf(E, y);
        if Connected(E, x, z) {
        } else if Connected(E, x, u) && Connected(E, v, z) {
          // `z == u` would connect `x` and `z` already
          assert z == v && y == u;
        } else {
          assert Connected(E, x, v) && Connected(E, u, z);
          assert z == u && y == v;
        }
      }
    }
  }

  /** Adding the edge `(u, v)` connects `x` and `y` exactly when they were connected
      already, or one of them reaches `u` and the other reaches `v`. */
  lemma ConnectedAfterAdding(E: seq<Edge>, u: nat, v: nat, x: nat, y: nat)
    ensures Connected(E + [(u, v)], x, y) <==>
      Connected(E, x, y) ||
      (Connected(E, x, u) && Connected(E, v, y)) ||
      (Connected(E, x, v) && Connected(E, u, y))
  {
    var E' := E + [(u, v)];
    if Connected(E', x, y) {
      var p :| Walk(E', p, x, y);
      WalkWithNewEdge(E, u, v, p);
    } else {
      forall j | 0 <= j < |E|
        ensures Adjacent(E', E[j].0, E[j].1)
      {
        assert E'[j] == E[j];
      }
      assert Adjacent(E', u, v) by {
        assert E'[|E|] == (u, v);
      }
      ConnectedByEdge(E', u, v);
      ConnectedSymmetric(E', u, v);
      if Connected(E, x, y) {
        ConnectedSubset(E, E', x, y);
      } else if Connected(E, x, u) && Connected(E, v, y) {
        ConnectedSubset(E, E', x, u);
        ConnectedSubset(E, E', v, y);
        ConnectedTransitive(E', x, u, v);
        ConnectedTransitive(E', x, v, y);
      } else if Connected(E, x, v) && Connected(E, u, y) {
        ConnectedSubset(E, E', x, v);
        ConnectedSubset(E, E', u, y);
        ConnectedTransitive(E', x, v, u);
        ConnectedTransitive(E', x, u, y);
      }
    }
  }

  /** Adding an edge keeps every connection and joins its own two ends. */
  lemma ConnectedGrows(E: seq<Edge>, u: nat, v: nat)
    ensures Connected(E + [(u, v)], u, v)
    ensures forall x, y :: Connected(E, x, y) ==> Connected(E + [(u, v)], x, y)
  {
    ConnectedSelf(E, u);
    ConnectedSelf(E, v);
    ConnectedAfterAdding(E, u, v, u, v);
    forall x, y | Connected(E, x, y)
      ensures Connected(E + [(u, v)], x, y)
    {
      ConnectedAfterAdding(E, u, v, x, y);
    }
  }

  /** An edge between two rooms not yet connected keeps a forest a forest. */
  lemma ForestExtend(E: seq<Edge>, u: nat, v: nat)
    requires Forest(E) && !Connected(E, u, v)
    ensures Forest(E + [(u, v)])
  {
    var E' := E + [(u, v)];
    forall i | 0 <= i < |E'|
      ensures !Connected(E'[..i], E'[i].0, E'[i].1)
    {
      if i < |E| {
        assert E'[..i] == E[..i] && E'[i] == E[i];
      } else {
        assert E'[..i] == E;
      }
    }
  }

  /** A forest never lists the same pair of rooms twice. */
  lemma ForestNoDuplicates(E: seq<Edge>)
    requires Forest(E)
    ensures NoDuplicatePairs(E)
  {
    forall s, t | 0 <= s < t < |E|
      ensures !Links(E[s], E[t].0, E[t].1)
    {
      if Links(E[s], E[t].0, E[t].1) {
        assert E[..t][s] == E[s];
        ConnectedByEdge(E[..t], E[t].0, E[t].1);
        assert false;
      }
    }
  }

  /** Some edge has room `r` as one of its ends. */
  predicate Touches(E: seq<Edge>, r: nat)
  {
    exists j :: 0 <= j < |E| && (E[j].0 == r || E[j].1 == r)
  }

  /** `E` and `F` connect the same pairs among the rooms `0 .. n-1`. */
  ghost predicate SameConnections(E: seq<Edge>, F: seq<Edge>, n: nat)
  {
    forall x: nat, y: nat :: x < n && y < n ==> (Connected(E, x, y) <==> Connected(F, x, y))
  }

  /** `F` opens with a forest that already connects what all of `F` connects. */
  ghost predicate OpensWithForest(F: seq<Edge>, n: nat)
  {
    exists m :: 0 <= m <= |F| && Forest(F[..m]) && SameConnections(F[..m], F, n)
  }

  /** No edge joins a room to itself. */
  predicate NoSelfPairs(E: seq<Edge>)
  {
    forall j :: 0 <= j < |E| ==> E[j].0 != E[j].1
  }

  /** A room connected to some other room is an end of some edge. */
  lemma ConnectedTouches(E: seq<Edge>, a: nat, b: nat)
    requires Connected(E, a, b) && a != b
    ensures Touches(E, a)
  {
    var p :| Walk(E, p, a, b);
    assert Adjacent(E, p[0], p[1]);
    var j :| 0 <= j < |E| && Links(E[j], p[0], p[1]);
  }

  /** An edge listed twice sits at two positions. */
  lemma {:induction false} TwoCopies(s: seq<Edge>, x: Edge)
    requires multiset(s)[x] >= 2
    ensures exists p, q :: 0 <= p < q < |s| && s[p] == x && s[q] == x
  {
    assert s != [];
    var init := s[..|s| - 1];
    assert s == init + [s[|s| - 1]];
    if s[|s| - 1] == x {
      assert x in multiset(init);
      var p :| 0 <= p < |init| && init[p] == x;
      assert s[p] == x && s[|s| - 1] == x;
    } else {
      TwoCopies(init, x);
      var p, q :| 0 <= p < q < |init| && init[p] == x && init[q] == x;
      assert s[p] == x && s[q] == x;
    }
  }

  /** A repeated pair in a reordering is a repeated pair of the original. */
  lemma RepeatPermuted(s: seq<Edge>, t: seq<Edge>, u: nat, v: nat)
    requires multiset(s) == multiset(t)
    requires u < v < |t| && Links(t[u], t[v].0, t[v].1)
    ensures !NoDuplicatePairs(s)
  {
    var x, y := t[v], t[u];
    if y == x {
      assert t == t[..v] + [x] + t[v + 1..];
      assert t[..v][u] == x;
      assert multiset(t)[x] >= 2;
      TwoCopies(s, x);
      var p, q :| 0 <= p < q < |s| && s[p] == x && s[q] == x;
      assert Links(s[p], s[q].0, s[q].1);
    } else {
      assert x in multiset(s) && y in multiset(s);
      var p :| 0 <= p < |s| && s[p] == y;
      var q :| 0 <= q < |s| && s[q] == x;
      if p < q {
        assert Links(s[p], s[q].0, s[q].1);
      } else {
        assert Links(s[q], s[p].0, s[p].1);
      }
    }
  }

  /** Reordering a list without repeated pairs repeats none. */
  lemma NoDuplicatesPermuted(s: seq<Edge>, t: seq<Edge>)
    requires multiset(s) == multiset(t) && NoDuplicatePairs(s)
    ensures NoDuplicatePairs(t)
  {
    forall u, v | 0 <= u < v < |t|
      ensures !Links(t[u], t[v].0, t[v].1)
    {
      if Links(t[u], t[v].0, t[v].1) {
        RepeatPermuted(s, t, u, v);
      }
    }
  }
}
