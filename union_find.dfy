/** The `parent` dictionary both connection generators run Kruskal's algorithm
    with, and its two local functions `Find` (with path compression) and `Union`.
    Rooms are the indices `0 .. n-1`, so the dictionary keyed by room is a
    sequence indexed by room. */
module UnionFind {

  /** Every parent is a room, and `rank` drops along every link to a parent,
      so following parents always ends at a room that is its own parent. */
  predicate Ranked(p: seq<nat>, rank: seq<nat>)
  {
    |p| == |rank| &&
    forall x :: 0 <= x < |p| ==> p[x] < |p| && (p[x] != x ==> rank[p[x]] < rank[x])
  }

  /** The rooms that are their own parent: one per set. */
  function RootSet(p: seq<nat>): set<nat>
  {
    set x | 0 <= x < |p| && p[x] == x
  }

  /** The room the chain of parents from `x` ends at. */
  function Root(p: seq<nat>, rank: seq<nat>, x: nat): nat
    requires Ranked(p, rank) && x < |p|
    decreases rank[x]
  {
    if p[x] == x then x else Root(p, rank, p[x])
  }

  /** A root is its own parent, and lies strictly lower than any other room of its set. */
  lemma {:induction false} RootIsTop(p: seq<nat>, rank: seq<nat>, x: nat)
    requires Ranked(p, rank) && x < |p|
    ensures Root(p, rank, x) < |p| && p[Root(p, rank, x)] == Root(p, rank, x)
    ensures Root(p, rank, x) == x || rank[Root(p, rank, x)] < rank[x]
    ensures Root(p, rank, x) == x <==> p[x] == x
    decreases rank[x]
  {
    if p[x] != x {
      RootIsTop(p, rank, p[x]);
    }
  }

  /** Pointing `x` straight at its own root changes no room's root. */
  lemma {:induction false} CompressKeepsRoots(p: seq<nat>, rank: seq<nat>, x: nat, r: nat, y: nat)
    requires Ranked(p, rank) && x < |p| && y < |p|
    requires r == Root(p, rank, x) && r < |p| && p[r] == r
    requires Ranked(p[x := r], rank)
    ensures Root(p[x := r], rank, y) == Root(p, rank, y)
    decreases rank[y]
  {
    if y != x && p[y] != y {
      CompressKeepsRoots(p, rank, x, r, p[y]);
    }
  }

  /** The ranks after linking root `ra` below root `rb`: the set of `ra` moves up
      above `rb`, so ranks still drop along every link. */
  function Lifted(p: seq<nat>, rank: seq<nat>, ra: nat, rb: nat): (rank': seq<nat>)
    requires Ranked(p, rank) && rb < |p|
    ensures |rank'| == |rank|
  {
    seq(|rank|, y requires 0 <= y < |rank| =>
      if Root(p, rank, y) == ra then rank[y] + rank[rb] + 1 else rank[y])
  }

  lemma LinkRanked(p: seq<nat>, rank: seq<nat>, ra: nat, rb: nat)
    requires Ranked(p, rank) && ra < |p| && rb < |p|
    requires p[ra] == ra && p[rb] == rb && ra != rb
    ensures Ranked(p[ra := rb], Lifted(p, rank, ra, rb))
  {
    var p', rank' := p[ra := rb], Lifted(p, rank, ra, rb);
    forall z | 0 <= z < |p'|
      ensures p'[z] < |p'| && (p'[z] != z ==> rank'[p'[z]] < rank'[z])
    {
      if z != ra && p[z] != z {
        assert Root(p, rank, z) == Root(p, rank, p[z]);
      }
    }
  }

  /** Linking root `ra` below root `rb` moves exactly the rooms of `ra`'s set to `rb`. */
  lemma {:induction false} LinkMovesOneSet(p: seq<nat>, rank: seq<nat>, ra: nat, rb: nat, y: nat)
    requires Ranked(p, rank) && ra < |p| && rb < |p| && y < |p|
    requires p[ra] == ra && p[rb] == rb && ra != rb
    requires Ranked(p[ra := rb], Lifted(p, rank, ra, rb))
    ensures Root(p[ra := rb], Lifted(p, rank, ra, rb), y) ==
      if Root(p, rank, y) == ra then rb else Root(p, rank, y)
    decreases rank[y]
  {
    if y != ra && p[y] != y {
      LinkMovesOneSet(p, rank, ra, rb, p[y]);
    }
  }

  class DisjointSets {
    /** `parent[x]` is the room `x` points to; a room pointing at itself is a root. */
    var parent: seq<nat>
    /** A measure that drops along every parent link, so every chain ends. */
    ghost var rank: seq<nat>

    ghost predicate Valid()
      reads this
    {
      Ranked(parent, rank)
    }

    /** The root of `x`'s set. */
    ghost function RootOf(x: nat): nat
      reads this
      requires Valid() && x < |parent|
    {
      Root(parent, rank, x)
    }

    /** The roots: one per set. */
    ghost function Roots(): set<nat>
      reads this
    {
      RootSet(parent)
    }

    /** `parent[room] = room` for every room: each room starts in a set of its own. */
    constructor (n: nat)
      ensures Valid() && |parent| == n
      ensures forall x :: 0 <= x < n ==> parent[x] == x
    {
      var p: seq<nat> := [];
      for i := 0 to n
        invariant |p| == i && forall x :: 0 <= x < i ==> p[x] == x
      {
        p := p + [i];
      }
      parent := p;
      rank := seq(n, _ => 0);
    }

    /** `Find`: the root of `x`'s set. On the way back it points every room of the
        chain straight at the root, which changes no room's root. */
    method Find(x: nat) returns (r: nat)
      requires Valid() && x < |parent|
      modifies this
      ensures Valid() && rank == old(rank) && |parent| == old(|parent|)
      ensures r == old(RootOf(x)) && r < |parent| && parent[r] == r && parent[x] == r
      ensures forall y :: 0 <= y < |parent| ==> RootOf(y) == old(RootOf(y))
      ensures Roots() == old(Roots())
      decreases rank[x]
    {
      if parent[x] != x {
        ghost var p0 := parent;
        var top := Find(parent[x]);
        ghost var p := parent;
        assert Root(p0, rank, x) == Root(p0, rank, p0[x]);
        assert RootOf(x) == Root(p0, rank, x);
        assert top == Root(p, rank, x);
        RootIsTop(p, rank, x);
        forall y | 0 <= y < |p|
          ensures Root(p[x := top], rank, y) == Root(p, rank, y)
        {
          CompressKeepsRoots(p, rank, x, top, y);
        }
        parent := parent[x := top];
      }
      RootIsTop(parent, rank, x);
      r := parent[x];
    }

    /** `Union`: `parent[Find(a)] = Find(b)`. The set of `a` joins the set of `b`;
        every other set stays as it was, and when the two sets differ one root fewer remains. */
    method Union(a: nat, b: nat)
      requires Valid() && a < |parent| && b < |parent|
      modifies this
      ensures Valid() && |parent| == old(|parent|)
      ensures forall y :: 0 <= y < |parent| ==>
        RootOf(y) == if old(RootOf(y)) == old(RootOf(a)) then old(RootOf(b)) else old(RootOf(y))
      ensures old(RootOf(a)) != old(RootOf(b)) ==> Roots() == old(Roots()) - {old(RootOf(a))}
      ensures old(RootOf(a)) == old(RootOf(b)) ==> Roots() == old(Roots())
    {
      var ra := Find(a);
      assert ra in Roots();
      var rb := Find(b);
      assert ra in Roots();
      if ra != rb {
        ghost var p := parent;
        ghost var rank' := Lifted(p, rank, ra, rb);
        LinkRanked(p, rank, ra, rb);
        forall y | 0 <= y < |p|
          ensures Root(p[ra := rb], rank', y) == if Root(p, rank, y) == ra then rb else Root(p, rank, y)
        {
          LinkMovesOneSet(p, rank, ra, rb, y);
        }
        parent := parent[ra := rb];
        rank := rank';
      } else {
        assert parent[ra := rb] == parent;
        parent := parent[ra := rb];
      }
    }
  }
}
