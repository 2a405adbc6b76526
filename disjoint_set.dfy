/**
 * Union-find over the vertex ids 0 .. n-1, as the Boruvka round of
 * kkt_test.cpp uses it (`dset.find_set`, `dset.link`).  The parent array is
 * explicit state owned by one object instead of process-wide globals.
 * `link` is the library's union by rank: the lower-ranked root is hung
 * under the other, the first under the second on a tie.  Ranks strictly
 * grow towards the root, which is also what proves that `Find` terminates.
 * Path compression is left out: it changes no representative.
 */
module DisjointSet {

  /** The ranking that makes parent chains finite: every non-root is
      strictly below its parent and every rank is below `bound`. */
  ghost predicate Ranked(parent: seq<nat>, rank: seq<nat>, bound: nat)
  {
    && |rank| == |parent|
    && (forall x :: 0 <= x < |parent| ==> parent[x] < |parent| && rank[x] < bound)
    && (forall x :: 0 <= x < |parent| && parent[x] != x ==> rank[x] < rank[parent[x]])
  }

  /** The representative of `x`: follow parent links up to a root. */
  function Root(parent: seq<nat>, ghost rank: seq<nat>, ghost bound: nat, x: nat): (r: nat)
    requires Ranked(parent, rank, bound) && x < |parent|
    ensures r < |parent| && parent[r] == r
    decreases bound - rank[x]
  {
    if parent[x] == x then x else Root(parent, rank, bound, parent[x])
  }

  /** Ranks after `x` is hung under `y`: `y` must outrank `x`. */
  function LinkedRank(rank: seq<nat>, x: nat, y: nat): seq<nat>
    requires x < |rank| && y < |rank|
  {
    rank[y := if rank[y] > rank[x] then rank[y] else rank[x] + 1]
  }

  lemma LinkKeepsRanked(parent: seq<nat>, rank: seq<nat>, bound: nat, x: nat, y: nat)
    requires Ranked(parent, rank, bound) && x < |parent| && y < |parent|
    requires parent[x] == x && parent[y] == y && x != y
    ensures Ranked(parent[x := y], LinkedRank(rank, x, y), bound + rank[x] + 1)
  {
  }

  /** Linking root `x` under root `y` moves exactly the members of `x`'s set
      to `y`; every other representative stays as it was. */
  lemma {:induction false} LinkRoot(parent: seq<nat>, rank: seq<nat>, bound: nat, x: nat, y: nat, z: nat)
    requires Ranked(parent, rank, bound) && x < |parent| && y < |parent| && z < |parent|
    requires parent[x] == x && parent[y] == y && x != y
    ensures Ranked(parent[x := y], LinkedRank(rank, x, y), bound + rank[x] + 1)
    ensures Root(parent[x := y], LinkedRank(rank, x, y), bound + rank[x] + 1, z)
              == (if Root(parent, rank, bound, z) == x then y else Root(parent, rank, bound, z))
    decreases bound - rank[z]
  {
    LinkKeepsRanked(parent, rank, bound, x, y);
    var p', r', b' := parent[x := y], LinkedRank(rank, x, y), bound + rank[x] + 1;
    if parent[z] == z {
      if z == x {
        assert Root(p', r', b', y) == y;
      }
    } else {
      LinkRoot(parent, rank, bound, x, y, parent[z]);
    }
  }

  /** The representatives `f` after the set represented by `x` is merged
      into the one represented by `y`. */
  function Relabel(f: seq<nat>, x: nat, y: nat): (r: seq<nat>)
    ensures |r| == |f|
    ensures forall z :: 0 <= z < |f| ==> r[z] == if f[z] == x then y else f[z]
  {
    seq(|f|, z requires 0 <= z < |f| => if f[z] == x then y else f[z])
  }

  /** The representative of every id, in id order. */
  ghost function Roots(parent: seq<nat>, rank: seq<nat>, bound: nat): (r: seq<nat>)
    requires Ranked(parent, rank, bound)
    ensures |r| == |parent| && forall z :: 0 <= z < |r| ==> r[z] == Root(parent, rank, bound, z)
  {
    seq(|parent|, z requires 0 <= z < |parent| => Root(parent, rank, bound, z))
  }

  /** Linking root `x` under root `y` relabels the representatives: every
      `x` becomes `y`. */
  lemma LinkRoots(parent: seq<nat>, rank: seq<nat>, bound: nat, x: nat, y: nat,
                  parent': seq<nat>, rank': seq<nat>, bound': nat)
    requires Ranked(parent, rank, bound) && x < |parent| && y < |parent|
    requires parent[x] == x && parent[y] == y && x != y
    requires parent' == parent[x := y] && rank' == LinkedRank(rank, x, y) && bound' == bound + rank[x] + 1
    ensures Ranked(parent', rank', bound')
    ensures Roots(parent', rank', bound') == Relabel(Roots(parent, rank, bound), x, y)
  {
    LinkKeepsRanked(parent, rank, bound, x, y);
    forall z | 0 <= z < |parent|
      ensures Root(parent', rank', bound', z)
              == if Root(parent, rank, bound, z) == x then y else Root(parent, rank, bound, z)
    {
      LinkRoot(parent, rank, bound, x, y, z);
    }
  }

  /** Partition `b` is coarser than partition `a` (both given by a
      representative per id): ids together in `a` are together in `b`. */
  ghost predicate Coarser(a: seq<nat>, b: seq<nat>)
  {
    |a| == |b| && forall x, y :: 0 <= x < |a| && 0 <= y < |a| && a[x] == a[y] ==> b[x] == b[y]
  }

  lemma CoarserTrans(a: seq<nat>, b: seq<nat>, c: seq<nat>)
    requires Coarser(a, b) && Coarser(b, c)
    ensures Coarser(a, c)
  {
  }

  lemma RelabelCoarser(f: seq<nat>, x: nat, y: nat)
    ensures Coarser(f, Relabel(f, x, y))
  {
  }

  /** The root `link` hangs under the other: the lower-ranked one, or the
      first on a tie. */
  function Hung(rank: seq<nat>, i: nat, j: nat): (h: nat)
    requires i < |rank| && j < |rank|
    ensures h == i || h == j
    ensures h == i <==> rank[i] <= rank[j] || i == j
    ensures rank[h] <= rank[Kept(rank, i, j)]
  {
    if rank[i] > rank[j] then j else i
  }

  /** The root that stays a root: the higher-ranked one, or the second on a
      tie. */
  function Kept(rank: seq<nat>, i: nat, j: nat): (k: nat)
    requires i < |rank| && j < |rank|
    ensures k == i || k == j
    ensures k == j <==> rank[i] <= rank[j] || i == j
  {
    if rank[i] > rank[j] then i else j
  }

  /** Union by rank picks one of the two roots to hang and keeps the other;
      the new rank of the kept root exceeds that of the hung one, and only
      grows, by one, when the two ranks tie. */
  lemma UnionByRank(rank: seq<nat>, i: nat, j: nat)
    requires i < |rank| && j < |rank| && i != j
    ensures {Hung(rank, i, j), Kept(rank, i, j)} == {i, j}
    ensures var h, k := Hung(rank, i, j), Kept(rank, i, j);
      && LinkedRank(rank, h, k)[h] < LinkedRank(rank, h, k)[k]
      && (forall z :: 0 <= z < |rank| && z != k ==> LinkedRank(rank, h, k)[z] == rank[z])
      && LinkedRank(rank, h, k)[k] == if rank[i] == rank[j] then rank[k] + 1 else rank[k]
  {
  }

  class DisjointSets {
    const parent: array<nat>
    const rank: array<nat>
    ghost var bound: nat

    /** The parent and rank arrays are distinct, and every non-root is
        strictly outranked by its parent. */
    ghost predicate Valid()
      reads this, parent, rank
    {
      parent != rank && Ranked(parent[..], rank[..], bound)
    }

    /** `make_set` for every id: each id is its own singleton set, of rank 0. */
    constructor (n: nat)
      ensures Valid() && fresh(parent) && fresh(rank)
      ensures parent.Length == n
      ensures forall x :: 0 <= x < n ==> parent[x] == x && rank[x] == 0
    {
      var p := new nat[n];
      var i := 0;
      while i < n
        invariant 0 <= i <= n
        invariant forall x :: 0 <= x < i ==> p[x] == x
      {
        p[i] := i;
        i := i + 1;
      }
      parent := p;
      rank := new nat[n](_ => 0);
      bound := 1;
    }

    /** `find_set`: the representative of `x`'s set, which is its own parent. */
    function Find(x: nat): (r: nat)
      reads this, parent, rank
      requires Valid() && x < parent.Length
      ensures r < parent.Length && parent[r] == r
    {
      Root(parent[..], rank[..], bound, x)
    }

    /** The representative of every id, in id order. */
    ghost function Reps(): (r: seq<nat>)
      reads this, parent, rank
      requires Valid()
      ensures |r| == parent.Length
      ensures forall z :: 0 <= z < |r| ==> r[z] == Find(z)
    {
      Roots(parent[..], rank[..], bound)
    }

    /** `link(x, y)` with union by rank: find both roots; if they differ,
        hang the lower-ranked one under the other (the first under the
        second on a tie).  Every member of the hung root's set is then
        represented by the kept root; no other representative changes, and
        the hung root is the only id whose parent changes. */
    method Link(x: nat, y: nat)
      requires Valid() && x < parent.Length && y < parent.Length
      modifies this, parent, rank
      ensures Valid()
      ensures old(Find(x)) == old(Find(y)) ==>
                parent[..] == old(parent[..]) && rank[..] == old(rank[..]) && Reps() == old(Reps())
      ensures var i, j := old(Find(x)), old(Find(y));
        i != j ==>
          var h, k := Hung(old(rank[..]), i, j), Kept(old(rank[..]), i, j);
          && parent[..] == old(parent[..])[h := k]
          && rank[..] == LinkedRank(old(rank[..]), h, k)
          && Reps() == Relabel(old(Reps()), h, k)
    {
      var i := Find(x);
      var j := Find(y);
      if i == j {
        return;
      }
      if rank[i] > rank[j] {
        HangUnder(j, i);
      } else {
        HangUnder(i, j);
      }
    }

    /** The reparenting step of `link` for two distinct roots, `h` ranked
        no higher than `k`: `h` is hung under `k`, and `k`'s rank goes up by
        one when the two ranks tie. */
    method HangUnder(h: nat, k: nat)
      requires Valid() && h < parent.Length && k < parent.Length
      requires parent[h] == h && parent[k] == k && h != k && rank[h] <= rank[k]
      modifies this, parent, rank
      ensures Valid()
      ensures parent[..] == old(parent[..])[h := k]
      ensures rank[..] == LinkedRank(old(rank[..]), h, k)
      ensures forall z :: 0 <= z < parent.Length ==>
                Find(z) == if old(Find(z)) == h then k else old(Find(z))
      ensures Reps() == Relabel(old(Reps()), h, k)
    {
      ghost var p0, r0, b0 := parent[..], rank[..], bound;
      parent[h] := k;
      if rank[h] == rank[k] {
        rank[k] := rank[k] + 1;
      }
      bound := b0 + r0[h] + 1;
      assert parent[..] == p0[h := k];
      assert rank[..] == LinkedRank(r0, h, k);
      LinkRoots(p0, r0, b0, h, k, parent[..], rank[..], bound);
      ghost var f0, f1 := Roots(p0, r0, b0), Roots(parent[..], rank[..], bound);
      forall z | 0 <= z < parent.Length
        ensures Find(z) == if f0[z] == h then k else f0[z]
      {
        assert Find(z) == f1[z];
      }
    }
  }
}
