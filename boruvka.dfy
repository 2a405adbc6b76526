/**
 * One Boruvka contraction round (`boruvkaCut` in kkt_test.cpp).
 *
 * The graph is a sequence of weighted edges.  The process-wide state of the
 * source (the union-find `dset`, `supervertex_map` from a representative to
 * its slot, and the `supervertices` list) is held by one `Contractor`
 * object.  A round scans every edge for each slot's lightest crossing edge,
 * links the two components of every slot that found one, overwrites the
 * slot of each absorbed representative with the null vertex and finally
 * erases the null entries.
 */
module Boruvka {
  import opened DisjointSet

  /** `std::numeric_limits<int>::max()`, the weight of an empty slot. */
  const Infinity: int := 0x7fff_ffff

  /** Edge weights are C++ `int`s. */
  type Weight = w: int | -0x8000_0000 <= w <= 0x7fff_ffff

  /** `null_vertex()` of the graph type: not a vertex id. */
  const NullVertex: int := -1

  datatype Edge = Edge(u: nat, v: nat, w: Weight)

  /** `w_edge`: an edge (its index in the edge sequence, -1 for a
      default-constructed edge descriptor) paired with a weight. */
  datatype WEdge = WEdge(edge: int, weight: Weight)

  /** The contracted graph a round returns: its vertex count and edges. */
  datatype Graph = Graph(vertexCount: nat, edges: seq<Edge>)

  /** The lighter of two weighted edges; on a tie, the second. */
  function FindMinWeightEdge(edge1: WEdge, edge2: WEdge): (r: WEdge)
    ensures r == edge1 || r == edge2
    ensures r.weight <= edge1.weight && r.weight <= edge2.weight
    ensures edge1.weight == edge2.weight ==> r == edge2
  {
    if edge1.weight < edge2.weight then edge1 else edge2
  }

  /** `std::remove` of the null vertex: the entries that are not null, in
      their original order. */
  function RemoveNull(s: seq<int>): (r: seq<int>)
    ensures NullVertex !in r
  {
    if s == [] then []
    else RemoveNull(s[..|s| - 1]) + (if s[|s| - 1] == NullVertex then [] else [s[|s| - 1]])
  }

  /** One step of the two-finger pass of `std::remove`: entry r of the
      original list is copied down to position w when it is not null. */
  lemma CompactStep(sv: seq<int>, s0: seq<int>, w: nat, r: nat)
    requires |sv| == |s0| && w <= r < |s0|
    requires sv[..w] == RemoveNull(s0[..r]) && sv[r..] == s0[r..]
    ensures sv[r] == s0[r]
    ensures s0[r] != NullVertex ==> sv[w := s0[r]][..w + 1] == RemoveNull(s0[..r + 1]) && sv[w := s0[r]][r + 1..] == s0[r + 1..]
    ensures s0[r] == NullVertex ==> sv[..w] == RemoveNull(s0[..r + 1]) && sv[r + 1..] == s0[r + 1..]
  {
    assert sv[r] == sv[r..][0];
    assert s0[..r + 1][..r] == s0[..r];
    if s0[r] != NullVertex {
      var sv' := sv[w := s0[r]];
      assert sv'[..w + 1] == sv[..w] + [s0[r]];
      assert sv'[r + 1..] == sv[r + 1..];
    }
    assert sv[r + 1..] == sv[r..][1..];
  }

  /** Removing null entries commutes with concatenation: the survivors keep
      their relative order. */
  lemma {:induction false} RemoveNullAppend(a: seq<int>, b: seq<int>)
    ensures RemoveNull(a + b) == RemoveNull(a) + RemoveNull(b)
    decreases |b|
  {
    if b == [] {
      assert a + b == a;
    } else {
      var b' := b[..|b| - 1];
      assert (a + b)[..|a + b| - 1] == a + b';
      RemoveNullAppend(a, b');
    }
  }

  /** Every entry other than the null vertex survives as often as it
      occurred, and the length drops by the number of null entries. */
  lemma {:induction false} RemoveNullCounts(s: seq<int>)
    ensures forall x :: x != NullVertex ==> multiset(RemoveNull(s))[x] == multiset(s)[x]
    ensures |RemoveNull(s)| == |s| - multiset(s)[NullVertex]
  {
    if s != [] {
      var s' := s[..|s| - 1];
      RemoveNullCounts(s');
      assert s == s' + [s[|s| - 1]];
    }
  }

  /** `s` with every position in `slots` overwritten by the null vertex. */
  function Mark(s: seq<int>, slots: set<nat>): (r: seq<int>)
    ensures |r| == |s|
    ensures forall i :: 0 <= i < |s| ==> r[i] == if i in slots then NullVertex else s[i]
  {
    seq(|s|, i requires 0 <= i < |s| => if i in slots then NullVertex else s[i])
  }

  /** Every vertex below `n` is its own slot. */
  function IdentityMap(n: nat): (m: map<nat, nat>)
    ensures forall x: nat :: x in m <==> x < n
    ensures forall x :: x in m ==> m[x] == x
  {
    if n == 0 then map[] else IdentityMap(n - 1)[n - 1 := n - 1]
  }

  ghost predicate EdgesIn(graph: seq<Edge>, n: nat)
  {
    forall j :: 0 <= j < |graph| ==> graph[j].u < n && graph[j].v < n
  }

  /** `c` is what a slot holds after the first `k` edges are scanned, where
      `offered` holds the indices of the edges joining that slot to another:
      the last of its lightest offered edges, or the empty candidate of weight
      infinity when none was offered. */
  ghost predicate IsMin(graph: seq<Edge>, offered: set<int>, k: nat, c: WEdge)
    requires k <= |graph|
  {
    && (c.edge == -1 <==> forall j :: 0 <= j < k ==> j !in offered)
    && (c.edge == -1 ==> c.weight == Infinity)
    && (c.edge != -1 ==> 0 <= c.edge < k && c.edge in offered && c.weight == graph[c.edge].w)
    && (forall j :: 0 <= j < k && j in offered ==> c.weight <= graph[j].w)
    && (forall j :: c.edge < j < k && j in offered ==> c.weight < graph[j].w)
  }

  /** Scanning edge `j` keeps a slot's candidate minimal: the slot takes the
      lighter of its candidate and the edge when the edge is offered to it. */
  lemma ScanStep(graph: seq<Edge>, offered: set<int>, j: nat, c: WEdge)
    requires j < |graph| && IsMin(graph, offered, j, c)
    ensures IsMin(graph, offered, j + 1,
              if j in offered then FindMinWeightEdge(c, WEdge(j, graph[j].w)) else c)
  {
    if j in offered && c.weight < graph[j].w {
      assert c.edge != -1;
    }
  }

  /** The first `k` finite candidates join ends that partition `f` puts in
      one set. */
  ghost predicate CandidatesJoined(graph: seq<Edge>, cand: seq<WEdge>, k: nat, f: seq<nat>)
  {
    forall i :: 0 <= i < k && i < |cand| && cand[i].weight != Infinity ==>
      0 <= cand[i].edge < |graph| && graph[cand[i].edge].u < |f| && graph[cand[i].edge].v < |f|
      && f[graph[cand[i].edge].u] == f[graph[cand[i].edge].v]
  }

  /** A finite-weight candidate names an edge of the graph. */
  lemma CandidateEdges(graph: seq<Edge>, offs: seq<set<int>>, cand: seq<WEdge>)
    requires |offs| == |cand| && forall i :: 0 <= i < |cand| ==> IsMin(graph, offs[i], |graph|, cand[i])
    ensures forall i :: 0 <= i < |cand| && cand[i].weight != Infinity ==> 0 <= cand[i].edge < |graph|
  {
  }

  /** Once every candidate's ends are joined, every slot offered a
      finite-weight edge has one of its offered edges joined. */
  lemma CandidatesJoin(graph: seq<Edge>, offs: seq<set<int>>, cand: seq<WEdge>, f: seq<nat>)
    requires |offs| == |cand| && forall i :: 0 <= i < |cand| ==> IsMin(graph, offs[i], |graph|, cand[i])
    requires forall i, j :: 0 <= i < |offs| && j in offs[i] ==> 0 <= j < |graph|
    requires forall j :: 0 <= j < |graph| ==> graph[j].u < |f| && graph[j].v < |f|
    requires CandidatesJoined(graph, cand, |cand|, f)
    ensures forall i :: 0 <= i < |cand| ==>
              (exists j :: j in offs[i] && graph[j].w != Infinity) ==>
              exists j :: j in offs[i] && f[graph[j].u] == f[graph[j].v]
  {
    forall i | 0 <= i < |cand| && exists j :: j in offs[i] && graph[j].w != Infinity
      ensures exists j :: j in offs[i] && f[graph[j].u] == f[graph[j].v]
    {
      var j :| j in offs[i] && graph[j].w != Infinity;
      assert cand[i].weight <= graph[j].w;
      assert cand[i].edge in offs[i];
    }
  }

  lemma JoinedCoarser(graph: seq<Edge>, cand: seq<WEdge>, k: nat, a: seq<nat>, b: seq<nat>)
    requires CandidatesJoined(graph, cand, k, a) && Coarser(a, b)
    ensures CandidatesJoined(graph, cand, k, b)
  {
  }

  lemma JoinedStep(graph: seq<Edge>, cand: seq<WEdge>, k: nat, f: seq<nat>)
    requires CandidatesJoined(graph, cand, k, f) && k < |cand|
    requires cand[k].weight != Infinity ==>
      0 <= cand[k].edge < |graph| && graph[cand[k].edge].u < |f| && graph[cand[k].edge].v < |f|
      && f[graph[cand[k].edge].u] == f[graph[cand[k].edge].v]
    ensures CandidatesJoined(graph, cand, k + 1, f)
  {
  }

  /** The slots (under `m`) of the ids that were roots in `before` and are
      not roots in `now`: the components absorbed between the two. */
  ghost function AbsorbedSlots(before: seq<nat>, now: seq<nat>, m: map<nat, nat>): set<nat>
  {
    set r | 0 <= r < |before| && r < |now| && before[r] == r && now[r] != r && r in m :: m[r]
  }

  lemma AbsorbedStep(before: seq<nat>, now: seq<nat>, m: map<nat, nat>, u: nat, v: nat)
    requires |before| == |now| && u < |now| && v < |now| && u != v
    requires before[u] == u && now[u] == u && u in m
    ensures AbsorbedSlots(before, now[u := v], m) == AbsorbedSlots(before, now, m) + {m[u]}
  {
    var now' := now[u := v];
    forall k | k in AbsorbedSlots(before, now', m)
      ensures k in AbsorbedSlots(before, now, m) + {m[u]}
    {
      var r :| 0 <= r < |before| && r < |now'| && before[r] == r && now'[r] != r && r in m && m[r] == k;
      if r != u {
        assert now[r] != r;
      }
    }
    assert m[u] in AbsorbedSlots(before, now', m) by {
      assert before[u] == u && now'[u] != u;
    }
    forall k | k in AbsorbedSlots(before, now, m)
      ensures k in AbsorbedSlots(before, now', m)
    {
      var r :| 0 <= r < |before| && r < |now| && before[r] == r && now[r] != r && r in m && m[r] == k;
      assert now'[r] != r;
    }
  }

  lemma MarkStep(s: seq<int>, slots: set<nat>, k: nat)
    requires k < |s|
    ensures Mark(s, slots)[k := NullVertex] == Mark(s, slots + {k})
  {
  }

  /** What the union loop keeps relative to the parent array `p0` and the
      supervertex list `s0` it started from: only roots were re-parented,
      each under a root, and exactly the slots of the absorbed roots are
      null. */
  ghost predicate RoundInvariant(p0: seq<nat>, p: seq<nat>, s0: seq<int>, sv: seq<int>, m: map<nat, nat>)
  {
    && |p0| == |p|
    && |sv| == |s0|
    && (forall r :: 0 <= r < |p0| && p0[r] != r ==> p[r] == p0[r])
    && (forall r :: 0 <= r < |p0| && p[r] != p0[r] ==>
          p0[r] == r && p[r] < |p0| && p0[p[r]] == p[r])
    && sv == Mark(s0, AbsorbedSlots(p0, p, m))
  }

  /** Re-parenting root `u` under root `v` keeps the round invariant once
      `u`'s slot is nulled. */
  lemma RoundStep(p0: seq<nat>, p: seq<nat>, s0: seq<int>, sv: seq<int>, m: map<nat, nat>, u: nat, v: nat)
    requires RoundInvariant(p0, p, s0, sv, m)
    requires u < |p| && v < |p| && u != v && p[u] == u && p[v] == v
    requires u in m && m[u] < |sv|
    ensures RoundInvariant(p0, p[u := v], s0, sv[m[u] := NullVertex], m)
  {
    AbsorbedStep(p0, p, m, u, v);
    MarkStep(s0, AbsorbedSlots(p0, p, m), m[u]);
  }

  /** Every root of `parent` has a slot below `n` in `m`. */
  ghost predicate Slotted(parent: seq<nat>, m: map<nat, nat>, n: nat)
  {
    forall r :: 0 <= r < |parent| && parent[r] == r ==> r in m && m[r] < n
  }

  /** Hanging a root under another only removes a root. */
  lemma SlottedHang(parent: seq<nat>, m: map<nat, nat>, n: nat, h: nat, k: nat)
    requires Slotted(parent, m, n) && h < |parent| && k < |parent| && parent[k] == k && h != k
    ensures Slotted(parent[h := k], m, n)
  {
  }

  class Contractor {
    const dset: DisjointSets
    var supervertexMap: map<nat, nat>
    var supervertices: seq<int>

    /** Every current representative has a slot in `supervertices`. */
    ghost predicate Valid()
      reads this, dset, dset.parent, dset.rank
    {
      dset.Valid() && Slotted(dset.parent[..], supervertexMap, |supervertices|)
    }

    /** The start of a solve over `n` vertices: every vertex is its own
        component, its own slot, and listed as a supervertex. */
    constructor (n: nat)
      ensures Valid() && fresh(dset) && fresh(dset.parent) && fresh(dset.rank)
      ensures dset.parent.Length == n
      ensures forall x :: 0 <= x < n ==> dset.parent[x] == x && dset.rank[x] == 0
      ensures supervertexMap == IdentityMap(n)
      ensures |supervertices| == n && forall x :: 0 <= x < n ==> supervertices[x] == x
    {
      var d := new DisjointSets(n);
      var m := IdentityMap(n);
      var sv := seq(n, x => x);
      assert forall r :: 0 <= r < n ==> r in m && m[r] < |sv|;
      dset, supervertexMap, supervertices := d, m, sv;
    }

    /** `supervertex_map[dset.find_set(x)]`: the slot of x's component. */
    function Slot(x: nat): (s: nat)
      reads this, dset, dset.parent, dset.rank
      requires Valid() && x < dset.parent.Length
      ensures s < |supervertices|
    {
      supervertexMap[dset.Find(x)]
    }

    /** Edge `j` is offered to slot `i`: its endpoints lie in different
        slots and one of them is `i`. */
    ghost predicate Offered(graph: seq<Edge>, j: int, i: nat)
      reads this, dset, dset.parent, dset.rank
      requires Valid() && EdgesIn(graph, dset.parent.Length)
    {
      && 0 <= j < |graph|
      && Slot(graph[j].u) != Slot(graph[j].v)
      && (Slot(graph[j].u) == i || Slot(graph[j].v) == i)
    }

    /** The indices of the edges offered to slot `i`. */
    ghost function OfferedTo(graph: seq<Edge>, i: nat): set<int>
      reads this, dset, dset.parent, dset.rank
      requires Valid() && EdgesIn(graph, dset.parent.Length)
    {
      set j | 0 <= j < |graph| && Offered(graph, j, i)
    }

    /** The offered sets of all slots. */
    ghost function Offers(graph: seq<Edge>): (r: seq<set<int>>)
      reads this, dset, dset.parent, dset.rank
      requires Valid() && EdgesIn(graph, dset.parent.Length)
      ensures |r| == |supervertices| && forall i :: 0 <= i < |r| ==> r[i] == OfferedTo(graph, i)
      ensures forall i, j :: 0 <= i < |r| && j in r[i] ==> 0 <= j < |graph|
    {
      seq(|supervertices|, i requires 0 <= i reads this, dset, dset.parent, dset.rank
                           requires Valid() && EdgesIn(graph, dset.parent.Length) => OfferedTo(graph, i))
    }

    /** The candidate scan: for every slot, the lightest edge joining it to
        another slot. */
    method ScanCandidates(graph: seq<Edge>) returns (cand: seq<WEdge>)
      requires Valid() && EdgesIn(graph, dset.parent.Length)
      ensures |cand| == |supervertices|
      ensures forall i :: 0 <= i < |cand| ==> IsMin(graph, OfferedTo(graph, i), |graph|, cand[i])
    {
      cand := seq(|supervertices|, _ => WEdge(-1, Infinity));
      var j := 0;
      while j < |graph|
        invariant 0 <= j <= |graph|
        invariant |cand| == |supervertices|
        invariant forall i :: 0 <= i < |cand| ==> IsMin(graph, OfferedTo(graph, i), j, cand[i])
      {
        var e := graph[j];
        var u := supervertexMap[dset.Find(e.u)];
        var v := supervertexMap[dset.Find(e.v)];
        ghost var before := cand;
        if u != v {
          cand := cand[u := FindMinWeightEdge(cand[u], WEdge(j, e.w))];
          cand := cand[v := FindMinWeightEdge(cand[v], WEdge(j, e.w))];
        }
        forall i | 0 <= i < |cand|
          ensures IsMin(graph, OfferedTo(graph, i), j + 1, cand[i])
        {
          assert u == Slot(e.u) && v == Slot(e.v);
          assert j in OfferedTo(graph, i) <==> u != v && (i == u || i == v);
          ScanStep(graph, OfferedTo(graph, i), j, before[i]);
        }
        j := j + 1;
      }
    }

    /** One union: link two distinct current roots and null out the slot of
        the one that the link hung under the other.  Which one that is
        depends on the ranks, so the victim is found by asking whether `u`
        is still its own representative. */
    method Merge(u: nat, v: nat, ghost p0: seq<nat>, ghost s0: seq<int>)
      requires Valid() && u < dset.parent.Length && v < dset.parent.Length
      requires dset.parent[u] == u && dset.parent[v] == v && u != v
      requires RoundInvariant(p0, dset.parent[..], s0, supervertices, supervertexMap)
      modifies this, dset, dset.parent, dset.rank
      ensures Valid() && RoundInvariant(p0, dset.parent[..], s0, supervertices, supervertexMap)
      ensures supervertexMap == old(supervertexMap)
      ensures var h, k := Hung(old(dset.rank[..]), u, v), Kept(old(dset.rank[..]), u, v);
        && dset.parent[..] == old(dset.parent[..])[h := k]
        && dset.Reps() == Relabel(old(dset.Reps()), h, k)
        && supervertices == old(supervertices)[supervertexMap[h] := NullVertex]
    {
      ghost var h: nat, k: nat := Hung(dset.rank[..], u, v), Kept(dset.rank[..], u, v);
      ghost var p1 := dset.parent[..];
      RoundStep(p0, p1, s0, supervertices, supervertexMap, h, k);
      SlottedHang(p1, supervertexMap, |supervertices|, h, k);
      dset.Link(u, v);
      // Whichever root was reparented leaves the supervertex list.
      var victim := u;
      if dset.Find(u) == u {
        victim := v;
      }
      assert victim == h;
      supervertices := supervertices[supervertexMap[victim] := NullVertex];
    }

    /** The body of the union loop for one candidate edge `e`: if its ends
        are in different components, merge them. */
    method UnionAlong(e: Edge, ghost p0: seq<nat>, ghost s0: seq<int>)
      requires Valid() && e.u < dset.parent.Length && e.v < dset.parent.Length
      requires RoundInvariant(p0, dset.parent[..], s0, supervertices, supervertexMap)
      modifies this, dset, dset.parent, dset.rank
      ensures Valid() && RoundInvariant(p0, dset.parent[..], s0, supervertices, supervertexMap)
      ensures supervertexMap == old(supervertexMap)
      ensures dset.Reps()[e.u] == dset.Reps()[e.v]
      ensures Coarser(old(dset.Reps()), dset.Reps())
    {
      var u := dset.Find(e.u);
      var v := dset.Find(e.v);
      if u != v {
        ghost var h, k := Hung(dset.rank[..], u, v), Kept(dset.rank[..], u, v);
        Merge(u, v, p0, s0);
        RelabelCoarser(old(dset.Reps()), h, k);
      }
    }

    /** The union loop: link the two current components of every finite
        candidate and null out the slot of the absorbed one. */
    method LinkCandidates(graph: seq<Edge>, cand: seq<WEdge>)
      requires Valid() && EdgesIn(graph, dset.parent.Length)
      requires |cand| == |supervertices|
      requires forall i :: 0 <= i < |cand| && cand[i].weight != Infinity ==> 0 <= cand[i].edge < |graph|
      modifies this, dset, dset.parent, dset.rank
      ensures Valid()
      ensures supervertexMap == old(supervertexMap)
      ensures CandidatesJoined(graph, cand, |cand|, dset.Reps())
      ensures Coarser(old(dset.Reps()), dset.Reps())
      ensures RoundInvariant(old(dset.parent[..]), dset.parent[..], old(supervertices), supervertices, supervertexMap)
    {
      ghost var p0 := dset.parent[..];
      ghost var s0 := supervertices;
      ghost var f0 := dset.Reps();
      assert AbsorbedSlots(p0, p0, supervertexMap) == {};
      assert supervertices == Mark(s0, {});
      var i := 0;
      while i < |cand|
        invariant 0 <= i <= |cand|
        invariant Valid() && RoundInvariant(p0, dset.parent[..], s0, supervertices, supervertexMap)
        invariant supervertexMap == old(supervertexMap)
        invariant CandidatesJoined(graph, cand, i, dset.Reps())
        invariant Coarser(f0, dset.Reps())
      {
        ghost var f1 := dset.Reps();
        if cand[i].weight != Infinity {
          UnionAlong(graph[cand[i].edge], p0, s0);
          JoinedCoarser(graph, cand, i, f1, dset.Reps());
          CoarserTrans(f0, f1, dset.Reps());
        }
        JoinedStep(graph, cand, i, dset.Reps());
        i := i + 1;
      }
    }

    /** `supervertices.erase(std::remove(..., null_vertex()), end())`: the
        two-finger pass of `std::remove` moves every non-null entry down to
        the next free position, then the tail is erased. */
    method Compact()
      modifies this
      ensures supervertices == RemoveNull(old(supervertices))
      ensures supervertexMap == old(supervertexMap)
    {
      ghost var s0 := supervertices;
      var w, r := 0, 0;
      while r < |supervertices|
        invariant |supervertices| == |s0|
        invariant 0 <= w <= r <= |s0|
        invariant supervertices[..w] == RemoveNull(s0[..r])
        invariant supervertices[r..] == s0[r..]
        invariant supervertexMap == old(supervertexMap)
      {
        CompactStep(supervertices, s0, w, r);
        if supervertices[r] != NullVertex {
          supervertices := supervertices[w := supervertices[r]];
          w := w + 1;
        }
        r := r + 1;
      }
      assert s0[..r] == s0;
      supervertices := supervertices[..w];
    }

    /** The scan and the union loop of one round.  Components only ever
        merge, every slot offered a finite-weight edge is joined to another
        slot along one of its offered edges, and the list has lost exactly
        the slots of the absorbed roots. */
    method ContractAlongCandidates(graph: seq<Edge>)
      requires Valid() && EdgesIn(graph, dset.parent.Length)
      modifies this, dset, dset.parent, dset.rank
      ensures Valid()
      ensures supervertexMap == old(supervertexMap)
      ensures Coarser(old(dset.Reps()), dset.Reps())
      ensures forall i :: 0 <= i < old(|supervertices|) ==>
                (exists j :: j in old(OfferedTo(graph, i)) && graph[j].w != Infinity) ==>
                exists j :: j in old(OfferedTo(graph, i)) && dset.Reps()[graph[j].u] == dset.Reps()[graph[j].v]
      ensures RoundInvariant(old(dset.parent[..]), dset.parent[..], old(supervertices), supervertices, supervertexMap)
    {
      ghost var offs := Offers(graph);
      var cand := ScanCandidates(graph);
      CandidateEdges(graph, offs, cand);
      LinkCandidates(graph, cand);
      CandidatesJoin(graph, offs, cand, dset.Reps());
    }

    /** One round, `boruvkaCut`: scan for candidates, link along them, and
        compact the supervertex list.  The returned graph has one vertex per
        entry of the list before compaction and no edges. */
    method BoruvkaCut(graph: Graph) returns (graph2: Graph)
      requires Valid() && EdgesIn(graph.edges, dset.parent.Length)
      modifies this, dset, dset.parent, dset.rank
      ensures graph2 == Graph(old(|supervertices|), [])
      ensures dset.Valid()
      ensures supervertexMap == old(supervertexMap)
      // Components only ever merge.
      ensures Coarser(old(dset.Reps()), dset.Reps())
      // Every slot offered a finite-weight edge is now joined to another
      // slot along one of its offered edges.
      ensures forall i :: 0 <= i < old(|supervertices|) ==>
                (exists j :: j in old(OfferedTo(graph.edges, i)) && graph.edges[j].w != Infinity) ==>
                exists j :: j in old(OfferedTo(graph.edges, i))
                  && dset.Reps()[graph.edges[j].u] == dset.Reps()[graph.edges[j].v]
      // The list loses exactly the slots of the absorbed roots.
      ensures supervertices == RemoveNull(Mark(old(supervertices),
                AbsorbedSlots(old(dset.parent[..]), dset.parent[..], supervertexMap)))
    {
      ContractAlongCandidates(graph.edges);
      graph2 := Graph(|supervertices|, []);
      Compact();
    }
  }
}
