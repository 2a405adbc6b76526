/**
 * Hagerup's tree path maxima, as verification.cpp runs it on the Boruvka
 * tree: every query (upper[i], lower[i]) names a node `upper[i]` strictly
 * above `lower[i]`, and answer[i] becomes the heaviest node on the path
 * below `upper[i]` down to `lower[i]` (a node stands for the edge to its
 * parent, whose weight is weight[node]).
 *
 * Node sets along the current root path are words: bit t stands for the
 * node at depth t.  During the depth-first visit, S is the "staircase" of
 * the path: the depths whose node outweighs everything below it on the
 * path.  D[v] holds the depths of the upper ends of the queries whose lower
 * end is in v's subtree, and `Down(D[v], S)` picks, for each of them, the
 * next staircase step below it, which is that query's answer.
 */
module PathMaxima {
  import opened Words
  import opened Median
  import opened RootedTree

  // ---------------------------------------------------------------------
  // The staircase invariant of `visit`, over the weights `ws` of the path
  // from the root (depth 0) to the parent of the node being visited.
  // ---------------------------------------------------------------------

  /** Every depth in `S` is below the root and strictly outweighs all the
      deeper nodes of the path. */
  ghost predicate Staircase(ws: seq<int>, S: nat)
  {
    && (forall t: nat :: Has(S, t) ==> 1 <= t < |ws|)
    && (forall t: nat, y :: Has(S, t) && t < y < |ws| ==> ws[y] < ws[t])
  }

  /** Depth `t` is the deepest heaviest node strictly below depth `a`. */
  ghost predicate Best(ws: seq<int>, a: nat, t: nat)
  {
    && a < t < |ws|
    && (forall y :: a < y < |ws| ==> ws[y] <= ws[t])
    && (forall y :: t < y < |ws| ==> ws[y] < ws[t])
  }

  /** For each depth `a` in `A` above the last node, the next step of `S`
      below `a` is the answer for `a`. */
  ghost predicate Serves(ws: seq<int>, S: nat, A: nat)
  {
    forall a: nat :: Has(A, a) && a + 1 < |ws| ==> exists t: nat :: IsNext(S, a, t) && Best(ws, a, t)
  }

  /** `k` is the largest depth in `X` whose weight exceeds `w`, or 0 when
      there is none: max({j in X | ws[j] > w} union {0}). */
  ghost predicate SearchResult(ws: seq<int>, X: nat, w: int, k: nat)
  {
    && (k == 0 || (Has(X, k) && k < |ws| && ws[k] > w))
    && (forall t: nat :: Has(X, t) && k < t < |ws| ==> ws[t] <= w)
  }

  /** The steps of `S` up to depth `k`, plus the new node at depth `d`. */
  function Cut(S: nat, k: nat, d: nat): nat
  {
    Or(And(S, LowMask(k + 1)), Single(d))
  }

  lemma CutBits(S: nat, k: nat, d: nat, t: nat)
    ensures Has(Cut(S, k, d), t) <==> (Has(S, t) && t <= k) || t == d
  {
    HasOr(And(S, LowMask(k + 1)), Single(d), t);
    HasAnd(S, LowMask(k + 1), t);
    HasLowMask(k + 1, t);
    HasSingle(d, t);
  }

  /** The new node's staircase: the old steps that outweigh it, then it. */
  lemma StairStep(ws: seq<int>, w: int, Dv: nat, S: nat, k: nat)
    requires |ws| < Width
    requires Staircase(ws, S)
    requires SearchResult(ws, Down(Dv, S), w, k)
    ensures Staircase(ws + [w], Down(Dv, Cut(S, k, |ws|)))
  {
    var d, ws' := |ws|, ws + [w];
    var Y := Cut(S, k, d);
    forall t: nat | Has(Down(Dv, Y), t)
      ensures 1 <= t < |ws'| && forall y :: t < y < |ws'| ==> ws'[y] < ws'[t]
    {
      DownSpec(Dv, Y, t);
      CutBits(S, k, d, t);
      if t != d {
        assert 1 <= t <= k;
        DownSubset(Dv, S, k);
        assert ws[k] > w && Has(S, k);
        assert ws[k] <= ws[t];
      }
    }
  }

  /** A query depth `a` of the new node keeps its answer in the new
      staircase. */
  lemma {:induction false} ServesStep(ws: seq<int>, w: int, Dv: nat, S: nat, k: nat, a: nat)
    requires |ws| < Width
    requires Staircase(ws, S) && Serves(ws, S, Dv)
    requires SearchResult(ws, Down(Dv, S), w, k)
    requires Has(Dv, a) && a < |ws|
    ensures exists t: nat :: IsNext(Down(Dv, Cut(S, k, |ws|)), a, t) && Best(ws + [w], a, t)
  {
    var d, ws' := |ws|, ws + [w];
    var Y := Cut(S, k, d);
    if a + 1 == d {
      CutBits(S, k, d, d);
      DownNext(Dv, Y, a, d);
      assert Best(ws', a, d);
    } else {
      var t: nat :| IsNext(S, a, t) && Best(ws, a, t);
      DownSpec(Dv, S, t);
      assert Has(Down(Dv, S), t);
      if ws[t] > w {
        assert t <= k;
        CutBits(S, k, d, t);
        forall x: nat | a < x < t ensures !Has(Y, x) { CutBits(S, k, d, x); }
        DownNext(Dv, Y, a, t);
        assert Best(ws', a, t);
      } else {
        DownSubset(Dv, S, k);
        assert k < t;
        CutBits(S, k, d, d);
        forall x: nat | a < x < d ensures !Has(Y, x) { CutBits(S, k, d, x); }
        DownNext(Dv, Y, a, d);
        assert Best(ws', a, d);
      }
    }
  }

  /** One step of `visit`: from the staircase of the parent's path and the
      binary search result, the new set is the staircase of the extended
      path and still answers every query depth of the new node. */
  lemma VisitStep(ws: seq<int>, w: int, Dv: nat, S: nat, k: nat)
    requires |ws| < Width
    requires Staircase(ws, S) && Serves(ws, S, Dv)
    requires SearchResult(ws, Down(Dv, S), w, k)
    ensures Staircase(ws + [w], Down(Dv, Cut(S, k, |ws|)))
    ensures Serves(ws + [w], Down(Dv, Cut(S, k, |ws|)), Dv)
  {
    StairStep(ws, w, Dv, S, k);
    forall a: nat | Has(Dv, a) && a + 1 < |ws + [w]|
      ensures exists t: nat :: IsNext(Down(Dv, Cut(S, k, |ws|)), a, t) && Best(ws + [w], a, t)
    {
      ServesStep(ws, w, Dv, S, k, a);
    }
  }

  /** Reading an answer: `Down(Single(a), S)` is the single step that
      answers depth `a`. */
  lemma AnswerStep(ws: seq<int>, S: nat, A: nat, a: nat) returns (t: nat)
    requires |ws| <= Width && Serves(ws, S, A) && Has(A, a) && a + 1 < |ws|
    ensures Best(ws, a, t) && Down(Single(a), S) == Single(t)
  {
    t :| IsNext(S, a, t) && Best(ws, a, t);
    DownSingle(S, a, t);
  }

  /** `S & ~((1 << j) - 1)`: the depths of `R` from `j` on. */
  lemma HighPart(R: nat, j: nat)
    requires forall x: nat :: Has(R, x) ==> x < Width
    ensures forall x: nat :: Has(And(R, Not(LowMask(j))), x) <==> Has(R, x) && j <= x
  {
    forall x: nat ensures Has(And(R, Not(LowMask(j))), x) <==> Has(R, x) && j <= x
    {
      HasAnd(R, Not(LowMask(j)), x); HasNot(LowMask(j), x); HasLowMask(j, x);
    }
  }

  /** `S & ((1 << j) - 1)`: the depths of `R` below `j`. */
  lemma LowPart(R: nat, j: nat)
    ensures forall x: nat :: Has(And(R, LowMask(j)), x) <==> Has(R, x) && x < j
  {
    forall x: nat ensures Has(And(R, LowMask(j)), x) <==> Has(R, x) && x < j
    {
      HasAnd(R, LowMask(j), x); HasLowMask(j, x);
    }
  }

  /** The loop invariant of the binary search over `S`: the depths left
      in `R` are those of `S` in [lo, hi), all depths of `S` from `hi` on
      are too light, and `lo`, unless 0, is heavy enough. */
  ghost predicate SearchInv(ws: seq<int>, S: nat, w: int, R: nat, lo: nat, hi: nat)
  {
    && (forall t: nat :: Has(S, t) ==> t < |ws|)
    && (forall t: nat :: Has(R, t) <==> Has(S, t) && lo <= t < hi)
    && (forall t: nat :: Has(S, t) && hi <= t ==> ws[t] <= w)
    && (lo > 0 ==> Has(R, lo) && ws[lo] > w)
  }

  /** One halving step: the half kept is non-empty, strictly smaller and
      keeps the invariant. */
  lemma {:induction false} SearchStep(ws: seq<int>, S: nat, w: int, R: nat, j: nat, lo: nat, hi: nat, h: nat)
    requires |ws| <= h + 1 < Width
    requires SearchInv(ws, S, w, R, lo, hi) && IsMedian(R, j, h) && R != Single(j)
    requires forall t: nat, y: nat :: Has(S, t) && Has(S, y) && t < y ==> ws[y] <= ws[t]
    ensures var R' := And(R, if ws[j] > w then Not(LowMask(j)) else LowMask(j));
      && 0 < R' < R
      && SearchInv(ws, S, w, R', if ws[j] > w then j else lo, if ws[j] > w then hi else j)
  {
    var t := Differs(R, Single(j));
    HasSingle(j, t);
    MedianAboveLeast(R, j, h, t);
    var u: nat :| u < j && Has(R, u);
    var R' := And(R, if ws[j] > w then Not(LowMask(j)) else LowMask(j));
    if ws[j] > w {
      HighPart(R, j);
      assert !Has(R', u) && Has(R', j);
      HasZero(j);
    } else {
      LowPart(R, j);
      assert !Has(R', j) && Has(R', u);
      HasZero(u);
    }
    AndLe(R, if ws[j] > w then Not(LowMask(j)) else LowMask(j));
  }

  /** With one depth `j` left, the search result is `j` if it is heavy
      enough and 0 otherwise. */
  lemma SearchExit(ws: seq<int>, S: nat, w: int, j: nat, lo: nat, hi: nat)
    requires SearchInv(ws, S, w, Single(j), lo, hi)
    ensures j < |ws| && SearchResult(ws, S, w, if ws[j] > w then j else 0)
  {
    forall x: nat ensures Has(Single(j), x) <==> x == j { HasSingle(j, x); }
    assert Has(S, j) && lo <= j < hi;
    if ws[j] > w {
      assert forall t: nat :: Has(S, t) && j < t ==> hi <= t;
    } else {
      assert lo == 0;
      assert forall t: nat :: Has(S, t) && 0 < t && t != j ==> hi <= t;
    }
  }

  /** The set of the depths in `ds`. */
  function Word(ds: seq<nat>): nat
  {
    if |ds| == 0 then 0 else Or(Word(ds[..|ds| - 1]), Single(ds[|ds| - 1]))
  }

  lemma {:induction false} WordBits(ds: seq<nat>, j: nat)
    ensures Has(Word(ds), j) <==> j in ds
  {
    if |ds| == 0 {
      HasZero(j);
    } else {
      var ds' := ds[..|ds| - 1];
      WordBits(ds', j);
      HasOr(Word(ds'), Single(ds[|ds| - 1]), j);
      HasSingle(ds[|ds| - 1], j);
      assert ds == ds' + [ds[|ds| - 1]];
    }
  }

  /** Two different words differ in some bit. */
  lemma Differs(x: nat, y: nat) returns (t: nat)
    requires x != y
    ensures Has(x, t) != Has(y, t)
  {
    if forall j: nat :: Has(x, j) == Has(y, j) {
      Ext(x, y);
    }
    t :| Has(x, t) != Has(y, t);
  }

  /** A one-element set is its own median. */
  lemma MedianSingle(t: nat, s: nat, h: nat)
    requires IsMedian(Single(t), s, h)
    ensures s == t
  {
    HasSingle(t, s);
  }

  // ---------------------------------------------------------------------
  // The mask of verification.cpp:90 as C++ parses it: `(1<<(k+1)-1)` is
  // `1 << k`, so only step k of the parent's staircase survives.
  // ---------------------------------------------------------------------

  /** `S & (1 << k) | (1 << d)`, the set the source builds for the new node. */
  function CutAsWritten(S: nat, k: nat, d: nat): nat
  {
    Or(And(S, Single(k)), Single(d))
  }

  /** On the path root, a (weight 3), b (weight 2), c (weight 1), with
      queries from the root and from a down to c: at b the staircase `S`
      is {1, 2} and D[c] = {0, 1}; the search for c's weight returns 2.
      All preconditions of a visit step hold, yet the set built as
      written no longer answers the query from the root: its only step
      below depth 0 is b, while a is heavier. */
  lemma MaskAsWrittenLosesAnswer(Dv: nat, S: nat)
    requires forall j: nat :: Has(Dv, j) <==> j == 0 || j == 1
    requires forall j: nat :: Has(S, j) <==> j == 1 || j == 2
    ensures Staircase([0, 3, 2], S) && Serves([0, 3, 2], S, Dv)
    ensures SearchResult([0, 3, 2], Down(Dv, S), 1, 2)
    ensures !Serves([0, 3, 2, 1], Down(Dv, CutAsWritten(S, 2, 3)), Dv)
  {
    var ws, ws' := [0, 3, 2], [0, 3, 2, 1];
    var Y := CutAsWritten(S, 2, 3);
    forall j: nat ensures Has(Y, j) <==> j == 2 || j == 3
    {
      HasOr(And(S, Single(2)), Single(3), j); HasAnd(S, Single(2), j);
      HasSingle(2, j); HasSingle(3, j);
    }
    assert IsNext(S, 0, 1) && Best(ws, 0, 1);
    assert IsNext(S, 1, 2) && Best(ws, 1, 2);
    DownSpec(Dv, S, 2);
    forall t: nat | Has(Down(Dv, S), t) ensures t <= 2 { DownSubset(Dv, S, t); }
    forall t: nat | IsNext(Down(Dv, Y), 0, t) ensures !Best(ws', 0, t)
    {
      DownSubset(Dv, Y, t);
      assert ws'[1] > ws'[t];
    }
    assert Has(Dv, 0) && 0 + 1 < |ws'|;
  }

  /** The same counterexample on the concrete words of the source: D[c] is
      3 = {0, 1} and S at b is 6 = {1, 2}. */
  lemma MaskAsWrittenOnWords()
    ensures Staircase([0, 3, 2], 6) && Serves([0, 3, 2], 6, 3)
    ensures SearchResult([0, 3, 2], Down(3, 6), 1, 2)
    ensures !Serves([0, 3, 2, 1], Down(3, CutAsWritten(6, 2, 3)), 3)
  {
    forall j: nat ensures (Has(3, j) <==> j == 0 || j == 1) && (Has(6, j) <==> j == 1 || j == 2) {
      ExampleWords(j);
    }
    MaskAsWrittenLosesAnswer(3, 6);
  }

  /** The words 3 and 6 of that example are the sets {0, 1} and {1, 2}. */
  lemma ExampleWords(j: nat)
    ensures (Has(3, j) <==> j == 0 || j == 1) && (Has(6, j) <==> j == 1 || j == 2)
  {
    HasStep(1, 1, 0); HasStep(0, 1, 0);
    HasStep(3, 0, 0); HasStep(1, 1, 1);
    if j >= 2 {
      HasZero(j - 2);
      HasStep(1, 1, j - 1); HasStep(0, 1, j - 2);
      HasStep(3, 0, j - 1); HasStep(1, 1, j - 2);
      if j >= 3 { HasStep(0, 1, j - 3); }
    }
  }

  // ---------------------------------------------------------------------
  // Query lists: L[u] and Lnext thread, for every node u, the queries
  // whose lower end is u.
  // ---------------------------------------------------------------------

  /** The queries j < i whose lower end is `u`, latest first. */
  ghost function QueriesAt(lower: seq<nat>, u: nat, i: nat): (r: seq<nat>)
    requires i <= |lower|
    ensures forall c :: 0 <= c < |r| ==> r[c] < i && lower[r[c]] == u
  {
    if i == 0 then []
    else if lower[i - 1] == u then [i - 1] + QueriesAt(lower, u, i - 1)
    else QueriesAt(lower, u, i - 1)
  }

  /** Every query j < i at `u` is on the list. */
  lemma {:induction false} QueriesAtComplete(lower: seq<nat>, u: nat, i: nat, j: nat)
    requires i <= |lower| && j < i && lower[j] == u
    ensures j in QueriesAt(lower, u, i)
  {
    if j < i - 1 {
      QueriesAtComplete(lower, u, i - 1, j);
    }
  }

  /** The list at `u` is latest first, so no query appears twice. */
  lemma {:induction false} QueriesAtOrder(lower: seq<nat>, u: nat, i: nat, c: nat, c': nat)
    requires i <= |lower| && c < c' < |QueriesAt(lower, u, i)|
    ensures QueriesAt(lower, u, i)[c] > QueriesAt(lower, u, i)[c']
  {
    if lower[i - 1] == u {
      if c > 0 { QueriesAtOrder(lower, u, i - 1, c - 1, c' - 1); }
    } else {
      QueriesAtOrder(lower, u, i - 1, c, c');
    }
  }

  /** `head` and `next` link the elements of `l` in order, ending in -1. */
  ghost predicate Chain(head: int, next: seq<int>, l: seq<nat>)
  {
    && head == (if |l| == 0 then -1 else l[0])
    && forall c {:trigger next[l[c]]} :: 0 <= c < |l| ==> l[c] < |next| && next[l[c]] == (if c + 1 < |l| then l[c + 1] else -1)
  }

  /** For every node u, `L[u]` and `Lnext` list the queries j < i at u. */
  ghost predicate Listed(L: seq<int>, Lnext: seq<int>, lower: seq<nat>, i: nat)
    requires i <= |lower|
  {
    forall u :: 0 <= u < |L| ==> Chain(L[u], Lnext, QueriesAt(lower, u, i))
  }

  /** Pushing query i on the list of its lower end keeps every list in
      step with `QueriesAt`. */
  lemma DistributeStep(L: seq<int>, Lnext: seq<int>, lower: seq<nat>, i: nat)
    requires i < |lower| == |Lnext| && lower[i] < |L|
    requires Listed(L, Lnext, lower, i)
    ensures Listed(L[lower[i] := i], Lnext[i := L[lower[i]]], lower, i + 1)
  {
    var L', Lnext' := L[lower[i] := i], Lnext[i := L[lower[i]]];
    forall u | 0 <= u < |L'| ensures Chain(L'[u], Lnext', QueriesAt(lower, u, i + 1))
    {
      var l := QueriesAt(lower, u, i);
      assert Chain(L[u], Lnext, l);
      if lower[i] == u {
        assert QueriesAt(lower, u, i + 1) == [i] + l;
      }
    }
  }

  lemma TakeSnoc(l: seq<nat>, c: nat)
    requires c < |l|
    ensures l[..c + 1] == l[..c] + [l[c]]
  {
  }

  /** The heads and links after the loop of `treePathMaxima` has pushed
      queries 0 .. i-1, starting from lists that are all empty. */
  ghost function Distributed(lower: seq<nat>, n: nat, i: nat): (r: (seq<int>, seq<int>))
    requires i <= |lower| && forall j :: 0 <= j < |lower| ==> lower[j] < n
    ensures |r.0| == n && |r.1| == |lower|
  {
    if i == 0 then (seq(n, _ => -1), seq(|lower|, _ => -1))
    else
      var r' := Distributed(lower, n, i - 1);
      (r'.0[lower[i - 1] := i - 1], r'.1[i - 1 := r'.0[lower[i - 1]]])
  }

  /** The distributed lists hold, for every node, exactly its queries in
      decreasing order. */
  lemma {:induction false} DistributedListed(lower: seq<nat>, n: nat, i: nat)
    requires i <= |lower| && forall j :: 0 <= j < |lower| ==> lower[j] < n
    ensures Listed(Distributed(lower, n, i).0, Distributed(lower, n, i).1, lower, i)
  {
    if i > 0 {
      var r' := Distributed(lower, n, i - 1);
      DistributedListed(lower, n, i - 1);
      DistributeStep(r'.0, r'.1, lower, i - 1);
    }
  }

  // ---------------------------------------------------------------------
  // Line 46 of init: the children's sets, less the bit of the node's own
  // depth, are or-ed into the node's set.
  // ---------------------------------------------------------------------

  /** `base` with every word of `ks`, less bit `d`, or-ed in. */
  function Merge(base: nat, ks: seq<nat>, d: nat): nat
  {
    if |ks| == 0 then base else Or(Merge(base, ks[..|ks| - 1], d), And(ks[|ks| - 1], Not(Single(d))))
  }

  lemma {:induction false} MergeBits(base: nat, ks: seq<nat>, d: nat, j: nat)
    ensures Has(Merge(base, ks, d), j) <==>
              Has(base, j) || (j < Width && j != d && exists c :: 0 <= c < |ks| && Has(ks[c], j))
  {
    if |ks| > 0 {
      var ks', x := ks[..|ks| - 1], ks[|ks| - 1];
      MergeBits(base, ks', d, j);
      HasOr(Merge(base, ks', d), And(x, Not(Single(d))), j);
      HasAnd(x, Not(Single(d)), j);
      HasNot(Single(d), j);
      HasSingle(d, j);
      if c :| 0 <= c < |ks| && Has(ks[c], j) {
        if c < |ks'| { assert ks'[c] == ks[c]; }
      }
    }
  }

  /** The part of a staircase that `Down` keeps is searchable: its depths
      lie on the path and their weights do not increase downwards. */
  lemma StairSearchable(ws: seq<int>, A: nat, S: nat)
    requires Staircase(ws, S)
    ensures forall t: nat :: Has(Down(A, S), t) ==> t < |ws|
    ensures forall t: nat, y: nat :: Has(Down(A, S), t) && Has(Down(A, S), y) && t < y ==> ws[y] <= ws[t]
  {
    forall t: nat | Has(Down(A, S), t) ensures Has(S, t) { DownSubset(A, S, t); }
  }

  // ---------------------------------------------------------------------
  // The verifier.
  // ---------------------------------------------------------------------

  /** The input of the verifier: the tree of shape `tr` threaded by
      `child` and `sibling` from `root`, a weight per node (that of the
      edge to its parent) and queries whose upper end lies strictly above
      their lower end. */
  ghost predicate Instance(tr: Tree, root: nat, child: seq<int>, sibling: seq<int>, weight: seq<int>,
                           upper: seq<nat>, lower: seq<nat>)
  {
    && |sibling| == |child| && |weight| == |child| && |lower| == |upper|
    && tr.id == root && Distinct(tr) && Threads(tr, child, sibling)
    && forall i {:trigger IsQuery(tr, upper[i], lower[i])} :: 0 <= i < |upper| ==> IsQuery(tr, upper[i], lower[i])
  }

  /** `up` is a proper ancestor of `lo`. */
  ghost predicate IsQuery(tr: Tree, up: nat, lo: nat)
  {
    In(tr, lo) && In(tr, up) && |Path(tr, up)| < |Path(tr, lo)| && Path(tr, lo)[|Path(tr, up)| - 1] == up
  }

  /** `D2` agrees with `D1` on the nodes of `t`. */
  ghost predicate Agree(D1: seq<nat>, D2: seq<nat>, t: Tree)
  {
    forall x: nat :: In(t, x) && x < |D1| ==> x < |D2| && D2[x] == D1[x]
  }

  /** Every node of `t` has the entry 0 in `Ds`. */
  ghost predicate Zero(Ds: seq<nat>, t: Tree)
  {
    forall x: nat :: In(t, x) ==> x < |Ds| && Ds[x] == 0
  }

  /** A change confined to child `c` of `s` and to its root leaves the
      other children's subtrees alone. */
  lemma KidsAgree(D1: seq<nat>, D2: seq<nat>, s: Tree, c: nat)
    requires Distinct(s) && c < |s.kids|
    requires forall x: nat :: x < |D1| && !In(s.kids[c], x) && x != s.id ==> x < |D2| && D2[x] == D1[x]
    ensures forall c' :: 0 <= c' < |s.kids| && c' != c ==> Agree(D1, D2, s.kids[c'])
  {
    forall c' | 0 <= c' < |s.kids| && c' != c ensures Agree(D1, D2, s.kids[c'])
    {
      forall x: nat | In(s.kids[c'], x) && x < |D1| ensures x < |D2| && D2[x] == D1[x]
      {
        assert x != s.id;
        if c < c' { assert !In(s.kids[c], x); } else { assert !In(s.kids[c], x); }
      }
    }
  }

  function Max(a: nat, b: nat): nat
  {
    if a < b then b else a
  }

  class MSTVerifier {
    const n: nat
    const m: nat
    const root: nat
    const child: seq<int>
    const sibling: seq<int>
    const weight: seq<int>
    const upper: seq<nat>
    const lower: seq<nat>
    /** The shape of the tree that `child` and `sibling` thread. */
    ghost const tr: Tree
    /** paths[x] is the path from the root to node x, dep[x] its depth. */
    ghost const paths: seq<seq<nat>>
    ghost const dep: seq<nat>
    var height: nat
    const depth: array<nat>
    const D: array<nat>
    const answer: array<int>
    var L: array<int>
    var Lnext: array<int>
    var P: array<int>
    var median: array<int>

    /** The fixed input, and the paths and depths of its tree. */
    ghost predicate Ok()
    {
      && Instance(tr, root, child, sibling, weight, upper, lower) && n == |child| && m == |upper|
      && |paths| == n && |dep| == n
      && (forall x: nat :: In(tr, x) ==> x < n)
      && (forall i :: 0 <= i < m ==> upper[i] < n && lower[i] < n)
      && (forall x :: 0 <= x < n ==> |paths[x]| == dep[x] + 1)
      && forall x: nat {:trigger Path(tr, x)} :: In(tr, x) ==> paths[x] == Path(tr, x)
    }

    ghost predicate Valid()
      reads this`L, this`Lnext, this`P, this`median
    {
      Ok() && depth.Length == n && D.Length == n && answer.Length == m && Separate()
    }

    /** The arrays are distinct objects. */
    ghost predicate Separate()
      reads this`L, this`Lnext, this`P, this`median
    {
      var ints: set<object> := {L, Lnext, P, median, answer};
      && depth != D && depth !in ints && D !in ints
      && L != Lnext && L != P && L != median && L != answer
      && Lnext != P && Lnext != median && Lnext != answer
      && P != median && P != answer && median != answer
    }

    /** The weight of node `x`. */
    function WeightOf(x: int): int
    {
      if 0 <= x < |weight| then weight[x] else 0
    }

    /** The weights along a path, by depth. */
    function Ws(path: seq<nat>): (r: seq<int>)
      ensures |r| == |path| && forall t :: 0 <= t < |path| ==> r[t] == WeightOf(path[t])
    {
      seq(|path|, t requires 0 <= t < |path| => WeightOf(path[t]))
    }

    /** Query i and its ends index the tables. */
    ghost predicate Fits(i: nat)
    {
      i < |upper| && i < |lower| && lower[i] < |paths| && upper[i] < |dep|
    }

    /** `r` is the answer to query i: the deepest heaviest node on the path
        from below upper[i] down to lower[i]. */
    ghost predicate Answered(i: nat, r: int)
      requires Fits(i)
    {
      var p := paths[lower[i]];
      exists t :: 0 <= t < |p| && r == p[t] && Best(Ws(p), dep[upper[i]], t)
    }

    /** Some query with lower end in `s` has its upper end at depth `j`. */
    ghost predicate Wants(s: Tree, j: nat)
      requires Ok()
    {
      exists i :: 0 <= i < m && In(s, lower[i]) && dep[upper[i]] == j
    }

    /** Some query with lower end `u` has its upper end at depth `j`. */
    ghost predicate AtQuery(u: nat, j: nat)
      requires Ok()
    {
      exists i :: 0 <= i < m && lower[i] == u && dep[upper[i]] == j
    }

    /** `Ds` holds, for every node `x` of `s`, the depths above `x` of the
        upper ends of the queries with lower end in `x`'s subtree. */
    ghost predicate DOk(Ds: seq<nat>, s: Tree)
      requires Ok()
      decreases s
    {
      && s.id < |Ds| && s.id < n
      && (forall j: nat :: Has(Ds[s.id], j) <==> j < dep[s.id] && Wants(s, j))
      && forall c :: 0 <= c < |s.kids| ==> DOk(Ds, s.kids[c])
    }

    /** `dp` holds the depth of every node of `t`, none deeper than `h`. */
    ghost predicate Deep(dp: seq<nat>, t: Tree, h: nat)
    {
      forall x: nat :: In(t, x) ==> x < |dp| && x < |dep| && dp[x] == dep[x] && dep[x] <= h
    }

    /** The greatest depth of a node of `s`. */
    ghost function Tallest(s: Tree): nat
      decreases s, 1
    {
      Max(if s.id < |dep| then dep[s.id] else 0, TallestKids(s, |s.kids|))
    }

    /** The greatest depth in the subtrees of the first `c` children of `s`
        (0 when `c` is 0). */
    ghost function TallestKids(s: Tree, c: nat): nat
      requires c <= |s.kids|
      decreases s, 0, c
    {
      if c == 0 then 0 else Max(TallestKids(s, c - 1), Tallest(s.kids[c - 1]))
    }

    /** Raising the height to cover child `c` covers the first `c + 1`
        children. */
    lemma TallestStep(s: Tree, c: nat, h: nat, h0: nat, h1: nat)
      requires c < |s.kids| && h0 == Max(h, TallestKids(s, c)) && h1 == Max(h0, Tallest(s.kids[c]))
      ensures h1 == Max(h, TallestKids(s, c + 1))
    {
    }

    /** Some node of `s` has the greatest depth. */
    lemma {:induction false} TallestAttained(s: Tree) returns (x: nat)
      ensures In(s, x) && Tallest(s) == if x < |dep| then dep[x] else 0
      decreases s, 1
    {
      var t := TallestKids(s, |s.kids|);
      if t <= (if s.id < |dep| then dep[s.id] else 0) {
        x := s.id;
      } else {
        var i := TallestKidsAt(s, |s.kids|);
        x := TallestAttained(s.kids[i]);
      }
    }

    /** For `c > 0`, the greatest depth among the first `c` children's
        subtrees is that of one of them. */
    lemma {:induction false} TallestKidsAt(s: Tree, c: nat) returns (i: nat)
      requires 0 < c <= |s.kids|
      ensures i < c && TallestKids(s, c) == Tallest(s.kids[i])
      decreases c
    {
      if c == 1 || TallestKids(s, c - 1) <= Tallest(s.kids[c - 1]) {
        i := c - 1;
      } else {
        i := TallestKidsAt(s, c - 1);
      }
    }

    /** `s` is the subtree of `tr` reached along the ancestors `anc`. */
    ghost predicate Placed(s: Tree, anc: seq<nat>)
      requires Ok()
    {
      && Distinct(s) && Threads(s, child, sibling)
      && (forall x: nat :: In(s, x) ==> In(tr, x))
      && (forall x: nat {:trigger Path(s, x)} :: In(s, x) ==> In(tr, x) && Path(tr, x) == anc + Path(s, x))
      && (forall j :: 0 <= j < |anc| ==> In(tr, anc[j]) && !In(s, anc[j]))
      && s.id < n && paths[s.id] == anc + [s.id] && dep[s.id] == |anc|
    }

    /** Every depth fits the 32-bit words, with room for `1 << (h + 1)`. */
    ghost predicate Shallow()
      requires Ok()
    {
      forall x: nat :: In(tr, x) ==> dep[x] + 2 < Width
    }

    /** L[u] and Lnext list, for every node u, the queries at u. */
    ghost predicate ListsOk()
      reads this`L, this`Lnext, L, Lnext
      requires Ok()
    {
      && L.Length == n && Lnext.Length == m && Listed(L[..], Lnext[..], lower, m)
    }

    ghost predicate DepthOk()
      reads this, depth
      requires Ok()
    {
      Deep(depth[..], tr, height)
    }

    ghost predicate TableOk()
      reads this, median
    {
      && median.Length == Pow2(height + 1)
      && forall x :: 0 < x < median.Length ==> median[x] >= 0 && IsMedian(x, median[x], height)
    }

    // -------------------------------------------------------------------
    // Facts about the fixed input.
    // -------------------------------------------------------------------

    lemma PlacedRoot()
      requires Ok()
      ensures Placed(tr, [])
    {
      assert In(tr, tr.id) && Path(tr, tr.id) == [tr.id];
    }

    /** A child's subtree is placed below its parent. */
    lemma PlacedKid(s: Tree, anc: seq<nat>, c: nat)
      requires Ok() && Placed(s, anc) && c < |s.kids|
      ensures Placed(s.kids[c], anc + [s.id])
    {
      var k := s.kids[c];
      forall x: nat | In(k, x) ensures In(tr, x) && Path(tr, x) == (anc + [s.id]) + Path(k, x)
      {
        PathKid(s, c, x);
      }
      assert In(s, s.id) && In(k, k.id) && Path(k, k.id) == [k.id];
    }

    /** The upper end of a query at the root of `s` is one of `anc`, at
        the index of its depth. */
    lemma UpperAbove(s: Tree, anc: seq<nat>, i: nat)
      requires Ok() && Placed(s, anc) && i < m && lower[i] == s.id
      ensures dep[upper[i]] < |anc| && anc[dep[upper[i]]] == upper[i]
    {
      assert IsQuery(tr, upper[i], lower[i]);
    }

    lemma WantsKid(s: Tree, c: nat, j: nat)
      requires Ok() && c < |s.kids| && Wants(s.kids[c], j)
      ensures Wants(s, j)
    {
      var i :| 0 <= i < m && In(s.kids[c], lower[i]) && dep[upper[i]] == j;
      assert In(s, lower[i]);
    }

    /** A query below `s` ends at its root or below one child. */
    lemma WantsSplit(s: Tree, j: nat)
      requires Ok() && Wants(s, j)
      ensures AtQuery(s.id, j) || exists c :: 0 <= c < |s.kids| && Wants(s.kids[c], j)
    {
      var i :| 0 <= i < m && In(s, lower[i]) && dep[upper[i]] == j;
      if lower[i] != s.id {
        var c := KidOf(s, lower[i]);
        assert Wants(s.kids[c], j);
      }
    }

    /** `DOk` only looks at the entries of the nodes of `s`. */
    lemma {:induction false} DOkFrame(D1: seq<nat>, D2: seq<nat>, s: Tree)
      requires Ok() && DOk(D1, s) && Agree(D1, D2, s)
      ensures DOk(D2, s)
      decreases s
    {
      assert In(s, s.id);
      forall c | 0 <= c < |s.kids| ensures DOk(D2, s.kids[c])
      {
        forall x: nat | In(s.kids[c], x) && x < |D1| ensures x < |D2| && D2[x] == D1[x]
        {
          assert In(s, x);
        }
        DOkFrame(D1, D2, s.kids[c]);
      }
    }

    /** The set of node `s.id` assembled by lines 42-47 of `init`, from
        its own queries and its children's sets, is the one `DOk` asks. */
    lemma {:induction false} DRoot(s: Tree, anc: seq<nat>, base: nat, kd: seq<nat>)
      requires Ok() && Placed(s, anc) && |anc| < Width && |kd| == |s.kids|
      requires forall j: nat :: Has(base, j) <==> AtQuery(s.id, j)
      requires KdOk(kd, s, |anc|)
      ensures forall j: nat :: Has(Merge(base, kd, |anc|), j) <==> j < |anc| && Wants(s, j)
    {
      var d := |anc|;
      forall j: nat ensures Has(Merge(base, kd, d), j) <==> j < d && Wants(s, j)
      {
        MergeBits(base, kd, d, j);
        if AtQuery(s.id, j) {
          var i :| 0 <= i < m && lower[i] == s.id && dep[upper[i]] == j;
          UpperAbove(s, anc, i);
          assert In(s, lower[i]);
        }
        if c :| 0 <= c < |kd| && Has(kd[c], j) {
          WantsKid(s, c, j);
        }
        if j < d && Wants(s, j) {
          WantsSplit(s, j);
        }
      }
    }

    /** Every query in `q` has its answer in `a`. */
    ghost predicate AllAnswered(a: seq<int>, q: seq<nat>)
    {
      forall c :: 0 <= c < |q| ==> Fits(q[c]) && q[c] < |a| && Answered(q[c], a[q[c]])
    }

    /** Answering one more query keeps the earlier answers. */
    lemma AllAnsweredPush(a: seq<int>, q: seq<nat>, i: nat, r: int)
      requires AllAnswered(a, q) && Fits(i) && i < |a| && Answered(i, r)
      requires forall c :: 0 <= c < |q| ==> q[c] != i
      ensures AllAnswered(a[i := r], q + [i])
    {
      forall c | 0 <= c < |q| + 1 ensures Fits((q + [i])[c]) && (q + [i])[c] < |a| && Answered((q + [i])[c], a[i := r][(q + [i])[c]])
      {
        if c < |q| { assert a[i := r][q[c]] == a[q[c]]; }
      }
    }

    /** The answer of query i can be read off the staircase `Sv`: the
        median of the steps of `Sv` below depth(upper[i]) indexes the path
        stack `P` at it. */
    ghost predicate Readable(i: nat, Sv: nat)
      reads this`median, this`P, depth, median, P
    {
      && Fits(i) && upper[i] < depth.Length
      && var x := Down(Single(depth[upper[i]]), Sv);
         0 < x < median.Length && 0 <= median[x] < P.Length && Answered(i, P[median[x]])
    }

    /** kd[c] is the set of child c of `s`: the depths j <= d of the upper
        ends of the queries below it. */
    ghost predicate KdOk(kd: seq<nat>, s: Tree, d: nat)
      requires Ok()
    {
      forall c, j: nat :: 0 <= c < |kd| && c < |s.kids| ==> (Has(kd[c], j) <==> j <= d && Wants(s.kids[c], j))
    }

    lemma KdPush(kd: seq<nat>, dv: nat, s: Tree, d: nat)
      requires Ok() && KdOk(kd, s, d) && |kd| < |s.kids|
      requires forall j: nat :: Has(dv, j) <==> j <= d && Wants(s.kids[|kd|], j)
      ensures KdOk(kd + [dv], s, d)
    {
      forall c, j: nat | 0 <= c < |kd| + 1 && c < |s.kids| ensures Has((kd + [dv])[c], j) <==> j <= d && Wants(s.kids[c], j)
      {
        if c < |kd| { assert (kd + [dv])[c] == kd[c]; }
      }
    }

    /** The first `c` children of `s` are initialised in `Ds` and `dp`,
        the others still zero in `Ds`. */
    ghost predicate KidsDone(Ds: seq<nat>, dp: seq<nat>, h: nat, s: Tree, c: nat)
      requires Ok()
    {
      && (forall c' :: c <= c' < |s.kids| ==> Zero(Ds, s.kids[c']))
      && (forall c' :: 0 <= c' < c && c' < |s.kids| ==> DOk(Ds, s.kids[c']) && Deep(dp, s.kids[c'], h))
    }

    /** Once every child is initialised and their sets are merged into
        the root's, the whole of `s` is. */
    lemma ChildrenDone(Ds: seq<nat>, dp: seq<nat>, h: nat, s: Tree, anc: seq<nat>, base: nat, kd: seq<nat>)
      requires Ok() && Placed(s, anc) && |anc| < Width && |kd| == |s.kids| && |Ds| == n && |dp| == n
      requires forall j: nat :: Has(base, j) <==> AtQuery(s.id, j)
      requires KdOk(kd, s, |anc|) && KidsDone(Ds, dp, h, s, |s.kids|)
      requires Ds[s.id] == Merge(base, kd, |anc|) && dp[s.id] == |anc| <= h
      ensures Deep(dp, s, h) && DOk(Ds, s)
    {
      DRoot(s, anc, base, kd);
      forall x: nat | In(s, x) && x != s.id ensures x < n && dp[x] == dep[x] && dep[x] <= h
      {
        var c' := KidOf(s, x);
      }
    }

    /** After child `c` of `s` is initialised, changing only its own
        subtree and the root, the earlier children keep their sets and
        depths and the later ones are still zero. */
    lemma {:induction false} KidsStep(D0: seq<nat>, D1: seq<nat>, dp0: seq<nat>, dp1: seq<nat>, h0: nat, h1: nat, s: Tree, c: nat)
      requires Ok() && Distinct(s) && c < |s.kids| && h0 <= h1 && |D0| == |D1| && |dp0| == |dp1|
      requires forall x: nat :: x < |D0| && !In(s.kids[c], x) && x != s.id ==> D1[x] == D0[x]
      requires forall x: nat :: x < |dp0| && !In(s.kids[c], x) && x != s.id ==> dp1[x] == dp0[x]
      requires KidsDone(D0, dp0, h0, s, c)
      requires DOk(D1, s.kids[c]) && Deep(dp1, s.kids[c], h1)
      ensures KidsDone(D1, dp1, h1, s, c + 1)
    {
      KidsAgree(D0, D1, s, c);
      KidsAgree(dp0, dp1, s, c);
      forall c' | 0 <= c' < c ensures DOk(D1, s.kids[c'])
      {
        DOkFrame(D0, D1, s.kids[c']);
      }
    }

    /** The read at line 93 of `visit`: with the staircase `Sv` of the
        path `anc + [v]` serving D[v] = `Dv`, the median of the next step
        below depth(upper[i]) is the index in the path stack `Ps` of the
        answer to query i at v. */
    lemma AnswerRead(i: nat, s: Tree, anc: seq<nat>, Sv: nat, Dv: nat, Ps: seq<int>, med: seq<int>, h: nat)
      requires Ok() && Placed(s, anc) && i < m && lower[i] == s.id
      requires forall j: nat :: Has(Dv, j) <==> j < |anc| && Wants(s, j)
      requires Serves(Ws(anc + [s.id]), Sv, Dv) && |anc| <= h && h + 2 < Width
      requires |med| == Pow2(h + 1) && forall x :: 0 < x < |med| ==> med[x] >= 0 && IsMedian(x, med[x], h)
      requires |anc| < |Ps| && forall j :: 0 <= j <= |anc| ==> Ps[j] == (anc + [s.id])[j]
      ensures In(tr, upper[i])
      ensures var x := Down(Single(dep[upper[i]]), Sv);
                0 < x < |med| && 0 <= med[x] < |Ps| && Answered(i, Ps[med[x]])
    {
      var a := dep[upper[i]];
      UpperAbove(s, anc, i);
      assert In(s, lower[i]) && Wants(s, a);
      var t := AnswerStep(Ws(anc + [s.id]), Sv, Dv, a);
      forall j: nat | h + 1 <= j ensures !Has(Single(t), j) { HasSingle(t, j); }
      BitsBound(Single(t), h + 1);
      MedianSingle(t, med[Single(t)], h);
    }

    /** The depths of the upper ends of the queries in `l`. */
    ghost function UpperDepths(l: seq<nat>): (r: seq<nat>)
      requires Ok() && forall c :: 0 <= c < |l| ==> l[c] < m
      ensures |r| == |l| && forall c :: 0 <= c < |l| ==> r[c] == dep[upper[l[c]]]
    {
      seq(|l|, c requires 0 <= c < |l| => dep[upper[l[c]]])
    }

    /** The depths of the upper ends of the queries at `u`, in their list,
        are the depths `AtQuery` names. */
    lemma UpperDepthsAt(u: nat, j: nat)
      requires Ok()
      ensures j in UpperDepths(QueriesAt(lower, u, m)) <==> AtQuery(u, j)
    {
      var l := QueriesAt(lower, u, m);
      var ds := UpperDepths(l);
      if AtQuery(u, j) {
        var i :| 0 <= i < m && lower[i] == u && dep[upper[i]] == j;
        QueriesAtComplete(lower, u, m, i);
        var c :| 0 <= c < |l| && l[c] == i;
        assert ds[c] == j;
      }
      if j in ds {
        var c :| 0 <= c < |ds| && ds[c] == j;
        assert lower[l[c]] == u;
      }
    }

    // -------------------------------------------------------------------
    // Operations.
    // -------------------------------------------------------------------

    /** Stores the input; `height` starts at 0.  The arrays `depth`, `D`
        and `answer` get one entry per node, per node and per query, `D`
        filled with empty sets and `answer` with -1. */
    constructor (child: seq<int>, sibling: seq<int>, weight: seq<int>, upper: seq<nat>, lower: seq<nat>,
                 root: nat, ghost tr: Tree)
      requires Instance(tr, root, child, sibling, weight, upper, lower)
      ensures Valid() && height == 0
      ensures this.child == child && this.sibling == sibling && this.weight == weight
      ensures this.upper == upper && this.lower == lower && this.root == root && this.tr == tr
      ensures forall x :: 0 <= x < D.Length ==> D[x] == 0
      ensures forall i :: 0 <= i < answer.Length ==> answer[i] == -1
      ensures fresh(depth) && fresh(D) && fresh(answer)
    {
      this.child, this.sibling, this.weight := child, sibling, weight;
      this.upper, this.lower, this.root, this.tr := upper, lower, root, tr;
      n, m := |child|, |upper|;
      ghost var ps := seq(|child|, x requires 0 <= x < |child| => if In(tr, x) then Path(tr, x) else [x]);
      paths := ps;
      dep := seq(|child|, x requires 0 <= x < |child| => |ps[x]| - 1);
      height := 0;
      depth := new nat[|child|];
      D := new nat[|child|](_ => 0);
      answer := new int[|upper|](_ => -1);
      L := new int[0];
      Lnext := new int[0];
      P := new int[0];
      median := new int[0];
      new;
      forall x: nat | In(tr, x) ensures x < n { ThreadsBound(tr, child, sibling, x); }
      forall i | 0 <= i < m ensures upper[i] < n && lower[i] < n
      {
        assert IsQuery(tr, upper[i], lower[i]);
      }
    }

    /** Lines 18-24 of `treePathMaxima`: every query is pushed on the list
        of its lower end, so that L[u], Lnext[L[u]], ... run through the
        queries at u, latest first. */
    method Distribute()
      requires Valid()
      modifies this`L, this`Lnext
      ensures Valid() && ListsOk() && fresh(L) && fresh(Lnext)
    {
      L, Lnext := BuildLists();
      DistributedListed(lower, n, m);
    }

    /** The loop of `Distribute`, on fresh arrays. */
    method BuildLists() returns (Ls: array<int>, Ns: array<int>)
      requires m == |lower| && forall i :: 0 <= i < m ==> lower[i] < n
      ensures fresh(Ls) && fresh(Ns) && Ls != Ns
      ensures (Ls[..], Ns[..]) == Distributed(lower, n, m)
    {
      Ls := new int[n](_ => -1);
      Ns := new int[m](_ => -1);
      assert Ls[..] == seq(n, _ => -1) && Ns[..] == seq(m, _ => -1);
      var i := 0;
      while i < m
        invariant 0 <= i <= m && Ls.Length == n && Ns.Length == m
        invariant (Ls[..], Ns[..]) == Distributed(lower, n, i)
      {
        Ns[i] := Ls[lower[i]];
        Ls[lower[i]] := i;
        i := i + 1;
      }
    }

    /** `treePathMaxima`: distributes the queries, then answers them. */
    method TreePathMaxima() returns (r: seq<int>)
      requires Valid() && Shallow() && height == 0
      requires forall x :: 0 <= x < D.Length ==> D[x] == 0
      modifies this`L, this`Lnext, this`height, this`P, this`median, depth, D, answer
      ensures |r| == m && forall i :: 0 <= i < m ==> Answered(i, r[i])
      ensures height == Tallest(tr)
    {
      Distribute();
      r := Answer();
    }

    /** `tree_path_maxima`: records depths and query sets, builds the
        median table for the height of the tree, and visits the tree from
        the root with an empty staircase. */
    method Answer() returns (r: seq<int>)
      requires Valid() && ListsOk() && Shallow() && height == 0
      requires forall x :: 0 <= x < D.Length ==> D[x] == 0
      modifies this`height, this`P, this`median, depth, D, answer
      ensures |r| == m && forall i :: 0 <= i < m ==> Answered(i, r[i])
      ensures height == Tallest(tr)
    {
      PlacedRoot();
      Init(root, 0, tr, []);
      P := new int[height + 1];
      var table := MedianTable(height);
      median := new int[table.Length](x reads table requires 0 <= x < table.Length => table[x]);
      forall t: nat ensures !Has(0, t) { HasZero(t); }
      Visit(root, 0, tr, []);
      forall i | 0 <= i < m ensures In(tr, lower[i])
      {
        assert IsQuery(tr, upper[i], lower[i]);
      }
      r := answer[..];
    }

    /** Lines 42-43 of `init`: D[u], empty before, becomes the set of
        the depths `ds` of the upper ends of the queries `l` listed at `u`. */
    method AddQueryBits(u: nat, ghost l: seq<nat>, ghost ds: seq<nat>)
      requires Separate() && D.Length == n && u < n && L.Length == n && Lnext.Length == m && |upper| == m
      requires Chain(L[u], Lnext[..], l) && |ds| == |l|
      requires forall c :: 0 <= c < |l| ==> l[c] < m && upper[l[c]] < depth.Length && depth[upper[l[c]]] == ds[c]
      requires D[u] == 0
      modifies D
      ensures forall x :: 0 <= x < n && x != u ==> D[x] == old(D[x])
      ensures D[u] == Word(ds)
    {
      var i := L[u];
      ghost var c := 0;
      while i >= 0
        invariant 0 <= c <= |l| && i == (if c < |l| then l[c] else -1)
        invariant Lnext[..] == old(Lnext[..])
        invariant forall x :: 0 <= x < n && x != u ==> D[x] == old(D[x])
        invariant D[u] == Word(ds[..c])
        decreases |l| - c
      {
        assert ds[..c + 1][..c] == ds[..c];
        assert Lnext[..][l[c]] == (if c + 1 < |l| then l[c + 1] else -1);
        D[u] := Or(D[u], Single(depth[upper[i]]));
        assert Lnext[i] == (if c + 1 < |l| then l[c + 1] else -1);
        i := Lnext[i];
        c := c + 1;
      }
      assert ds[..c] == ds;
    }

    /** `init(u, d)`: records the depth of every node of `u`'s subtree,
        raises `height` to the deepest of them and fills D[x] for every
        node x of the subtree. */
    method Init(u: nat, d: nat, ghost s: Tree, ghost anc: seq<nat>)
      requires Valid() && ListsOk() && Shallow() && height + 2 < Width
      requires s.id == u && d == |anc| && Placed(s, anc)
      requires forall j :: 0 <= j < |anc| ==> depth[anc[j]] == j
      requires Zero(D[..], s)
      modifies this`height, depth, D
      ensures height == Max(old(height), Tallest(s)) && height + 2 < Width
      ensures Deep(depth[..], s, height) && DOk(D[..], s)
      ensures forall x :: 0 <= x < n && !In(s, x) ==> depth[x] == old(depth[x]) && D[x] == old(D[x])
      decreases s, 3
    {
      assert In(s, u);
      InitSelf(u, d, s, anc);
      forall c | 0 <= c < |s.kids| ensures Zero(D[..], s.kids[c])
      {
        forall x: nat | In(s.kids[c], x) ensures x < D.Length && D[x] == 0
        {
          assert In(s, x) && x != u;
        }
      }
      InitChildren(u, d, s, anc);
    }

    /** Lines 40-43 of `init`: the depth of u, the height, and the bits of
        the depths of the upper ends of the queries at u. */
    method InitSelf(u: nat, d: nat, ghost s: Tree, ghost anc: seq<nat>)
      requires Valid() && ListsOk() && Shallow() && height + 2 < Width
      requires s.id == u && d == |anc| && Placed(s, anc)
      requires forall j :: 0 <= j < |anc| ==> depth[anc[j]] == j
      requires u < D.Length && D[u] == 0
      modifies this`height, depth, D
      ensures Valid() && ListsOk() && height == Max(old(height), d) && height + 2 < Width
      ensures depth[u] == d && forall j: nat :: Has(D[u], j) <==> AtQuery(u, j)
      ensures forall j :: 0 <= j < |anc| ==> depth[anc[j]] == j
      ensures forall x :: 0 <= x < n && x != u ==> depth[x] == old(depth[x]) && D[x] == old(D[x])
    {
      depth[u] := d;
      if d > height {
        height := d;
      }
      ghost var l := QueriesAt(lower, u, m);
      ghost var ds := UpperDepths(l);
      forall c | 0 <= c < |l| ensures depth[upper[l[c]]] == ds[c]
      {
        UpperAbove(s, anc, l[c]);
      }
      AddQueryBits(u, l, ds);
      forall j: nat ensures Has(D[u], j) <==> AtQuery(u, j)
      {
        WordBits(ds, j);
        UpperDepthsAt(u, j);
      }
    }

    /** Lines 44-47 of `init`: each child's subtree is initialised, then
        its set, less the bit of u's own depth, is added to D[u]. */
    method InitChildren(u: nat, d: nat, ghost s: Tree, ghost anc: seq<nat>)
      requires Valid() && ListsOk() && Shallow() && height + 2 < Width
      requires s.id == u && d == |anc| && Placed(s, anc)
      requires forall j :: 0 <= j < |anc| ==> depth[anc[j]] == j
      requires depth[u] == d && d <= height
      requires forall c :: 0 <= c < |s.kids| ==> Zero(D[..], s.kids[c])
      requires forall j: nat :: Has(D[u], j) <==> AtQuery(u, j)
      modifies this`height, depth, D
      ensures height == Max(old(height), TallestKids(s, |s.kids|)) && height + 2 < Width
      ensures Deep(depth[..], s, height) && DOk(D[..], s)
      ensures forall x :: 0 <= x < n && !In(s, x) ==> depth[x] == old(depth[x]) && D[x] == old(D[x])
      decreases s, 2
    {
      assert In(s, u);
      var v := child[u];
      ghost var c := 0;
      ghost var base, kd, h, dpI, DI := D[u], [], height, depth[..], D[..];
      while v >= 0
        invariant 0 <= c <= |s.kids| && v == (if c < |s.kids| then s.kids[c].id else -1)
        invariant height == Max(h, TallestKids(s, c)) && d <= height && height + 2 < Width
        invariant depth[u] == d && |kd| == c && D[u] == Merge(base, kd, d)
        invariant forall j :: 0 <= j < |anc| ==> depth[anc[j]] == j
        invariant forall x :: 0 <= x < n && !In(s, x) ==> depth[x] == dpI[x] && D[x] == DI[x]
        invariant KidsDone(D[..], depth[..], height, s, c)
        invariant KdOk(kd, s, d)
        decreases |s.kids| - c
      {
        v, kd := InitNext(u, d, v, s, anc, c, base, kd, h, dpI, DI);
        c := c + 1;
      }
      ChildrenDone(D[..], depth[..], height, s, anc, base, kd);
    }

    /** One pass of the loop at lines 44-47 of `init`: child `c` of u,
        numbered `v`, is initialised and merged into D[u], and `v` moves
        on to its next sibling. */
    method InitNext(u: nat, d: nat, v: int, ghost s: Tree, ghost anc: seq<nat>, ghost c: nat,
                    ghost base: nat, ghost kd: seq<nat>, ghost h: nat, ghost dpI: seq<nat>, ghost DI: seq<nat>)
      returns (v': int, ghost kd': seq<nat>)
      requires Valid() && ListsOk() && Shallow() && |dpI| == n && |DI| == n
      requires s.id == u && d == |anc| && Placed(s, anc)
      requires c < |s.kids| && v == s.kids[c].id
      requires height == Max(h, TallestKids(s, c)) && d <= height && height + 2 < Width
      requires depth[u] == d && |kd| == c && D[u] == Merge(base, kd, d)
      requires forall j :: 0 <= j < |anc| ==> depth[anc[j]] == j
      requires forall x :: 0 <= x < n && !In(s, x) ==> depth[x] == dpI[x] && D[x] == DI[x]
      requires KidsDone(D[..], depth[..], height, s, c)
      requires KdOk(kd, s, d)
      modifies this`height, depth, D
      ensures v' == (if c + 1 < |s.kids| then s.kids[c + 1].id else -1)
      ensures height == Max(h, TallestKids(s, c + 1)) && d <= height && height + 2 < Width
      ensures depth[u] == d && |kd'| == c + 1 && D[u] == Merge(base, kd', d)
      ensures forall j :: 0 <= j < |anc| ==> depth[anc[j]] == j
      ensures forall x :: 0 <= x < n && !In(s, x) ==> depth[x] == dpI[x] && D[x] == DI[x]
      ensures KidsDone(D[..], depth[..], height, s, c + 1)
      ensures KdOk(kd', s, d)
      decreases s, 1
    {
      ghost var D0, dp0, h0 := D[..], depth[..], height;
      ghost var dv := InitKid(u, d, v, s, anc, c);
      KidsStep(D0, D[..], dp0, depth[..], h0, height, s, c);
      TallestStep(s, c, h, h0, height);
      KdPush(kd, dv, s, d);
      assert (kd + [dv])[..c] == kd;
      kd' := kd + [dv];
      v' := sibling[v];
    }

    /** One round of lines 45-46 of `init`: the subtree of child `v`, the
        c-th child of u, is initialised and its set `dv`, less the bit of
        u's depth, is or-ed into D[u]. */
    method InitKid(u: nat, d: nat, v: nat, ghost s: Tree, ghost anc: seq<nat>, ghost c: nat) returns (ghost dv: nat)
      requires Valid() && ListsOk() && Shallow() && height + 2 < Width
      requires s.id == u && d == |anc| && Placed(s, anc) && c < |s.kids| && v == s.kids[c].id
      requires forall j :: 0 <= j < |anc| ==> depth[anc[j]] == j
      requires depth[u] == d && d <= height
      requires Zero(D[..], s.kids[c])
      modifies this`height, depth, D
      ensures height == Max(old(height), Tallest(s.kids[c])) && height + 2 < Width
      ensures Deep(depth[..], s.kids[c], height) && DOk(D[..], s.kids[c])
      ensures forall j: nat :: Has(dv, j) <==> j <= d && Wants(s.kids[c], j)
      ensures D[u] == Or(old(D[u]), And(dv, Not(Single(d)))) && depth[u] == d
      ensures forall x :: 0 <= x < n && !In(s.kids[c], x) && x != u ==> depth[x] == old(depth[x]) && D[x] == old(D[x])
      decreases s, 0
    {
      ghost var k := s.kids[c];
      PlacedKid(s, anc, c);
      assert In(s, u) && !In(k, u);
      Init(v, d + 1, k, anc + [u]);
      ghost var D1 := D[..];
      assert In(k, v);
      dv := D[v];
      D[u] := Or(D[u], And(D[v], Not(Single(d))));
      DOkFrame(D1, D[..], k);
    }

    /** max({j in S | weight[P[j]] > w} union {0}), by halving `S` around
        its median while more than one depth is left.  `ws` gives the
        weights of the nodes in `P`, which fall along `S`. */
    method BinarySearch(w: int, S: nat, ghost ws: seq<int>) returns (k: nat)
      requires Ok() && TableOk() && height + 2 < Width
      requires |ws| <= P.Length && |ws| <= height + 1
      requires forall t :: 0 <= t < |ws| ==> 0 <= P[t] < |weight| && weight[P[t]] == ws[t]
      requires forall t: nat :: Has(S, t) ==> t < |ws|
      requires forall t: nat, y: nat :: Has(S, t) && Has(S, y) && t < y ==> ws[y] <= ws[t]
      ensures SearchResult(ws, S, w, k)
    {
      if S == 0 {
        forall t: nat ensures !Has(S, t) { HasZero(t); }
        return 0;
      }
      BitsBound(S, height + 1);
      var R := S;
      var j: nat := median[R];
      ghost var lo: nat, hi: nat := 0, |ws|;
      while R != Single(j)
        invariant 0 < R < median.Length && j == median[R] && IsMedian(R, j, height)
        invariant SearchInv(ws, S, w, R, lo, hi)
        decreases R
      {
        var R' := And(R, if weight[P[j]] > w then Not(LowMask(j)) else LowMask(j));
        SearchStep(ws, S, w, R, j, lo, hi, height);
        if weight[P[j]] > w { lo := j; } else { hi := j; }
        R := R';
        j := median[R];
      }
      SearchExit(ws, S, w, j, lo, hi);
      k := if weight[P[j]] > w then j else 0;
    }

    /** `visit(v, S)`: pushes v on the path stack, cuts the parent's
        staircase `S` at the deepest step heavier than v, adds v, answers
        the queries at v and visits v's children. */
    method Visit(v: nat, S: nat, ghost s: Tree, ghost anc: seq<nat>)
      requires Valid() && ListsOk() && DepthOk() && TableOk() && height + 2 < Width
      requires s.id == v && Placed(s, anc) && DOk(D[..], s)
      requires P.Length == height + 1 && forall j :: 0 <= j < |anc| ==> P[j] == anc[j]
      requires Staircase(Ws(anc), S) && Serves(Ws(anc), S, D[v])
      modifies P, answer
      ensures forall j :: 0 <= j < |anc| ==> P[j] == old(P[j])
      ensures forall i :: 0 <= i < m && In(s, lower[i]) ==> Answered(i, answer[i])
      ensures forall i :: 0 <= i < m && !In(s, lower[i]) ==> answer[i] == old(answer[i])
      decreases s, 1
    {
      assert In(s, v);
      P[depth[v]] := v;
      ghost var ws := Ws(anc);
      StairSearchable(ws, D[v], S);
      var k := BinarySearch(weight[v], Down(D[v], S), ws);
      VisitStep(ws, weight[v], D[v], S, k);
      var Sv := Down(D[v], Cut(S, k, depth[v]));
      assert ws + [weight[v]] == Ws(anc + [v]);
      forall i | 0 <= i < m && lower[i] == v ensures depth[upper[i]] == dep[upper[i]]
      {
        assert IsQuery(tr, upper[i], lower[i]);
      }
      AnswerQueries(v, Sv, s, anc);
      VisitChildren(v, Sv, s, anc);
    }

    /** Lines 92-93 of `visit`: each query at v reads its answer off the
        new staircase `Sv`. */
    method AnswerQueries(v: nat, Sv: nat, ghost s: Tree, ghost anc: seq<nat>)
      requires Valid() && ListsOk() && TableOk() && height + 2 < Width
      requires s.id == v && Placed(s, anc) && v < D.Length
      requires forall j: nat :: Has(D[v], j) <==> j < |anc| && Wants(s, j)
      requires forall i :: 0 <= i < m && lower[i] == v ==> depth[upper[i]] == dep[upper[i]]
      requires P.Length == height + 1 && |anc| <= height
      requires forall j :: 0 <= j <= |anc| ==> P[j] == (anc + [v])[j]
      requires Serves(Ws(anc + [v]), Sv, D[v])
      modifies answer
      ensures forall i :: 0 <= i < m && lower[i] == v ==> Answered(i, answer[i])
      ensures forall i :: 0 <= i < m && lower[i] != v ==> answer[i] == old(answer[i])
    {
      forall i | 0 <= i < m && lower[i] == v ensures Readable(i, Sv)
      {
        AnswerRead(i, s, anc, Sv, D[v], P[..], median[..], height);
      }
      WriteAnswers(v, Sv);
    }

    /** `a` agrees with `aI` on every query whose lower end is not `v`. */
    ghost predicate Kept(a: seq<int>, aI: seq<int>, v: nat)
    {
      |a| == |aI| == m <= |lower| && forall i :: 0 <= i < m && lower[i] != v ==> a[i] == aI[i]
    }

    /** Writing the answer of the c-th query on the list at v keeps the
        earlier answers and the entries of the other nodes' queries. */
    lemma WriteStep(a0: seq<int>, aI: seq<int>, l: seq<nat>, c: nat, r: int, v: nat)
      requires m == |lower| && l == QueriesAt(lower, v, m) && c < |l|
      requires AllAnswered(a0, l[..c]) && Kept(a0, aI, v) && Fits(l[c]) && Answered(l[c], r)
      ensures AllAnswered(a0[l[c] := r], l[..c + 1]) && Kept(a0[l[c] := r], aI, v)
    {
      forall c' | 0 <= c' < c ensures l[c'] != l[c] { QueriesAtOrder(lower, v, m, c', c); }
      TakeSnoc(l, c);
      AllAnsweredPush(a0, l[..c], l[c], r);
    }

    /** The read at line 93 of `visit`: the path stack entry at the
        median of the staircase below depth(upper[i]). */
    method ReadAnswer(i: nat, Sv: nat) returns (r: int)
      requires Readable(i, Sv)
      ensures Fits(i) && Answered(i, r)
    {
      r := P[median[Down(Single(depth[upper[i]]), Sv)]];
    }

    /** The loop of lines 92-93 of `visit`, over the list of queries at v. */
    method WriteAnswers(v: nat, Sv: nat)
      requires v < L.Length && Lnext.Length == m == |lower| == answer.Length
      requires Chain(L[v], Lnext[..], QueriesAt(lower, v, m))
      requires depth as object != answer && answer != median && answer != P && answer != L && answer != Lnext
      requires forall i :: 0 <= i < m && lower[i] == v ==> Readable(i, Sv)
      modifies answer
      ensures forall i :: 0 <= i < m && lower[i] == v ==> Fits(i) && Answered(i, answer[i])
      ensures forall i :: 0 <= i < m && lower[i] != v ==> answer[i] == old(answer[i])
    {
      ghost var l := QueriesAt(lower, v, m);
      var i := L[v];
      ghost var c := 0;
      ghost var aI := answer[..];
      while i >= 0
        invariant 0 <= c <= |l| && i == (if c < |l| then l[c] else -1)
        invariant AllAnswered(answer[..], l[..c]) && Kept(answer[..], aI, v)
        decreases |l| - c
      {
        ghost var a0 := answer[..];
        var r := ReadAnswer(i, Sv);
        answer[i] := r;
        assert answer[..] == a0[i := r];
        WriteStep(a0, aI, l, c, r, v);
        assert Lnext[..][l[c]] == (if c + 1 < |l| then l[c + 1] else -1);
        i := Lnext[i];
        c := c + 1;
      }
      assert l[..c] == l;
      forall i' | 0 <= i' < m && lower[i'] == v ensures Fits(i') && Answered(i', answer[i'])
      {
        QueriesAtComplete(lower, v, m, i');
        var c' :| 0 <= c' < |l| && l[c'] == i';
      }
    }

    /** Line 95 of `visit`: every child of v is visited with the new
        staircase. */
    method VisitChildren(v: nat, Sv: nat, ghost s: Tree, ghost anc: seq<nat>)
      requires Valid() && ListsOk() && DepthOk() && TableOk() && height + 2 < Width
      requires s.id == v && Placed(s, anc) && DOk(D[..], s)
      requires P.Length == height + 1 && forall j :: 0 <= j <= |anc| ==> P[j] == (anc + [v])[j]
      requires Staircase(Ws(anc + [v]), Sv) && Serves(Ws(anc + [v]), Sv, D[v])
      modifies P, answer
      ensures forall j :: 0 <= j <= |anc| ==> P[j] == old(P[j])
      ensures forall i :: 0 <= i < m && In(s, lower[i]) && lower[i] != v ==> Answered(i, answer[i])
      ensures forall i :: 0 <= i < m && (!In(s, lower[i]) || lower[i] == v) ==> answer[i] == old(answer[i])
      decreases s, 0
    {
      var z := child[v];
      ghost var c := 0;
      while z >= 0
        invariant 0 <= c <= |s.kids| && z == (if c < |s.kids| then s.kids[c].id else -1)
        invariant forall j :: 0 <= j <= |anc| ==> P[j] == old(P[j])
        invariant answer.Length == m && KidsAnswered(answer[..], s, c)
        invariant forall i :: 0 <= i < m && (!In(s, lower[i]) || lower[i] == v) ==> answer[i] == old(answer[i])
        decreases |s.kids| - c
      {
        ghost var k := s.kids[c];
        PlacedKid(s, anc, c);
        assert In(k, z);
        forall a: nat | Has(D[z], a) && a + 1 < |anc + [v]| ensures Has(D[v], a)
        {
          WantsKid(s, c, a);
        }
        ghost var a0 := answer[..];
        Visit(z, Sv, k, anc + [v]);
        DoneApart(s, c);
        KidsAnsweredStep(a0, answer[..], s, c);
        z := sibling[z];
        c := c + 1;
      }
      forall i | 0 <= i < m && In(s, lower[i]) && lower[i] != v ensures Answered(i, answer[i])
      {
        var c' := KidOf(s, lower[i]);
        assert Done(s, c, lower[i]);
        assert answer[..][i] == answer[i];
      }
    }

    /** No node below the first `c` children of `s` lies below child `c`. */
    lemma DoneApart(s: Tree, c: nat)
      requires Distinct(s) && c < |s.kids|
      ensures forall x :: Done(s, c, x) ==> !In(s.kids[c], x)
    {
      forall x | Done(s, c, x) ensures !In(s.kids[c], x)
      {
        var c' :| 0 <= c' < c && c' < |s.kids| && In(s.kids[c'], x);
      }
    }

    /** Every query whose lower end lies below one of the first `c` children
        of `s` is answered in `a`. */
    ghost predicate KidsAnswered(a: seq<int>, s: Tree, c: nat)
    {
      forall i :: 0 <= i < |lower| && Done(s, c, lower[i]) ==> i < |a| && Fits(i) && Answered(i, a[i])
    }

    /** Visiting child `c` answers its queries and leaves those of the
        earlier children alone. */
    lemma KidsAnsweredStep(a0: seq<int>, a1: seq<int>, s: Tree, c: nat)
      requires c < |s.kids| && |a0| == |a1| == |lower|
      requires forall x :: Done(s, c, x) ==> !In(s.kids[c], x)
      requires KidsAnswered(a0, s, c)
      requires forall i :: 0 <= i < |lower| && In(s.kids[c], lower[i]) ==> Fits(i) && Answered(i, a1[i])
      requires forall i :: 0 <= i < |lower| && !In(s.kids[c], lower[i]) ==> a1[i] == a0[i]
      ensures KidsAnswered(a1, s, c + 1)
    {
      forall i | 0 <= i < |lower| && Done(s, c + 1, lower[i]) ensures i < |a1| && Fits(i) && Answered(i, a1[i])
      {
        var c' :| 0 <= c' < c + 1 && c' < |s.kids| && In(s.kids[c'], lower[i]);
        if c' < c {
          assert Done(s, c, lower[i]);
          assert a1[i] == a0[i];
        } else {
          assert In(s.kids[c], lower[i]);
        }
      }
    }

    /** `x` lies in one of the first `c` children's subtrees. */
    ghost predicate Done(s: Tree, c: nat, x: nat)
    {
      exists c' :: 0 <= c' < c && c' < |s.kids| && In(s.kids[c'], x)
    }
  }
}
