/**
 * The rooted tree that verification.cpp walks through its `child` and
 * `sibling` arrays (first child and next sibling, -1 for none).  The
 * shape itself is a ghost value: a node id and the subtrees of its
 * children in sibling order.
 */
module RootedTree {

  datatype Tree = Node(id: nat, kids: seq<Tree>)

  /** `x` is a node of `t`. */
  ghost predicate In(t: Tree, x: nat)
    decreases t
  {
    x == t.id || exists i :: 0 <= i < |t.kids| && In(t.kids[i], x)
  }

  /** Every node id occurs once. */
  ghost predicate Distinct(t: Tree)
    decreases t
  {
    && (forall i :: 0 <= i < |t.kids| ==> !In(t.kids[i], t.id))
    && (forall i, j, x: nat {:trigger In(t.kids[i], x), In(t.kids[j], x)} :: 0 <= i < j < |t.kids| && In(t.kids[i], x) ==> !In(t.kids[j], x))
    && (forall i :: 0 <= i < |t.kids| ==> Distinct(t.kids[i]))
  }

  /** `child[u]` is the first child of `u` and `sibling[v]` the next child of
      `v`'s parent, in the order of `t.kids`, throughout `t`. */
  ghost predicate Threads(t: Tree, child: seq<int>, sibling: seq<int>)
    decreases t
  {
    && t.id < |child| && t.id < |sibling|
    && child[t.id] == (if |t.kids| == 0 then -1 else t.kids[0].id)
    && (forall i {:trigger sibling[t.kids[i].id]} :: 0 <= i < |t.kids| ==>
          t.kids[i].id < |sibling| &&
          sibling[t.kids[i].id] == (if i + 1 < |t.kids| then t.kids[i + 1].id else -1))
    && (forall i :: 0 <= i < |t.kids| ==> Threads(t.kids[i], child, sibling))
  }

  /** The child of the root whose subtree holds `x`. */
  ghost function KidOf(t: Tree, x: nat): (i: nat)
    requires In(t, x) && x != t.id
    ensures i < |t.kids| && In(t.kids[i], x)
  {
    var i :| 0 <= i < |t.kids| && In(t.kids[i], x); i
  }

  /** The ids on the way from the root of `t` down to `x`. */
  ghost function Path(t: Tree, x: nat): (r: seq<nat>)
    requires In(t, x)
    ensures |r| >= 1 && r[0] == t.id && r[|r| - 1] == x
    decreases t
  {
    if x == t.id then [x]
    else [t.id] + Path(t.kids[KidOf(t, x)], x)
  }

  /** The child holding `x` is the only one. */
  lemma KidUnique(t: Tree, i: nat, x: nat)
    requires Distinct(t) && i < |t.kids| && In(t.kids[i], x)
    ensures In(t, x) && x != t.id && KidOf(t, x) == i
  {
    assert x != t.id;
    var j := KidOf(t, x);
  }

  /** Every node id of a threaded tree indexes `child`. */
  lemma {:induction false} ThreadsBound(t: Tree, child: seq<int>, sibling: seq<int>, x: nat)
    requires Threads(t, child, sibling) && In(t, x)
    ensures x < |child|
    decreases t
  {
    if x != t.id {
      var i := KidOf(t, x);
      ThreadsBound(t.kids[i], child, sibling, x);
    }
  }

  /** Below the root the path continues in the child's subtree. */
  lemma PathKid(t: Tree, i: nat, x: nat)
    requires Distinct(t) && i < |t.kids| && In(t.kids[i], x)
    ensures In(t, x) && Path(t, x) == [t.id] + Path(t.kids[i], x)
  {
    KidUnique(t, i, x);
  }

  lemma ConsPrefix(h: nat, p: seq<nat>, a: nat)
    requires 0 < a <= |p|
    ensures ([h] + p)[a] == p[a - 1] && ([h] + p)[..a + 1] == [h] + p[..a]
  {
  }

  /** Every node on the path to `x` is in the tree, and its own path is the
      corresponding prefix. */
  lemma {:induction false} PathPrefix(t: Tree, x: nat, a: nat)
    requires Distinct(t) && In(t, x) && a < |Path(t, x)|
    ensures In(t, Path(t, x)[a]) && Path(t, Path(t, x)[a]) == Path(t, x)[..a + 1]
    decreases t
  {
    if a > 0 {
      var i := KidOf(t, x);
      var k := t.kids[i];
      PathKid(t, i, x);
      var p := Path(k, x);
      PathPrefix(k, x, a - 1);
      PathKid(t, i, p[a - 1]);
      ConsPrefix(t.id, p, a);
    }
  }
}
