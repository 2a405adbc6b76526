/**
 * The contraction forest of boruvka_tree/: nodes with a parent, a weight to
 * that parent, a list of children and the tag of the constructor that made
 * them, plus the two maps `vertexToNode` / `nodeToVertex` between graph
 * vertices and nodes.
 *
 * Nodes live in an arena: the tree owns a sequence of node objects and a
 * node is referred to by its index in it, with `Null` (-1) for the null
 * pointer.  The tree's observable state is `State()`, a value of type
 * `ForestState`; every operation is specified by a function on that value
 * (`CreateSpec`, `SetParentSpec`, `LinkSpec`) and the lemmas below are
 * about those functions.
 */
module BoruvkaForest {

  /** The null node pointer. */
  const Null: int := -1

  /** Edge weights and `weightToParent` are C++ `int`s. */
  type Int32 = x: int | -0x8000_0000 <= x < 0x8000_0000

  /** The fields of one node, as a value. */
  datatype NodeRec = NodeRec(parent: int, weightToParent: Int32, children: seq<int>, constructorType: int)

  /** Everything a `BoruvkaTree` holds, as a value.  `vertexToNode` and
      `nodeToVertex` map into and out of arena indices. */
  datatype ForestState = ForestState(
    numNodes: int,
    root: int,
    nodes: seq<NodeRec>,
    vertexToNode: map<nat, nat>,
    nodeToVertex: map<nat, nat>)

  /** The tag `getType` reads for vertex `v`: that of its node, or 0 -- the
      tag of a default-constructed node -- when the map has no node for it. */
  function TypeOf(s: ForestState, v: nat): (t: int)
    ensures v !in s.vertexToNode ==> t == 0
  {
    if v in s.vertexToNode && s.vertexToNode[v] < |s.nodes| then s.nodes[s.vertexToNode[v]].constructorType
    else 0
  }

  /** A node made by the vertex constructor and then hung under the root
      with weight -1, as `create` and `setParent` make them. */
  function Leaf(root: int): NodeRec
  {
    NodeRec(root, -1, [], 1)
  }

  /** Allocate a node for `v` at the end of the arena and record it in both
      maps. */
  function AddNode(s: ForestState, v: nat): (r: ForestState)
    ensures |r.nodes| == |s.nodes| + 1 && r.nodes[..|s.nodes|] == s.nodes
    ensures r.nodes[|s.nodes|] == Leaf(s.root)
    ensures r.vertexToNode == s.vertexToNode[v := |s.nodes|]
    ensures r.nodeToVertex == s.nodeToVertex[|s.nodes| := v]
    ensures r.root == s.root && r.numNodes == s.numNodes
  {
    s.(nodes := s.nodes + [Leaf(s.root)],
       vertexToNode := s.vertexToNode[v := |s.nodes|],
       nodeToVertex := s.nodeToVertex[|s.nodes| := v])
  }

  /** What `create(vs)` does: walk the list and give each vertex that has
      no constructed node a new leaf. */
  function CreateSpec(s: ForestState, vs: seq<nat>): ForestState
  {
    if vs == [] then s
    else
      var s' := CreateSpec(s, vs[..|vs| - 1]);
      var v := vs[|vs| - 1];
      if TypeOf(s', v) == 0 then AddNode(s', v) else s'
  }

  /** The node-pointer `setParent(child, parent, weight)`: the child's
      parent and weight are set, then the child is appended to the parent's
      children. */
  function LinkSpec(s: ForestState, child: nat, parent: nat, weight: Int32): (r: ForestState)
    requires child < |s.nodes| && parent < |s.nodes|
  {
    var n1 := s.nodes[child := s.nodes[child].(parent := parent, weightToParent := weight)];
    s.(nodes := n1[parent := n1[parent].(children := n1[parent].children + [child])])
  }

  /** The vertex `setParent(child, parent, weight)`: build the parent's node
      if it has none, then link the two nodes. */
  function SetParentSpec(s: ForestState, child: nat, parent: nat, weight: Int32): ForestState
    requires WellFormed(s) && child in s.vertexToNode
  {
    var s' := if TypeOf(s, parent) == 0 then AddNode(s, parent) else s;
    LinkSpec(s', s'.vertexToNode[child], s'.vertexToNode[parent], weight)
  }

  /** The invariant of the forest: the two maps are mutually inverse and
      cover the arena, every node was built by the vertex constructor, the
      root is the null pointer, and every parent or child reference is a
      node or null. */
  ghost predicate WellFormed(s: ForestState)
  {
    && s.root == Null
    && (forall v :: v in s.vertexToNode ==>
          s.vertexToNode[v] < |s.nodes| && s.vertexToNode[v] in s.nodeToVertex
          && s.nodeToVertex[s.vertexToNode[v]] == v)
    && (forall n :: n in s.nodeToVertex ==>
          n < |s.nodes| && s.nodeToVertex[n] in s.vertexToNode && s.vertexToNode[s.nodeToVertex[n]] == n)
    && (forall i :: 0 <= i < |s.nodes| ==> i in s.nodeToVertex)
    && (forall i :: 0 <= i < |s.nodes| ==> NodeOk(s.nodes[i], |s.nodes|))
  }

  ghost predicate NodeOk(n: NodeRec, count: nat)
  {
    && n.constructorType == 1
    && (n.parent == Null || 0 <= n.parent < count)
    && (forall j :: 0 <= j < |n.children| ==> 0 <= n.children[j] < count)
  }

  lemma NodeOkGrows(n: NodeRec, count: nat, count': nat)
    requires NodeOk(n, count) && count <= count'
    ensures NodeOk(n, count')
  {
  }

  /** Under the invariant a vertex has tag 0 exactly when it has no node. */
  lemma TypeOfMissing(s: ForestState, v: nat)
    requires WellFormed(s)
    ensures TypeOf(s, v) == 0 <==> v !in s.vertexToNode
  {
  }

  /** Adding a node for a vertex without one keeps the invariant. */
  lemma AddNodeWellFormed(s: ForestState, v: nat)
    requires WellFormed(s) && v !in s.vertexToNode
    ensures WellFormed(AddNode(s, v))
  {
    var r := AddNode(s, v);
    assert |s.nodes| !in s.nodeToVertex;
    forall i | 0 <= i < |r.nodes|
      ensures NodeOk(r.nodes[i], |r.nodes|)
    {
      if i < |s.nodes| {
        NodeOkGrows(s.nodes[i], |s.nodes|, |r.nodes|);
      }
    }
  }

  /** `create` keeps the maps mutually inverse and the rest of the
      invariant. */
  lemma {:induction false} CreateWellFormed(s: ForestState, vs: seq<nat>)
    requires WellFormed(s)
    ensures WellFormed(CreateSpec(s, vs))
  {
    if vs != [] {
      var s' := CreateSpec(s, vs[..|vs| - 1]);
      CreateWellFormed(s, vs[..|vs| - 1]);
      TypeOfMissing(s', vs[|vs| - 1]);
      if TypeOf(s', vs[|vs| - 1]) == 0 {
        AddNodeWellFormed(s', vs[|vs| - 1]);
      }
    }
  }

  /** `create` never replaces an existing node: the old arena is a prefix
      of the new one, every old map entry stays, and the root and node
      count are untouched. */
  lemma {:induction false} CreateKeeps(s: ForestState, vs: seq<nat>)
    requires WellFormed(s)
    ensures var r := CreateSpec(s, vs);
      && |s.nodes| <= |r.nodes| && r.nodes[..|s.nodes|] == s.nodes
      && (forall v :: v in s.vertexToNode ==> v in r.vertexToNode && r.vertexToNode[v] == s.vertexToNode[v])
      && (forall n :: n in s.nodeToVertex ==> n in r.nodeToVertex && r.nodeToVertex[n] == s.nodeToVertex[n])
      && r.root == s.root && r.numNodes == s.numNodes
  {
    if vs != [] {
      var s' := CreateSpec(s, vs[..|vs| - 1]);
      CreateKeeps(s, vs[..|vs| - 1]);
      CreateWellFormed(s, vs[..|vs| - 1]);
      TypeOfMissing(s', vs[|vs| - 1]);
      if TypeOf(s', vs[|vs| - 1]) == 0 {
        var r := AddNode(s', vs[|vs| - 1]);
        assert r.nodes[..|s.nodes|] == s'.nodes[..|s.nodes|];
      }
    }
  }

  /** After `create`, every listed vertex has a node. */
  lemma {:induction false} CreateCovers(s: ForestState, vs: seq<nat>)
    requires WellFormed(s)
    ensures forall v :: v in vs ==> v in CreateSpec(s, vs).vertexToNode
  {
    if vs != [] {
      var s' := CreateSpec(s, vs[..|vs| - 1]);
      CreateCovers(s, vs[..|vs| - 1]);
      CreateWellFormed(s, vs[..|vs| - 1]);
      TypeOfMissing(s', vs[|vs| - 1]);
      CreateKeeps(s', [vs[|vs| - 1]]);
      assert [vs[|vs| - 1]][..0] == [];
      assert vs == vs[..|vs| - 1] + [vs[|vs| - 1]];
    }
  }

  /** The nodes `create` adds are new leaves under the root, each belonging
      to a listed vertex that had no node before. */
  lemma {:induction false} CreateNewNodes(s: ForestState, vs: seq<nat>)
    requires WellFormed(s)
    ensures var r := CreateSpec(s, vs);
      forall i :: |s.nodes| <= i < |r.nodes| ==>
        r.nodes[i] == Leaf(s.root) && i in r.nodeToVertex
        && r.nodeToVertex[i] in vs && r.nodeToVertex[i] !in s.vertexToNode
  {
    if vs != [] {
      var vs', v := vs[..|vs| - 1], vs[|vs| - 1];
      assert vs == vs' + [v];
      var s' := CreateSpec(s, vs');
      CreateNewNodes(s, vs');
      CreateKeeps(s, vs');
      CreateWellFormed(s, vs');
      TypeOfMissing(s', v);
      if TypeOf(s', v) == 0 {
        NewNodesStep(s, s', vs', v);
      }
    }
  }

  /** One more node for a vertex `v` that had none keeps the added nodes
      new leaves of listed vertices. */
  lemma NewNodesStep(s: ForestState, s': ForestState, vs': seq<nat>, v: nat)
    requires |s.nodes| <= |s'.nodes| && s'.root == s.root && v !in s.vertexToNode
    requires forall i :: |s.nodes| <= i < |s'.nodes| ==>
               s'.nodes[i] == Leaf(s.root) && i in s'.nodeToVertex
               && s'.nodeToVertex[i] in vs' && s'.nodeToVertex[i] !in s.vertexToNode
    ensures var r := AddNode(s', v);
      forall i :: |s.nodes| <= i < |r.nodes| ==>
        r.nodes[i] == Leaf(s.root) && i in r.nodeToVertex
        && r.nodeToVertex[i] in vs' + [v] && r.nodeToVertex[i] !in s.vertexToNode
  {
    var r := AddNode(s', v);
    forall i | |s.nodes| <= i < |r.nodes|
      ensures r.nodes[i] == Leaf(s.root) && i in r.nodeToVertex
              && r.nodeToVertex[i] in vs' + [v] && r.nodeToVertex[i] !in s.vertexToNode
    {
      if i < |s'.nodes| {
        assert r.nodes[i] == s'.nodes[i];
      }
    }
  }

  /** `create` on a list whose vertices all have nodes changes nothing. */
  lemma {:induction false} CreateNoop(s: ForestState, vs: seq<nat>)
    requires WellFormed(s)
    requires forall v :: v in vs ==> v in s.vertexToNode
    ensures CreateSpec(s, vs) == s
  {
    if vs != [] {
      CreateNoop(s, vs[..|vs| - 1]);
      TypeOfMissing(s, vs[|vs| - 1]);
    }
  }

  /** Calling `create` twice with the same list is the same as calling it
      once. */
  lemma CreateIdempotent(s: ForestState, vs: seq<nat>)
    requires WellFormed(s)
    ensures CreateSpec(CreateSpec(s, vs), vs) == CreateSpec(s, vs)
  {
    CreateWellFormed(s, vs);
    CreateCovers(s, vs);
    CreateNoop(CreateSpec(s, vs), vs);
  }

  /** The vertex `setParent`: the parent's node is created only when it is
      missing, as a new leaf under the root with weight -1 recorded in both
      maps; afterwards the child's node has the parent's node as parent
      with weight `weight`, the parent's children have gained the child at
      the end, the maps stay inverse, and no other node changes. */
  lemma {:induction false} SetParentEffect(s: ForestState, child: nat, parent: nat, weight: Int32)
    requires WellFormed(s) && child in s.vertexToNode
    ensures var r := SetParentSpec(s, child, parent, weight);
      && WellFormed(r)
      && (parent in s.vertexToNode ==> r.vertexToNode == s.vertexToNode && |r.nodes| == |s.nodes|)
      && (parent !in s.vertexToNode ==>
            && |r.nodes| == |s.nodes| + 1
            && r.vertexToNode == s.vertexToNode[parent := |s.nodes|]
            && r.nodeToVertex == s.nodeToVertex[|s.nodes| := parent]
            && r.nodes[|s.nodes|].parent == s.root && r.nodes[|s.nodes|].weightToParent == -1
            && r.nodes[|s.nodes|].constructorType == 1)
      && var c, p := r.vertexToNode[child], r.vertexToNode[parent];
         && c == s.vertexToNode[child]
         && r.nodes[c].parent == p && r.nodes[c].weightToParent == weight
         && r.nodes[p].children == (if c == p then s.nodes[c].children
                                   else if p < |s.nodes| then s.nodes[p].children else []) + [c]
         && (forall i :: 0 <= i < |s.nodes| && i != c && i != p ==> r.nodes[i] == s.nodes[i])
  {
    TypeOfMissing(s, parent);
    var s' := if TypeOf(s, parent) == 0 then AddNode(s, parent) else s;
    if TypeOf(s, parent) == 0 {
      AddNodeWellFormed(s, parent);
    }
    var c, p := s'.vertexToNode[child], s'.vertexToNode[parent];
    var r := LinkSpec(s', c, p, weight);
    forall i | 0 <= i < |r.nodes|
      ensures NodeOk(r.nodes[i], |r.nodes|)
    {
      assert NodeOk(s'.nodes[i], |s'.nodes|);
    }
  }

  /** A forest node.  `parent` is an arena index or `Null`; `children` is the
      list `addChild` appends to; `constructorType` records which
      constructor made the node. */
  class BoruvkaNode {
    var parent: int
    var weightToParent: Int32
    var children: seq<int>
    var constructorType: int

    /** The node's fields as a value. */
    function Rec(): NodeRec
      reads this
    {
      NodeRec(parent, weightToParent, children, constructorType)
    }

    /** The tag is that of one of the two constructors. */
    ghost predicate Valid()
      reads this
    {
      constructorType == 0 || constructorType == 1
    }

    /** The default constructor: a null parent, tag 0 and weight -1. */
    constructor ()
      ensures Valid() && Rec() == NodeRec(Null, -1, [], 0)
    {
      parent := Null;
      constructorType := 0;
      weightToParent := -1;
      children := [];
    }

    /** The vertex constructor: a null parent, tag 1 and weight -1.  The
        vertex itself is not stored. */
    constructor FromVertex(vertex: nat)
      ensures Valid() && Rec() == NodeRec(Null, -1, [], 1)
    {
      parent := Null;
      constructorType := 1;
      weightToParent := -1;
      children := [];
    }

    /** `addChild`: the child is appended; parent, weight and tag stay. */
    method AddChild(child: int)
      requires Valid()
      modifies this
      ensures Valid()
      ensures Rec() == old(Rec()).(children := old(children) + [child])
    {
      children := children + [child];
    }

    /** `setParent`: exactly the parent and the weight change. */
    method SetParent(p: int, weight: Int32)
      requires Valid()
      modifies this
      ensures Valid()
      ensures Rec() == old(Rec()).(parent := p, weightToParent := weight)
    {
      parent := p;
      weightToParent := weight;
    }

    /** `getType`: the constructor tag, which is 0 or 1 for every node the
        two constructors can build, since no method changes it. */
    function GetType(): (t: int)
      reads this
      requires Valid()
      ensures t == 0 || t == 1
      ensures t == 1 <==> Rec().constructorType == 1
    {
      constructorType
    }
  }

  class BoruvkaTree {
    var numNodes: int
    var root: int
    var nodes: seq<BoruvkaNode>
    var vertexToNode: map<nat, nat>
    var nodeToVertex: map<nat, nat>

    /** The fields of every node in the arena, in arena order. */
    ghost function View(): (v: seq<NodeRec>)
      reads this, nodes
      ensures |v| == |nodes| && forall i :: 0 <= i < |nodes| ==> v[i] == nodes[i].Rec()
    {
      seq(|nodes|, i reads this, nodes requires 0 <= i < |nodes| => nodes[i].Rec())
    }

    ghost function State(): ForestState
      reads this, nodes
    {
      ForestState(numNodes, root, View(), vertexToNode, nodeToVertex)
    }

    /** Distinct arena slots hold distinct node objects, and the state is
        well formed. */
    ghost predicate Valid()
      reads this, nodes
    {
      && (forall i, j :: 0 <= i < j < |nodes| ==> nodes[i] != nodes[j])
      && WellFormed(State())
    }

    /** `BoruvkaTree(numLeaves)`: records the node count and creates no
        nodes. */
    constructor (numLeaves: int)
      ensures Valid()
      ensures State() == ForestState(numLeaves, Null, [], map[], map[])
    {
      numNodes := numLeaves;
      root := Null;
      nodes := [];
      vertexToNode := map[];
      nodeToVertex := map[];
    }

    /** `getRoot`: the root, which nothing ever sets. */
    function GetRoot(): (r: int)
      reads this, nodes
      requires Valid()
      ensures r == Null
    {
      root
    }

    /** The tag `getType` reads for vertex `v`. */
    function TypeOfVertex(v: nat): (t: int)
      reads this, nodes
      requires Valid()
      ensures t == TypeOf(State(), v)
    {
      if v in vertexToNode then nodes[vertexToNode[v]].GetType() else 0
    }

    /** Allocate a leaf for vertex `v`, which has no node yet. */
    method NewLeaf(v: nat)
      requires Valid() && v !in vertexToNode
      modifies this
      ensures Valid()
      ensures State() == AddNode(old(State()), v)
      ensures |nodes| == |old(nodes)| + 1 && nodes[..|old(nodes)|] == old(nodes)
      ensures fresh(nodes[|old(nodes)|])
    {
      ghost var s := State();
      var newNode := new BoruvkaNode.FromVertex(v);
      newNode.SetParent(root, -1);
      assert View() == s.nodes && newNode.Rec() == Leaf(s.root);
      vertexToNode := vertexToNode[v := |nodes|];
      nodeToVertex := nodeToVertex[|nodes| := v];
      nodes := nodes + [newNode];
      assert View() == s.nodes + [Leaf(s.root)];
      assert State() == AddNode(s, v);
      AddNodeWellFormed(s, v);
      assert forall i :: 0 <= i < |nodes| - 1 ==> nodes[i] != newNode;
    }

    /** `create(vertices)`: a leaf for each listed vertex that has none. */
    method Create(vertices: seq<nat>)
      requires Valid()
      modifies this
      ensures Valid()
      ensures State() == CreateSpec(old(State()), vertices)
    {
      ghost var s0 := State();
      var i := 0;
      while i < |vertices|
        invariant 0 <= i <= |vertices|
        invariant Valid()
        invariant State() == CreateSpec(s0, vertices[..i])
      {
        assert vertices[..i + 1][..i] == vertices[..i];
        if TypeOfVertex(vertices[i]) == 0 {
          TypeOfMissing(State(), vertices[i]);
          NewLeaf(vertices[i]);
        }
        i := i + 1;
      }
      assert vertices[..i] == vertices;
    }

    /** The node-pointer `setParent(child, parent, weight)`. */
    method LinkNodes(child: nat, parent: nat, weight: Int32)
      requires Valid() && child < |nodes| && parent < |nodes|
      modifies nodes[child], nodes[parent]
      ensures Valid()
      ensures State() == LinkSpec(old(State()), child, parent, weight)
    {
      ghost var s := State();
      nodes[child].SetParent(parent, weight);
      nodes[parent].AddChild(child);
      assert View() == LinkSpec(s, child, parent, weight).nodes;
      assert WellFormed(State()) by {
        forall i | 0 <= i < |nodes|
          ensures NodeOk(View()[i], |nodes|)
        {
          assert NodeOk(s.nodes[i], |nodes|);
        }
      }
    }

    /** The vertex `setParent(child, parent, weight)`: the child must have a
        node; the parent's node is built when it has none. */
    method SetParent(child: nat, parent: nat, weight: Int32)
      requires Valid() && child in vertexToNode
      modifies this, nodes
      ensures Valid()
      ensures State() == SetParentSpec(old(State()), child, parent, weight)
    {
      TypeOfMissing(State(), parent);
      if TypeOfVertex(parent) == 0 {
        NewLeaf(parent);
      }
      assert forall i :: 0 <= i < |nodes| ==> nodes[i] in old(nodes) || fresh(nodes[i]) by {
        forall i | 0 <= i < |nodes|
          ensures nodes[i] in old(nodes) || fresh(nodes[i])
        {
          if i < |old(nodes)| {
            assert nodes[i] == nodes[..|old(nodes)|][i];
          }
        }
      }
      LinkNodes(vertexToNode[child], vertexToNode[parent], weight);
    }
  }
}
