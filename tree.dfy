/**
 * The document tree an arena holds, as a value: a node with its name,
 * value, attribute list and the trees of its children in order.
 */
module Trees {
  import opened Wrappers
  import opened Attributes
  import opened Arena
  import opened Subtrees

  /** An element of the document with everything below it. */
  datatype Tree = Element(name: Option<string>, value: Option<string>, attr: Option<Attribute>, children: seq<Tree>)

  /** What the arena is read as where it is not well formed (never, for a well-formed arena). */
  const Missing: Tree := Element(None, None, None, [])

  /**
   * The tree rooted at node `x`. Children have larger identifiers than their
   * parent and all identifiers are below `bound`, which bounds the recursion.
   */
  ghost function TreeOf(nodes: map<NodeId, NodeRec>, kids: map<NodeId, seq<NodeId>>, bound: nat, x: NodeId): Tree
    decreases bound - x, 1
  {
    if x < bound && x in nodes && x in kids then
      var r := nodes[x];
      Element(r.name, r.value, r.attr, Forest(nodes, kids, bound, x + 1, kids[x]))
    else Missing
  }

  /** The trees of the nodes `ks`, all expected in `lo`..`bound`. */
  ghost function Forest(nodes: map<NodeId, NodeRec>, kids: map<NodeId, seq<NodeId>>, bound: nat, lo: nat, ks: seq<NodeId>): (f: seq<Tree>)
    ensures |f| == |ks|
    decreases bound - lo + 1, 0, |ks|
  {
    if |ks| == 0 then []
    else
      var y := ks[|ks| - 1];
      Forest(nodes, kids, bound, lo, ks[..|ks| - 1]) + [if lo <= y < bound then TreeOf(nodes, kids, bound, y) else Missing]
  }

  /** Element `i` of a forest is the tree of the `i`-th node. */
  lemma {:induction false} ForestAt(nodes: map<NodeId, NodeRec>, kids: map<NodeId, seq<NodeId>>, bound: nat, lo: nat, ks: seq<NodeId>, i: nat)
    requires i < |ks| && lo <= ks[i] < bound
    ensures Forest(nodes, kids, bound, lo, ks)[i] == TreeOf(nodes, kids, bound, ks[i])
    decreases |ks|
  {
    if i < |ks| - 1 {
      ForestAt(nodes, kids, bound, lo, ks[..|ks| - 1], i);
    }
  }

  /** The forest of a prefix is a prefix of the forest. */
  lemma {:induction false} ForestPrefix(nodes: map<NodeId, NodeRec>, kids: map<NodeId, seq<NodeId>>, bound: nat, lo: nat, ks: seq<NodeId>, m: nat)
    requires m <= |ks|
    ensures Forest(nodes, kids, bound, lo, ks[..m]) == Forest(nodes, kids, bound, lo, ks)[..m]
    decreases |ks|
  {
    if m < |ks| {
      ForestPrefix(nodes, kids, bound, lo, ks[..|ks| - 1], m);
      assert ks[..|ks| - 1][..m] == ks[..m];
    } else {
      assert ks[..m] == ks;
    }
  }

  /** The forest of one more node is one more tree. */
  lemma ForestAppend(nodes: map<NodeId, NodeRec>, kids: map<NodeId, seq<NodeId>>, bound: nat, lo: nat, ks: seq<NodeId>, y: NodeId)
    requires lo <= y < bound
    ensures Forest(nodes, kids, bound, lo, ks + [y]) == Forest(nodes, kids, bound, lo, ks) + [TreeOf(nodes, kids, bound, y)]
  {
    assert (ks + [y])[..|ks|] == ks;
  }

  /**
   * Two arenas agree on the nodes of `s`: same name, value, attributes and
   * children. Links do not enter into the tree.
   */
  ghost predicate Agree(nodes: map<NodeId, NodeRec>, kids: map<NodeId, seq<NodeId>>,
                        nodes': map<NodeId, NodeRec>, kids': map<NodeId, seq<NodeId>>, s: set<NodeId>)
  {
    forall y :: y in s ==>
      y in nodes && y in kids && y in nodes' && y in kids' &&
      Content(nodes'[y]) == Content(nodes[y]) && kids'[y] == kids[y]
  }

  /** The subtree of a child lies inside the subtree of its parent. */
  lemma SubtreeOfChild(nodes: map<NodeId, NodeRec>, y: NodeId, n: NodeId)
    requires y in nodes && nodes[y].parent == Ref(n) && n < y
    ensures Subtree(nodes, y) <= Subtree(nodes, n)
  {
    forall z | z in Subtree(nodes, y)
      ensures z in Subtree(nodes, n)
    {
      BelowThrough(nodes, z, y, n);
    }
  }

  /**
   * The tree of `x` only depends on the nodes of its subtree: a second
   * arena that agrees with a well-formed one there has the same tree at `x`.
   */
  lemma {:induction false} TreeFrame(nodes: map<NodeId, NodeRec>, kids: map<NodeId, seq<NodeId>>, bound: nat,
                                     nodes': map<NodeId, NodeRec>, kids': map<NodeId, seq<NodeId>>, bound': nat,
                                     x: NodeId, s: set<NodeId>)
    requires Wf(nodes, kids, bound) && bound <= bound' && x in nodes
    requires Subtree(nodes, x) <= s && Agree(nodes, kids, nodes', kids', s)
    ensures TreeOf(nodes', kids', bound', x) == TreeOf(nodes, kids, bound, x)
    decreases bound - x, 1
  {
    assert NodeOk(nodes, kids, bound, x);
    assert x in Subtree(nodes, x);
    forall i | 0 <= i < |kids[x]|
      ensures Subtree(nodes, kids[x][i]) <= s
    {
      assert Links(nodes[kids[x][i]]) == SiblingsAt(x, kids[x], i);
      SubtreeOfChild(nodes, kids[x][i], x);
    }
    ForestFrame(nodes, kids, bound, nodes', kids', bound', x, kids[x], s);
  }

  /** `TreeFrame` for the children `ks` of `n`, each of whose subtrees lies inside `s`. */
  lemma {:induction false} ForestFrame(nodes: map<NodeId, NodeRec>, kids: map<NodeId, seq<NodeId>>, bound: nat,
                                       nodes': map<NodeId, NodeRec>, kids': map<NodeId, seq<NodeId>>, bound': nat,
                                       n: NodeId, ks: seq<NodeId>, s: set<NodeId>)
    requires Wf(nodes, kids, bound) && bound <= bound' && n < bound
    requires forall i :: 0 <= i < |ks| ==> ks[i] in nodes && n < ks[i] && Subtree(nodes, ks[i]) <= s
    requires Agree(nodes, kids, nodes', kids', s)
    ensures Forest(nodes', kids', bound', n + 1, ks) == Forest(nodes, kids, bound, n + 1, ks)
    decreases bound - (n + 1) + 1, 0, |ks|
  {
    if |ks| > 0 {
      var y := ks[|ks| - 1];
      ForestFrame(nodes, kids, bound, nodes', kids', bound', n, ks[..|ks| - 1], s);
      assert NodeOk(nodes, kids, bound, y);
      TreeFrame(nodes, kids, bound, nodes', kids', bound', y, s);
    }
  }
}
