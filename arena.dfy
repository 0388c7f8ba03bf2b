/**
 * The node records of node.h and the links between them. The nodes live in
 * an arena: a map from node identifiers to `XML_Node` records, where every
 * pointer field holds the identifier of the node it points to. A ghost map
 * keeps the child sequence of every node; the well-formedness invariant ties
 * the pointer fields (`parent`, `previous`, `next`, `first`, `current`,
 * `last`, `cc`) to it. This module also proves that the pointer rewiring of
 * `addXMLNodeToParent` and `deleteXMLNodeFromParent` keeps it.
 */
module Arena {
  import opened Wrappers
  import opened Attributes

  /** A node identifier: a key of the arena. */
  type NodeId = nat

  /** An `XML_Node*`: NULL or the identifier of a node. */
  datatype Ref = Null | Ref(id: NodeId)

  /** The links a node has as somebody's child. */
  datatype Link = Link(parent: Ref, previous: Ref, next: Ref)

  /** `XML_Node`. */
  datatype NodeRec = NodeRec(
    name: Option<string>, value: Option<string>, attr: Option<Attribute>,
    parent: Ref, previous: Ref, next: Ref,
    first: Ref, current: Ref, last: Ref, cc: int)

  /** A node as `initXMLNode` leaves it: every pointer NULL and no children. */
  const Blank: NodeRec := NodeRec(None, None, None, Null, Null, Null, Null, Null, Null, 0)

  /** The data a node carries, apart from its links. */
  function Content(r: NodeRec): (Option<string>, Option<string>, Option<Attribute>)
  {
    (r.name, r.value, r.attr)
  }

  /** The links of a node record. */
  function Links(r: NodeRec): Link
  {
    Link(r.parent, r.previous, r.next)
  }

  /** The links the child at index `i` of `n` has when `n`'s children are `ks`. */
  function SiblingsAt(n: NodeId, ks: seq<NodeId>, i: nat): Link
    requires i < |ks|
  {
    Link(Ref(n), if i == 0 then Null else Ref(ks[i - 1]), if i + 1 == |ks| then Null else Ref(ks[i + 1]))
  }

  /** The child-list fields of a node agree with its children `ks`. */
  predicate OwnLinks(r: NodeRec, ks: seq<NodeId>)
  {
    r.cc == |ks| &&
    if |ks| == 0 then r.first.Null? && r.current.Null? && r.last.Null?
    else r.first == Ref(ks[0]) && r.last == Ref(ks[|ks| - 1]) && r.current.Ref? && r.current.id in ks
  }

  /** Node `n` with children `ks`: its own fields and the links of every child agree with `ks`. */
  ghost predicate ChildLinks(nodes: map<NodeId, NodeRec>, ks: seq<NodeId>, n: NodeId)
    requires n in nodes
  {
    OwnLinks(nodes[n], ks) &&
    (forall i :: 0 <= i < |ks| ==> ks[i] in nodes && n < ks[i]) &&
    (forall i {:trigger nodes[ks[i]]} :: 0 <= i < |ks| ==> Links(nodes[ks[i]]) == SiblingsAt(n, ks, i)) &&
    Distinct(ks)
  }

  /** A node with a parent is among its children; a node without one has no siblings. */
  ghost predicate ParentLink(nodes: map<NodeId, NodeRec>, kids: map<NodeId, seq<NodeId>>, n: NodeId)
    requires n in nodes
  {
    match nodes[n].parent
    case Null => nodes[n].previous.Null? && nodes[n].next.Null?
    case Ref(p) => p in kids && n in kids[p]
  }

  /**
   * A well-formed arena: every node has a child sequence, every identifier is
   * below `bound`, and all links agree with the child sequences. Children
   * have larger identifiers than their parents, so the tree is acyclic.
   */
  ghost predicate Wf(nodes: map<NodeId, NodeRec>, kids: map<NodeId, seq<NodeId>>, bound: nat)
  {
    nodes.Keys == kids.Keys &&
    forall n {:trigger NodeOk(nodes, kids, bound, n)} :: n in nodes ==> NodeOk(nodes, kids, bound, n)
  }

  /** The part of `Wf` about node `n`. */
  ghost predicate NodeOk(nodes: map<NodeId, NodeRec>, kids: map<NodeId, seq<NodeId>>, bound: nat, n: NodeId)
  {
    n in nodes && n in kids && n < bound && ChildLinks(nodes, kids[n], n) && ParentLink(nodes, kids, n)
  }

  /** Child links survive a change that keeps the node's own fields and its children's links. */
  lemma ChildLinksFrame(nodes: map<NodeId, NodeRec>, nodes': map<NodeId, NodeRec>, ks: seq<NodeId>, n: NodeId)
    requires n in nodes && n in nodes' && ChildLinks(nodes, ks, n)
    requires OwnLinks(nodes'[n], ks)
    requires forall i :: 0 <= i < |ks| ==> ks[i] in nodes'
    requires forall i {:trigger nodes'[ks[i]]} :: 0 <= i < |ks| ==> Links(nodes'[ks[i]]) == Links(nodes[ks[i]])
    ensures ChildLinks(nodes', ks, n)
  {
  }

  /** `addXMLNodeToParent` refuses NULL nodes and a child that already has a parent or siblings. */
  predicate CanAttach(nodes: map<NodeId, NodeRec>, parent: Ref, child: Ref)
  {
    parent.Ref? && child.Ref? && child.id in nodes &&
    nodes[child.id].parent.Null? && nodes[child.id].previous.Null? && nodes[child.id].next.Null?
  }

  /**
   * Appending `c` to the children of `p` changes no node but `p`, `c` and
   * the old last child of `p`, whose `next` becomes `c`.
   */
  ghost predicate AppendFrame(nodes: map<NodeId, NodeRec>, nodes': map<NodeId, NodeRec>, p: NodeId, c: NodeId)
    requires p in nodes
  {
    nodes'.Keys == nodes.Keys &&
    (forall x {:trigger nodes'[x]} :: x in nodes && x != p && x != c && Ref(x) != nodes[p].last ==> nodes'[x] == nodes[x]) &&
    (nodes[p].last.Ref? ==> nodes[p].last.id in nodes && nodes'[nodes[p].last.id] == nodes[nodes[p].last.id].(next := Ref(c)))
  }

  /** Appending a parentless child `c` to `p` keeps the arena well formed. */
  lemma AttachWf(nodes: map<NodeId, NodeRec>, kids: map<NodeId, seq<NodeId>>, bound: nat,
                 p: NodeId, c: NodeId, nodes': map<NodeId, NodeRec>)
    requires Wf(nodes, kids, bound) && p in nodes && c in nodes && p < c && nodes[c].parent.Null?
    requires nodes'.Keys == nodes.Keys
    requires Links(nodes'[c]) == Link(Ref(p), nodes[p].last, Null) && OwnLinks(nodes'[c], kids[c])
    requires OwnLinks(nodes'[p], kids[p] + [c]) && Links(nodes'[p]) == Links(nodes[p])
    requires AppendFrame(nodes, nodes', p, c)
    ensures Wf(nodes', kids[p := kids[p] + [c]], bound)
  {
    var kids' := kids[p := kids[p] + [c]];
    AttachFacts(nodes, kids, bound, p, c);
    assert nodes'.Keys == kids'.Keys;
    forall x {:trigger NodeOk(nodes', kids', bound, x)} | x in nodes'
      ensures NodeOk(nodes', kids', bound, x)
    {
      AttachNode(nodes, kids, bound, p, c, nodes', x);
    }
  }

  /** One node of `AttachWf`. */
  lemma AttachNode(nodes: map<NodeId, NodeRec>, kids: map<NodeId, seq<NodeId>>, bound: nat,
                   p: NodeId, c: NodeId, nodes': map<NodeId, NodeRec>, x: NodeId)
    requires Wf(nodes, kids, bound) && p in nodes && c in nodes && p < c && nodes[c].parent.Null?
    requires nodes'.Keys == nodes.Keys
    requires Links(nodes'[c]) == Link(Ref(p), nodes[p].last, Null) && OwnLinks(nodes'[c], kids[c])
    requires OwnLinks(nodes'[p], kids[p] + [c]) && Links(nodes'[p]) == Links(nodes[p])
    requires AppendFrame(nodes, nodes', p, c)
    requires c !in kids[p]
    requires nodes[p].last.Ref? ==> nodes[p].last.id in nodes && nodes[nodes[p].last.id].parent == Ref(p)
    requires nodes[p].parent != Ref(p)
    requires x in nodes'
    ensures NodeOk(nodes', kids[p := kids[p] + [c]], bound, x)
  {
    if x == p {
      assert NodeOk(nodes, kids, bound, p);
      AttachAtParent(nodes, kids, bound, p, c, nodes');
    } else {
      assert NodeOk(nodes, kids, bound, x);
      if x != c && Ref(x) != nodes[p].last {
        assert nodes'[x] == nodes[x];
      }
      AttachKeepsChildren(nodes, kids, bound, p, c, nodes', x);
      AttachOtherSide(nodes, kids, bound, p, c, nodes', x);
    }
  }

  /** The parent's node of `AttachWf`. */
  lemma AttachAtParent(nodes: map<NodeId, NodeRec>, kids: map<NodeId, seq<NodeId>>, bound: nat,
                       p: NodeId, c: NodeId, nodes': map<NodeId, NodeRec>)
    requires nodes.Keys == kids.Keys && NodeOk(nodes, kids, bound, p) && c in nodes && p < c
    requires nodes'.Keys == nodes.Keys
    requires Links(nodes'[c]) == Link(Ref(p), nodes[p].last, Null)
    requires OwnLinks(nodes'[p], kids[p] + [c]) && Links(nodes'[p]) == Links(nodes[p])
    requires AppendFrame(nodes, nodes', p, c)
    requires c !in kids[p] && nodes[p].parent != Ref(p)
    ensures NodeOk(nodes', kids[p := kids[p] + [c]], bound, p)
  {
    var ks := kids[p];
    var ks' := ks + [c];
    AppendChildren(nodes, nodes', p, c, ks);
    assert Appended(ks, c, ks');
    AppendMembers(nodes', p, c, ks, ks');
    AppendLinks(nodes, nodes', p, c, ks, ks');
    AppendDistinct(ks, c, ks');
    ParentSide(nodes, kids, bound, p, nodes', ks');
  }

  /** What well-formedness says about a parent `p` and a parentless node `c`. */
  lemma AttachFacts(nodes: map<NodeId, NodeRec>, kids: map<NodeId, seq<NodeId>>, bound: nat, p: NodeId, c: NodeId)
    requires Wf(nodes, kids, bound) && p in nodes && c in nodes && nodes[c].parent.Null?
    ensures c !in kids[p]
    ensures nodes[p].last.Ref? ==> nodes[p].last.id in nodes && nodes[nodes[p].last.id].parent == Ref(p)
    ensures nodes[p].parent != Ref(p)
  {
    var ks := kids[p];
    var last := nodes[p].last;
    assert NodeOk(nodes, kids, bound, c) && NodeOk(nodes, kids, bound, p);
    if last.Ref? {
      assert Links(nodes[ks[|ks| - 1]]) == SiblingsAt(p, ks, |ks| - 1);
    }
    if nodes[p].parent.Ref? {
      var g := nodes[p].parent.id;
      assert NodeOk(nodes, kids, bound, g);
      var j :| 0 <= j < |kids[g]| && kids[g][j] == p;
      assert g < kids[g][j];
    }
  }

  /** The side of `AttachWf` for the nodes other than the parent. */
  lemma AttachOtherSide(nodes: map<NodeId, NodeRec>, kids: map<NodeId, seq<NodeId>>, bound: nat,
                        p: NodeId, c: NodeId, nodes': map<NodeId, NodeRec>, x: NodeId)
    requires nodes.Keys == kids.Keys && nodes'.Keys == nodes.Keys && p in nodes
    requires NodeOk(nodes, kids, bound, x) && x != p
    requires OwnLinks(nodes'[x], kids[x])
    requires forall i {:trigger nodes'[kids[x][i]]} :: 0 <= i < |kids[x]| ==> Links(nodes'[kids[x][i]]) == Links(nodes[kids[x][i]])
    requires Links(nodes'[x]) == (if x == c then Link(Ref(p), nodes[p].last, Null)
      else if Ref(x) == nodes[p].last then Link(nodes[x].parent, nodes[x].previous, Ref(c)) else Links(nodes[x]))
    requires Ref(x) == nodes[p].last ==> nodes[x].parent == Ref(p)
    ensures NodeOk(nodes', kids[p := kids[p] + [c]], bound, x)
  {
    ChildLinksFrame(nodes, nodes', kids[x], x);
    var kids' := kids[p := kids[p] + [c]];
    if x == c {
      assert x in kids'[p];
    } else if nodes[x].parent.Ref? {
      var g := nodes[x].parent.id;
      assert x in kids[g];
      assert x in kids'[g];
    }
  }

  /** Outside the parent, appending changes the links of no node's children. */
  lemma AttachKeepsChildren(nodes: map<NodeId, NodeRec>, kids: map<NodeId, seq<NodeId>>, bound: nat,
                            p: NodeId, c: NodeId, nodes': map<NodeId, NodeRec>, x: NodeId)
    requires nodes.Keys == kids.Keys && nodes'.Keys == nodes.Keys && p in nodes && c in nodes
    requires NodeOk(nodes, kids, bound, x) && x != p && nodes[c].parent.Null?
    requires nodes[p].last.Ref? ==> nodes[p].last.id in nodes && nodes[nodes[p].last.id].parent == Ref(p)
    requires Links(nodes'[p]) == Links(nodes[p])
    requires AppendFrame(nodes, nodes', p, c)
    ensures forall i {:trigger nodes'[kids[x][i]]} :: 0 <= i < |kids[x]| ==> Links(nodes'[kids[x][i]]) == Links(nodes[kids[x][i]])
  {
    forall i {:trigger nodes'[kids[x][i]]} | 0 <= i < |kids[x]|
      ensures Links(nodes'[kids[x][i]]) == Links(nodes[kids[x][i]])
    {
      var y := kids[x][i];
      assert Links(nodes[y]) == SiblingsAt(x, kids[x], i);
      if y != p {
        assert y != c && Ref(y) != nodes[p].last;
        assert nodes'[y] == nodes[y];
      }
    }
  }

  /** The links of an old child after appending `c` to the children `ks` of `p`. */
  lemma AppendedSibling(p: NodeId, c: NodeId, ks: seq<NodeId>, i: nat,
                        before: Link,
                        after: Link, isLast: bool)
    requires i < |ks| && before == SiblingsAt(p, ks, i) && isLast == (i + 1 == |ks|)
    requires after == (if isLast then Link(before.parent, before.previous, Ref(c)) else before)
    ensures after == SiblingsAt(p, ks + [c], i)
  {
  }

  /** `ks'` is `ks` with `c` appended, stated index by index. */
  predicate Appended(ks: seq<NodeId>, c: NodeId, ks': seq<NodeId>)
  {
    |ks'| == |ks| + 1 && ks'[|ks|] == c && forall i :: 0 <= i < |ks| ==> ks'[i] == ks[i]
  }

  /** No node occurs twice in `ks`. */
  ghost predicate Distinct(ks: seq<NodeId>)
    decreases |ks|
  {
    |ks| == 0 || (ks[|ks| - 1] !in ks[..|ks| - 1] && Distinct(ks[..|ks| - 1]))
  }

  /** Two positions of a distinct sequence hold different nodes. */
  lemma {:induction false} DistinctAt(ks: seq<NodeId>, i: nat, j: nat)
    requires Distinct(ks) && i < j < |ks|
    ensures ks[i] != ks[j]
    decreases |ks|
  {
    var front := ks[..|ks| - 1];
    if j == |ks| - 1 {
      assert ks[i] == front[i];
    } else {
      DistinctAt(front, i, j);
      assert ks[i] == front[i] && ks[j] == front[j];
    }
  }

  /** Appending a new node to a distinct sequence keeps it distinct. */
  lemma AppendDistinct(ks: seq<NodeId>, c: NodeId, ks': seq<NodeId>)
    requires Appended(ks, c, ks') && c !in ks && Distinct(ks)
    ensures Distinct(ks')
  {
    assert ks'[..|ks|] == ks;
  }

  /** Appending a node above `p` to nodes above `p` keeps them above `p`. */
  lemma AppendMembers(nodes': map<NodeId, NodeRec>, p: NodeId, c: NodeId, ks: seq<NodeId>, ks': seq<NodeId>)
    requires Appended(ks, c, ks')
    requires forall i :: 0 <= i < |ks| ==> ks[i] in nodes' && p < ks[i]
    requires c in nodes' && p < c
    ensures forall i :: 0 <= i < |ks'| ==> ks'[i] in nodes' && p < ks'[i]
  {
    forall i | 0 <= i < |ks'|
      ensures ks'[i] in nodes' && p < ks'[i]
    {
      if i < |ks| {
        assert ks'[i] == ks[i];
      }
    }
  }

  /** The children's links after appending `c` to the children `ks` of `p`. */
  lemma AppendLinks(nodes: map<NodeId, NodeRec>, nodes': map<NodeId, NodeRec>, p: NodeId, c: NodeId,
                    ks: seq<NodeId>, ks': seq<NodeId>)
    requires Appended(ks, c, ks')
    requires forall i :: 0 <= i < |ks| ==> ks[i] in nodes && ks[i] in nodes'
    requires c in nodes'
    requires forall i {:trigger nodes[ks[i]]} :: 0 <= i < |ks| ==> Links(nodes[ks[i]]) == SiblingsAt(p, ks, i)
    requires forall i {:trigger nodes'[ks[i]]} :: 0 <= i < |ks| ==>
      Links(nodes'[ks[i]]) == (if i + 1 == |ks| then Link(nodes[ks[i]].parent, nodes[ks[i]].previous, Ref(c)) else Links(nodes[ks[i]]))
    requires Links(nodes'[c]) == Link(Ref(p), if |ks| == 0 then Null else Ref(ks[|ks| - 1]), Null)
    ensures forall i {:trigger nodes'[ks'[i]]} :: 0 <= i < |ks'| ==> Links(nodes'[ks'[i]]) == SiblingsAt(p, ks', i)
  {
    forall i {:trigger nodes'[ks'[i]]} | 0 <= i < |ks'|
      ensures Links(nodes'[ks'[i]]) == SiblingsAt(p, ks', i)
    {
      if i < |ks| {
        var y := ks[i];
        assert ks'[i] == y;
        assert Links(nodes[y]) == SiblingsAt(p, ks, i);
        assert Links(nodes'[y]) == (if i + 1 == |ks| then Link(nodes[ks[i]].parent, nodes[ks[i]].previous, Ref(c)) else Links(nodes[ks[i]]));
        AppendedSibling(p, c, ks, i, Links(nodes[y]), Links(nodes'[y]), i + 1 == |ks|);
        assert ks + [c] == ks';
      } else {
        assert ks'[i] == c;
        assert i == 0 || ks'[i - 1] == ks[|ks| - 1];
      }
    }
  }

  /** How the frame of `AttachWf` reads on the old children of `p`. */
  lemma AppendChildren(nodes: map<NodeId, NodeRec>, nodes': map<NodeId, NodeRec>, p: NodeId, c: NodeId, ks: seq<NodeId>)
    requires nodes'.Keys == nodes.Keys
    requires forall i :: 0 <= i < |ks| ==> ks[i] in nodes && p < ks[i]
    requires c !in ks && Distinct(ks)
    requires p in nodes && nodes[p].last == (if |ks| == 0 then Null else Ref(ks[|ks| - 1]))
    requires AppendFrame(nodes, nodes', p, c)
    ensures forall i {:trigger nodes'[ks[i]]} :: 0 <= i < |ks| ==>
      Links(nodes'[ks[i]]) == (if i + 1 == |ks| then Link(nodes[ks[i]].parent, nodes[ks[i]].previous, Ref(c)) else Links(nodes[ks[i]]))
  {
    forall i {:trigger nodes'[ks[i]]} | 0 <= i < |ks|
      ensures Links(nodes'[ks[i]]) == (if i + 1 == |ks| then Link(nodes[ks[i]].parent, nodes[ks[i]].previous, Ref(c)) else Links(nodes[ks[i]]))
    {
      assert ks[i] != p && ks[i] != c;
      if i + 1 < |ks| {
        DistinctAt(ks, i, |ks| - 1);
        assert nodes'[ks[i]] == nodes[ks[i]];
      }
    }
  }

  /** The links of a node whose own links did not change, once a child is appended elsewhere. */
  lemma KeptParentLink(nodes: map<NodeId, NodeRec>, kids: map<NodeId, seq<NodeId>>, nodes': map<NodeId, NodeRec>,
                       p: NodeId, ks': seq<NodeId>, x: NodeId)
    requires x in nodes && x in nodes' && ParentLink(nodes, kids, x) && Links(nodes'[x]) == Links(nodes[x])
    requires nodes[x].parent != Ref(p)
    ensures ParentLink(nodes', kids[p := ks'], x)
  {
  }

  /** The parent's side of `AttachWf` and `UnlinkWf`, once the new child sequence `ks'` is known to be linked. */
  lemma ParentSide(nodes: map<NodeId, NodeRec>, kids: map<NodeId, seq<NodeId>>, bound: nat,
                         p: NodeId, nodes': map<NodeId, NodeRec>, ks': seq<NodeId>)
    requires nodes.Keys == kids.Keys && nodes'.Keys == nodes.Keys && p in nodes && p in kids && p < bound
    requires ParentLink(nodes, kids, p) && Links(nodes'[p]) == Links(nodes[p]) && nodes[p].parent != Ref(p)
    requires OwnLinks(nodes'[p], ks')
    requires forall i :: 0 <= i < |ks'| ==> ks'[i] in nodes' && p < ks'[i]
    requires forall i {:trigger nodes'[ks'[i]]} :: 0 <= i < |ks'| ==> Links(nodes'[ks'[i]]) == SiblingsAt(p, ks', i)
    requires Distinct(ks')
    ensures NodeOk(nodes', kids[p := ks'], bound, p)
  {
    KeptParentLink(nodes, kids, nodes', p, ks', p);
  }

  /** `addXMLNodeToParent(p, c)` can follow the pointers it writes through: both nodes and the old last child exist. */
  predicate CanAppend(nodes: map<NodeId, NodeRec>, p: NodeId, c: NodeId)
  {
    p in nodes && c in nodes && (nodes[p].last.Ref? ==> nodes[p].last.id in nodes)
  }

  /** The arena after `addXMLNodeToParent(p, c)` succeeds, field by field as the C code writes them. */
  function Attached(nodes: map<NodeId, NodeRec>, p: NodeId, c: NodeId): map<NodeId, NodeRec>
    requires CanAppend(nodes, p, c)
  {
    var n1 := nodes[c := nodes[c].(parent := Ref(p))];
    var n2 := n1[p := n1[p].(cc := n1[p].cc + 1)];
    if n2[p].last.Null? then
      n2[p := n2[p].(first := Ref(c), current := Ref(c), last := Ref(c))]
    else
      var l := n2[p].last.id;
      var n3 := n2[l := n2[l].(next := Ref(c))];
      var n4 := n3[c := n3[c].(previous := n3[p].last)];
      n4[p := n4[p].(last := Ref(c))]
  }

  /** `Attached` rewrites links only, and no `parent` field but that of the child. */
  lemma AttachedKeeps(nodes: map<NodeId, NodeRec>, p: NodeId, c: NodeId)
    requires CanAppend(nodes, p, c)
    ensures Attached(nodes, p, c).Keys == nodes.Keys
    ensures forall y :: y in nodes ==> Content(Attached(nodes, p, c)[y]) == Content(nodes[y])
    ensures forall y :: y in nodes && y != c ==> Attached(nodes, p, c)[y].parent == nodes[y].parent
    ensures Attached(nodes, p, c)[c].parent == Ref(p)
  {
  }

  /** A successful `addXMLNodeToParent` appends the child to the parent's children and keeps the arena well formed. */
  lemma AttachedWf(nodes: map<NodeId, NodeRec>, kids: map<NodeId, seq<NodeId>>, bound: nat, p: NodeId, c: NodeId)
    requires Wf(nodes, kids, bound) && p in nodes && p < c && CanAttach(nodes, Ref(p), Ref(c))
    ensures CanAppend(nodes, p, c)
    ensures Wf(Attached(nodes, p, c), kids[p := kids[p] + [c]], bound)
  {
    AttachFacts(nodes, kids, bound, p, c);
    AttachedShape(nodes, kids, bound, p, c);
    AttachedFrame(nodes, p, c);
    AttachWf(nodes, kids, bound, p, c, Attached(nodes, p, c));
  }

  /** The parent and the child after `Attached`. */
  lemma AttachedShape(nodes: map<NodeId, NodeRec>, kids: map<NodeId, seq<NodeId>>, bound: nat, p: NodeId, c: NodeId)
    requires Wf(nodes, kids, bound) && p in nodes && p < c && CanAttach(nodes, Ref(p), Ref(c))
    requires nodes[p].last.Ref? ==> nodes[p].last.id in nodes && nodes[nodes[p].last.id].parent == Ref(p)
    ensures Attached(nodes, p, c).Keys == nodes.Keys
    ensures Links(Attached(nodes, p, c)[c]) == Link(Ref(p), nodes[p].last, Null) && OwnLinks(Attached(nodes, p, c)[c], kids[c])
    ensures OwnLinks(Attached(nodes, p, c)[p], kids[p] + [c]) && Links(Attached(nodes, p, c)[p]) == Links(nodes[p])
  {
    assert NodeOk(nodes, kids, bound, p) && NodeOk(nodes, kids, bound, c);
    var nodes' := Attached(nodes, p, c);
    var last := nodes[p].last;
    if last.Ref? {
      var ks := kids[p];
      assert Links(nodes[ks[|ks| - 1]]) == SiblingsAt(p, ks, |ks| - 1);
      assert p < last.id;
    }
    assert nodes'[c] == nodes[c].(parent := Ref(p), previous := last);
  }

  /** The nodes other than the parent and the child after `Attached`. */
  lemma AttachedFrame(nodes: map<NodeId, NodeRec>, p: NodeId, c: NodeId)
    requires p in nodes && c in nodes && p != c
    requires nodes[p].last.Ref? ==> nodes[p].last.id in nodes && nodes[p].last.id != p && nodes[p].last.id != c
    ensures AppendFrame(nodes, Attached(nodes, p, c), p, c)
  {
  }

  /** A fresh node as `createXMLNode` makes it, under the next unused identifier, keeps the arena well formed. */
  lemma CreateWf(nodes: map<NodeId, NodeRec>, kids: map<NodeId, seq<NodeId>>, bound: nat)
    requires Wf(nodes, kids, bound)
    ensures bound !in nodes
    ensures Wf(nodes[bound := Blank], kids[bound := []], bound + 1)
  {
    var nodes', kids' := nodes[bound := Blank], kids[bound := []];
    assert bound in nodes ==> NodeOk(nodes, kids, bound, bound);
    assert nodes'.Keys == kids'.Keys;
    forall x {:trigger NodeOk(nodes', kids', bound + 1, x)} | x in nodes'
      ensures NodeOk(nodes', kids', bound + 1, x)
    {
      if x != bound {
        CreateKeeps(nodes, kids, bound, x);
      }
    }
  }

  /** One old node of `CreateWf`. */
  lemma CreateKeeps(nodes: map<NodeId, NodeRec>, kids: map<NodeId, seq<NodeId>>, bound: nat, x: NodeId)
    requires nodes.Keys == kids.Keys && bound !in nodes && NodeOk(nodes, kids, bound, x)
    requires forall n {:trigger NodeOk(nodes, kids, bound, n)} :: n in nodes ==> NodeOk(nodes, kids, bound, n)
    ensures NodeOk(nodes[bound := Blank], kids[bound := []], bound + 1, x)
  {
    var nodes', kids' := nodes[bound := Blank], kids[bound := []];
    ChildLinksFrame(nodes, nodes', kids[x], x);
    if nodes[x].parent.Ref? {
      var g := nodes[x].parent.id;
      assert x in kids[g] && kids'[g] == kids[g];
    }
  }

  /** Removing a node without parent and children, as `freeXMLNode` and `destroyXMLNode` do, keeps the arena well formed. */
  lemma FreeWf(nodes: map<NodeId, NodeRec>, kids: map<NodeId, seq<NodeId>>, bound: nat, n: NodeId)
    requires Wf(nodes, kids, bound) && n in nodes && nodes[n].parent.Null? && |kids[n]| == 0
    ensures Wf(nodes - {n}, kids - {n}, bound)
  {
    var nodes', kids' := nodes - {n}, kids - {n};
    assert nodes'.Keys == kids'.Keys;
    forall x {:trigger NodeOk(nodes', kids', bound, x)} | x in nodes'
      ensures NodeOk(nodes', kids', bound, x)
    {
      assert NodeOk(nodes, kids, bound, x);
      FreeKeeps(nodes, kids, bound, n, x);
    }
  }

  /** One remaining node of `FreeWf`. */
  lemma FreeKeeps(nodes: map<NodeId, NodeRec>, kids: map<NodeId, seq<NodeId>>, bound: nat, n: NodeId, x: NodeId)
    requires nodes.Keys == kids.Keys && n in nodes && nodes[n].parent.Null? && |kids[n]| == 0
    requires x in nodes && x != n && NodeOk(nodes, kids, bound, x)
    ensures NodeOk(nodes - {n}, kids - {n}, bound, x)
  {
    var nodes', kids' := nodes - {n}, kids - {n};
    var ks := kids[x];
    forall i | 0 <= i < |ks|
      ensures ks[i] in nodes' && x < ks[i]
    {
      assert Links(nodes[ks[i]]) == SiblingsAt(x, ks, i);
    }
    ChildLinksFrame(nodes, nodes', ks, x);
    if nodes[x].parent.Ref? {
      var g := nodes[x].parent.id;
      assert x in kids[g] && g != n;
      assert kids'[g] == kids[g];
    }
  }

  /** Changing only the name, value and attributes of a node keeps the arena well formed. */
  lemma RelabelWf(nodes: map<NodeId, NodeRec>, kids: map<NodeId, seq<NodeId>>, bound: nat, n: NodeId, r: NodeRec)
    requires Wf(nodes, kids, bound) && n in nodes
    requires r == nodes[n].(name := r.name, value := r.value, attr := r.attr)
    ensures Wf(nodes[n := r], kids, bound)
  {
    var nodes' := nodes[n := r];
    forall x {:trigger NodeOk(nodes', kids, bound, x)} | x in nodes'
      ensures NodeOk(nodes', kids, bound, x)
    {
      assert NodeOk(nodes, kids, bound, x);
      RelabelKeeps(nodes, kids, bound, n, r, x);
    }
  }

  /** One node of `RelabelWf`. */
  lemma RelabelKeeps(nodes: map<NodeId, NodeRec>, kids: map<NodeId, seq<NodeId>>, bound: nat, n: NodeId, r: NodeRec, x: NodeId)
    requires nodes.Keys == kids.Keys && n in nodes && NodeOk(nodes, kids, bound, x)
    requires r == nodes[n].(name := r.name, value := r.value, attr := r.attr)
    ensures NodeOk(nodes[n := r], kids, bound, x)
  {
    var nodes' := nodes[n := r];
    var ks := kids[x];
    forall i {:trigger nodes'[ks[i]]} | 0 <= i < |ks|
      ensures Links(nodes'[ks[i]]) == Links(nodes[ks[i]])
    {
    }
    ChildLinksFrame(nodes, nodes', ks, x);
  }

  /** `ks` without `c`, in the original order. */
  function Without(ks: seq<NodeId>, c: NodeId): seq<NodeId>
    decreases |ks|
  {
    if |ks| == 0 then []
    else if ks[|ks| - 1] == c then Without(ks[..|ks| - 1], c)
    else Without(ks[..|ks| - 1], c) + [ks[|ks| - 1]]
  }

  /** `ks'` is `ks` with the element at index `k` taken out, stated index by index. */
  predicate Removed(ks: seq<NodeId>, k: nat, ks': seq<NodeId>)
  {
    k < |ks| && |ks'| == |ks| - 1 &&
    (forall i :: 0 <= i < k ==> ks'[i] == ks[i]) &&
    (forall i :: k <= i < |ks'| ==> ks'[i] == ks[i + 1])
  }

  /** In a distinct sequence, dropping the one occurrence of `c` is cutting it out at its index. */
  lemma {:induction false} WithoutAt(ks: seq<NodeId>, k: nat)
    requires Distinct(ks) && k < |ks|
    ensures Without(ks, ks[k]) == ks[..k] + ks[k + 1..]
    decreases |ks|
  {
    var front := ks[..|ks| - 1];
    if k == |ks| - 1 {
      WithoutAbsent(front, ks[k]);
      assert ks[..k] == front;
    } else {
      assert front[k] == ks[k];
      WithoutAt(front, k);
      DistinctAt(ks, k, |ks| - 1);
      assert ks[..k] + ks[k + 1..] == front[..k] + front[k + 1..] + [ks[|ks| - 1]];
    }
  }

  /** Dropping an element that does not occur changes nothing. */
  lemma {:induction false} WithoutAbsent(ks: seq<NodeId>, c: NodeId)
    requires c !in ks
    ensures Without(ks, c) == ks
    decreases |ks|
  {
    if |ks| > 0 {
      var front := ks[..|ks| - 1];
      WithoutAbsent(front, c);
      assert front + [ks[|ks| - 1]] == ks;
    }
  }

  /** Cutting out one element of a distinct sequence leaves a distinct sequence. */
  lemma {:induction false} RemoveDistinct(ks: seq<NodeId>, k: nat, ks': seq<NodeId>)
    requires Distinct(ks) && Removed(ks, k, ks')
    ensures Distinct(ks')
    decreases |ks|
  {
    if k == |ks| - 1 {
      assert ks' == ks[..|ks| - 1];
    } else {
      var front := ks[..|ks| - 1];
      var front' := ks'[..|ks'| - 1];
      assert Removed(front, k, front') by {
        forall i | k <= i < |front'|
          ensures front'[i] == front[i + 1]
        {
          assert front'[i] == ks'[i] && front[i + 1] == ks[i + 1];
        }
      }
      RemoveDistinct(front, k, front');
      assert ks'[|ks'| - 1] == ks[|ks| - 1];
      forall j | 0 <= j < |front'|
        ensures front'[j] != ks'[|ks'| - 1]
      {
        if j < k {
          assert front'[j] == ks[j];
          DistinctAt(ks, j, |ks| - 1);
        } else {
          assert front'[j] == ks[j + 1];
          DistinctAt(ks, j + 1, |ks| - 1);
        }
      }
    }
  }

  /** Slicing the element at index `k` out of `ks` removes it in the sense of `Removed`. */
  lemma CutRemoved(ks: seq<NodeId>, k: nat)
    requires k < |ks|
    ensures Removed(ks, k, ks[..k] + ks[k + 1..])
  {
  }

  /** An element other than the one cut out survives the cut. */
  lemma RemoveKeeps(ks: seq<NodeId>, k: nat, ks': seq<NodeId>, x: NodeId)
    requires Removed(ks, k, ks') && x in ks && x != ks[k]
    ensures x in ks'
  {
    var j :| 0 <= j < |ks| && ks[j] == x;
    if j < k {
      assert ks'[j] == x;
    } else {
      assert ks'[j - 1] == x;
    }
  }

  /**
   * Taking `c` out of the children of `p` changes no node but `p`, `c` and
   * the two neighbours of `c`, which are linked to each other.
   */
  ghost predicate RemoveFrame(nodes: map<NodeId, NodeRec>, nodes': map<NodeId, NodeRec>, p: NodeId, c: NodeId)
    requires c in nodes
  {
    var r := nodes[c];
    nodes'.Keys == nodes.Keys &&
    (forall x {:trigger nodes'[x]} :: x in nodes && x != p && x != c && Ref(x) != r.previous && Ref(x) != r.next ==> nodes'[x] == nodes[x]) &&
    (r.previous.Ref? ==> r.previous.id in nodes && nodes'[r.previous.id] == nodes[r.previous.id].(next := r.next)) &&
    (r.next.Ref? ==> r.next.id in nodes && nodes'[r.next.id] == nodes[r.next.id].(previous := r.previous))
  }

  /** Where a child `c` of `p` sits among the children of `p`. */
  lemma DetachIndex(nodes: map<NodeId, NodeRec>, kids: map<NodeId, seq<NodeId>>, bound: nat, p: NodeId, c: NodeId)
    returns (k: nat)
    requires Wf(nodes, kids, bound) && c in nodes && nodes[c].parent == Ref(p)
    ensures p in nodes && k < |kids[p]| && kids[p][k] == c
  {
    assert NodeOk(nodes, kids, bound, c);
    k :| 0 <= k < |kids[p]| && kids[p][k] == c;
  }

  /** What well-formedness says about the child `c` at index `k` of `p` and its neighbours. */
  lemma DetachFacts(nodes: map<NodeId, NodeRec>, kids: map<NodeId, seq<NodeId>>, bound: nat, p: NodeId, c: NodeId, k: nat)
    requires Wf(nodes, kids, bound) && p in nodes && k < |kids[p]| && kids[p][k] == c
    ensures c in nodes && p < c && Links(nodes[c]) == SiblingsAt(p, kids[p], k) && Distinct(kids[p])
    ensures nodes[c].previous.Ref? ==> nodes[c].previous.id in nodes && nodes[nodes[c].previous.id].parent == Ref(p)
    ensures nodes[c].next.Ref? ==> nodes[c].next.id in nodes && nodes[nodes[c].next.id].parent == Ref(p)
    ensures nodes[c].previous.Ref? ==> p < nodes[c].previous.id != c
    ensures nodes[c].next.Ref? ==> p < nodes[c].next.id != c
    ensures nodes[c].previous.Ref? && nodes[c].next.Ref? ==> nodes[c].previous != nodes[c].next
    ensures nodes[p].parent != Ref(p)
  {
    DetachPrevious(nodes, kids, bound, p, c, k);
    DetachNext(nodes, kids, bound, p, c, k);
    if k > 0 && k + 1 < |kids[p]| {
      DistinctAt(kids[p], k - 1, k + 1);
    }
    NotOwnParent(nodes, kids, bound, p);
  }

  /** The child at index `k` of `p` and its previous sibling. */
  lemma DetachPrevious(nodes: map<NodeId, NodeRec>, kids: map<NodeId, seq<NodeId>>, bound: nat, p: NodeId, c: NodeId, k: nat)
    requires Wf(nodes, kids, bound) && p in nodes && k < |kids[p]| && kids[p][k] == c
    ensures c in nodes && p < c && Links(nodes[c]) == SiblingsAt(p, kids[p], k) && Distinct(kids[p])
    ensures nodes[c].previous.Ref? ==> nodes[c].previous.id in nodes && nodes[nodes[c].previous.id].parent == Ref(p)
    ensures nodes[c].previous.Ref? ==> k > 0 && nodes[c].previous.id == kids[p][k - 1]
    ensures nodes[c].previous.Ref? ==> p < nodes[c].previous.id != c
  {
    var ks := kids[p];
    assert NodeOk(nodes, kids, bound, p);
    assert Links(nodes[ks[k]]) == SiblingsAt(p, ks, k);
    if k > 0 {
      assert Links(nodes[ks[k - 1]]) == SiblingsAt(p, ks, k - 1);
      DistinctAt(ks, k - 1, k);
    }
  }

  /** The child at index `k` of `p` and its next sibling. */
  lemma DetachNext(nodes: map<NodeId, NodeRec>, kids: map<NodeId, seq<NodeId>>, bound: nat, p: NodeId, c: NodeId, k: nat)
    requires Wf(nodes, kids, bound) && p in nodes && k < |kids[p]| && kids[p][k] == c
    ensures c in nodes && Links(nodes[c]) == SiblingsAt(p, kids[p], k)
    ensures nodes[c].next.Ref? ==> nodes[c].next.id in nodes && nodes[nodes[c].next.id].parent == Ref(p)
    ensures nodes[c].next.Ref? ==> k + 1 < |kids[p]| && nodes[c].next.id == kids[p][k + 1]
    ensures nodes[c].next.Ref? ==> p < nodes[c].next.id != c
  {
    var ks := kids[p];
    assert NodeOk(nodes, kids, bound, p);
    assert Links(nodes[ks[k]]) == SiblingsAt(p, ks, k);
    if k + 1 < |ks| {
      assert Links(nodes[ks[k + 1]]) == SiblingsAt(p, ks, k + 1);
      DistinctAt(ks, k, k + 1);
    }
  }

  /** No node is its own parent. */
  lemma NotOwnParent(nodes: map<NodeId, NodeRec>, kids: map<NodeId, seq<NodeId>>, bound: nat, p: NodeId)
    requires Wf(nodes, kids, bound) && p in nodes
    ensures nodes[p].parent != Ref(p)
  {
    assert NodeOk(nodes, kids, bound, p);
    if nodes[p].parent.Ref? {
      var g := nodes[p].parent.id;
      assert NodeOk(nodes, kids, bound, g);
      var j :| 0 <= j < |kids[g]| && kids[g][j] == p;
      assert g < kids[g][j];
    }
  }

  /** Taking the child `c` at index `k` out of the children of `p` keeps the arena well formed. */
  lemma UnlinkWf(nodes: map<NodeId, NodeRec>, kids: map<NodeId, seq<NodeId>>, bound: nat,
                 p: NodeId, c: NodeId, k: nat, nodes': map<NodeId, NodeRec>)
    requires Wf(nodes, kids, bound) && p in nodes && k < |kids[p]| && kids[p][k] == c
    requires nodes'.Keys == nodes.Keys && c in nodes
    requires nodes'[c] == nodes[c].(parent := Null, previous := Null, next := Null)
    requires OwnLinks(nodes'[p], kids[p][..k] + kids[p][k + 1..]) && Links(nodes'[p]) == Links(nodes[p])
    requires RemoveFrame(nodes, nodes', p, c)
    ensures Wf(nodes', kids[p := kids[p][..k] + kids[p][k + 1..]], bound)
  {
    var ks' := kids[p][..k] + kids[p][k + 1..];
    var kids' := kids[p := ks'];
    DetachFacts(nodes, kids, bound, p, c, k);
    assert nodes'.Keys == kids'.Keys;
    forall x {:trigger NodeOk(nodes', kids', bound, x)} | x in nodes'
      ensures NodeOk(nodes', kids', bound, x)
    {
      UnlinkNode(nodes, kids, bound, p, c, k, nodes', x);
    }
  }

  /** One node of `UnlinkWf`. */
  lemma UnlinkNode(nodes: map<NodeId, NodeRec>, kids: map<NodeId, seq<NodeId>>, bound: nat,
                   p: NodeId, c: NodeId, k: nat, nodes': map<NodeId, NodeRec>, x: NodeId)
    requires Wf(nodes, kids, bound) && p in nodes && k < |kids[p]| && kids[p][k] == c
    requires nodes'.Keys == nodes.Keys && c in nodes
    requires nodes'[c] == nodes[c].(parent := Null, previous := Null, next := Null)
    requires OwnLinks(nodes'[p], kids[p][..k] + kids[p][k + 1..]) && Links(nodes'[p]) == Links(nodes[p])
    requires RemoveFrame(nodes, nodes', p, c)
    requires p < c && Links(nodes[c]) == SiblingsAt(p, kids[p], k)
    requires nodes[c].previous.Ref? ==> nodes[c].previous.id in nodes && nodes[nodes[c].previous.id].parent == Ref(p)
    requires nodes[c].next.Ref? ==> nodes[c].next.id in nodes && nodes[nodes[c].next.id].parent == Ref(p)
    requires nodes[p].parent != Ref(p)
    requires x in nodes'
    ensures NodeOk(nodes', kids[p := kids[p][..k] + kids[p][k + 1..]], bound, x)
  {
    if x == p {
      assert NodeOk(nodes, kids, bound, p);
      UnlinkAtParent(nodes, kids, bound, p, c, k, nodes');
    } else {
      assert NodeOk(nodes, kids, bound, x);
      UnlinkOther(nodes, kids, bound, p, c, k, nodes', x);
    }
  }

  /** A node of `UnlinkWf` other than the parent. */
  lemma UnlinkOther(nodes: map<NodeId, NodeRec>, kids: map<NodeId, seq<NodeId>>, bound: nat,
                    p: NodeId, c: NodeId, k: nat, nodes': map<NodeId, NodeRec>, x: NodeId)
    requires nodes.Keys == kids.Keys && p in nodes && k < |kids[p]| && kids[p][k] == c
    requires nodes'.Keys == nodes.Keys && c in nodes
    requires nodes'[c] == nodes[c].(parent := Null, previous := Null, next := Null)
    requires Links(nodes'[p]) == Links(nodes[p])
    requires RemoveFrame(nodes, nodes', p, c)
    requires nodes[c].parent == Ref(p)
    requires nodes[c].previous.Ref? ==> nodes[c].previous.id in nodes && nodes[nodes[c].previous.id].parent == Ref(p)
    requires nodes[c].next.Ref? ==> nodes[c].next.id in nodes && nodes[nodes[c].next.id].parent == Ref(p)
    requires NodeOk(nodes, kids, bound, x) && x != p
    ensures NodeOk(nodes', kids[p := kids[p][..k] + kids[p][k + 1..]], bound, x)
  {
    var ks' := kids[p][..k] + kids[p][k + 1..];
    var r := nodes[c];
    if x != c && Ref(x) != r.previous && Ref(x) != r.next {
      assert nodes'[x] == nodes[x];
    }
    if x != c && x in kids[p] {
      CutRemoved(kids[p], k);
      RemoveKeeps(kids[p], k, ks', x);
    }
    UnlinkKeepsChildren(nodes, kids, bound, p, c, nodes', x);
    UnlinkOtherSide(nodes, kids, bound, p, c, nodes', ks', x);
  }

  /** The parent's node of `UnlinkWf`. */
  lemma UnlinkAtParent(nodes: map<NodeId, NodeRec>, kids: map<NodeId, seq<NodeId>>, bound: nat,
                       p: NodeId, c: NodeId, k: nat, nodes': map<NodeId, NodeRec>)
    requires nodes.Keys == kids.Keys && NodeOk(nodes, kids, bound, p) && k < |kids[p]| && kids[p][k] == c
    requires nodes'.Keys == nodes.Keys
    requires OwnLinks(nodes'[p], kids[p][..k] + kids[p][k + 1..]) && Links(nodes'[p]) == Links(nodes[p])
    requires RemoveFrame(nodes, nodes', p, c)
    requires nodes[p].parent != Ref(p)
    ensures NodeOk(nodes', kids[p := kids[p][..k] + kids[p][k + 1..]], bound, p)
  {
    var ks := kids[p];
    var ks' := ks[..k] + ks[k + 1..];
    CutRemoved(ks, k);
    assert Links(nodes[c]) == SiblingsAt(p, ks, k);
    RemoveChildren(nodes, nodes', p, c, ks, k);
    RemoveMembers(nodes', p, ks, k, ks');
    RemoveLinks(nodes, nodes', p, c, ks, k, ks');
    RemoveDistinct(ks, k, ks');
    ParentSide(nodes, kids, bound, p, nodes', ks');
  }

  /** How the frame of `UnlinkWf` reads on the other children of `p`. */
  lemma RemoveChildren(nodes: map<NodeId, NodeRec>, nodes': map<NodeId, NodeRec>, p: NodeId, c: NodeId, ks: seq<NodeId>, k: nat)
    requires nodes'.Keys == nodes.Keys
    requires forall i :: 0 <= i < |ks| ==> ks[i] in nodes && p < ks[i]
    requires k < |ks| && ks[k] == c && Distinct(ks)
    requires Links(nodes[c]) == SiblingsAt(p, ks, k)
    requires RemoveFrame(nodes, nodes', p, c)
    ensures forall i {:trigger nodes'[ks[i]]} :: 0 <= i < |ks| && i != k ==>
      Links(nodes'[ks[i]]) == (if i + 1 == k then Link(nodes[ks[i]].parent, nodes[ks[i]].previous, nodes[c].next)
        else if i == k + 1 then Link(nodes[ks[i]].parent, nodes[c].previous, nodes[ks[i]].next)
        else Links(nodes[ks[i]]))
  {
    forall i {:trigger nodes'[ks[i]]} | 0 <= i < |ks| && i != k
      ensures Links(nodes'[ks[i]]) == (if i + 1 == k then Link(nodes[ks[i]].parent, nodes[ks[i]].previous, nodes[c].next)
        else if i == k + 1 then Link(nodes[ks[i]].parent, nodes[c].previous, nodes[ks[i]].next)
        else Links(nodes[ks[i]]))
    {
      if i < k {
        DistinctAt(ks, i, k);
      } else {
        DistinctAt(ks, k, i);
      }
      if i + 1 != k && i != k + 1 {
        if i + 1 < k {
          DistinctAt(ks, i, k - 1);
        }
        if i > k + 1 {
          DistinctAt(ks, k + 1, i);
        }
        assert nodes'[ks[i]] == nodes[ks[i]];
      }
    }
  }

  /** Cutting out the child at index `k` keeps the others above `p`. */
  lemma RemoveMembers(nodes': map<NodeId, NodeRec>, p: NodeId, ks: seq<NodeId>, k: nat, ks': seq<NodeId>)
    requires Removed(ks, k, ks')
    requires forall i :: 0 <= i < |ks| ==> ks[i] in nodes' && p < ks[i]
    ensures forall i :: 0 <= i < |ks'| ==> ks'[i] in nodes' && p < ks'[i]
  {
    forall i | 0 <= i < |ks'|
      ensures ks'[i] in nodes' && p < ks'[i]
    {
      if i < k {
        assert ks'[i] == ks[i];
      } else {
        assert ks'[i] == ks[i + 1];
      }
    }
  }

  /** The links of an old child `j` after the child at index `k` is cut out of `ks`. */
  lemma RemovedSibling(p: NodeId, ks: seq<NodeId>, k: nat, ks': seq<NodeId>, j: nat,
                       before: Link, after: Link, cprev: Ref, cnext: Ref)
    requires Removed(ks, k, ks') && j < |ks| && j != k && before == SiblingsAt(p, ks, j)
    requires cprev == (if k == 0 then Null else Ref(ks[k - 1]))
    requires cnext == (if k + 1 == |ks| then Null else Ref(ks[k + 1]))
    requires after == (if j + 1 == k then Link(before.parent, before.previous, cnext)
      else if j == k + 1 then Link(before.parent, cprev, before.next) else before)
    ensures after == SiblingsAt(p, ks', if j < k then j else j - 1)
  {
  }

  /** The children's links after the child at index `k` is cut out of the children `ks` of `p`. */
  lemma RemoveLinks(nodes: map<NodeId, NodeRec>, nodes': map<NodeId, NodeRec>, p: NodeId, c: NodeId,
                    ks: seq<NodeId>, k: nat, ks': seq<NodeId>)
    requires Removed(ks, k, ks') && ks[k] == c
    requires forall i :: 0 <= i < |ks| ==> ks[i] in nodes && ks[i] in nodes'
    requires forall i {:trigger nodes[ks[i]]} :: 0 <= i < |ks| ==> Links(nodes[ks[i]]) == SiblingsAt(p, ks, i)
    requires forall i {:trigger nodes'[ks[i]]} :: 0 <= i < |ks| && i != k ==>
      Links(nodes'[ks[i]]) == (if i + 1 == k then Link(nodes[ks[i]].parent, nodes[ks[i]].previous, nodes[c].next)
        else if i == k + 1 then Link(nodes[ks[i]].parent, nodes[c].previous, nodes[ks[i]].next)
        else Links(nodes[ks[i]]))
    ensures forall i {:trigger nodes'[ks'[i]]} :: 0 <= i < |ks'| ==> Links(nodes'[ks'[i]]) == SiblingsAt(p, ks', i)
  {
    var cl := Links(nodes[c]);
    assert cl == SiblingsAt(p, ks, k);
    forall i {:trigger nodes'[ks'[i]]} | 0 <= i < |ks'|
      ensures Links(nodes'[ks'[i]]) == SiblingsAt(p, ks', i)
    {
      var j := if i < k then i else i + 1;
      var y := ks[j];
      assert ks'[i] == y;
      assert Links(nodes[y]) == SiblingsAt(p, ks, j);
      RemovedSibling(p, ks, k, ks', j, Links(nodes[y]), Links(nodes'[y]), cl.previous, cl.next);
    }
  }

  /** Outside the parent, unlinking changes the links of no node's children. */
  lemma UnlinkKeepsChildren(nodes: map<NodeId, NodeRec>, kids: map<NodeId, seq<NodeId>>, bound: nat,
                            p: NodeId, c: NodeId, nodes': map<NodeId, NodeRec>, x: NodeId)
    requires nodes.Keys == kids.Keys && nodes'.Keys == nodes.Keys && p in nodes && c in nodes
    requires NodeOk(nodes, kids, bound, x) && x != p && nodes[c].parent == Ref(p)
    requires nodes[c].previous.Ref? ==> nodes[c].previous.id in nodes && nodes[nodes[c].previous.id].parent == Ref(p)
    requires nodes[c].next.Ref? ==> nodes[c].next.id in nodes && nodes[nodes[c].next.id].parent == Ref(p)
    requires Links(nodes'[p]) == Links(nodes[p])
    requires RemoveFrame(nodes, nodes', p, c)
    ensures forall i {:trigger nodes'[kids[x][i]]} :: 0 <= i < |kids[x]| ==> Links(nodes'[kids[x][i]]) == Links(nodes[kids[x][i]])
  {
    forall i {:trigger nodes'[kids[x][i]]} | 0 <= i < |kids[x]|
      ensures Links(nodes'[kids[x][i]]) == Links(nodes[kids[x][i]])
    {
      var y := kids[x][i];
      assert Links(nodes[y]) == SiblingsAt(x, kids[x], i);
      if y != p {
        assert y != c && Ref(y) != nodes[c].previous && Ref(y) != nodes[c].next;
        assert nodes'[y] == nodes[y];
      }
    }
  }

  /** The side of `UnlinkWf` for the nodes other than the parent. */
  lemma UnlinkOtherSide(nodes: map<NodeId, NodeRec>, kids: map<NodeId, seq<NodeId>>, bound: nat,
                        p: NodeId, c: NodeId, nodes': map<NodeId, NodeRec>, ks': seq<NodeId>, x: NodeId)
    requires nodes.Keys == kids.Keys && nodes'.Keys == nodes.Keys && p in nodes && c in nodes
    requires NodeOk(nodes, kids, bound, x) && x != p && nodes[c].parent == Ref(p)
    requires OwnLinks(nodes'[x], kids[x])
    requires forall i {:trigger nodes'[kids[x][i]]} :: 0 <= i < |kids[x]| ==> Links(nodes'[kids[x][i]]) == Links(nodes[kids[x][i]])
    requires nodes'[x].parent == (if x == c then Null else nodes[x].parent)
    requires nodes'[x].parent.Null? ==> nodes'[x].previous.Null? && nodes'[x].next.Null?
    requires x != c && x in kids[p] ==> x in ks'
    ensures NodeOk(nodes', kids[p := ks'], bound, x)
  {
    ChildLinksFrame(nodes, nodes', kids[x], x);
    if x != c && nodes[x].parent.Ref? {
      var g := nodes[x].parent.id;
      assert x in kids[g];
    }
  }

  /** `deleteXMLNodeFromParent` can follow the pointers of `c`: its parent and its siblings exist. */
  predicate CanDetach(nodes: map<NodeId, NodeRec>, c: NodeId)
  {
    c in nodes && nodes[c].parent.Ref? && nodes[c].parent.id in nodes &&
    (nodes[c].previous.Ref? ==> nodes[c].previous.id in nodes) &&
    (nodes[c].next.Ref? ==> nodes[c].next.id in nodes)
  }

  /** The arena after `deleteXMLNodeFromParent(c)` succeeds, field by field as the C code writes them. */
  function Detached(nodes: map<NodeId, NodeRec>, c: NodeId): (nodes': map<NodeId, NodeRec>)
    requires CanDetach(nodes, c)
    ensures nodes'.Keys == nodes.Keys
    ensures nodes'[c].parent.Null?
  {
    var p := nodes[c].parent.id;
    var r := nodes[c];
    // No write before the last one changes the `previous` or `next` of `c`, so they are read from `r`.
    var q1 := nodes[p].(cc := nodes[p].cc - 1);
    var q2 := if q1.first == Ref(c) then q1.(first := r.next) else q1;
    var q3 := if q2.last == Ref(c) then q2.(last := r.previous) else q2;
    var q4 := if q3.current == Ref(c) then q3.(current := if r.next.Null? then r.previous else r.next) else q3;
    var n4 := nodes[p := q4];
    var n5 := n4[c := n4[c].(parent := Null)];
    var n6 := if r.previous.Ref? then n5[r.previous.id := n5[r.previous.id].(next := r.next)] else n5;
    var n7 := if r.next.Ref? then n6[r.next.id := n6[r.next.id].(previous := r.previous)] else n6;
    n7[c := n7[c].(previous := Null, next := Null)]
  }

  /**
   * A successful `deleteXMLNodeFromParent` takes the child out of its
   * parent's children, keeping the others in order, and keeps the arena well
   * formed.
   */
  lemma DetachedWf(nodes: map<NodeId, NodeRec>, kids: map<NodeId, seq<NodeId>>, bound: nat, c: NodeId)
    requires Wf(nodes, kids, bound) && c in nodes && nodes[c].parent.Ref?
    ensures CanDetach(nodes, c)
    ensures Wf(Detached(nodes, c), kids[nodes[c].parent.id := Without(kids[nodes[c].parent.id], c)], bound)
  {
    var p := nodes[c].parent.id;
    var k := DetachIndex(nodes, kids, bound, p, c);
    DetachFacts(nodes, kids, bound, p, c, k);
    var nodes' := Detached(nodes, c);
    DetachedShape(nodes, p, c);
    DetachedFrame(nodes, p, c);
    assert NodeOk(nodes, kids, bound, p);
    DetachedOwnLinks(nodes, p, c, kids[p], k, nodes'[p]);
    UnlinkWf(nodes, kids, bound, p, c, k, nodes');
    WithoutAt(kids[p], k);
  }

  /** The parent and the child after `Detached`. */
  lemma DetachedShape(nodes: map<NodeId, NodeRec>, p: NodeId, c: NodeId)
    requires CanDetach(nodes, c) && nodes[c].parent == Ref(p) && p != c
    requires nodes[c].previous != Ref(p) && nodes[c].next != Ref(p)
    requires nodes[c].previous != Ref(c) && nodes[c].next != Ref(c)
    ensures Detached(nodes, c).Keys == nodes.Keys
    ensures Detached(nodes, c)[c] == nodes[c].(parent := Null, previous := Null, next := Null)
    ensures Detached(nodes, c)[p] == nodes[p].(cc := nodes[p].cc - 1,
      first := if nodes[p].first == Ref(c) then nodes[c].next else nodes[p].first,
      last := if nodes[p].last == Ref(c) then nodes[c].previous else nodes[p].last,
      current := if nodes[p].current != Ref(c) then nodes[p].current
        else if nodes[c].next.Null? then nodes[c].previous else nodes[c].next)
  {
  }

  /** The nodes other than the parent and the child after `Detached`. */
  lemma DetachedFrame(nodes: map<NodeId, NodeRec>, p: NodeId, c: NodeId)
    requires CanDetach(nodes, c) && nodes[c].parent == Ref(p) && p != c
    requires nodes[c].previous != Ref(p) && nodes[c].next != Ref(p)
    requires nodes[c].previous != Ref(c) && nodes[c].next != Ref(c)
    requires nodes[c].previous.Ref? && nodes[c].next.Ref? ==> nodes[c].previous != nodes[c].next
    ensures RemoveFrame(nodes, Detached(nodes, c), p, c)
  {
  }

  /** The parent's own fields `r'` after `Detached` agree with its children once `c` is cut out. */
  lemma DetachedOwnLinks(nodes: map<NodeId, NodeRec>, p: NodeId, c: NodeId, ks: seq<NodeId>, k: nat, r': NodeRec)
    requires p in nodes && OwnLinks(nodes[p], ks) && Distinct(ks) && k < |ks| && ks[k] == c
    requires c in nodes && Links(nodes[c]) == SiblingsAt(p, ks, k)
    requires r' == nodes[p].(cc := nodes[p].cc - 1,
      first := if nodes[p].first == Ref(c) then nodes[c].next else nodes[p].first,
      last := if nodes[p].last == Ref(c) then nodes[c].previous else nodes[p].last,
      current := if nodes[p].current != Ref(c) then nodes[p].current
        else if nodes[c].next.Null? then nodes[c].previous else nodes[c].next)
    ensures OwnLinks(r', ks[..k] + ks[k + 1..])
  {
    var ks' := ks[..k] + ks[k + 1..];
    CutRemoved(ks, k);
    if 0 < k {
      DistinctAt(ks, 0, k);
    }
    if k + 1 < |ks| {
      DistinctAt(ks, k, |ks| - 1);
    }
    var cur := nodes[p].current;
    if cur != Ref(c) {
      RemoveKeeps(ks, k, ks', cur.id);
    } else if k + 1 < |ks| {
      assert ks'[k] == ks[k + 1];
    } else if 0 < k {
      assert ks'[k - 1] == ks[k - 1];
    }
  }

  /** What `Detached` makes of a node `x` other than the child, whose links are `l`. */
  function DetachedRec(rx: NodeRec, x: NodeId, l: Link, c: NodeId): NodeRec
  {
    var a := if l.parent == Ref(x) then
      var q1 := rx.(cc := rx.cc - 1);
      var q2 := if q1.first == Ref(c) then q1.(first := l.next) else q1;
      var q3 := if q2.last == Ref(c) then q2.(last := l.previous) else q2;
      if q3.current == Ref(c) then q3.(current := if l.next.Null? then l.previous else l.next) else q3
    else rx;
    var b := if l.previous == Ref(x) then a.(next := l.next) else a;
    if l.next == Ref(x) then b.(previous := l.previous) else b
  }

  /** Node by node, `Detached` depends only on the node itself and the links of the child. */
  lemma DetachedAt(nodes: map<NodeId, NodeRec>, c: NodeId, x: NodeId)
    requires CanDetach(nodes, c) && x in nodes && x != c
    ensures Detached(nodes, c)[x] == DetachedRec(nodes[x], x, Links(nodes[c]), c)
  {
  }

  /** `Detached` rewrites no `parent` field but that of the child. */
  lemma DetachedParent(nodes: map<NodeId, NodeRec>, c: NodeId, x: NodeId)
    requires CanDetach(nodes, c) && x in nodes && x != c
    ensures Detached(nodes, c)[x].parent == nodes[x].parent
  {
    DetachedAt(nodes, c, x);
  }

  /** `Detached` changes no node but the child, its parent and its two neighbours. */
  lemma DetachedOther(nodes: map<NodeId, NodeRec>, c: NodeId, x: NodeId)
    requires CanDetach(nodes, c) && x in nodes && x != c && Ref(x) != nodes[c].parent
    requires Ref(x) != nodes[c].previous && Ref(x) != nodes[c].next
    ensures Detached(nodes, c)[x] == nodes[x]
  {
    DetachedAt(nodes, c, x);
  }

  /** `Detached` reads, for a node other than the child, only that node and the links of the child. */
  lemma DetachedLocal(nodes: map<NodeId, NodeRec>, nodes': map<NodeId, NodeRec>, c: NodeId, x: NodeId)
    requires CanDetach(nodes, c) && CanDetach(nodes', c) && Links(nodes[c]) == Links(nodes'[c])
    requires x in nodes && x in nodes' && x != c && nodes[x] == nodes'[x]
    ensures Detached(nodes, c)[x] == Detached(nodes', c)[x]
  {
    DetachedAt(nodes, c, x);
    DetachedAt(nodes', c, x);
  }

  /**
   * Detaching a child right after attaching it gives back the arena it was
   * attached to: `deleteXMLNodeFromParent` undoes `addXMLNodeToParent`.
   */
  lemma DetachAttached(nodes: map<NodeId, NodeRec>, kids: map<NodeId, seq<NodeId>>, bound: nat, p: NodeId, c: NodeId)
    requires Wf(nodes, kids, bound) && p in nodes && p < c && CanAttach(nodes, Ref(p), Ref(c))
    ensures CanAppend(nodes, p, c) && CanDetach(Attached(nodes, p, c), c)
    ensures Detached(Attached(nodes, p, c), c) == nodes
    ensures Without(kids[p] + [c], c) == kids[p]
  {
    AttachFacts(nodes, kids, bound, p, c);
    LastAndCurrent(nodes, kids, bound, p, c);
    UndoAttach(nodes, p, c);
    WithoutAbsent(kids[p], c);
  }

  /** The last child of `p` has no next sibling, and a detached node is neither the first nor the current child of `p`. */
  lemma LastAndCurrent(nodes: map<NodeId, NodeRec>, kids: map<NodeId, seq<NodeId>>, bound: nat, p: NodeId, c: NodeId)
    requires Wf(nodes, kids, bound) && p in nodes && c in nodes && nodes[c].parent.Null?
    ensures nodes[p].current != Ref(c) && nodes[p].first != Ref(c)
    ensures nodes[p].last.Null? ==> nodes[p].first.Null? && nodes[p].current.Null?
    ensures nodes[p].last.Ref? ==>
      nodes[p].last.id in nodes && p < nodes[p].last.id && nodes[nodes[p].last.id].next.Null?
  {
    assert NodeOk(nodes, kids, bound, p);
    var ks := kids[p];
    forall i | 0 <= i < |ks|
      ensures ks[i] != c
    {
      assert Links(nodes[ks[i]]) == SiblingsAt(p, ks, i);
    }
    if |ks| > 0 {
      assert Links(nodes[ks[|ks| - 1]]) == SiblingsAt(p, ks, |ks| - 1);
    }
  }

  /** `Detached` undoes `Attached`, field by field, for a parent whose last child has no next sibling. */
  lemma UndoAttach(nodes: map<NodeId, NodeRec>, p: NodeId, c: NodeId)
    requires p in nodes && p != c && CanAttach(nodes, Ref(p), Ref(c))
    requires nodes[p].current != Ref(c) && nodes[p].first != Ref(c)
    requires nodes[p].last.Null? ==> nodes[p].first.Null? && nodes[p].current.Null?
    requires nodes[p].last.Ref? ==>
      nodes[p].last.id in nodes && nodes[p].last.id != c && nodes[p].last.id != p && nodes[nodes[p].last.id].next.Null?
    ensures CanAppend(nodes, p, c) && CanDetach(Attached(nodes, p, c), c)
    ensures Detached(Attached(nodes, p, c), c) == nodes
  {
    var r := nodes[p];
    var a := Attached(nodes, p, c);
    assert a[c] == nodes[c].(parent := Ref(p), previous := r.last);
    assert r.last.Null? ==> a[p] == r.(cc := r.cc + 1, first := Ref(c), current := Ref(c), last := Ref(c));
    assert r.last.Ref? ==> a[p] == r.(cc := r.cc + 1, last := Ref(c));
    assert r.last.Ref? ==> a[r.last.id] == nodes[r.last.id].(next := Ref(c));
    var d := Detached(a, c);
    assert d[c] == a[c].(parent := Null, previous := Null, next := Null);
    forall x | x in nodes
      ensures d[x] == nodes[x]
    {
      if x != c {
        DetachedAt(a, c, x);
      }
    }
  }
}
