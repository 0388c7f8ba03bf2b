/**
 * Descendants in the arena, followed along `parent` pointers, and the facts
 * the recursive `destroyXMLNode` needs about them.
 */
module Subtrees {
  import opened Wrappers
  import opened Arena

  /** `x` is `n` or a descendant of `n`: its chain of parents reaches `n`. */
  ghost predicate Below(nodes: map<NodeId, NodeRec>, x: NodeId, n: NodeId)
    decreases x
  {
    x == n ||
    (x in nodes && nodes[x].parent.Ref? && nodes[x].parent.id < x && Below(nodes, nodes[x].parent.id, n))
  }

  /** The nodes of the subtree rooted at `n`. */
  ghost function Subtree(nodes: map<NodeId, NodeRec>, n: NodeId): set<NodeId>
  {
    set x | x in nodes && Below(nodes, x, n)
  }

  /** Descendants have larger identifiers. */
  lemma {:induction false} BelowGe(nodes: map<NodeId, NodeRec>, x: NodeId, n: NodeId)
    requires Below(nodes, x, n)
    ensures n <= x
    decreases x
  {
    if x != n {
      BelowGe(nodes, nodes[x].parent.id, n);
    }
  }

  /** A descendant of a child of `n` is a descendant of `n`. */
  lemma {:induction false} BelowThrough(nodes: map<NodeId, NodeRec>, x: NodeId, l: NodeId, n: NodeId)
    requires Below(nodes, x, l) && l in nodes && nodes[l].parent == Ref(n) && n < l
    ensures Below(nodes, x, n)
    decreases x
  {
    if x != l {
      BelowThrough(nodes, nodes[x].parent.id, l, n);
    }
  }

  /** Descent survives going back to a state with the same parents and more nodes. */
  lemma {:induction false} BelowBack(nodes: map<NodeId, NodeRec>, nodes0: map<NodeId, NodeRec>, x: NodeId, n: NodeId)
    requires forall y :: y in nodes ==> y in nodes0 && nodes[y].parent == nodes0[y].parent
    requires Below(nodes, x, n)
    ensures Below(nodes0, x, n)
    decreases x
  {
    if x != n {
      BelowBack(nodes, nodes0, nodes[x].parent.id, n);
    }
  }

  /** Descent survives going to a well-formed state with fewer nodes and the same parents. */
  lemma {:induction false} BelowForward(nodes: map<NodeId, NodeRec>, kids: map<NodeId, seq<NodeId>>, bound: nat,
                                        nodes0: map<NodeId, NodeRec>, x: NodeId, n: NodeId)
    requires Wf(nodes, kids, bound)
    requires forall y :: y in nodes ==> y in nodes0 && nodes[y].parent == nodes0[y].parent
    requires x in nodes && Below(nodes0, x, n)
    ensures Below(nodes, x, n)
    decreases x
  {
    if x != n {
      var g := nodes0[x].parent.id;
      assert NodeOk(nodes, kids, bound, x);
      BelowForward(nodes, kids, bound, nodes0, g, n);
    }
  }

  /** A node with a proper descendant has children. */
  lemma {:induction false} BelowChild(nodes: map<NodeId, NodeRec>, kids: map<NodeId, seq<NodeId>>, bound: nat, x: NodeId, n: NodeId)
    requires Wf(nodes, kids, bound) && x in nodes && x != n && Below(nodes, x, n)
    ensures n in kids && |kids[n]| > 0
    decreases x
  {
    var g := nodes[x].parent.id;
    assert NodeOk(nodes, kids, bound, x);
    if g != n {
      BelowChild(nodes, kids, bound, g, n);
    }
  }

  /** The last child `l` of a node `n` with children, as `destroyXMLNode` finds it. */
  lemma LastChild(nodes: map<NodeId, NodeRec>, kids: map<NodeId, seq<NodeId>>, bound: nat, n: NodeId) returns (k: nat)
    requires Wf(nodes, kids, bound) && n in nodes && nodes[n].cc > 0
    ensures nodes[n].last.Ref? && nodes[n].last.id in nodes
    ensures k < |kids[n]| && k + 1 == |kids[n]| && kids[n][k] == nodes[n].last.id
    ensures n < nodes[n].last.id < bound && nodes[nodes[n].last.id].parent == Ref(n)
  {
    assert NodeOk(nodes, kids, bound, n);
    k := |kids[n]| - 1;
    assert NodeOk(nodes, kids, bound, kids[n][k]);
  }

  /**
   * The loop invariant of `destroyXMLNode(n)` on the state `nodes`, `kids`,
   * relative to the state `nodes0`, `kids0` before the loop: nodes are only
   * removed, and only proper descendants of `n`; no `parent` field changed;
   * outside the subtree of `n` nothing changed.
   */
  ghost predicate Pruned(nodes0: map<NodeId, NodeRec>, kids0: map<NodeId, seq<NodeId>>,
                         nodes: map<NodeId, NodeRec>, kids: map<NodeId, seq<NodeId>>, n: NodeId)
  {
    n in nodes0 && n in nodes && Links(nodes[n]) == Links(nodes0[n]) &&
    (forall x {:trigger x in nodes0} :: x in nodes0 && x !in nodes ==> x != n && Below(nodes0, x, n)) &&
    (forall x :: x in nodes ==> x in nodes0 && x in kids && x in kids0 && nodes[x].parent == nodes0[x].parent) &&
    (forall x :: x in nodes && !Below(nodes0, x, n) ==> nodes[x] == nodes0[x] && kids[x] == kids0[x])
  }

  /** The invariant holds before the first iteration. */
  lemma PrunedStart(nodes: map<NodeId, NodeRec>, kids: map<NodeId, seq<NodeId>>, bound: nat, n: NodeId)
    requires Wf(nodes, kids, bound) && n in nodes
    ensures Pruned(nodes, kids, nodes, kids, n)
  {
  }

  /**
   * One iteration: destroying the last child `l` of `n` as the recursive call
   * promises keeps the invariant and takes one child off `n`.
   */
  lemma PrunedStep(nodes0: map<NodeId, NodeRec>, kids0: map<NodeId, seq<NodeId>>,
                   b: map<NodeId, NodeRec>, kb: map<NodeId, seq<NodeId>>,
                   a: map<NodeId, NodeRec>, ka: map<NodeId, seq<NodeId>>, bound: nat, n: NodeId, l: NodeId, k: nat)
    requires Pruned(nodes0, kids0, b, kb, n) && Wf(b, kb, bound) && Wf(a, ka, bound)
    requires k + 1 == |kb[n]| && kb[n][k] == l
    requires a.Keys == b.Keys - Subtree(b, l)
    requires CanDetach(b, l) && forall x :: x in a ==> a[x] == Detached(b, l)[x]
    requires forall x :: x in a ==> ka[x] == (if b[l].parent == Ref(x) then Without(kb[x], l) else kb[x])
    ensures Pruned(nodes0, kids0, a, ka, n)
    ensures a[n].cc < b[n].cc
  {
    DetachFacts(b, kb, bound, n, l, k);
    assert b[l].parent == Ref(n);
    assert Below(b, l, n);
    assert n !in Subtree(b, l) by {
      if Below(b, n, l) {
        BelowGe(b, n, l);
      }
    }
    // The parent keeps its links and loses its last child.
    DetachedShape(b, n, l);
    WithoutAt(kb[n], k);
    assert ka[n] == kb[n][..k];
    assert NodeOk(a, ka, bound, n) && NodeOk(b, kb, bound, n);
    assert a.Keys <= b.Keys;
    forall x | x in nodes0 && x !in a
      ensures x != n && Below(nodes0, x, n)
    {
      if x in b {
        assert Below(b, x, l);
        BelowThrough(b, x, l, n);
        BelowBack(b, nodes0, x, n);
        BelowGe(b, x, l);
      }
    }
    forall x | x in a
      ensures a[x].parent == nodes0[x].parent
    {
      assert x != l by {
        assert Below(b, l, l);
      }
      DetachedParent(b, l, x);
    }
    PrunedFrame(nodes0, kids0, b, kb, a, ka, bound, n, l);
  }

  /** The part of `PrunedStep` outside the subtree of `n`. */
  lemma PrunedFrame(nodes0: map<NodeId, NodeRec>, kids0: map<NodeId, seq<NodeId>>,
                    b: map<NodeId, NodeRec>, kb: map<NodeId, seq<NodeId>>,
                    a: map<NodeId, NodeRec>, ka: map<NodeId, seq<NodeId>>, bound: nat, n: NodeId, l: NodeId)
    requires Pruned(nodes0, kids0, b, kb, n) && a.Keys <= b.Keys && ka.Keys == a.Keys && kb.Keys == b.Keys
    requires CanDetach(b, l) && b[l].parent == Ref(n) && n < l && b[l].next.Null?
    requires b[l].previous.Ref? ==> b[b[l].previous.id].parent == Ref(n) && n < b[l].previous.id
    requires forall x :: x in a ==> a[x] == Detached(b, l)[x]
    requires forall x :: x in a ==> ka[x] == (if b[l].parent == Ref(x) then Without(kb[x], l) else kb[x])
    ensures forall x :: x in a && !Below(nodes0, x, n) ==> a[x] == nodes0[x] && ka[x] == kids0[x]
  {
    forall x | x in a && !Below(nodes0, x, n)
      ensures a[x] == nodes0[x] && ka[x] == kids0[x]
    {
      var r := b[l];
      assert Below(b, l, n);
      BelowBack(b, nodes0, l, n);
      if r.previous.Ref? {
        var s := r.previous.id;
        assert Below(b, s, n);
        BelowBack(b, nodes0, s, n);
      }
      DetachedOther(b, l, x);
    }
  }

  /** After the loop, no proper descendant of `n` is left. */
  lemma PrunedEnd(nodes0: map<NodeId, NodeRec>, kids0: map<NodeId, seq<NodeId>>,
                  nodes: map<NodeId, NodeRec>, kids: map<NodeId, seq<NodeId>>, bound: nat, n: NodeId)
    requires Pruned(nodes0, kids0, nodes, kids, n) && Wf(nodes, kids, bound) && nodes[n].cc == 0
    ensures nodes.Keys == nodes0.Keys - Subtree(nodes0, n) + {n}
  {
    assert NodeOk(nodes, kids, bound, n);
    forall x | x in nodes && x != n
      ensures !Below(nodes0, x, n)
    {
      if Below(nodes0, x, n) {
        BelowForward(nodes, kids, bound, nodes0, x, n);
        BelowChild(nodes, kids, bound, x, n);
      }
    }
  }

  /**
   * After the loop of `destroyXMLNode(n)`: what is left outside `n` is as
   * before the loop, so detaching `n` now has the effect it would have had
   * before the loop.
   */
  lemma DestroyedRest(nodes0: map<NodeId, NodeRec>, kids0: map<NodeId, seq<NodeId>>,
                      nodes: map<NodeId, NodeRec>, kids: map<NodeId, seq<NodeId>>, bound: nat, n: NodeId)
    requires Wf(nodes0, kids0, bound) && Wf(nodes, kids, bound) && Pruned(nodes0, kids0, nodes, kids, n)
    requires nodes.Keys == nodes0.Keys - Subtree(nodes0, n) + {n} && nodes[n].cc == 0
    ensures |kids[n]| == 0 && nodes[n].parent == nodes0[n].parent
    ensures nodes0[n].parent.Null? ==> forall x :: x in nodes && x != n ==> nodes[x] == nodes0[x] && kids[x] == kids0[x]
    ensures nodes0[n].parent.Ref? ==> nodes0[n].parent.id != n && CanDetach(nodes0, n) && CanDetach(nodes, n)
    ensures nodes0[n].parent.Ref? ==> forall x :: x in nodes && x != n ==>
      Detached(nodes, n)[x] == Detached(nodes0, n)[x] && kids[x] == kids0[x]
  {
    assert NodeOk(nodes, kids, bound, n);
    forall x | x in nodes && x != n
      ensures nodes[x] == nodes0[x] && kids[x] == kids0[x]
    {
      assert x !in Subtree(nodes0, n);
    }
    if nodes0[n].parent.Ref? {
      var p := nodes0[n].parent.id;
      var k := DetachIndex(nodes0, kids0, bound, p, n);
      DetachFacts(nodes0, kids0, bound, p, n, k);
      OutsideBelow(nodes0, Links(nodes0[n]), n);
      forall x | x in nodes && x != n
        ensures Detached(nodes, n)[x] == Detached(nodes0, n)[x]
      {
        DetachedLocal(nodes, nodes0, n, x);
      }
    }
  }

  /** The parent and the siblings of `n` are outside the subtree of `n`, so they survive its destruction. */
  lemma OutsideBelow(nodes0: map<NodeId, NodeRec>, l: Link, n: NodeId)
    requires l.parent.Ref? && l.parent.id < n
    requires l.previous.Ref? ==> l.previous.id in nodes0 && nodes0[l.previous.id].parent == l.parent && l.previous.id != n
    requires l.next.Ref? ==> l.next.id in nodes0 && nodes0[l.next.id].parent == l.parent && l.next.id != n
    ensures !Below(nodes0, l.parent.id, n)
    ensures l.previous.Ref? ==> !Below(nodes0, l.previous.id, n)
    ensures l.next.Ref? ==> !Below(nodes0, l.next.id, n)
  {
    if Below(nodes0, l.parent.id, n) {
      BelowGe(nodes0, l.parent.id, n);
    }
  }

  /**
   * The end of `destroyXMLNode(n)`: once `n` is detached (state `s`, `ks`)
   * and removed, exactly the subtree of `n` is gone and the rest is as
   * detaching `n` at the start would have left it.
   */
  lemma DestroyedPost(nodes0: map<NodeId, NodeRec>, kids0: map<NodeId, seq<NodeId>>,
                      t: map<NodeId, NodeRec>, kt: map<NodeId, seq<NodeId>>,
                      s: map<NodeId, NodeRec>, ks: map<NodeId, seq<NodeId>>, bound: nat, n: NodeId)
    requires Wf(nodes0, kids0, bound) && Wf(t, kt, bound) && Pruned(nodes0, kids0, t, kt, n)
    requires t.Keys == nodes0.Keys - Subtree(nodes0, n) + {n} && t[n].cc == 0
    requires t[n].parent.Ref? ==>
      CanDetach(t, n) && s == Detached(t, n) && ks == kt[t[n].parent.id := Without(kt[t[n].parent.id], n)]
    requires t[n].parent.Null? ==> s == t && ks == kt
    ensures n in s && s[n].parent.Null? && n in ks && |ks[n]| == 0
    ensures (s - {n}).Keys == nodes0.Keys - Subtree(nodes0, n)
    ensures nodes0[n].parent.Null? ==>
      (forall x :: x in s - {n} ==> (s - {n})[x] == nodes0[x] && (ks - {n})[x] == kids0[x])
    ensures nodes0[n].parent.Ref? ==>
      CanDetach(nodes0, n) &&
      (forall x :: x in s - {n} ==> (s - {n})[x] == Detached(nodes0, n)[x]) &&
      (forall x :: x in s - {n} ==>
        (ks - {n})[x] == if nodes0[n].parent == Ref(x) then Without(kids0[x], n) else kids0[x])
  {
    DestroyedKeys(nodes0, kids0, t, kt, s, ks, bound, n);
    DestroyedRoot(nodes0, kids0, t, kt, s, ks, bound, n);
    DestroyedChild(nodes0, kids0, t, kt, s, ks, bound, n);
  }

  /** `DestroyedPost`, the nodes that remain. */
  lemma DestroyedKeys(nodes0: map<NodeId, NodeRec>, kids0: map<NodeId, seq<NodeId>>,
                      t: map<NodeId, NodeRec>, kt: map<NodeId, seq<NodeId>>,
                      s: map<NodeId, NodeRec>, ks: map<NodeId, seq<NodeId>>, bound: nat, n: NodeId)
    requires Wf(nodes0, kids0, bound) && Wf(t, kt, bound) && Pruned(nodes0, kids0, t, kt, n)
    requires t.Keys == nodes0.Keys - Subtree(nodes0, n) + {n} && t[n].cc == 0
    requires t[n].parent.Ref? ==>
      CanDetach(t, n) && s == Detached(t, n) && ks == kt[t[n].parent.id := Without(kt[t[n].parent.id], n)]
    requires t[n].parent.Null? ==> s == t && ks == kt
    ensures n in s && s[n].parent.Null? && n in ks && |ks[n]| == 0
    ensures (s - {n}).Keys == nodes0.Keys - Subtree(nodes0, n)
  {
    DestroyedRest(nodes0, kids0, t, kt, bound, n);
  }

  /** `DestroyedPost` for a node without a parent. */
  lemma DestroyedRoot(nodes0: map<NodeId, NodeRec>, kids0: map<NodeId, seq<NodeId>>,
                      t: map<NodeId, NodeRec>, kt: map<NodeId, seq<NodeId>>,
                      s: map<NodeId, NodeRec>, ks: map<NodeId, seq<NodeId>>, bound: nat, n: NodeId)
    requires Wf(nodes0, kids0, bound) && Wf(t, kt, bound) && Pruned(nodes0, kids0, t, kt, n)
    requires t.Keys == nodes0.Keys - Subtree(nodes0, n) + {n} && t[n].cc == 0
    requires t[n].parent.Ref? ==>
      CanDetach(t, n) && s == Detached(t, n) && ks == kt[t[n].parent.id := Without(kt[t[n].parent.id], n)]
    requires t[n].parent.Null? ==> s == t && ks == kt
    ensures nodes0[n].parent.Null? ==>
      (forall x :: x in s - {n} ==> (s - {n})[x] == nodes0[x] && (ks - {n})[x] == kids0[x])
  {
    DestroyedRest(nodes0, kids0, t, kt, bound, n);
  }

  /** `DestroyedPost` for a node with a parent. */
  lemma DestroyedChild(nodes0: map<NodeId, NodeRec>, kids0: map<NodeId, seq<NodeId>>,
                      t: map<NodeId, NodeRec>, kt: map<NodeId, seq<NodeId>>,
                      s: map<NodeId, NodeRec>, ks: map<NodeId, seq<NodeId>>, bound: nat, n: NodeId)
    requires Wf(nodes0, kids0, bound) && Wf(t, kt, bound) && Pruned(nodes0, kids0, t, kt, n)
    requires t.Keys == nodes0.Keys - Subtree(nodes0, n) + {n} && t[n].cc == 0
    requires t[n].parent.Ref? ==>
      CanDetach(t, n) && s == Detached(t, n) && ks == kt[t[n].parent.id := Without(kt[t[n].parent.id], n)]
    requires t[n].parent.Null? ==> s == t && ks == kt
    ensures nodes0[n].parent.Ref? ==>
      CanDetach(nodes0, n) &&
      (forall x :: x in s - {n} ==> (s - {n})[x] == Detached(nodes0, n)[x]) &&
      (forall x :: x in s - {n} ==>
        (ks - {n})[x] == if nodes0[n].parent == Ref(x) then Without(kids0[x], n) else kids0[x])
  {
    DestroyedRest(nodes0, kids0, t, kt, bound, n);
  }
}
