/**
 * `parseXMLFile` of xml.c: the tree a document describes, given as a
 * function of the text, and the arena invariant the parse loop keeps.
 */
module Parsing {
  import opened Wrappers
  import opened Attributes
  import opened Stream
  import opened Tags
  import opened Arena
  import opened Subtrees
  import opened Trees
  import opened Nodes

  /** An element the parser has opened and not yet closed, with the children it has finished. */
  datatype Frame = Frame(name: Option<string>, value: Option<string>, attr: Option<Attribute>, done: seq<Tree>)

  /** The tree of a finished element. */
  function Closed(f: Frame): (t: Tree)
    ensures t.name == f.name && t.value == f.value && t.attr == f.attr && t.children == f.done
  {
    Element(f.name, f.value, f.attr, f.done)
  }

  /** The element `initXMLNodeFromXMLTag` makes of a tag: its name, no value, its attributes moved over. */
  function Opened(t: TagValue): (f: Frame)
    ensures f.name == Some(t.name) && f.value.None? && |f.done| == 0
    ensures Pairs(f.attr) == Reversed(Pairs(t.attr))
  {
    MoveAllReverses(t.attr, None);
    Frame(Some(t.name), None, MoveAll(t.attr, None), [])
  }

  /** The innermost open element takes the value just read, if there is one. */
  function WithValue(stack: seq<Frame>, v: Option<string>): (s: seq<Frame>)
    requires |stack| > 0
    ensures |s| == |stack| && s[..|s| - 1] == stack[..|stack| - 1]
    ensures s[|s| - 1] == if v.Some? then stack[|stack| - 1].(value := v) else stack[|stack| - 1]
  {
    if v.None? then stack else stack[..|stack| - 1] + [stack[|stack| - 1].(value := v)]
  }

  /** The innermost open element finishes one more child. */
  function AddDone(stack: seq<Frame>, t: Tree): (s: seq<Frame>)
    requires |stack| > 0
    ensures |s| == |stack| && s[..|s| - 1] == stack[..|stack| - 1]
    ensures s[|s| - 1] == stack[|stack| - 1].(done := stack[|stack| - 1].done + [t])
  {
    stack[..|stack| - 1] + [stack[|stack| - 1].(done := stack[|stack| - 1].done + [t])]
  }

  /** A closing tag finishes the innermost element, which becomes a child of the one around it. */
  function Close(stack: seq<Frame>): (s: seq<Frame>)
    requires |stack| >= 2
    ensures |s| == |stack| - 1
    ensures s[..|s| - 1] == stack[..|stack| - 2]
    ensures s[|s| - 1] == stack[|stack| - 2].(done := stack[|stack| - 2].done + [Closed(stack[|stack| - 1])])
  {
    AddDone(stack[..|stack| - 1], Closed(stack[|stack| - 1]))
  }

  /**
   * The parse loop from offset `p` with the elements `stack` open: read a
   * value for the innermost element, then a tag. An opening tag opens a
   * child, an empty-element tag adds a finished child, and a closing tag
   * (whatever its name) finishes the innermost element, or the whole
   * document when that is the root. A failed tag read fails the parse.
   */
  function ParseFrom(text: seq<char>, p: nat, stack: seq<Frame>): (res: (Option<Tree>, nat))
    requires p <= |text| && |stack| > 0
    ensures p <= res.1 <= |text|
    decreases |text| - p
  {
    var (v, p1) := ReadValueSpec(text, p);
    var st := WithValue(stack, v);
    var (t, p2) := ReadTagSpec(text, p1);
    if t.None? then (None, p2)
    else if t.value.kind == Opening then ParseFrom(text, p2, st + [Opened(t.value)])
    else if t.value.kind == Unique then ParseFrom(text, p2, AddDone(st, Closed(Opened(t.value))))
    // A tag read never yields `Unknown`, so this is the closing tag.
    else if |st| == 1 then (Some(Closed(st[0])), p2)
    else ParseFrom(text, p2, Close(st))
  }

  /**
   * The tree `parseXMLFile` builds from offset `p`, and where it leaves the
   * cursor. No first tag or a closing first tag gives nothing; an
   * empty-element first tag is the whole document; otherwise the loop runs
   * with the root open.
   */
  function ParseSpec(text: seq<char>, p: nat): (res: (Option<Tree>, nat))
    requires p <= |text|
    ensures p <= res.1 <= |text|
    ensures res.0.Some? ==> res.0.value.name.Some?
  {
    var (t, p1) := ReadTagSpec(text, p);
    if t.None? || t.value.kind == Closing then (None, p1)
    else if t.value.kind == Unique then (Some(Closed(Opened(t.value))), p1)
    else ParseRoot(text, p1, Opened(t.value))
  }

  /** One round of `ParseFrom`: the value read at `p` and the tag read after it decide the rest. */
  lemma ParseFromStep(text: seq<char>, p: nat, stack: seq<Frame>, st: seq<Frame>, p1: nat, tag: Option<TagValue>, p2: nat)
    requires p <= |text| && |stack| > 0
    requires ReadValueSpec(text, p).1 == p1 && st == WithValue(stack, ReadValueSpec(text, p).0)
    requires ReadTagSpec(text, p1) == (tag, p2)
    ensures |st| == |stack| && (tag.Some? ==> p < p2)
    ensures tag.None? ==> ParseFrom(text, p, stack) == (None, p2)
    ensures tag.Some? && tag.value.kind == Closing && |st| == 1 ==> ParseFrom(text, p, stack) == (Some(Closed(st[0])), p2)
    ensures tag.Some? && !(tag.value.kind == Closing && |st| == 1) ==>
      tag.value.kind != Unknown &&
      ParseFrom(text, p, stack) == ParseFrom(text, p2,
        if tag.value.kind == Opening then st + [Opened(tag.value)]
        else if tag.value.kind == Unique then AddDone(st, Closed(Opened(tag.value)))
        else Close(st))
  {
  }

  /** `ParseFromStep` for a tag that was read, in the terms one round of the parse loop uses. */
  lemma TagRound(text: seq<char>, p: nat, stack: seq<Frame>, st: seq<Frame>, p1: nat, t: TagValue, p2: nat,
                 end: bool, stack': seq<Frame>)
    requires p <= |text| && |stack| > 0
    requires ReadValueSpec(text, p).1 == p1 && st == WithValue(stack, ReadValueSpec(text, p).0)
    requires ReadTagSpec(text, p1) == (Some(t), p2)
    requires end <==> t.kind == Closing && |st| == 1
    requires stack' ==
      if t.kind == Opening then st + [Opened(t)]
      else if t.kind == Unique then AddDone(st, Closed(Opened(t)))
      else if |st| == 1 then st
      else Close(st)
    ensures end ==> |stack'| == 1 && ParseFrom(text, p, stack) == (Some(Closed(stack'[0])), p2)
    ensures !end ==> p < p2 && ParseFrom(text, p, stack) == ParseFrom(text, p2, stack')
  {
    ParseFromStep(text, p, stack, st, p1, Some(t), p2);
  }

  /** `ParseFrom` with only the root open finishes with a tree named like the root. */
  function ParseRoot(text: seq<char>, p: nat, root: Frame): (res: (Option<Tree>, nat))
    requires p <= |text| && root.name.Some?
    ensures res == ParseFrom(text, p, [root])
    ensures p <= res.1 <= |text|
    ensures res.0.Some? ==> res.0.value.name.Some?
  {
    ParseFromNamed(text, p, [root]);
    ParseFrom(text, p, [root])
  }

  /** The parse loop ends with the outermost open element, so the result keeps its name. */
  lemma {:induction false} ParseFromNamed(text: seq<char>, p: nat, stack: seq<Frame>)
    requires p <= |text| && |stack| > 0 && stack[0].name.Some?
    ensures ParseFrom(text, p, stack).0.Some? ==> ParseFrom(text, p, stack).0.value.name == stack[0].name
    decreases |text| - p
  {
    var (v, p1) := ReadValueSpec(text, p);
    var st := WithValue(stack, v);
    assert st[0].name == stack[0].name by {
      if |stack| > 1 {
        assert st[0] == st[..|st| - 1][0];
      }
    }
    var (t, p2) := ReadTagSpec(text, p1);
    if t.Some? {
      if t.value.kind == Opening {
        ParseFromNamed(text, p2, st + [Opened(t.value)]);
      } else if t.value.kind == Unique {
        var st' := AddDone(st, Closed(Opened(t.value)));
        assert st'[0].name == st[0].name by {
          if |st| > 1 {
            assert st'[0] == st'[..|st'| - 1][0];
          }
        }
        ParseFromNamed(text, p2, st');
      } else if |st| > 1 {
        var st' := Close(st);
        assert st'[0].name == st[0].name by {
          if |st| > 2 {
            assert st'[0] == st'[..|st'| - 1][0];
          }
        }
        ParseFromNamed(text, p2, st');
      }
    }
  }

  // ---------------------------------------------------------------------
  // The arena while the loop runs: the open elements form a path of nodes
  // from the root down to `current`.

  /** `path` runs from a parentless root down through parent links, identifiers increasing. */
  ghost predicate PathLinks(nodes: map<NodeId, NodeRec>, path: seq<NodeId>)
  {
    |path| > 0 &&
    (forall i :: 0 <= i < |path| ==> path[i] in nodes) &&
    nodes[path[0]].parent.Null? &&
    (forall i :: 0 < i < |path| ==> nodes[path[i]].parent == Ref(path[i - 1]) && path[i - 1] < path[i])
  }

  /**
   * Node `path[i]` holds open element `stack[i]`: the same name, value and
   * attributes; its first children are the finished ones, and below the
   * innermost element the next open element is its last child.
   */
  ghost predicate FrameOk(nodes: map<NodeId, NodeRec>, kids: map<NodeId, seq<NodeId>>, bound: nat,
                          path: seq<NodeId>, stack: seq<Frame>, i: nat)
  {
    i < |path| && i < |stack| && path[i] in nodes && path[i] in kids && path[i] < bound &&
    var r, f, ks := nodes[path[i]], stack[i], kids[path[i]];
    r.name == f.name && r.value == f.value && r.attr == f.attr &&
    (if i + 1 < |path| then |ks| == |f.done| + 1 && ks[|f.done|] == path[i + 1] else |ks| == |f.done|) &&
    Forest(nodes, kids, bound, path[i] + 1, ks[..|f.done|]) == f.done
  }

  /** The arena holds the open elements `stack` along `path`. */
  ghost predicate Mirrors(nodes: map<NodeId, NodeRec>, kids: map<NodeId, seq<NodeId>>, bound: nat,
                          path: seq<NodeId>, stack: seq<Frame>)
  {
    |path| == |stack| && PathLinks(nodes, path) &&
    forall i {:trigger FrameOk(nodes, kids, bound, path, stack, i)} :: 0 <= i < |path| ==>
      FrameOk(nodes, kids, bound, path, stack, i)
  }

  /** Identifiers increase along the path. */
  lemma {:induction false} PathIncreasing(nodes: map<NodeId, NodeRec>, path: seq<NodeId>, i: nat, j: nat)
    requires PathLinks(nodes, path) && i < j < |path|
    ensures path[i] < path[j]
    decreases j - i
  {
    if i + 1 < j {
      PathIncreasing(nodes, path, i, j - 1);
    }
  }

  /** Every node of the path lies below the root. */
  lemma {:induction false} PathBelowRoot(nodes: map<NodeId, NodeRec>, path: seq<NodeId>, k: nat)
    requires PathLinks(nodes, path) && k < |path|
    ensures Below(nodes, path[k], path[0])
    decreases k
  {
    if k > 0 {
      PathBelowRoot(nodes, path, k - 1);
    }
  }

  /** A node that is on no position up to `k` of the path is no ancestor of `path[k]`. */
  lemma {:induction false} OffPath(nodes: map<NodeId, NodeRec>, path: seq<NodeId>, k: nat, c: NodeId)
    requires PathLinks(nodes, path) && k < |path|
    requires forall j :: 0 <= j <= k ==> path[j] != c
    ensures !Below(nodes, path[k], c)
    decreases k
  {
    if k > 0 {
      OffPath(nodes, path, k - 1, c);
    }
  }

  /** A finished child of an open element is not on the path. */
  lemma FinishedOffPath(nodes: map<NodeId, NodeRec>, kids: map<NodeId, seq<NodeId>>, bound: nat,
                        path: seq<NodeId>, stack: seq<Frame>, i: nat, d: nat)
    requires Wf(nodes, kids, bound) && Mirrors(nodes, kids, bound, path, stack)
    requires i < |path| && d < |stack[i].done|
    ensures path[i] in kids && d < |kids[path[i]]| && kids[path[i]][d] in nodes && path[i] < kids[path[i]][d]
    ensures !Below(nodes, path[|path| - 1], kids[path[i]][d])
  {
    assert FrameOk(nodes, kids, bound, path, stack, i);
    assert NodeOk(nodes, kids, bound, path[i]);
    var ks := kids[path[i]];
    var m := |stack[i].done|;
    var c := ks[d];
    assert Links(nodes[ks[d]]) == SiblingsAt(path[i], ks, d);
    forall j | 0 <= j < |path|
      ensures path[j] != c
    {
      if j > 0 && j - 1 != i {
        if j - 1 < i {
          PathIncreasing(nodes, path, j - 1, i);
        } else {
          PathIncreasing(nodes, path, i, j - 1);
        }
      }
      if j > 0 && j - 1 == i {
        DistinctAt(ks, d, m);
      }
    }
    OffPath(nodes, path, |path| - 1, c);
  }

  /**
   * The finished children keep their trees when the arena changes only at
   * the innermost open node (and may gain nodes).
   */
  lemma FinishedKept(nodes: map<NodeId, NodeRec>, kids: map<NodeId, seq<NodeId>>, bound: nat,
                     nodes': map<NodeId, NodeRec>, kids': map<NodeId, seq<NodeId>>, bound': nat,
                     path: seq<NodeId>, stack: seq<Frame>, i: nat)
    requires Wf(nodes, kids, bound) && Mirrors(nodes, kids, bound, path, stack) && bound <= bound'
    requires i < |path|
    requires Agree(nodes, kids, nodes', kids', nodes.Keys - {path[|path| - 1]})
    ensures path[i] in kids && |stack[i].done| <= |kids[path[i]]|
    ensures Forest(nodes', kids', bound', path[i] + 1, kids[path[i]][..|stack[i].done|]) == stack[i].done
  {
    assert FrameOk(nodes, kids, bound, path, stack, i);
    var m := |stack[i].done|;
    var ks := kids[path[i]][..m];
    var s := nodes.Keys - {path[|path| - 1]};
    forall d | 0 <= d < |ks|
      ensures ks[d] in nodes && path[i] < ks[d] && Subtree(nodes, ks[d]) <= s
    {
      FinishedOffPath(nodes, kids, bound, path, stack, i, d);
    }
    ForestFrame(nodes, kids, bound, nodes', kids', bound', path[i], ks, s);
  }

  /** Reading a value into the innermost open node keeps the invariant. */
  lemma MirrorsValue(nodes: map<NodeId, NodeRec>, kids: map<NodeId, seq<NodeId>>, bound: nat,
                     path: seq<NodeId>, stack: seq<Frame>, v: Option<string>)
    requires Wf(nodes, kids, bound) && Mirrors(nodes, kids, bound, path, stack)
    ensures var cur := path[|path| - 1];
      Mirrors(if v.Some? then nodes[cur := nodes[cur].(value := v)] else nodes, kids, bound, path, WithValue(stack, v))
  {
    if v.Some? {
      var cur := path[|path| - 1];
      var nodes' := nodes[cur := nodes[cur].(value := v)];
      var st := WithValue(stack, v);
      assert Agree(nodes, kids, nodes', kids, nodes.Keys - {cur});
      forall i | 0 <= i < |path|
        ensures FrameOk(nodes', kids, bound, path, st, i)
      {
        FinishedKept(nodes, kids, bound, nodes', kids, bound, path, stack, i);
        assert FrameOk(nodes, kids, bound, path, stack, i);
        if i + 1 < |path| {
          PathIncreasing(nodes, path, i, |path| - 1);
          assert st[i] == st[..|st| - 1][i];
        }
      }
    }
  }

  /** The node `addXMLNodeToParent` appends under the innermost open node, as a tag makes it. */
  function NodeOfTag(t: TagValue): (r: NodeRec)
    ensures r.name == Some(t.name) && r.value.None? && r.parent.Null? && r.previous.Null? && r.next.Null? && r.cc == 0
  {
    Blank.(name := Some(t.name), attr := MoveAll(t.attr, None))
  }

  /** What appending a node made from a tag changes, and what it keeps. */
  lemma AppendBasics(nodes: map<NodeId, NodeRec>, kids: map<NodeId, seq<NodeId>>, bound: nat,
                     path: seq<NodeId>, stack: seq<Frame>, t: TagValue,
                     nodes': map<NodeId, NodeRec>, kids': map<NodeId, seq<NodeId>>)
    requires Wf(nodes, kids, bound) && Mirrors(nodes, kids, bound, path, stack)
    requires CanAppend(nodes[bound := NodeOfTag(t)], path[|path| - 1], bound)
    requires nodes' == Attached(nodes[bound := NodeOfTag(t)], path[|path| - 1], bound)
    requires kids' == kids[bound := []][path[|path| - 1] := kids[bound := []][path[|path| - 1]] + [bound]]
    ensures bound !in nodes && nodes'.Keys == nodes.Keys + {bound} && kids'.Keys == kids.Keys + {bound}
    ensures Agree(nodes, kids, nodes', kids', nodes.Keys - {path[|path| - 1]})
    ensures forall y :: y in nodes && y != bound ==> nodes'[y].parent == nodes[y].parent
    ensures nodes'[bound].parent == Ref(path[|path| - 1]) && path[|path| - 1] < bound
    ensures Content(nodes'[bound]) == Content(NodeOfTag(t)) && kids'[bound] == []
    ensures Content(nodes'[path[|path| - 1]]) == Content(nodes[path[|path| - 1]])
    ensures kids'[path[|path| - 1]] == kids[path[|path| - 1]] + [bound]
  {
    var cur := path[|path| - 1];
    CreateWf(nodes, kids, bound);
    assert FrameOk(nodes, kids, bound, path, stack, |path| - 1);
    AttachedKeeps(nodes[bound := NodeOfTag(t)], cur, bound);
  }

  /** An opening tag: the new node becomes the innermost open node. */
  lemma MirrorsOpen(nodes: map<NodeId, NodeRec>, kids: map<NodeId, seq<NodeId>>, bound: nat,
                    path: seq<NodeId>, stack: seq<Frame>, t: TagValue,
                    nodes': map<NodeId, NodeRec>, kids': map<NodeId, seq<NodeId>>, bound': nat,
                    path': seq<NodeId>, st: seq<Frame>)
    requires Wf(nodes, kids, bound) && Mirrors(nodes, kids, bound, path, stack)
    requires CanAppend(nodes[bound := NodeOfTag(t)], path[|path| - 1], bound)
    requires nodes' == Attached(nodes[bound := NodeOfTag(t)], path[|path| - 1], bound)
    requires kids' == kids[bound := []][path[|path| - 1] := kids[bound := []][path[|path| - 1]] + [bound]]
    requires bound' == bound + 1 && path' == path + [bound] && st == stack + [Opened(t)]
    ensures Mirrors(nodes', kids', bound', path', st)
  {
    AppendBasics(nodes, kids, bound, path, stack, t, nodes', kids');
    var cur := path[|path| - 1];
    assert PathLinks(nodes', path') by {
      assert path'[0] == path[0];
      forall i | 0 < i < |path'|
        ensures nodes'[path'[i]].parent == Ref(path'[i - 1]) && path'[i - 1] < path'[i]
      {
        if i < |path| {
          assert path'[i] == path[i] && path'[i - 1] == path[i - 1];
        }
      }
    }
    forall i | 0 <= i < |path'|
      ensures FrameOk(nodes', kids', bound', path', st, i)
    {
      if i < |path| {
        FinishedKept(nodes, kids, bound, nodes', kids', bound', path, stack, i);
        assert FrameOk(nodes, kids, bound, path, stack, i);
        assert path'[i] == path[i] && st[i] == stack[i];
        var m := |stack[i].done|;
        if i + 1 < |path| {
          PathIncreasing(nodes, path, i, |path| - 1);
          assert path'[i + 1] == path[i + 1];
        } else {
          assert kids'[cur][..m] == kids[cur][..m];
        }
      } else {
        assert kids'[bound][..0] == [];
      }
    }
  }

  /** An empty-element tag: the new node is a finished child of the innermost open node. */
  lemma MirrorsUnique(nodes: map<NodeId, NodeRec>, kids: map<NodeId, seq<NodeId>>, bound: nat,
                      path: seq<NodeId>, stack: seq<Frame>, t: TagValue,
                      nodes': map<NodeId, NodeRec>, kids': map<NodeId, seq<NodeId>>, bound': nat)
    requires Wf(nodes, kids, bound) && Mirrors(nodes, kids, bound, path, stack)
    requires CanAppend(nodes[bound := NodeOfTag(t)], path[|path| - 1], bound)
    requires nodes' == Attached(nodes[bound := NodeOfTag(t)], path[|path| - 1], bound)
    requires kids' == kids[bound := []][path[|path| - 1] := kids[bound := []][path[|path| - 1]] + [bound]]
    requires bound' == bound + 1
    ensures Mirrors(nodes', kids', bound', path, AddDone(stack, Closed(Opened(t))))
  {
    AppendBasics(nodes, kids, bound, path, stack, t, nodes', kids');
    var cur := path[|path| - 1];
    var st := AddDone(stack, Closed(Opened(t)));
    assert PathLinks(nodes', path);
    forall i | 0 <= i < |path|
      ensures FrameOk(nodes', kids', bound', path, st, i)
    {
      FinishedKept(nodes, kids, bound, nodes', kids', bound', path, stack, i);
      assert FrameOk(nodes, kids, bound, path, stack, i);
      var m := |stack[i].done|;
      if i + 1 < |path| {
        PathIncreasing(nodes, path, i, |path| - 1);
        assert st[i] == st[..|st| - 1][i];
      } else {
        assert kids'[cur][..m + 1] == kids[cur][..m] + [bound];
        ForestAppend(nodes', kids', bound', cur + 1, kids[cur][..m], bound);
        assert kids'[bound] == [];
        assert TreeOf(nodes', kids', bound', bound) == Closed(Opened(t));
      }
    }
  }

  /** The tree of the innermost open node is its finished element. */
  lemma InnermostTree(nodes: map<NodeId, NodeRec>, kids: map<NodeId, seq<NodeId>>, bound: nat,
                      path: seq<NodeId>, stack: seq<Frame>)
    requires Mirrors(nodes, kids, bound, path, stack)
    ensures TreeOf(nodes, kids, bound, path[|path| - 1]) == Closed(stack[|stack| - 1])
  {
    var k := |path| - 1;
    assert FrameOk(nodes, kids, bound, path, stack, k);
    assert kids[path[k]][..|stack[k].done|] == kids[path[k]];
  }

  /** A closing tag below the root: the innermost open node is finished. */
  lemma MirrorsClose(nodes: map<NodeId, NodeRec>, kids: map<NodeId, seq<NodeId>>, bound: nat,
                     path: seq<NodeId>, stack: seq<Frame>)
    requires Mirrors(nodes, kids, bound, path, stack) && |path| >= 2
    ensures Mirrors(nodes, kids, bound, path[..|path| - 1], Close(stack))
  {
    var path', st := path[..|path| - 1], Close(stack);
    var j := |path| - 2;
    InnermostTree(nodes, kids, bound, path, stack);
    assert PathLinks(nodes, path') by {
      forall i | 0 < i < |path'|
        ensures nodes[path'[i]].parent == Ref(path'[i - 1]) && path'[i - 1] < path'[i]
      {
        assert path'[i] == path[i] && path'[i - 1] == path[i - 1];
      }
    }
    forall i | 0 <= i < |path'|
      ensures FrameOk(nodes, kids, bound, path', st, i)
    {
      assert FrameOk(nodes, kids, bound, path, stack, i);
      assert path'[i] == path[i];
      if i < j {
        assert st[i] == st[..|st| - 1][i] && path'[i + 1] == path[i + 1];
      } else {
        var ks, m := kids[path[j]], |stack[j].done|;
        assert FrameOk(nodes, kids, bound, path, stack, j + 1);
        assert ks[..m + 1] == ks[..m] + [path[j + 1]];
        ForestAppend(nodes, kids, bound, path[j] + 1, ks[..m], path[j + 1]);
      }
    }
  }

  // ---------------------------------------------------------------------
  // What the parse does to the rest of the arena: earlier nodes are left
  // alone and every node it adds lies below the root.

  /** Every identifier in a well-formed arena is below its bound. */
  lemma KeysBelow(nodes: map<NodeId, NodeRec>, kids: map<NodeId, seq<NodeId>>, bound: nat)
    requires Wf(nodes, kids, bound)
    ensures forall x :: x in nodes ==> x < bound
  {
    forall x | x in nodes
      ensures x < bound
    {
      assert NodeOk(nodes, kids, bound, x);
    }
  }

  /** The arena grew from `nodes0` by nodes below `root` only. */
  ghost predicate Grown(nodes0: map<NodeId, NodeRec>, kids0: map<NodeId, seq<NodeId>>, n0: nat,
                        nodes: map<NodeId, NodeRec>, kids: map<NodeId, seq<NodeId>>, root: NodeId)
  {
    n0 <= root &&
    (forall x :: x in nodes0 ==> x in nodes && x in kids && x in kids0 && nodes[x] == nodes0[x] && kids[x] == kids0[x]) &&
    (forall x :: x in nodes && x !in nodes0 ==> Below(nodes, x, root))
  }

  /** The earlier nodes and the subtree of the root split the arena. */
  lemma GrownKeys(nodes0: map<NodeId, NodeRec>, kids0: map<NodeId, seq<NodeId>>, n0: nat,
                  nodes: map<NodeId, NodeRec>, kids: map<NodeId, seq<NodeId>>, root: NodeId)
    requires Wf(nodes0, kids0, n0) && Grown(nodes0, kids0, n0, nodes, kids, root)
    ensures nodes.Keys == nodes0.Keys + Subtree(nodes, root)
    ensures nodes0.Keys !! Subtree(nodes, root)
  {
    KeysBelow(nodes0, kids0, n0);
    forall x | x in nodes0
      ensures !Below(nodes, x, root)
    {
      if Below(nodes, x, root) {
        BelowGe(nodes, x, root);
      }
    }
  }

  /** Storing a value in a node the parse added keeps the earlier nodes. */
  lemma GrownValue(nodes0: map<NodeId, NodeRec>, kids0: map<NodeId, seq<NodeId>>, n0: nat,
                   nodes: map<NodeId, NodeRec>, kids: map<NodeId, seq<NodeId>>, root: NodeId,
                   cur: NodeId, v: Option<string>)
    requires Wf(nodes0, kids0, n0) && Grown(nodes0, kids0, n0, nodes, kids, root)
    requires cur in nodes && n0 <= cur
    ensures Grown(nodes0, kids0, n0, if v.Some? then nodes[cur := nodes[cur].(value := v)] else nodes, kids, root)
  {
    if v.Some? {
      var nodes' := nodes[cur := nodes[cur].(value := v)];
      KeysBelow(nodes0, kids0, n0);
      forall x | x in nodes' && x !in nodes0
        ensures Below(nodes', x, root)
      {
        BelowBack(nodes, nodes', x, root);
      }
    }
  }

  /** Appending a new node under a node the parse added keeps the earlier nodes. */
  lemma GrownAppend(nodes0: map<NodeId, NodeRec>, kids0: map<NodeId, seq<NodeId>>, n0: nat,
                    nodes: map<NodeId, NodeRec>, kids: map<NodeId, seq<NodeId>>, bound: nat, root: NodeId,
                    cur: NodeId, t: TagValue, nodes': map<NodeId, NodeRec>, kids': map<NodeId, seq<NodeId>>)
    requires Wf(nodes0, kids0, n0) && Wf(nodes, kids, bound) && Grown(nodes0, kids0, n0, nodes, kids, root)
    requires cur in nodes && n0 <= cur
    requires CanAppend(nodes[bound := NodeOfTag(t)], cur, bound)
    requires nodes' == Attached(nodes[bound := NodeOfTag(t)], cur, bound)
    requires kids' == kids[bound := []][cur := kids[bound := []][cur] + [bound]]
    ensures Grown(nodes0, kids0, n0, nodes', kids', root)
  {
    AppendPrep(nodes0, kids0, n0, nodes, kids, bound, cur);
    GrownAppendParts(nodes0, kids0, n0, nodes, kids, bound, root, cur, t, nodes', kids');
  }

  /** What `GrownAppend` needs of the two well-formed arenas. */
  lemma AppendPrep(nodes0: map<NodeId, NodeRec>, kids0: map<NodeId, seq<NodeId>>, n0: nat,
                   nodes: map<NodeId, NodeRec>, kids: map<NodeId, seq<NodeId>>, bound: nat, cur: NodeId)
    requires Wf(nodes0, kids0, n0) && Wf(nodes, kids, bound) && cur in nodes
    ensures forall x :: x in nodes0 ==> x < n0
    ensures cur < bound && bound !in nodes && cur in kids
    ensures nodes[cur].last.Ref? ==> nodes[cur].last.id in nodes && cur < nodes[cur].last.id
  {
    KeysBelow(nodes0, kids0, n0);
    KeysBelow(nodes, kids, bound);
    assert NodeOk(nodes, kids, bound, cur);
    var ks := kids[cur];
    if nodes[cur].last.Ref? {
      assert nodes[cur].last.id == ks[|ks| - 1] && cur < ks[|ks| - 1];
    }
  }

  /** `GrownAppend` from the facts `AppendPrep` gives. */
  lemma GrownAppendParts(nodes0: map<NodeId, NodeRec>, kids0: map<NodeId, seq<NodeId>>, n0: nat,
                         nodes: map<NodeId, NodeRec>, kids: map<NodeId, seq<NodeId>>, bound: nat, root: NodeId,
                         cur: NodeId, t: TagValue, nodes': map<NodeId, NodeRec>, kids': map<NodeId, seq<NodeId>>)
    requires Grown(nodes0, kids0, n0, nodes, kids, root) && (forall x :: x in nodes0 ==> x < n0)
    requires cur in nodes && n0 <= cur && cur < bound && bound !in nodes && cur in kids
    requires nodes[cur].last.Ref? ==> nodes[cur].last.id in nodes && cur < nodes[cur].last.id
    requires CanAppend(nodes[bound := NodeOfTag(t)], cur, bound)
    requires nodes' == Attached(nodes[bound := NodeOfTag(t)], cur, bound)
    requires kids' == kids[bound := []][cur := kids[bound := []][cur] + [bound]]
    ensures Grown(nodes0, kids0, n0, nodes', kids', root)
  {
    var a := nodes[bound := NodeOfTag(t)];
    AttachedFrame(a, cur, bound);
    AttachedKeeps(a, cur, bound);
    GrownAppendKept(nodes0, kids0, n0, nodes, kids, a, bound, cur, nodes', kids');
    GrownAppendBelow(nodes0, n0, nodes, bound, root, cur, nodes');
  }

  /** The frame half of `GrownAppend`: the nodes changed are `cur`, its last child and the new node, none of them earlier. */
  lemma GrownAppendKept(nodes0: map<NodeId, NodeRec>, kids0: map<NodeId, seq<NodeId>>, n0: nat,
                        nodes: map<NodeId, NodeRec>, kids: map<NodeId, seq<NodeId>>, a: map<NodeId, NodeRec>,
                        bound: nat, cur: NodeId, nodes': map<NodeId, NodeRec>, kids': map<NodeId, seq<NodeId>>)
    requires forall x :: x in nodes0 ==> x in nodes && x in kids && x in kids0 && nodes[x] == nodes0[x] && kids[x] == kids0[x]
    requires forall x :: x in nodes0 ==> x < n0
    requires n0 <= cur && cur < bound && cur in nodes && cur in kids && bound in a && a == nodes[bound := a[bound]]
    requires a[cur].last.Ref? ==> cur < a[cur].last.id
    requires AppendFrame(a, nodes', cur, bound)
    requires kids' == kids[bound := []][cur := kids[bound := []][cur] + [bound]]
    ensures forall x :: x in nodes0 ==> x in nodes' && x in kids' && nodes'[x] == nodes0[x] && kids'[x] == kids0[x]
  {
    forall x | x in nodes0
      ensures x in nodes' && x in kids' && nodes'[x] == nodes0[x] && kids'[x] == kids0[x]
    {
      assert x != cur && x != bound && Ref(x) != a[cur].last;
      assert nodes'[x] == a[x];
    }
  }

  /** The `Below` half of `GrownAppend`: the new node hangs under `cur`, which lies below the root. */
  lemma GrownAppendBelow(nodes0: map<NodeId, NodeRec>, n0: nat, nodes: map<NodeId, NodeRec>, bound: nat,
                         root: NodeId, cur: NodeId, nodes': map<NodeId, NodeRec>)
    requires forall x :: x in nodes && x !in nodes0 ==> Below(nodes, x, root)
    requires cur in nodes && cur !in nodes0 && bound !in nodes && cur < bound
    requires nodes'.Keys == nodes.Keys + {bound} && nodes'[bound].parent == Ref(cur)
    requires forall y :: y in nodes ==> nodes'[y].parent == nodes[y].parent
    ensures forall x :: x in nodes' && x !in nodes0 ==> Below(nodes', x, root)
  {
    BelowBack(nodes, nodes', cur, root);
    forall x | x in nodes' && x !in nodes0
      ensures Below(nodes', x, root)
    {
      if x != bound {
        BelowBack(nodes, nodes', x, root);
      }
    }
  }
  // ---------------------------------------------------------------------
  // The parser.

  /** The state of the parse loop: `path` holds `stack`, and the arena grew from `nodes0` below `path[0]`. */
  ghost predicate Building(nodes0: map<NodeId, NodeRec>, kids0: map<NodeId, seq<NodeId>>, n0: nat,
                           nodes: map<NodeId, NodeRec>, kids: map<NodeId, seq<NodeId>>, bound: nat,
                           path: seq<NodeId>, stack: seq<Frame>)
  {
    |path| > 0 && Wf(nodes0, kids0, n0) && Wf(nodes, kids, bound) &&
    Mirrors(nodes, kids, bound, path, stack) && Grown(nodes0, kids0, n0, nodes, kids, path[0])
  }

  /** The innermost open node has a parent exactly when it is not the root. */
  lemma PathParent(nodes: map<NodeId, NodeRec>, path: seq<NodeId>)
    requires PathLinks(nodes, path)
    ensures nodes[path[|path| - 1]].parent.Ref? <==> |path| >= 2
    ensures |path| >= 2 ==> nodes[path[|path| - 1]].parent == Ref(path[|path| - 2])
  {
  }

  /** The parse loop with one node open: the root. */
  lemma BuildStart(nodes0: map<NodeId, NodeRec>, kids0: map<NodeId, seq<NodeId>>, n0: nat, t: TagValue)
    requires Wf(nodes0, kids0, n0)
    ensures Wf(nodes0[n0 := NodeOfTag(t)], kids0[n0 := []], n0 + 1)
    ensures Building(nodes0, kids0, n0, nodes0[n0 := NodeOfTag(t)], kids0[n0 := []], n0 + 1, [n0], [Opened(t)])
    ensures TreeOf(nodes0[n0 := NodeOfTag(t)], kids0[n0 := []], n0 + 1, n0) == Closed(Opened(t))
  {
    var nodes, kids := nodes0[n0 := NodeOfTag(t)], kids0[n0 := []];
    CreateWf(nodes0, kids0, n0);
    RelabelWf(nodes0[n0 := Blank], kids, n0 + 1, n0, NodeOfTag(t));
    assert nodes0[n0 := Blank][n0 := NodeOfTag(t)] == nodes;
    assert FrameOk(nodes, kids, n0 + 1, [n0], [Opened(t)], 0);
    KeysBelow(nodes0, kids0, n0);
  }

  /** `readXMLNodeValue` on the innermost open node. */
  lemma BuildValue(nodes0: map<NodeId, NodeRec>, kids0: map<NodeId, seq<NodeId>>, n0: nat,
                   nodes: map<NodeId, NodeRec>, kids: map<NodeId, seq<NodeId>>, bound: nat,
                   path: seq<NodeId>, stack: seq<Frame>, v: Option<string>)
    requires Building(nodes0, kids0, n0, nodes, kids, bound, path, stack)
    ensures var cur := path[|path| - 1];
      Building(nodes0, kids0, n0, if v.Some? then nodes[cur := nodes[cur].(value := v)] else nodes, kids, bound,
               path, WithValue(stack, v))
  {
    var cur := path[|path| - 1];
    assert FrameOk(nodes, kids, bound, path, stack, |path| - 1);
    if |path| > 1 {
      PathIncreasing(nodes, path, 0, |path| - 1);
    }
    if v.Some? {
      RelabelWf(nodes, kids, bound, cur, nodes[cur].(value := v));
    }
    MirrorsValue(nodes, kids, bound, path, stack, v);
    GrownValue(nodes0, kids0, n0, nodes, kids, path[0], cur, v);
  }

  /** A node made from tag `t` appended under the innermost open node, for an opening and an empty-element tag. */
  lemma BuildAppend(nodes0: map<NodeId, NodeRec>, kids0: map<NodeId, seq<NodeId>>, n0: nat,
                    nodes: map<NodeId, NodeRec>, kids: map<NodeId, seq<NodeId>>, bound: nat,
                    path: seq<NodeId>, stack: seq<Frame>, t: TagValue,
                    nodes': map<NodeId, NodeRec>, kids': map<NodeId, seq<NodeId>>)
    requires Building(nodes0, kids0, n0, nodes, kids, bound, path, stack) && Wf(nodes', kids', bound + 1)
    requires CanAppend(nodes[bound := NodeOfTag(t)], path[|path| - 1], bound)
    requires nodes' == Attached(nodes[bound := NodeOfTag(t)], path[|path| - 1], bound)
    requires kids' == kids[bound := []][path[|path| - 1] := kids[bound := []][path[|path| - 1]] + [bound]]
    ensures Building(nodes0, kids0, n0, nodes', kids', bound + 1, path + [bound], stack + [Opened(t)])
    ensures Building(nodes0, kids0, n0, nodes', kids', bound + 1, path, AddDone(stack, Closed(Opened(t))))
  {
    var cur := path[|path| - 1];
    assert FrameOk(nodes, kids, bound, path, stack, |path| - 1);
    if |path| > 1 {
      PathIncreasing(nodes, path, 0, |path| - 1);
    }
    MirrorsOpen(nodes, kids, bound, path, stack, t, nodes', kids', bound + 1, path + [bound], stack + [Opened(t)]);
    MirrorsUnique(nodes, kids, bound, path, stack, t, nodes', kids', bound + 1);
    GrownAppend(nodes0, kids0, n0, nodes, kids, bound, path[0], cur, t, nodes', kids');
  }

  /** A closing tag below the root. */
  lemma BuildClose(nodes0: map<NodeId, NodeRec>, kids0: map<NodeId, seq<NodeId>>, n0: nat,
                   nodes: map<NodeId, NodeRec>, kids: map<NodeId, seq<NodeId>>, bound: nat,
                   path: seq<NodeId>, stack: seq<Frame>)
    requires Building(nodes0, kids0, n0, nodes, kids, bound, path, stack) && |path| >= 2
    ensures Building(nodes0, kids0, n0, nodes, kids, bound, path[..|path| - 1], Close(stack))
  {
    MirrorsClose(nodes, kids, bound, path, stack);
  }

  /** The closing tag of the root: the arena holds the finished tree, and the earlier nodes beside it. */
  lemma BuildDone(nodes0: map<NodeId, NodeRec>, kids0: map<NodeId, seq<NodeId>>, n0: nat,
                  nodes: map<NodeId, NodeRec>, kids: map<NodeId, seq<NodeId>>, bound: nat,
                  path: seq<NodeId>, stack: seq<Frame>)
    requires Building(nodes0, kids0, n0, nodes, kids, bound, path, stack) && |path| == 1
    ensures path[0] in nodes && nodes[path[0]].parent.Null?
    ensures TreeOf(nodes, kids, bound, path[0]) == Closed(stack[0])
    ensures nodes.Keys == nodes0.Keys + Subtree(nodes, path[0])
  {
    InnermostTree(nodes, kids, bound, path, stack);
    GrownKeys(nodes0, kids0, n0, nodes, kids, path[0]);
  }

  /** A failed parse: what is left once the subtree of the root is gone is the arena it started from. */
  lemma BuildFailed(nodes0: map<NodeId, NodeRec>, kids0: map<NodeId, seq<NodeId>>, n0: nat,
                    nodes: map<NodeId, NodeRec>, kids: map<NodeId, seq<NodeId>>, bound: nat,
                    path: seq<NodeId>, stack: seq<Frame>)
    requires Building(nodes0, kids0, n0, nodes, kids, bound, path, stack)
    ensures path[0] in nodes && nodes[path[0]].parent.Null?
    ensures nodes.Keys - Subtree(nodes, path[0]) == nodes0.Keys
    ensures forall x :: x in nodes0 ==> x in nodes && x in kids && nodes[x] == nodes0[x] && kids[x] == kids0[x]
  {
    GrownKeys(nodes0, kids0, n0, nodes, kids, path[0]);
  }

  /** `readXMLNodeValue(current, file)` in the parse loop. */
  method ValueStep(h: Heap, r: Reader, current: NodeId, ghost nodes0: map<NodeId, NodeRec>,
                   ghost kids0: map<NodeId, seq<NodeId>>, ghost n0: nat, ghost path: seq<NodeId>, ghost stack: seq<Frame>)
    requires h.Valid() && r.Valid() && Building(nodes0, kids0, n0, h.nodes, h.kids, h.nextId, path, stack)
    requires current == path[|path| - 1]
    modifies h, r`pos
    ensures h.Valid() && r.Valid() && h.nextId == old(h.nextId)
    ensures r.pos == ReadValueSpec(r.text, old(r.pos)).1
    ensures Building(nodes0, kids0, n0, h.nodes, h.kids, h.nextId, path, WithValue(stack, ReadValueSpec(r.text, old(r.pos)).0))
  {
    BuildValue(nodes0, kids0, n0, h.nodes, h.kids, h.nextId, path, stack, ReadValueSpec(r.text, r.pos).0);
    assert FrameOk(h.nodes, h.kids, h.nextId, path, stack, |path| - 1);
    h.ReadValue(Ref(current), r);
  }

  /**
   * `createXMLNode`, `initXMLNodeFromXMLTag` and `addXMLNodeToParent`, the
   * sequence the parse loop runs for an opening or empty-element tag.
   */
  method AddNodeFromTag(h: Heap, current: NodeId, tag: Tag, ghost t: TagValue) returns (child: NodeId)
    requires h.Valid() && current in h.nodes && tag.Holds(t)
    modifies h, tag
    ensures h.Valid() && child == old(h.nextId) && h.nextId == child + 1
    ensures CanAppend(old(h.nodes)[child := NodeOfTag(t)], current, child)
    ensures h.nodes == Attached(old(h.nodes)[child := NodeOfTag(t)], current, child)
    ensures h.kids == old(h.kids)[child := []][current := old(h.kids)[child := []][current] + [child]]
  {
    assert NodeOk(h.nodes, h.kids, h.nextId, current);
    var c := h.CreateNode();
    h.InitFromTag(c, tag);
    assert h.nodes == old(h.nodes)[c.id := NodeOfTag(t)];
    h.AddChild(Ref(current), c);
    child := c.id;
  }

  /**
   * One tag of the parse loop, already read: an opening tag opens a child
   * of `current`, an empty-element tag adds one, and a closing tag moves to
   * the parent of `current` or, at the root, ends the loop.
   */
  method TagStep(h: Heap, current: NodeId, tag: Tag, ghost t: TagValue, ghost nodes0: map<NodeId, NodeRec>,
                 ghost kids0: map<NodeId, seq<NodeId>>, ghost n0: nat, ghost path: seq<NodeId>, ghost stack: seq<Frame>)
    returns (next: NodeId, end: bool, ghost path': seq<NodeId>, ghost stack': seq<Frame>)
    requires h.Valid() && Building(nodes0, kids0, n0, h.nodes, h.kids, h.nextId, path, stack)
    requires current == path[|path| - 1] && tag.Holds(t) && t.kind != Unknown
    modifies h, tag
    ensures h.Valid() && Building(nodes0, kids0, n0, h.nodes, h.kids, h.nextId, path', stack')
    ensures next == path'[|path'| - 1] && path'[0] == path[0]
    ensures end <==> t.kind == Closing && |stack| == 1
    ensures stack' ==
      if t.kind == Opening then stack + [Opened(t)]
      else if t.kind == Unique then AddDone(stack, Closed(Opened(t)))
      else if |stack| == 1 then stack
      else Close(stack)
  {
    ghost var nodes, kids, bound := h.nodes, h.kids, h.nextId;
    assert FrameOk(nodes, kids, bound, path, stack, |path| - 1);
    PathParent(nodes, path);
    var kind := tag.kind;
    if kind == Opening || kind == Unique {
      var child := AddNodeFromTag(h, current, tag, t);
      BuildAppend(nodes0, kids0, n0, nodes, kids, bound, path, stack, t, h.nodes, h.kids);
      if kind == Opening {
        next, end, path', stack' := child, false, path + [child], stack + [Opened(t)];
      } else {
        next, end, path', stack' := current, false, path, AddDone(stack, Closed(Opened(t)));
      }
    } else if h.nodes[current].parent.Ref? {
      BuildClose(nodes0, kids0, n0, nodes, kids, bound, path, stack);
      next, end, path', stack' := h.nodes[current].parent.id, false, path[..|path| - 1], Close(stack);
    } else {
      next, end, path', stack' := current, true, path, stack;
    }
  }

  /** `destroyXMLNode(root)` when a tag is missing: the arena goes back to what it was before the parse. */
  method Abandon(h: Heap, root: NodeId, ghost nodes0: map<NodeId, NodeRec>, ghost kids0: map<NodeId, seq<NodeId>>, ghost n0: nat,
                 ghost path: seq<NodeId>, ghost stack: seq<Frame>)
    requires h.Valid() && Building(nodes0, kids0, n0, h.nodes, h.kids, h.nextId, path, stack) && root == path[0]
    modifies h
    ensures h.Valid() && h.nodes.Keys == nodes0.Keys
    ensures forall x :: x in nodes0 ==> x in h.nodes && h.nodes[x] == nodes0[x] && h.kids[x] == kids0[x]
  {
    BuildFailed(nodes0, kids0, n0, h.nodes, h.kids, h.nextId, path, stack);
    h.Destroy(Ref(root));
  }

  /**
   * One round of the loop of `parseXMLFile`: the value of `current`, then a
   * tag. A missing tag destroys the nodes built (`failed`); the closing tag
   * of the root ends the loop (`end`).
   */
  method LoopStep(h: Heap, r: Reader, current: NodeId, root: NodeId, ghost nodes0: map<NodeId, NodeRec>,
                  ghost kids0: map<NodeId, seq<NodeId>>, ghost n0: nat, ghost path: seq<NodeId>, ghost stack: seq<Frame>)
    returns (next: NodeId, end: bool, failed: bool, ghost path': seq<NodeId>, ghost stack': seq<Frame>)
    requires h.Valid() && r.Valid() && Building(nodes0, kids0, n0, h.nodes, h.kids, h.nextId, path, stack)
    requires current == path[|path| - 1] && root == path[0]
    modifies h, r
    ensures h.Valid() && r.Valid()
    ensures failed ==>
      ParseFrom(r.text, old(r.pos), stack) == (None, r.pos) && h.nodes.Keys == nodes0.Keys &&
      forall x :: x in nodes0 ==> x in h.nodes && h.nodes[x] == nodes0[x] && h.kids[x] == kids0[x]
    ensures !failed ==>
      Building(nodes0, kids0, n0, h.nodes, h.kids, h.nextId, path', stack') &&
      next == path'[|path'| - 1] && root == path'[0] &&
      (end ==> |path'| == 1 && ParseFrom(r.text, old(r.pos), stack) == (Some(Closed(stack'[0])), r.pos)) &&
      (!end ==> old(r.pos) < r.pos && ParseFrom(r.text, old(r.pos), stack) == ParseFrom(r.text, r.pos, stack'))
  {
    ghost var text, pb := r.text, r.pos;
    ValueStep(h, r, current, nodes0, kids0, n0, path, stack);
    ghost var st := WithValue(stack, ReadValueSpec(text, pb).0);
    ghost var p1 := r.pos;
    var tag := ReadTag(r);
    if tag == null {
      ParseFromStep(text, pb, stack, st, p1, None, r.pos);
      Abandon(h, root, nodes0, kids0, n0, path, st);
      return current, false, true, path, st;
    }
    ghost var t := ReadTagSpec(text, p1).0.value;
    next, end, path', stack' := TagStep(h, current, tag, t, nodes0, kids0, n0, path, st);
    TagRound(text, pb, stack, st, p1, t, r.pos, end, stack');
    failed := false;
    var _ := tag.Destroy();
  }

  /**
   * The loop of `parseXMLFile` with the root open: true when the closing tag
   * of the root ends it, false when a tag is missing and the nodes built
   * are destroyed.
   */
  method ParseLoop(h: Heap, r: Reader, root: NodeId, ghost nodes0: map<NodeId, NodeRec>,
                   ghost kids0: map<NodeId, seq<NodeId>>, ghost n0: nat, ghost top: Frame) returns (ok: bool)
    requires h.Valid() && r.Valid() && Building(nodes0, kids0, n0, h.nodes, h.kids, h.nextId, [root], [top])
    modifies h, r
    ensures h.Valid() && r.Valid()
    ensures var (t, q) := ParseFrom(r.text, old(r.pos), [top]);
      r.pos == q && (ok <==> t.Some?) &&
      (ok ==> root in h.nodes && h.nodes[root].parent.Null? && TreeOf(h.nodes, h.kids, h.nextId, root) == t.value)
    ensures ok ==> h.nodes.Keys == nodes0.Keys + Subtree(h.nodes, root)
    ensures !ok ==> h.nodes.Keys == nodes0.Keys
    ensures forall x :: x in nodes0 ==> x in h.nodes && h.nodes[x] == nodes0[x] && h.kids[x] == kids0[x]
  {
    ghost var text := r.text;
    ghost var goal := ParseFrom(text, r.pos, [top]);
    ghost var path, stack := [root], [top];
    var current := root;
    var end, failed := false, false;
    while !end
      invariant h.Valid() && r.Valid() && r.text == text
      invariant Building(nodes0, kids0, n0, h.nodes, h.kids, h.nextId, path, stack)
      invariant current == path[|path| - 1] && root == path[0]
      invariant !end ==> ParseFrom(text, r.pos, stack) == goal
      invariant end ==> |path| == 1 && goal == (Some(Closed(stack[0])), r.pos)
      decreases |text| - r.pos, if end then 0 else 1
    {
      current, end, failed, path, stack := LoopStep(h, r, current, root, nodes0, kids0, n0, path, stack);
      if failed {
        return false;
      }
    }
    // The root is the last node closed, so the error branch at the end of
    // `parseXMLFile` is never taken.
    assert root == current;
    BuildDone(nodes0, kids0, n0, h.nodes, h.kids, h.nextId, path, stack);
    return true;
  }

  /** `createXMLNode` and `initXMLNodeFromXMLTag` for the first tag: the root, alone in its tree. */
  method NewRoot(h: Heap, tag: Tag, ghost t: TagValue) returns (root: NodeId)
    requires h.Valid() && tag.Holds(t)
    modifies h, tag
    ensures h.Valid() && root == old(h.nextId)
    ensures Building(old(h.nodes), old(h.kids), old(h.nextId), h.nodes, h.kids, h.nextId, [root], [Opened(t)])
    ensures root in h.nodes && h.nodes[root].parent.Null? && TreeOf(h.nodes, h.kids, h.nextId, root) == Closed(Opened(t))
    ensures h.nodes.Keys == old(h.nodes).Keys + Subtree(h.nodes, root)
    ensures forall x :: x in old(h.nodes) ==> x in h.nodes && h.nodes[x] == old(h.nodes)[x] && h.kids[x] == old(h.kids)[x]
  {
    BuildStart(h.nodes, h.kids, h.nextId, t);
    var n := h.CreateNode();
    h.InitFromTag(n, tag);
    root := n.id;
    assert h.nodes == old(h.nodes)[root := NodeOfTag(t)];
    BuildDone(old(h.nodes), old(h.kids), old(h.nextId), h.nodes, h.kids, h.nextId, [root], [Opened(t)]);
  }

  /**
   * `parseXMLFile`: the tree the text describes from the cursor on, built
   * in the arena under a fresh root, or nothing. A failed parse removes
   * what it built; earlier nodes are never touched.
   */
  method Parse(h: Heap, r: Reader) returns (root: Ref)
    requires h.Valid() && r.Valid()
    modifies h, r
    ensures h.Valid() && r.Valid()
    ensures var (t, q) := ParseSpec(r.text, old(r.pos));
      r.pos == q && (root.Null? <==> t.None?) &&
      (root.Ref? ==> root.id in h.nodes && h.nodes[root.id].parent.Null? && TreeOf(h.nodes, h.kids, h.nextId, root.id) == t.value)
    ensures forall x :: x in old(h.nodes) ==> x in h.nodes && h.nodes[x] == old(h.nodes)[x] && h.kids[x] == old(h.kids)[x]
    ensures h.nodes.Keys == old(h.nodes).Keys + if root.Ref? then Subtree(h.nodes, root.id) else {}
  {
    ghost var text, p0, nodes0, kids0, n0 := r.text, r.pos, h.nodes, h.kids, h.nextId;
    var tag := ReadTag(r);
    if tag == null {
      return Null;
    }
    ghost var t := ReadTagSpec(text, p0).0.value;
    var kind := tag.kind;
    if kind == Closing {
      var _ := tag.Destroy();
      return Null;
    }
    var first := NewRoot(h, tag, t);
    var _ := tag.Destroy();
    root := Ref(first);
    if kind == Opening {
      var ok := ParseLoop(h, r, first, nodes0, kids0, n0, Opened(t));
      if !ok {
        root := Null;
      }
    }
  }
}
