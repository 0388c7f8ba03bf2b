/**
 * The path queries of xml.c over a parsed arena: `getXMLValue`,
 * `getXMLNode` for paths of plain names, `getXMLString` and `getXMLBool`.
 * A C string ends at its first NUL; a path here ends there or at the end of
 * the sequence, whichever comes first.
 */
module Queries {
  import opened Wrappers
  import opened Attributes
  import opened Stream
  import opened Arena
  import opened Nodes

  /** The character of a path at `i`, reading NUL past its end. */
  function PathChar(path: string, i: nat): char
  {
    if i < |path| then path[i] else '\0'
  }

  /** The characters that end a segment of a `getXMLValue` path. */
  predicate IsDelimiter(c: char)
  {
    c == '/' || c == ':' || c == '$' || c == '\0'
  }

  /** The segment of a `getXMLValue` path at `i`, and the offset of the delimiter after it. */
  function Segment(path: string, i: nat): (res: (string, nat))
    requires i <= |path|
    ensures i <= res.1 <= |path| && res.0 == path[i..res.1]
    ensures IsDelimiter(PathChar(path, res.1))
    ensures forall k :: i <= k < res.1 ==> !IsDelimiter(path[k])
    decreases |path| - i
  {
    if i == |path| || IsDelimiter(path[i]) then ([], i)
    else
      var (s, j) := Segment(path, i + 1);
      ([path[i]] + s, j)
  }

  /** The end of the C string `path` from `i`: its first NUL, or the end of the sequence. */
  function PathEnd(path: string, i: nat): (e: nat)
    requires i <= |path|
    ensures i <= e <= |path| && PathChar(path, e) == '\0'
    ensures forall k :: i <= k < e ==> path[k] != '\0'
    decreases |path| - i
  {
    if i == |path| || path[i] == '\0' then i else PathEnd(path, i + 1)
  }

  /** The first attribute of the list named `name`: the attribute search of `getXMLValue`. */
  function FindAttr(a: Option<Attribute>, name: string): (r: Option<Attribute>)
    ensures r.Some? ==> r.value.name == Some(name)
    decreases a
  {
    if a.None? then None
    else if a.value.name == Some(name) then a
    else FindAttr(a.value.next, name)
  }

  /**
   * `FindAttr` against the list as pairs: nothing when no attribute has the
   * name, otherwise the first pair with that name.
   */
  lemma {:induction false} FindAttrFirst(a: Option<Attribute>, name: string)
    ensures FindAttr(a, name).None? <==> forall k :: 0 <= k < |Pairs(a)| ==> Pairs(a)[k].0 != Some(name)
    ensures FindAttr(a, name).Some? ==>
      exists k :: 0 <= k < |Pairs(a)| && Pairs(a)[k] == (Some(name), FindAttr(a, name).value.value) &&
        forall k' :: 0 <= k' < k ==> Pairs(a)[k'].0 != Some(name)
    decreases a
  {
    if a.Some? {
      var ps := Pairs(a);
      assert ps[0] == (a.value.name, a.value.value);
      if a.value.name != Some(name) {
        FindAttrFirst(a.value.next, name);
        assert forall k :: 0 < k < |ps| ==> ps[k] == Pairs(a.value.next)[k - 1];
        if FindAttr(a, name).Some? {
          var k :| 0 <= k < |Pairs(a.value.next)| && Pairs(a.value.next)[k] == (Some(name), FindAttr(a, name).value.value) &&
            forall k' :: 0 <= k' < k ==> Pairs(a.value.next)[k'].0 != Some(name);
          assert ps[k + 1] == Pairs(a.value.next)[k];
        } else {
          forall k | 0 <= k < |ps|
            ensures ps[k].0 != Some(name)
          {
            if k > 0 {
              assert ps[k] == Pairs(a.value.next)[k - 1];
            }
          }
        }
      }
    }
  }

  /** The nodes of `ids` from the first one named `name` on: the sibling walk of both queries. */
  function Seek(nodes: map<NodeId, NodeRec>, ids: seq<NodeId>, name: string): (m: seq<NodeId>)
    ensures |m| <= |ids| && m == ids[|ids| - |m|..]
    ensures |m| > 0 ==> m[0] in nodes && nodes[m[0]].name == Some(name)
    ensures forall k :: 0 <= k < |ids| - |m| ==> !(ids[k] in nodes && nodes[ids[k]].name == Some(name))
  {
    if |ids| == 0 then []
    else if ids[0] in nodes && nodes[ids[0]].name == Some(name) then ids
    else Seek(nodes, ids[1..], name)
  }

  /** The first index of `x` in `ks`. */
  function Position(ks: seq<NodeId>, x: NodeId): (k: nat)
    requires x in ks
    ensures k < |ks| && ks[k] == x
    ensures forall j :: 0 <= j < k ==> ks[j] != x
  {
    if ks[0] == x then 0 else 1 + Position(ks[1..], x)
  }

  /** In a sequence without repetitions, the first index of `ks[i]` is `i`. */
  lemma PositionOf(ks: seq<NodeId>, i: nat)
    requires Distinct(ks) && i < |ks|
    ensures Position(ks, ks[i]) == i
  {
    var k := Position(ks, ks[i]);
    if k < i {
      DistinctAt(ks, k, i);
    }
  }

  /** Node `n` and the siblings after it, in order: the nodes `n = n->next` visits. */
  ghost function Siblings(nodes: map<NodeId, NodeRec>, kids: map<NodeId, seq<NodeId>>, n: Ref): (s: seq<NodeId>)
    ensures n.Ref? && n.id in nodes ==> |s| > 0 && s[0] == n.id
    ensures n.Null? ==> s == []
  {
    if n.Null? || n.id !in nodes then []
    else if nodes[n.id].parent.Ref? && nodes[n.id].parent.id in kids && n.id in kids[nodes[n.id].parent.id] then
      var ks := kids[nodes[n.id].parent.id];
      ks[Position(ks, n.id)..]
    else [n.id]
  }

  /** The siblings from the `k`-th child of `p` on are the children of `p` from `k` on. */
  lemma SiblingsOfChild(nodes: map<NodeId, NodeRec>, kids: map<NodeId, seq<NodeId>>, bound: nat, p: NodeId, k: nat)
    requires Wf(nodes, kids, bound) && p in nodes && k < |kids[p]|
    ensures kids[p][k] in nodes && Links(nodes[kids[p][k]]) == SiblingsAt(p, kids[p], k)
    ensures Siblings(nodes, kids, Ref(kids[p][k])) == kids[p][k..]
  {
    assert NodeOk(nodes, kids, bound, p);
    var ks := kids[p];
    assert Links(nodes[ks[k]]) == SiblingsAt(p, ks, k);
    PositionOf(ks, k);
  }

  /** Following `next` drops the first of the siblings. */
  lemma SiblingsNext(nodes: map<NodeId, NodeRec>, kids: map<NodeId, seq<NodeId>>, bound: nat, n: NodeId)
    requires Wf(nodes, kids, bound) && n in nodes
    ensures nodes[n].next.Ref? ==> nodes[n].next.id in nodes
    ensures Siblings(nodes, kids, Ref(n)) == [n] + Siblings(nodes, kids, nodes[n].next)
  {
    assert NodeOk(nodes, kids, bound, n);
    if nodes[n].parent.Ref? {
      var p := nodes[n].parent.id;
      var ks := kids[p];
      var k := Position(ks, n);
      SiblingsOfChild(nodes, kids, bound, p, k);
      if k + 1 < |ks| {
        SiblingsOfChild(nodes, kids, bound, p, k + 1);
        assert ks[k..] == [n] + ks[k + 1..];
      }
    }
  }

  /** Following `first` gives the children. */
  lemma SiblingsFirst(nodes: map<NodeId, NodeRec>, kids: map<NodeId, seq<NodeId>>, bound: nat, n: NodeId)
    requires Wf(nodes, kids, bound) && n in nodes
    ensures nodes[n].first.Ref? ==> nodes[n].first.id in nodes
    ensures Siblings(nodes, kids, nodes[n].first) == kids[n]
  {
    assert NodeOk(nodes, kids, bound, n);
    if |kids[n]| > 0 {
      SiblingsOfChild(nodes, kids, bound, n, 0);
    }
  }

  /**
   * What `getXMLValue` finds for the path from offset `i`, looking among the
   * nodes `ids`: each segment selects the first node of that name; `/` goes
   * on among its children, `$` yields its value and `:` the value of its
   * first attribute named by the rest of the path. A `$` on a node without
   * value goes on reading the path with the same node and the siblings after
   * it. A path that ends before `$` or `:` finds nothing.
   */
  ghost function ValueSpec(nodes: map<NodeId, NodeRec>, kids: map<NodeId, seq<NodeId>>, ids: seq<NodeId>,
                           path: string, i: nat): Option<string>
    requires i <= |path|
    decreases |path| - i, 1
  {
    var j := Segment(path, i).1;
    if PathChar(path, j) == '\0' then None
    else ValueAfter(nodes, kids, Seek(nodes, ids, Segment(path, i).0), path, j)
  }

  /**
   * The rest of `ValueSpec` once the segment ending at `j` selected the
   * nodes `m`: the first of them and its later siblings.
   */
  ghost function ValueAfter(nodes: map<NodeId, NodeRec>, kids: map<NodeId, seq<NodeId>>, m: seq<NodeId>,
                            path: string, j: nat): Option<string>
    requires j < |path| && IsDelimiter(path[j]) && path[j] != '\0'
    requires |m| > 0 ==> m[0] in nodes
    decreases |path| - j, 0
  {
    if |m| == 0 then None
    else if path[j] == '/' then
      if m[0] in kids then ValueSpec(nodes, kids, kids[m[0]], path, j + 1) else None
    else if path[j] == '$' then
      if nodes[m[0]].value.Some? then nodes[m[0]].value else ValueSpec(nodes, kids, m, path, j + 1)
    else
      var a := FindAttr(nodes[m[0]].attr, path[j + 1..PathEnd(path, j + 1)]);
      if a.Some? then a.value.value else None
  }

  /** A run of non-delimiters ending at a delimiter is the segment. */
  lemma {:induction false} SegmentAt(path: string, i: nat, j: nat)
    requires i <= j <= |path| && IsDelimiter(PathChar(path, j))
    requires forall k :: i <= k < j ==> !IsDelimiter(path[k])
    ensures Segment(path, i) == (path[i..j], j)
    decreases j - i
  {
    if i < j {
      SegmentAt(path, i + 1, j);
      assert path[i..j] == [path[i]] + path[i + 1..j];
    }
  }

  /** The segment loop of `getXMLValue`: characters are copied up to a delimiter. */
  method ReadSegment(path: string, i: nat) returns (name: string, j: nat)
    requires i <= |path|
    ensures (name, j) == Segment(path, i)
  {
    name, j := [], i;
    var c := PathChar(path, j);
    while !IsDelimiter(c)
      invariant i <= j <= |path| && c == PathChar(path, j) && name == path[i..j]
      invariant forall k :: i <= k < j ==> !IsDelimiter(path[k])
      decreases |path| - j
    {
      name := name + [c];
      j := j + 1;
      c := PathChar(path, j);
    }
    SegmentAt(path, i, j);
  }

  /** The attribute-name loop of `getXMLValue`: the rest of the C string. */
  method ReadRest(path: string, i: nat) returns (rest: string, e: nat)
    requires i <= |path|
    ensures e == PathEnd(path, i) && rest == path[i..e]
  {
    rest, e := [], i;
    while PathChar(path, e) != '\0'
      invariant i <= e <= |path| && PathEnd(path, e) == PathEnd(path, i) && rest == path[i..e]
      decreases |path| - e
    {
      rest := rest + [path[e]];
      e := e + 1;
    }
  }

  /** `n = n->next` until a node named `name`: the sibling search of `getXMLValue` and `getXMLNode`. */
  method FindSibling(h: Heap, n: Ref, name: string) returns (m: Ref)
    requires h.Valid() && (n.Ref? ==> n.id in h.nodes)
    ensures m.Ref? ==> m.id in h.nodes
    ensures Siblings(h.nodes, h.kids, m) == Seek(h.nodes, Siblings(h.nodes, h.kids, n), name)
  {
    m := n;
    while m.Ref? && h.nodes[m.id].name != Some(name)
      invariant m.Ref? ==> m.id in h.nodes
      invariant Seek(h.nodes, Siblings(h.nodes, h.kids, m), name) == Seek(h.nodes, Siblings(h.nodes, h.kids, n), name)
      decreases |Siblings(h.nodes, h.kids, m)|
    {
      SiblingsNext(h.nodes, h.kids, h.nextId, m.id);
      m := h.nodes[m.id].next;
    }
    if m.Ref? {
      SiblingsNext(h.nodes, h.kids, h.nextId, m.id);
    }
  }

  /** The attribute loop of `getXMLValue`. */
  method FindAttribute(a: Option<Attribute>, name: string) returns (r: Option<Attribute>)
    ensures r == FindAttr(a, name)
  {
    r := a;
    while r.Some? && r.value.name != Some(name)
      invariant FindAttr(r, name) == FindAttr(a, name)
      decreases r
    {
      r := r.value.next;
    }
  }

  /**
   * `getXMLValue(path, xml)` with `root` the root of `xml`: the value
   * `ValueSpec` describes, looking first among the root and its later
   * siblings.
   */
  method GetValue(h: Heap, path: string, root: Ref) returns (value: Option<string>)
    requires h.Valid() && (root.Ref? ==> root.id in h.nodes)
    ensures value == ValueSpec(h.nodes, h.kids, Siblings(h.nodes, h.kids, root), path, 0)
  {
    ghost var goal := ValueSpec(h.nodes, h.kids, Siblings(h.nodes, h.kids, root), path, 0);
    var n := root;
    var i := 0;
    var done := false;
    value := None;
    while !done
      invariant i <= |path| && (n.Ref? ==> n.id in h.nodes)
      invariant !done ==> value.None? && ValueSpec(h.nodes, h.kids, Siblings(h.nodes, h.kids, n), path, i) == goal
      invariant done ==> value == goal
      decreases |path| - i, if done then 0 else 1
    {
      n, i, value, done := ValueStep(h, path, n, i);
    }
  }

  /**
   * One pass of the loop of `getXMLValue`: read a segment and find the node
   * it names. Either the result is known, or the search goes on further
   * along the path with the same outcome.
   */
  method ValueStep(h: Heap, path: string, n: Ref, i: nat) returns (n': Ref, i': nat, value: Option<string>, done: bool)
    requires h.Valid() && (n.Ref? ==> n.id in h.nodes) && i <= |path|
    ensures i <= i' <= |path| && (n'.Ref? ==> n'.id in h.nodes)
    ensures done ==> value == ValueSpec(h.nodes, h.kids, Siblings(h.nodes, h.kids, n), path, i)
    ensures !done ==> value.None? && i < i'
    ensures !done ==> ValueSpec(h.nodes, h.kids, Siblings(h.nodes, h.kids, n'), path, i') == ValueSpec(h.nodes, h.kids, Siblings(h.nodes, h.kids, n), path, i)
  {
    var name, j := ReadSegment(path, i);
    if PathChar(path, j) == '\0' {
      return n, i, None, true;
    }
    var m := FindSibling(h, n, name);
    n', i', value, done := ValueAtNode(h, path, m, j);
  }

  /** The delimiter of a segment of `getXMLValue` acting on the node `m` the segment found. */
  method ValueAtNode(h: Heap, path: string, m: Ref, j: nat) returns (n': Ref, i': nat, value: Option<string>, done: bool)
    requires h.Valid() && (m.Ref? ==> m.id in h.nodes)
    requires j < |path| && IsDelimiter(path[j]) && path[j] != '\0'
    ensures j <= i' <= |path| && (n'.Ref? ==> n'.id in h.nodes)
    ensures done ==> value == ValueAfter(h.nodes, h.kids, Siblings(h.nodes, h.kids, m), path, j)
    ensures !done ==> value.None? && j < i'
    ensures !done ==> ValueSpec(h.nodes, h.kids, Siblings(h.nodes, h.kids, n'), path, i') == ValueAfter(h.nodes, h.kids, Siblings(h.nodes, h.kids, m), path, j)
  {
    n', i', value, done := m, j, None, true;
    if m.Null? {
      return;
    }
    if path[j] == '/' {
      SiblingsFirst(h.nodes, h.kids, h.nextId, m.id);
      n', i', done := h.nodes[m.id].first, j + 1, false;
    } else if path[j] == '$' {
      value := h.nodes[m.id].value;
      n', i', done := m, j + 1, value.Some?;
    } else {
      var attrName, e := ReadRest(path, j + 1);
      var a := FindAttribute(h.nodes[m.id].attr, attrName);
      if a.Some? {
        // With an attribute without value the source reads on at the end of the path and finds nothing.
        value := a.value.value;
      }
    }
  }

  /** Paths `getXMLNode` reads without the `?attr=value` predicate branch. */
  predicate NoPredicate(path: string)
  {
    forall k :: 0 <= k < |path| ==> path[k] != '?'
  }

  /** A character that ends a name of a `getXMLNode` path. */
  predicate IsNameStop(c: char)
  {
    c == '/' || c == '?' || c == '\0'
  }

  /** The end of the name of a `getXMLNode` path read from `k`: a stop character, or `BufferLength` characters. */
  function NameEnd(path: string, k: nat): (e: nat)
    requires k <= |path| && k <= BufferLength
    ensures k <= e <= |path| && e <= BufferLength
    ensures e < BufferLength ==> IsNameStop(PathChar(path, e))
    ensures forall i :: k <= i < e ==> !IsNameStop(path[i])
    decreases BufferLength - k
  {
    if k == BufferLength || IsNameStop(PathChar(path, k)) then k else NameEnd(path, k + 1)
  }

  /**
   * What `getXMLNode` finds for a path without predicates, looking among
   * `ids`: the first node named by the path's first name, then, after `/`,
   * the node the rest of the path finds among its children. A name that runs
   * to `BufferLength` characters without a stop character finds nothing.
   */
  ghost function NodeSpec(nodes: map<NodeId, NodeRec>, kids: map<NodeId, seq<NodeId>>, ids: seq<NodeId>, path: string): (r: Ref)
    requires NoPredicate(path)
    ensures r.Ref? ==> r.id in nodes
    decreases |path|, 1
  {
    if |ids| == 0 then Null
    else
      var k := NameEnd(path, 0);
      NodeAfter(nodes, kids, Seek(nodes, ids, path[..k]), path, k)
  }

  /** The rest of `NodeSpec` once the name ending at `k` selected the nodes `m`. */
  ghost function NodeAfter(nodes: map<NodeId, NodeRec>, kids: map<NodeId, seq<NodeId>>, m: seq<NodeId>, path: string, k: nat): (r: Ref)
    requires NoPredicate(path) && k <= |path| && (|m| > 0 ==> m[0] in nodes)
    ensures r.Ref? ==> r.id in nodes
    decreases |path|, 0
  {
    if |m| == 0 then Null
    else if PathChar(path, k) == '/' then
      if m[0] in kids then NodeSpec(nodes, kids, kids[m[0]], path[k + 1..]) else Null
    else if PathChar(path, k) != '\0' then Null
    else Ref(m[0])
  }

  /** The name loop of `getXMLNode`. */
  method ReadName(path: string) returns (name: string, k: nat)
    ensures k == NameEnd(path, 0) && name == path[..k]
  {
    name, k := [], 0;
    var c := PathChar(path, 0);
    while c != '/' && c != '?' && c != '\0' && k < BufferLength
      invariant k <= |path| && k <= BufferLength && c == PathChar(path, k) && name == path[..k]
      invariant NameEnd(path, k) == NameEnd(path, 0)
      decreases BufferLength - k
    {
      name := name + [c];
      k := k + 1;
      c := PathChar(path, k);
    }
  }

  /**
   * `getXMLNode(path, root)` for a path without predicates: the node
   * `NodeSpec` describes, looking first among `root` and its later siblings.
   */
  method GetNode(h: Heap, path: string, root: Ref) returns (n: Ref)
    requires h.Valid() && (root.Ref? ==> root.id in h.nodes) && NoPredicate(path)
    ensures n == NodeSpec(h.nodes, h.kids, Siblings(h.nodes, h.kids, root), path)
    decreases |path|, 1
  {
    if root.Null? {
      return Null;
    }
    var name, k := ReadName(path);
    // The do-while of the source starts on a non-NULL node, so it is this while loop.
    var m := FindSibling(h, root, name);
    n := NodeAtNode(h, path, m, k);
  }

  /** What `getXMLNode` does with the node `m` its name search found, the name ending at `k`. */
  method NodeAtNode(h: Heap, path: string, m: Ref, k: nat) returns (n: Ref)
    requires h.Valid() && (m.Ref? ==> m.id in h.nodes) && NoPredicate(path) && k <= |path|
    ensures n == NodeAfter(h.nodes, h.kids, Siblings(h.nodes, h.kids, m), path, k)
    decreases |path|, 0
  {
    if m.Null? {
      return Null;
    }
    var c := PathChar(path, k);
    if c == '/' {
      SiblingsFirst(h.nodes, h.kids, h.nextId, m.id);
      n := GetNode(h, path[k + 1..], h.nodes[m.id].first);
    } else if c != '\0' {
      n := Null;
    } else {
      n := m;
    }
  }

  /** `getXMLString`: the value at `path`, or `defaultValue` when there is none. */
  method GetString(h: Heap, path: string, root: Ref, defaultValue: string) returns (s: string)
    requires h.Valid() && (root.Ref? ==> root.id in h.nodes)
    ensures var v := ValueSpec(h.nodes, h.kids, Siblings(h.nodes, h.kids, root), path, 0);
      s == if v.Some? then v.value else defaultValue
  {
    var value := GetValue(h, path, root);
    s := if value.Some? then value.value else defaultValue;
  }

  /** `getXMLBool`: 1 for the value "true", 0 for "false", otherwise `defaultValue`. */
  method GetBool(h: Heap, path: string, root: Ref, defaultValue: int) returns (b: int)
    requires h.Valid() && (root.Ref? ==> root.id in h.nodes)
    ensures var v := ValueSpec(h.nodes, h.kids, Siblings(h.nodes, h.kids, root), path, 0);
      (v == Some("true") ==> b == 1) && (v == Some("false") ==> b == 0) &&
      (v != Some("true") && v != Some("false") ==> b == defaultValue)
  {
    var value := GetValue(h, path, root);
    if value == Some("true") {
      b := 1;
    } else if value == Some("false") {
      b := 0;
    } else {
      b := defaultValue;
    }
  }

  /** A name both queries read as a single segment. */
  predicate PlainName(s: string)
  {
    forall k :: 0 <= k < |s| ==> !IsDelimiter(s[k]) && s[k] != '?'
  }

  /** The names joined by `/`. */
  function JoinPath(names: seq<string>): string
    requires |names| > 0
  {
    if |names| == 1 then names[0] else names[0] + "/" + JoinPath(names[1..])
  }

  /**
   * The node reached by following `names` from `ids`: the first node with
   * the first name, then the first of its children with the next name, and
   * so on.
   */
  ghost function Lookup(nodes: map<NodeId, NodeRec>, kids: map<NodeId, seq<NodeId>>, ids: seq<NodeId>, names: seq<string>): (r: Ref)
    requires |names| > 0
    ensures r.Ref? ==> r.id in nodes
    decreases |names|
  {
    var m := Seek(nodes, ids, names[0]);
    if |m| == 0 then Null
    else if |names| == 1 then Ref(m[0])
    else if m[0] in kids then Lookup(nodes, kids, kids[m[0]], names[1..])
    else Null
  }

  /** The end of a value path: `$`, or `:` and an attribute name. */
  predicate LeafTail(tail: string)
  {
    tail == "$" || (|tail| > 0 && tail[0] == ':' && forall k :: 1 <= k < |tail| ==> tail[k] != '\0')
  }

  /** What the end of a value path yields at node `r`: its value, or the value of its first attribute of that name. */
  ghost function Leaf(nodes: map<NodeId, NodeRec>, r: Ref, tail: string): Option<string>
    requires (r.Ref? ==> r.id in nodes) && |tail| > 0
  {
    if r.Null? then None
    else if tail[0] == '$' then nodes[r.id].value
    else
      var a := FindAttr(nodes[r.id].attr, tail[1..]);
      if a.Some? then a.value.value else None
  }

  /** A path with neither `$` nor `:` finds no value. */
  lemma {:induction false} NoLeafNoValue(nodes: map<NodeId, NodeRec>, kids: map<NodeId, seq<NodeId>>, ids: seq<NodeId>,
                                         path: string, i: nat)
    requires i <= |path| && forall k :: i <= k < |path| ==> path[k] != '$' && path[k] != ':'
    ensures ValueSpec(nodes, kids, ids, path, i) == None
    decreases |path| - i
  {
    var (name, j) := Segment(path, i);
    var m := Seek(nodes, ids, name);
    if PathChar(path, j) == '/' && |m| > 0 && m[0] in kids {
      NoLeafNoValue(nodes, kids, kids[m[0]], path, j + 1);
    }
  }

  /** A path that reads `a` then `b` from `i`. */
  lemma SplitAt(path: string, i: nat, a: string, b: string)
    requires i <= |path| && path[i..] == a + b
    ensures i + |a| <= |path| && path[i..i + |a|] == a && path[i + |a|..] == b
  {
    assert path[i..i + |a|] == path[i..][..|a|];
    assert path[i + |a|..] == path[i..][|a|..];
  }

  /** A plain name followed by a delimiter is the segment. */
  lemma NameThenDelimiter(path: string, i: nat, name: string, rest: string)
    requires PlainName(name) && |rest| > 0 && IsDelimiter(rest[0])
    requires i <= |path| && path[i..] == name + rest
    ensures i + |name| < |path| && path[i + |name|..] == rest
    ensures Segment(path, i) == (name, i + |name|)
  {
    var w := |name|;
    SplitAt(path, i, name, rest);
    forall k | i <= k < i + w
      ensures !IsDelimiter(path[k])
    {
      assert path[k] == path[i..i + w][k - i];
    }
    assert path[i + w] == path[i + w..][0];
    SegmentAt(path, i, i + w);
  }

  /** The first segment of a plain path followed by an end, and what follows it. */
  lemma FirstSegment(names: seq<string>, tail: string, path: string, i: nat)
    requires |names| > 0 && forall k :: 0 <= k < |names| ==> PlainName(names[k])
    requires LeafTail(tail) && i <= |path| && path[i..] == JoinPath(names) + tail
    ensures i + |names[0]| < |path|
    ensures Segment(path, i) == (names[0], i + |names[0]|)
    ensures |names| > 1 ==> path[i + |names[0]|] == '/' && path[i + |names[0]| + 1..] == JoinPath(names[1..]) + tail
    ensures |names| == 1 ==> path[i + |names[0]|..] == tail
  {
    var w := |names[0]|;
    if |names| == 1 {
      NameThenDelimiter(path, i, names[0], tail);
    } else {
      var rest := "/" + (JoinPath(names[1..]) + tail);
      assert JoinPath(names) + tail == names[0] + rest;
      NameThenDelimiter(path, i, names[0], rest);
      assert path[i + w + 1..] == path[i + w..][1..];
    }
  }

  /** An attribute tail at the end of a path: the attribute name runs to the end. */
  lemma AttrTail(tail: string, path: string, j: nat)
    requires LeafTail(tail) && tail[0] == ':' && j <= |path| && path[j..] == tail
    ensures j + 1 <= |path| && PathEnd(path, j + 1) == |path| && path[j + 1..|path|] == tail[1..]
  {
    forall k | j + 1 <= k < |path|
      ensures path[k] != '\0'
    {
      assert path[k] == path[j..][k - j] == tail[k - j];
    }
  }

  /**
   * `getXMLValue` on a path of plain names followed by `$` or by `:` and an
   * attribute name yields what that end selects at the node `Lookup` reaches.
   */
  lemma {:induction false} ValueAt(nodes: map<NodeId, NodeRec>, kids: map<NodeId, seq<NodeId>>, ids: seq<NodeId>,
                                   names: seq<string>, tail: string, path: string, i: nat)
    requires |names| > 0 && forall k :: 0 <= k < |names| ==> PlainName(names[k])
    requires LeafTail(tail) && i <= |path| && path[i..] == JoinPath(names) + tail
    ensures ValueSpec(nodes, kids, ids, path, i) == Leaf(nodes, Lookup(nodes, kids, ids, names), tail)
    decreases |names|
  {
    FirstSegment(names, tail, path, i);
    var j := i + |names[0]|;
    var m := Seek(nodes, ids, names[0]);
    if |m| > 0 {
      if |names| > 1 {
        if m[0] in kids {
          ValueAt(nodes, kids, kids[m[0]], names[1..], tail, path, j + 1);
        }
      } else if tail[0] == ':' {
        AttrTail(tail, path, j);
      } else {
        assert Segment(path, j + 1) == ([], j + 1);
        assert ValueSpec(nodes, kids, m, path, j + 1) == None;
      }
    }
  }

  /** The names of a plain path hold no `?`. */
  lemma JoinNoPredicate(names: seq<string>)
    requires |names| > 0 && forall k :: 0 <= k < |names| ==> PlainName(names[k])
    ensures NoPredicate(JoinPath(names))
  {
  }

  /** A run of name characters ending at a stop character, within the bound, is the name. */
  lemma {:induction false} NameEndAt(path: string, k: nat, e: nat)
    requires k <= e <= |path| && e < BufferLength && IsNameStop(PathChar(path, e))
    requires forall i :: k <= i < e ==> !IsNameStop(path[i])
    ensures NameEnd(path, k) == e
    decreases e - k
  {
    if k < e {
      NameEndAt(path, k + 1, e);
    }
  }

  /**
   * `getXMLNode` on a path of plain names, each shorter than `BufferLength`,
   * finds the node `Lookup` reaches.
   */
  lemma {:induction false} NodeAt(nodes: map<NodeId, NodeRec>, kids: map<NodeId, seq<NodeId>>, ids: seq<NodeId>, names: seq<string>)
    requires |names| > 0 && forall k :: 0 <= k < |names| ==> PlainName(names[k]) && |names[k]| < BufferLength
    ensures NoPredicate(JoinPath(names))
    ensures NodeSpec(nodes, kids, ids, JoinPath(names)) == Lookup(nodes, kids, ids, names)
    decreases |names|
  {
    JoinNoPredicate(names);
    var path := JoinPath(names);
    var w := |names[0]|;
    var rest := if |names| == 1 then "" else "/" + JoinPath(names[1..]);
    assert path == names[0] + rest;
    forall i | 0 <= i < w
      ensures !IsNameStop(path[i])
    {
      assert path[i] == names[0][i];
    }
    NameEndAt(path, 0, w);
    assert path[..w] == names[0];
    var m := Seek(nodes, ids, names[0]);
    if |ids| > 0 && |m| > 0 && |names| > 1 && m[0] in kids {
      assert path[w + 1..] == JoinPath(names[1..]);
      NodeAt(nodes, kids, kids[m[0]], names[1..]);
    }
  }
}
