/**
 * The tree operations of node.c on the arena of the Arena module: creating,
 * initialising and freeing nodes, their names, values and attribute lists,
 * appending and detaching children, and recursive destruction.
 */
module Nodes {
  import opened Wrappers
  import opened Attributes
  import opened Arena
  import opened Subtrees
  import opened Stream
  import opened Tags

  /** The branch the guard chain at the top of a node setter takes. */
  datatype GuardOutcome = NullNode | NullArgument | Proceed

  /**
   * The guard chain of `setXMLNodeName`, `setXMLNodeValue` and
   * `addAttributeToXMLNode` as written: its second test repeats the first
   * (`n == NULL`), so a NULL argument is never refused.
   */
  function SetterGuardAsWritten(nodeNull: bool, argNull: bool): (g: GuardOutcome)
    ensures g != NullArgument
    ensures g == Proceed <==> !nodeNull
  {
    if nodeNull then NullNode else if nodeNull then NullArgument else Proceed
  }

  /** A NULL argument on a real node gets past the guards (and is then dereferenced). */
  lemma NullArgumentProceeds()
    ensures exists nodeNull: bool, argNull: bool :: argNull && SetterGuardAsWritten(nodeNull, argNull) == Proceed
  {
    assert SetterGuardAsWritten(false, true) == Proceed;
  }

  /** The guard chain as its log messages describe it: a NULL node, then a NULL argument, is refused. */
  function SetterGuard(nodeNull: bool, argNull: bool): (g: GuardOutcome)
    ensures g == Proceed <==> !nodeNull && !argNull
    ensures g == NullArgument <==> !nodeNull && argNull
  {
    if nodeNull then NullNode else if argNull then NullArgument else Proceed
  }

  /** A character that starts a node's value: any printable character but the space. */
  predicate IsValueStart(c: char)
  {
    '!' <= c <= '~'
  }

  /** A character kept inside a value: any printable character, the space included. */
  predicate IsPrintable(c: char)
  {
    ' ' <= c <= '~'
  }

  /** A character that ends a value. */
  predicate IsValueStop(c: char)
  {
    c == '<' || c == '\n' || c == '\r'
  }

  /** The first offset at or after `p` holding `<` or a value start, or `|text|`. */
  function SkipToValue(text: seq<char>, p: nat): (k: nat)
    requires p <= |text|
    ensures p <= k <= |text|
    ensures k < |text| ==> text[k] == '<' || IsValueStart(text[k])
    ensures forall i :: p <= i < k ==> text[i] != '<' && !IsValueStart(text[i])
    decreases |text| - p
  {
    if p == |text| || text[p] == '<' || IsValueStart(text[p]) then p else SkipToValue(text, p + 1)
  }

  /** The first offset at or after `p` holding a value stop, or `|text|`. */
  function ValueEnd(text: seq<char>, p: nat): (j: nat)
    requires p <= |text|
    ensures p <= j <= |text|
    ensures j < |text| ==> IsValueStop(text[j])
    ensures forall i :: p <= i < j ==> !IsValueStop(text[i])
    decreases |text| - p
  {
    if p == |text| || IsValueStop(text[p]) then p else ValueEnd(text, p + 1)
  }

  /** The printable characters of `s`, in order: what the value loop copies into its buffer. */
  function Printable(s: seq<char>): (t: seq<char>)
    ensures |t| <= |s|
    ensures forall i :: 0 <= i < |t| ==> IsPrintable(t[i])
    ensures forall c :: c in t ==> c in s
    ensures forall c :: c in s && IsPrintable(c) ==> c in t
  {
    if |s| == 0 then []
    else Printable(s[..|s| - 1]) + (if IsPrintable(s[|s| - 1]) then [s[|s| - 1]] else [])
  }

  /** Reading one more character extends the copied value by that character when it is printable. */
  lemma PrintableStep(text: seq<char>, a: nat, b: nat)
    requires a <= b < |text|
    ensures Printable(text[a..b + 1]) == Printable(text[a..b]) + (if IsPrintable(text[b]) then [text[b]] else [])
  {
    assert text[a..b + 1][..b - a] == text[a..b];
  }

  /**
   * The value `readXMLNodeValue` stores and the new cursor, from offset `p`.
   * Characters that cannot start a value are skipped; EOF or a `<` before a
   * value ends the call with no value (the `<` is consumed). The value then
   * runs up to `<`, a line feed or a carriage return, which is consumed;
   * only printable characters are kept. EOF inside the value loses it.
   */
  function ReadValueSpec(text: seq<char>, p: nat): (res: (Option<string>, nat))
    requires p <= |text|
    ensures p <= res.1 <= |text|
    ensures res.1 == |text| || p < res.1
    ensures res.0.Some? ==> 0 < |res.0.value| && IsValueStart(res.0.value[0])
    ensures res.0.Some? ==> forall i :: 0 <= i < |res.0.value| ==> IsPrintable(res.0.value[i])
    ensures res.0.Some? ==> 0 < res.1 && IsValueStop(text[res.1 - 1])
    ensures res.0.Some? ==> '<' !in res.0.value
    ensures res.0.Some? ==> forall i :: 0 <= i < |res.0.value| ==> !IsValueStop(res.0.value[i])
  {
    var k := SkipToValue(text, p);
    if k == |text| then (None, |text|)
    else if text[k] == '<' then (None, k + 1)
    else
      var j := ValueEnd(text, k + 1);
      if j == |text| then (None, |text|)
      else (Some([text[k]] + Printable(text[k + 1..j])), j + 1)
  }

  /**
   * The first loop of `readXMLNodeValue`: characters are read until EOF
   * (`None`), a `<` or a character that can start a value.
   */
  method ScanValueStart(r: Reader) returns (c: Option<char>)
    requires r.Valid()
    modifies r`pos
    ensures r.Valid()
    ensures var k := SkipToValue(r.text, old(r.pos));
      if k == |r.text| then c.None? && r.pos == k else c == Some(r.text[k]) && r.pos == k + 1
  {
    ghost var text, p := r.text, r.pos;
    ghost var k := SkipToValue(text, p);
    c := None;
    var started := false;
    while !started
      invariant r.Valid() && p <= r.pos
      invariant !started ==> SkipToValue(text, r.pos) == k
      invariant started ==> k < |text| && r.pos == k + 1 && c == Some(text[k])
      decreases |text| - r.pos, if started then 0 else 1
    {
      c := r.GetC();
      if c.None? {
        return;
      } else if c.value == '<' {
        return;
      } else if IsValueStart(c.value) {
        started := true;
      }
    }
  }

  /**
   * The second loop of `readXMLNodeValue`, after the value's first character
   * `first`: printable characters are kept up to a value stop. EOF first
   * loses the value.
   */
  method ScanValueRest(r: Reader, first: char) returns (v: Option<string>)
    requires r.Valid()
    modifies r`pos
    ensures r.Valid()
    ensures var j := ValueEnd(r.text, old(r.pos));
      if j == |r.text| then v.None? && r.pos == j
      else v == Some([first] + Printable(r.text[old(r.pos)..j])) && r.pos == j + 1
  {
    ghost var text, p := r.text, r.pos;
    ghost var j := ValueEnd(text, p);
    var buf := [first];
    var reading := true;
    while reading
      invariant r.Valid() && p <= r.pos
      invariant reading ==> ValueEnd(text, r.pos) == j && buf == [first] + Printable(text[p..r.pos])
      invariant !reading ==> r.pos == j + 1 && j < |text| && buf == [first] + Printable(text[p..j])
      decreases |text| - r.pos, if reading then 1 else 0
    {
      ghost var at := r.pos;
      var c := r.GetC();
      if c.None? {
        return None;
      } else if IsValueStop(c.value) {
        reading := false;
      } else {
        PrintableStep(text, p, at);
        if IsPrintable(c.value) {
          buf := buf + [c.value];
        }
      }
    }
    v := Some(buf);
  }

  /** All the `XML_Node` records of one program run, with the child sequences behind their links. */
  class Heap {
    var nodes: map<NodeId, NodeRec>
    var nextId: NodeId
    ghost var kids: map<NodeId, seq<NodeId>>

    ghost predicate Valid()
      reads this
    {
      Wf(nodes, kids, nextId)
    }

    constructor ()
      ensures Valid() && nodes == map[] && kids == map[] && nextId == 0
    {
      nodes, kids, nextId := map[], map[], 0;
    }

    /** `createXMLNode`: a fresh node in the state `initXMLNode` leaves. */
    method CreateNode() returns (n: Ref)
      requires Valid()
      modifies this
      ensures Valid()
      ensures n == Ref(old(nextId)) && n.id !in old(nodes)
      ensures nodes == old(nodes)[n.id := Blank] && kids == old(kids)[n.id := []] && nextId == old(nextId) + 1
    {
      CreateWf(nodes, kids, nextId);
      n := Ref(nextId);
      nodes := nodes[nextId := Blank];
      kids := kids[nextId := []];
      nextId := nextId + 1;
    }

    /**
     * `initXMLNode`: every pointer NULL and no children. The node must not be
     * linked into a tree, whose other nodes would still point at it.
     */
    method Init(n: Ref)
      requires Valid() && (n.Ref? ==> n.id in nodes && nodes[n.id].parent.Null? && nodes[n.id].cc == 0)
      modifies this
      ensures Valid()
      ensures nodes == (if n.Ref? then old(nodes)[n.id := Blank] else old(nodes))
      ensures kids == old(kids) && nextId == old(nextId)
    {
      if n.Ref? {
        assert NodeOk(nodes, kids, nextId, n.id);
        RelabelWf(nodes, kids, nextId, n.id, Blank);
        nodes := nodes[n.id := Blank];
      }
    }

    /** `freeXMLNode`: only a node in the state `initXMLNode` leaves is released. */
    method Free(n: Ref) returns (released: bool)
      requires Valid() && (n.Ref? ==> n.id in nodes)
      modifies this
      ensures Valid()
      ensures released <==> n.Ref? && old(nodes)[n.id] == Blank
      ensures nodes == (if released then old(nodes) - {n.id} else old(nodes))
      ensures kids == (if released then old(kids) - {n.id} else old(kids)) && nextId == old(nextId)
    {
      released := false;
      if n.Ref? && nodes[n.id] == Blank {
        assert NodeOk(nodes, kids, nextId, n.id);
        FreeWf(nodes, kids, nextId, n.id);
        nodes := nodes - {n.id};
        kids := kids - {n.id};
        released := true;
      }
    }

    /** `setXMLNodeName`: a NULL node or name is refused; otherwise the name becomes a copy of `name`. */
    method SetName(name: Option<string>, n: Ref)
      requires Valid() && (n.Ref? ==> n.id in nodes)
      modifies this
      ensures Valid()
      ensures nodes == (if n.Ref? && name.Some? then old(nodes)[n.id := old(nodes)[n.id].(name := name)] else old(nodes))
      ensures kids == old(kids) && nextId == old(nextId)
    {
      if SetterGuard(n.Null?, name.None?) == Proceed {
        RelabelWf(nodes, kids, nextId, n.id, nodes[n.id].(name := name));
        nodes := nodes[n.id := nodes[n.id].(name := name)];
      }
    }

    /** `setXMLNodeValue`: a NULL node or value is refused; otherwise the value becomes a copy of `value`. */
    method SetValue(value: Option<string>, n: Ref)
      requires Valid() && (n.Ref? ==> n.id in nodes)
      modifies this
      ensures Valid()
      ensures nodes == (if n.Ref? && value.Some? then old(nodes)[n.id := old(nodes)[n.id].(value := value)] else old(nodes))
      ensures kids == old(kids) && nextId == old(nextId)
    {
      if SetterGuard(n.Null?, value.None?) == Proceed {
        RelabelWf(nodes, kids, nextId, n.id, nodes[n.id].(value := value));
        nodes := nodes[n.id := nodes[n.id].(value := value)];
      }
    }

    /** `addAttributeToXMLNode`: the attribute goes in front of the node's list; a NULL node or attribute is refused. */
    method AddAttribute(a: Option<Attribute>, n: Ref)
      requires Valid() && (n.Ref? ==> n.id in nodes)
      modifies this
      ensures Valid()
      ensures nodes == (if n.Ref? then old(nodes)[n.id := old(nodes)[n.id].(attr := Push(a, old(nodes)[n.id].attr))] else old(nodes))
      ensures kids == old(kids) && nextId == old(nextId)
    {
      if SetterGuard(n.Null?, a.None?) == Proceed {
        var r := nodes[n.id];
        if r.attr.None? {
          r := r.(attr := a);
        } else {
          r := r.(attr := Some(a.value.(next := r.attr)));
        }
        RelabelWf(nodes, kids, nextId, n.id, r);
        nodes := nodes[n.id := r];
      }
    }

    /** `deleteAttributeFromXMLNode`: pops the head of the node's list; NULL for a NULL node or an empty list. */
    method DeleteAttribute(n: Ref) returns (deleted: Option<Attribute>)
      requires Valid() && (n.Ref? ==> n.id in nodes)
      modifies this
      ensures Valid()
      ensures n.Null? ==> deleted.None? && nodes == old(nodes)
      ensures n.Ref? ==> var (d, rest) := Pop(old(nodes)[n.id].attr);
        deleted == d && nodes == old(nodes)[n.id := old(nodes)[n.id].(attr := rest)]
      ensures kids == old(kids) && nextId == old(nextId)
    {
      deleted := None;
      if n.Ref? {
        var r := nodes[n.id];
        if r.attr.Some? {
          deleted := r.attr;
          r := r.(attr := deleted.value.next);
          deleted := Some(deleted.value.(next := None));
          RelabelWf(nodes, kids, nextId, n.id, r);
          nodes := nodes[n.id := r];
        }
      }
    }

    /**
     * `addXMLNodeToParent`. A NULL parent or child, or a child that already
     * has a parent or siblings, changes nothing; otherwise the child is
     * appended to the parent's children. Identifiers grow from parent to
     * child, which keeps the tree acyclic.
     */
    method AddChild(parent: Ref, child: Ref)
      requires Valid()
      requires parent.Ref? ==> parent.id in nodes
      requires child.Ref? ==> child.id in nodes
      requires CanAttach(nodes, parent, child) ==> parent.id < child.id
      modifies this
      ensures Valid() && nextId == old(nextId)
      ensures CanAttach(old(nodes), parent, child) ==>
        CanAppend(old(nodes), parent.id, child.id) &&
        nodes == Attached(old(nodes), parent.id, child.id) &&
        kids == old(kids)[parent.id := old(kids)[parent.id] + [child.id]]
      ensures !CanAttach(old(nodes), parent, child) ==> nodes == old(nodes) && kids == old(kids)
    {
      if parent.Null? || child.Null? {
        return;
      }
      var p, c := parent.id, child.id;
      if nodes[c].parent.Ref? || nodes[c].previous.Ref? || nodes[c].next.Ref? {
        return;
      }
      AttachedWf(nodes, kids, nextId, p, c);
      ghost var before := nodes;
      nodes := nodes[c := nodes[c].(parent := parent)];
      nodes := nodes[p := nodes[p].(cc := nodes[p].cc + 1)];
      if nodes[p].last.Null? {
        nodes := nodes[p := nodes[p].(first := child, current := child, last := child)];
      } else {
        var l := nodes[p].last.id;
        nodes := nodes[l := nodes[l].(next := child)];
        nodes := nodes[c := nodes[c].(previous := nodes[p].last)];
        nodes := nodes[p := nodes[p].(last := child)];
      }
      assert nodes == Attached(before, p, c);
      kids := kids[p := kids[p] + [c]];
    }

    /**
     * `deleteXMLNodeFromParent`. A NULL or parentless child changes nothing;
     * otherwise the child leaves its parent's children, which keep their order.
     */
    method DeleteFromParent(child: Ref)
      requires Valid() && (child.Ref? ==> child.id in nodes)
      modifies this
      ensures Valid() && nextId == old(nextId)
      ensures child.Ref? && old(nodes)[child.id].parent.Ref? ==>
        var p := old(nodes)[child.id].parent.id;
        CanDetach(old(nodes), child.id) &&
        nodes == Detached(old(nodes), child.id) &&
        kids == old(kids)[p := Without(old(kids)[p], child.id)]
      ensures child.Null? || old(nodes)[child.id].parent.Null? ==> nodes == old(nodes) && kids == old(kids)
    {
      if child.Null? || nodes[child.id].parent.Null? {
        return;
      }
      var c := child.id;
      var p := nodes[c].parent.id;
      DetachedWf(nodes, kids, nextId, c);
      Unhook(c);
      kids := kids[p := Without(kids[p], c)];
    }


    /**
     * `destroyXMLNode`: destroys the last child until none is left, detaches
     * the node from its parent and releases it. Exactly the subtree of `n`
     * goes; the remaining nodes are as `deleteXMLNodeFromParent(n)` would
     * leave them.
     */
    method Destroy(n: Ref)
      requires Valid() && (n.Ref? ==> n.id in nodes)
      modifies this
      ensures Valid() && nextId == old(nextId)
      ensures n.Null? ==> nodes == old(nodes) && kids == old(kids)
      ensures n.Ref? ==> nodes.Keys == old(nodes).Keys - Subtree(old(nodes), n.id)
      ensures n.Ref? && old(nodes)[n.id].parent.Null? ==>
        (forall x :: x in nodes ==> nodes[x] == old(nodes)[x] && kids[x] == old(kids)[x])
      ensures n.Ref? && old(nodes)[n.id].parent.Ref? ==>
        CanDetach(old(nodes), n.id) &&
        (forall x :: x in nodes ==> nodes[x] == Detached(old(nodes), n.id)[x]) &&
        (forall x :: x in nodes ==>
          kids[x] == if old(nodes)[n.id].parent == Ref(x) then Without(old(kids)[x], n.id) else old(kids)[x])
      decreases if n.Ref? then nextId - n.id else 0
    {
      if n.Null? {
        return;
      }
      var m := n.id;
      assert NodeOk(nodes, kids, nextId, m);
      ghost var nodes0, kids0 := nodes, kids;
      PrunedStart(nodes, kids, nextId, m);
      while nodes[m].cc > 0
        invariant Valid() && nextId == old(nextId)
        invariant Pruned(nodes0, kids0, nodes, kids, m)
        decreases nodes[m].cc
      {
        ghost var b, kb := nodes, kids;
        ghost var k := LastChild(nodes, kids, nextId, m);
        var l := nodes[m].last;
        Destroy(l);
        PrunedStep(nodes0, kids0, b, kb, nodes, kids, nextId, m, l.id, k);
      }
      assert NodeOk(nodes, kids, nextId, m);
      PrunedEnd(nodes0, kids0, nodes, kids, nextId, m);
      ghost var t, kt := nodes, kids;
      ghost var s, ks := t, kt;
      if t[m].parent.Ref? {
        DetachedWf(t, kt, nextId, m);
        s, ks := Detached(t, m), kt[t[m].parent.id := Without(kt[t[m].parent.id], m)];
      }
      Release(m);
      DestroyedPost(nodes0, kids0, t, kt, s, ks, nextId, m);
    }

    /** The end of `destroyXMLNode(n)` once `n` has no children left: detach `n` and release it. */
    method Release(n: NodeId)
      requires Valid() && n in nodes && nodes[n].cc == 0
      modifies this
      ensures Valid() && nextId == old(nextId)
      ensures old(nodes)[n].parent.Ref? ==>
        var p := old(nodes)[n].parent.id;
        CanDetach(old(nodes), n) &&
        nodes == Detached(old(nodes), n) - {n} &&
        kids == old(kids)[p := Without(old(kids)[p], n)] - {n}
      ensures old(nodes)[n].parent.Null? ==> nodes == old(nodes) - {n} && kids == old(kids) - {n}
    {
      assert NodeOk(nodes, kids, nextId, n);
      if nodes[n].parent.Ref? {
        DeleteFromParent(Ref(n));
      }
      assert NodeOk(nodes, kids, nextId, n);
      FreeWf(nodes, kids, nextId, n);
      nodes := nodes - {n};
      kids := kids - {n};
    }

    /**
     * `initXMLNodeFromXMLTag`: the node is initialised, takes the tag's name,
     * and every attribute of the tag is moved onto it (which reverses their
     * order). A NULL node or tag changes nothing.
     */
    method InitFromTag(n: Ref, tag: Tag?)
      requires Valid() && (n.Ref? ==> n.id in nodes && nodes[n.id].parent.Null? && nodes[n.id].cc == 0)
      modifies this, tag
      ensures Valid() && kids == old(kids) && nextId == old(nextId)
      ensures n.Ref? && tag != null ==>
        nodes == old(nodes)[n.id := Blank.(name := old(tag.name), attr := MoveAll(old(tag.attr), None))] &&
        tag.attr.None? && tag.name == old(tag.name) && tag.kind == old(tag.kind)
      ensures n.Null? || tag == null ==> nodes == old(nodes)
      ensures tag != null && n.Null? ==> tag.attr == old(tag.attr) && tag.name == old(tag.name) && tag.kind == old(tag.kind)
    {
      if n.Null? || tag == null {
        return;
      }
      Init(n);
      SetName(tag.name, n);
      ghost var named := nodes;
      ghost var goal := MoveAll(tag.attr, None);
      while tag.attr.Some?
        invariant Valid() && kids == old(kids) && nextId == old(nextId)
        invariant n.id in nodes && nodes == named[n.id := named[n.id].(attr := nodes[n.id].attr)]
        invariant MoveAll(tag.attr, nodes[n.id].attr) == goal
        invariant tag.name == old(tag.name) && tag.kind == old(tag.kind)
        decreases tag.attr
      {
        var d := tag.DeleteAttribute();
        AddAttribute(d, n);
      }
    }

    /**
     * `readXMLNodeValue`: reads a value from the stream and stores it in `n`,
     * as `ReadValueSpec` describes; without a value the node keeps its own.
     */
    method ReadValue(n: Ref, r: Reader)
      requires Valid() && r.Valid() && (n.Ref? ==> n.id in nodes)
      modifies this, r`pos
      ensures Valid() && r.Valid() && kids == old(kids) && nextId == old(nextId)
      ensures var (v, q) := ReadValueSpec(r.text, old(r.pos));
        r.pos == q &&
        nodes == (if n.Ref? && v.Some? then old(nodes)[n.id := old(nodes)[n.id].(value := v)] else old(nodes))
    {
      var c := ScanValueStart(r);
      if c.None? || c.value == '<' {
        return;
      }
      var v := ScanValueRest(r, c.value);
      if v.Some? {
        SetValue(v, n);
      }
    }
    /** The pointer writes of a successful `deleteXMLNodeFromParent(c)`, in the order of the C code. */
    method Unhook(c: NodeId)
      requires CanDetach(nodes, c)
      modifies this
      ensures nodes == Detached(old(nodes), c) && kids == old(kids) && nextId == old(nextId)
    {
      var child := Ref(c);
      var p := nodes[c].parent.id;
      // No write before the last one changes the `previous` or `next` of `c`, so they are read from `r`.
      var r := nodes[c];
      var q := nodes[p].(cc := nodes[p].cc - 1);
      if q.first == child {
        q := q.(first := r.next);
      }
      if q.last == child {
        q := q.(last := r.previous);
      }
      if q.current == child {
        if r.next.Null? {
          q := q.(current := r.previous);
        } else {
          q := q.(current := r.next);
        }
      }
      nodes := nodes[p := q];
      nodes := nodes[c := nodes[c].(parent := Null)];
      if r.previous.Ref? {
        nodes := nodes[r.previous.id := nodes[r.previous.id].(next := r.next)];
      }
      if r.next.Ref? {
        nodes := nodes[r.next.id := nodes[r.next.id].(previous := r.previous)];
      }
      nodes := nodes[c := nodes[c].(previous := Null, next := Null)];
    }
  }
}
