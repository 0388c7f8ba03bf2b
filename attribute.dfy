/**
 * XML attributes (attribute.c) and the singly linked attribute lists that
 * tags and nodes keep (the prepend and pop-head operations of tag.c and
 * node.c share the functions Push and Pop below).
 *
 * An attribute cell is a value: its `next` field holds the rest of the
 * chain. Every attribute has exactly one owner at a time in the C code,
 * so a value chain shows the same lists as the pointer chain.
 */
module Attributes {
  import opened Wrappers
  import opened Stream

  datatype Attribute = Attribute(name: Option<string>, value: Option<string>, next: Option<Attribute>)

  /** The (name, value) pairs of a chain, head first. */
  function Pairs(head: Option<Attribute>): (s: seq<(Option<string>, Option<string>)>)
    ensures s == [] <==> head.None?
  {
    match head
    case None => []
    case Some(a) => [(a.name, a.value)] + Pairs(a.next)
  }

  function Reversed<T>(s: seq<T>): (r: seq<T>)
    ensures |r| == |s|
  {
    if |s| == 0 then [] else Reversed(s[1..]) + [s[0]]
  }

  lemma {:induction false} ReversedAppend<T>(s: seq<T>, t: seq<T>)
    ensures Reversed(s + t) == Reversed(t) + Reversed(s)
  {
    if s == [] {
      assert s + t == t;
    } else {
      assert (s + t)[1..] == s[1..] + t;
      ReversedAppend(s[1..], t);
    }
  }

  /** Reversing twice gives back the original order. */
  lemma {:induction false} ReversedTwice<T>(s: seq<T>)
    ensures Reversed(Reversed(s)) == s
  {
    if s != [] {
      ReversedTwice(s[1..]);
      ReversedAppend(Reversed(s[1..]), [s[0]]);
      assert Reversed([s[0]]) == [s[0]];
      assert [s[0]] + s[1..] == s;
    }
  }

  /** `freeXMLAttribute`: only an attribute with NULL name, value and next is released. */
  function FreeAttribute(attr: Option<Attribute>): (released: bool)
    ensures released <==> attr.Some? && Pairs(attr) == [(None, None)]
  {
    match attr
    case None => false
    case Some(a) =>
      assert Pairs(attr) == [(a.name, a.value)] + Pairs(a.next);
      assert a.next.None? ==> Pairs(attr) == [(a.name, a.value)];
      a.name.None? && a.value.None? && a.next.None?
  }

  /** `createXMLAttribute` (allocation followed by `initXMLAttribute`). */
  function CreateAttribute(): (a: Attribute)
    ensures FreeAttribute(Some(a))
  {
    Attribute(None, None, None)
  }

  /** `destroyXMLAttribute`: the number of attribute structures released. */
  function DestroyAttribute(attr: Option<Attribute>): (released: nat)
    ensures released == |Pairs(attr)|
  {
    match attr
    case None => 0
    case Some(a) => 1 + DestroyAttribute(a.next)
  }

  /**
   * `resetXMLAttribute`: the members and the rest of the chain are released
   * and the attribute is left initialised.
   */
  function ResetAttribute(attr: Option<Attribute>): (r: Option<Attribute>)
    ensures attr.None? ==> r.None?
    ensures attr.Some? ==> FreeAttribute(r)
  {
    if attr.None? then None else Some(CreateAttribute())
  }

  /** `setXMLAttributeName`: a NULL attribute or a NULL name leaves things as they are. */
  function SetAttributeName(name: Option<string>, attr: Option<Attribute>): (r: Option<Attribute>)
    ensures r.None? <==> attr.None?
    ensures name.None? ==> r == attr
    ensures attr.Some? && name.Some? ==>
      r.value.name == name && r.value.value == attr.value.value && r.value.next == attr.value.next
  {
    if attr.None? || name.None? then attr else Some(attr.value.(name := name))
  }

  /** `setXMLAttributeValue`: a NULL attribute or a NULL value leaves things as they are. */
  function SetAttributeValue(value: Option<string>, attr: Option<Attribute>): (r: Option<Attribute>)
    ensures r.None? <==> attr.None?
    ensures value.None? ==> r == attr
    ensures attr.Some? && value.Some? ==>
      r.value.value == value && r.value.name == attr.value.name && r.value.next == attr.value.next
  {
    if attr.None? || value.None? then attr else Some(attr.value.(value := value))
  }

  /** `copyXMLAttribute`: `dst` takes the name and value of `src`; its `next` is kept. */
  function CopyAttribute(dst: Option<Attribute>, src: Attribute): (r: Option<Attribute>)
    ensures r.None? <==> dst.None?
    ensures dst.Some? ==> r.value.next == dst.value.next
    ensures dst.Some? ==> r.value.name == (if src.name.Some? then src.name else dst.value.name)
    ensures dst.Some? ==> r.value.value == (if src.value.Some? then src.value else dst.value.value)
  {
    SetAttributeValue(src.value, SetAttributeName(src.name, dst))
  }

  /** Copying a complete attribute replaces the head pair of the chain and nothing else. */
  lemma CopyReplacesHead(dst: Attribute, src: Attribute)
    requires src.name.Some? && src.value.Some?
    ensures Pairs(CopyAttribute(Some(dst), src)) == [(src.name, src.value)] + Pairs(dst.next)
  {
  }

  /**
   * Prepending, as `addAttributeToXMLTag` and `addAttributeToXMLNode` do: a
   * NULL attribute is ignored, an empty list becomes the added attribute (with
   * whatever `next` it carries), otherwise the attribute is linked in front.
   */
  function Push(attr: Option<Attribute>, head: Option<Attribute>): (r: Option<Attribute>)
    ensures attr.None? ==> r == head
    ensures attr.Some? && head.Some? ==>
      Pairs(r) == [(attr.value.name, attr.value.value)] + Pairs(head)
    ensures attr.Some? && head.None? ==> r == attr
  {
    if attr.None? then head
    else if head.None? then attr
    else Some(attr.value.(next := head))
  }

  /** Prepending a single attribute adds its pair in front. */
  lemma PushSingle(a: Attribute, head: Option<Attribute>)
    requires a.next.None?
    ensures Pairs(Push(Some(a), head)) == [(a.name, a.value)] + Pairs(head)
  {
    if head.None? {
      assert Pairs(Some(a)) == [(a.name, a.value)] + Pairs(a.next);
    }
  }

  /**
   * Popping the head, as `deleteAttributeFromXMLTag` and
   * `deleteAttributeFromXMLNode` do: the deleted attribute has its `next`
   * cleared; an empty list yields NULL.
   */
  function Pop(head: Option<Attribute>): (r: (Option<Attribute>, Option<Attribute>))
    ensures head.None? ==> r.0.None? && r.1.None?
    ensures head.Some? ==> r.0.Some? && r.0.value.next.None?
    ensures head.Some? ==> Pairs(head) == Pairs(r.0) + Pairs(r.1)
  {
    match head
    case None => (None, None)
    case Some(a) => (Some(a.(next := None)), a.next)
  }

  /**
   * Moving every attribute of `src` in front of `dst` by popping and pushing,
   * the loop of `initXMLNodeFromXMLTag`.
   */
  function MoveAll(src: Option<Attribute>, dst: Option<Attribute>): Option<Attribute>
    decreases src
  {
    match src
    case None => dst
    case Some(a) => MoveAll(a.next, Push(Pop(src).0, dst))
  }

  /** Moving reverses the order of the moved attributes. */
  lemma {:induction false} MoveAllReverses(src: Option<Attribute>, dst: Option<Attribute>)
    ensures Pairs(MoveAll(src, dst)) == Reversed(Pairs(src)) + Pairs(dst)
    decreases src
  {
    match src
    case None =>
    case Some(a) =>
      var moved := Pop(src).0;
      assert Pairs(Push(moved, dst)) == [(a.name, a.value)] + Pairs(dst);
      MoveAllReverses(a.next, Push(moved, dst));
      assert Pairs(src) == [(a.name, a.value)] + Pairs(a.next);
      assert Pairs(src)[1..] == Pairs(a.next);
  }

  /**
   * The result and the new cursor of `readXMLAttribute` started at offset `p`:
   * the name is every character before the next `=`, which must be followed by
   * `"`; the value runs up to the next `"`, which is consumed. EOF inside
   * either loop is a failure.
   */
  function ReadAttributeSpec(text: seq<char>, p: nat): (res: (Option<Attribute>, nat))
    requires p <= |text|
    ensures p <= res.1 <= |text|
    ensures res.0.Some? ==> res.1 > p && res.0.value.next.None?
    ensures res.0.Some? ==> res.0.value.name.Some? && res.0.value.value.Some?
  {
    var e := IndexOf(text, p, '=');
    if e == |text| then (None, |text|)
    else if e + 1 == |text| then (None, |text|)
    else if text[e + 1] != '"' then (None, e + 2)
    else
      var q := IndexOf(text, e + 2, '"');
      if q == |text| then (None, |text|)
      else (Some(Attribute(Some(CString(text[p..e])), Some(CString(text[e + 2..q])), None)), q + 1)
  }

  /**
   * One read loop of `readXMLAttribute`: characters are collected until `stop`
   * is read (and consumed). Reaching EOF first is reported as `found == false`.
   */
  method ReadUntil(r: Reader, stop: char) returns (buf: seq<char>, found: bool)
    requires r.Valid()
    modifies r`pos
    ensures r.Valid()
    ensures var k := IndexOf(r.text, old(r.pos), stop);
      buf == r.text[old(r.pos)..k] && found == (k < |r.text|) && r.pos == After(r.text, k)
  {
    ghost var text, start := r.text, r.pos;
    buf := [];
    ghost var k := start;
    var c := r.GetC();
    while c != Some(stop) && c != None
      invariant start <= k <= |text| && r.Valid()
      invariant c == CharAt(text, k) && r.pos == After(text, k)
      invariant buf == text[start..k]
      invariant forall j :: start <= j < k ==> text[j] != stop
      decreases |text| - k
    {
      buf := buf + [c.value];
      k := k + 1;
      c := r.GetC();
    }
    IndexOfIs(text, start, stop, k);
    found := c.Some?;
  }

  /** `readXMLAttribute`. */
  method ReadAttribute(r: Reader) returns (attr: Option<Attribute>)
    requires r.Valid()
    modifies r
    ensures r.Valid()
    ensures (attr, r.pos) == ReadAttributeSpec(r.text, old(r.pos))
  {
    ghost var text, start := r.text, r.pos;
    attr := Some(CreateAttribute());

    var name, found := ReadUntil(r, '=');
    ghost var e := IndexOf(text, start, '=');
    if !found {
      return None;
    }
    var d := r.GetC();
    if d != Some('"') {
      var released := FreeAttribute(attr);
      return None;
    }
    attr := SetAttributeName(Some(CString(name)), attr);

    var value;
    value, found := ReadUntil(r, '"');
    if !found {
      return None;
    }
    attr := SetAttributeValue(Some(CString(value)), attr);
  }

  /** Searching from `p` for `x` stops right after a `piece` free of `x` that is followed by `x`. */
  lemma IndexOfSlice(text: seq<char>, p: nat, x: char, piece: seq<char>)
    requires At(text, p, piece) && x !in piece && p + |piece| < |text| && text[p + |piece|] == x
    ensures IndexOf(text, p, x) == p + |piece|
  {
    AtSlice(text, p, piece);
    forall j | p <= j < p + |piece|
      ensures text[j] != x
    {
      assert text[j] == piece[j - p];
    }
    IndexOfIs(text, p, x, p + |piece|);
  }

  /** Both delimiters found: the attribute is the `name` before the `=` and the `value` between the quotes. */
  lemma ReadAttributeFound(text: seq<char>, p: nat, e: nat, q: nat, name: seq<char>, value: seq<char>)
    requires p <= e && e + 2 <= q < |text|
    requires IndexOf(text, p, '=') == e && text[e + 1] == '"' && IndexOf(text, e + 2, '"') == q
    requires text[p..e] == name && text[e + 2..q] == value
    ensures ReadAttributeSpec(text, p) == (Some(Attribute(Some(CString(name)), Some(CString(value)), None)), q + 1)
  { }

  /** The text of one attribute as it is written: `name="value"`. */
  function AttributeText(name: string, value: string): (s: string)
    ensures |s| == |name| + |value| + 3
  {
    name + (['=', '"'] + (value + ['"']))
  }

  /** Reading where `name="value"` is written gives back that name and value and stops after the closing quote. */
  lemma ReadAttributeAt(text: seq<char>, p: nat, name: string, value: string)
    requires '=' !in name && '"' !in value && '\0' !in name && '\0' !in value
    requires At(text, p, AttributeText(name, value))
    ensures ReadAttributeSpec(text, p) == (Some(Attribute(Some(name), Some(value), None)), p + |name| + |value| + 3)
  {
    var e := p + |name|;
    var q := e + 2 + |value|;
    AtSplit(text, p, name, ['=', '"'] + (value + ['"']));
    AtSplit(text, e, ['=', '"'], value + ['"']);
    AtSplit(text, e + 2, value, ['"']);
    AtChar(text, q, '"');
    IndexOfSlice(text, p, '=', name);
    IndexOfSlice(text, e + 2, '"', value);
    AtSlice(text, p, name);
    AtSlice(text, e + 2, value);
    ReadAttributeFound(text, p, e, q, name, value);
    CStringOfPlain(name);
    CStringOfPlain(value);
  }

  /** Reading `name="value"` gives back exactly that name and value and stops after the closing quote. */
  lemma ReadWrittenAttribute(text: seq<char>, pre: seq<char>, name: string, value: string, rest: seq<char>)
    requires '=' !in name && '"' !in value && '\0' !in name && '\0' !in value
    requires text == pre + AttributeText(name, value) + rest
    ensures ReadAttributeSpec(text, |pre|) == (Some(Attribute(Some(name), Some(value), None)), |pre| + |name| + |value| + 3)
  {
    AtConcat(text, pre, AttributeText(name, value), rest);
    ReadAttributeAt(text, |pre|, name, value);
  }

  /** An `=` that is not followed by `"` makes the read fail right after that character. */
  lemma ReadAttributeNeedsQuote(text: seq<char>, p: nat, name: string, c: char)
    requires '=' !in name && c != '"'
    requires At(text, p, name + ['=', c])
    ensures ReadAttributeSpec(text, p) == (None, p + |name| + 2)
  {
    AtSplit(text, p, name, ['=', c]);
    IndexOfSlice(text, p, '=', name);
  }
}
