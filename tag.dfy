/**
 * XML tags (tag.c): the tag record that `readXMLTag` fills while it scans one
 * `<...>` from the stream, and the operations on it.
 */
module Tags {
  import opened Wrappers
  import opened Stream
  import opened Attributes

  /** `XML_TagType`. */
  datatype TagType = Opening | Closing | Unique | Unknown

  /** The contents of a tag that was read successfully. */
  datatype TagValue = TagValue(name: string, attr: Option<Attribute>, kind: TagType)

  /** The character `(char)EOF` stores in the name buffer (EOF is -1, stored in a byte). */
  const EofChar: char := 0xFF as char

  /** The characters that end a tag name (EOF ends it too). */
  predicate IsNameEnd(c: char)
  {
    c == ' ' || c == '>' || c == '/'
  }

  /** The offset of the first name-ending character at or after `p`, or `|text|`. */
  function NameEnd(text: seq<char>, p: nat): (k: nat)
    requires p <= |text|
    ensures p <= k <= |text|
    ensures k < |text| ==> IsNameEnd(text[k])
    decreases |text| - p
  {
    if p == |text| || IsNameEnd(text[p]) then p else NameEnd(text, p + 1)
  }

  /** An offset with the three properties of `NameEnd` is the one it returns. */
  lemma {:induction false} NameEndIs(text: seq<char>, p: nat, k: nat)
    requires p <= k <= |text|
    requires k < |text| ==> IsNameEnd(text[k])
    requires forall j :: p <= j < k ==> !IsNameEnd(text[j])
    ensures NameEnd(text, p) == k
    decreases k - p
  {
    if p < k {
      NameEndIs(text, p + 1, k);
    }
  }

  /**
   * The first character of the tag proper and the offset after it: a leading
   * `<` is skipped, anything else is kept.
   */
  function TagHead(text: seq<char>, p: nat): (h: (Option<char>, nat))
    requires p <= |text|
    ensures p <= h.1 <= |text|
    ensures h.0.Some? ==> p < h.1
    ensures CharAt(text, p) == Some('<') ==> h.0 == CharAt(text, p + 1)
    ensures CharAt(text, p) != Some('<') ==> h.0 == CharAt(text, p)
  {
    if CharAt(text, p) == Some('<') then (CharAt(text, p + 1), After(text, p + 1))
    else (CharAt(text, p), After(text, p))
  }

  /**
   * The attribute loop of `readXMLTag`, entered just after a space was read at
   * offset `p - 1`: one attribute is read and prepended (a rejected attribute
   * is dropped), then one more character; another space repeats the loop.
   * The result is the attribute list, the first character that was not a
   * space (None for EOF) and the offset after it.
   */
  function AttrLoop(text: seq<char>, p: nat, acc: Option<Attribute>): (res: (Option<Attribute>, Option<char>, nat))
    requires p <= |text|
    ensures p <= res.2 <= |text|
    ensures res.1 != Some(' ')
    ensures res.1.Some? ==> p < res.2 && text[res.2 - 1] == res.1.value
    ensures res.1.None? ==> res.2 == |text|
    decreases |text| - p
  {
    var (a, p1) := ReadAttributeSpec(text, p);
    var acc1 := Push(a, acc);
    var c := CharAt(text, p1);
    if c == Some(' ') then AttrLoop(text, p1 + 1, acc1) else (acc1, c, After(text, p1))
  }

  /** What follows the attribute loop: `>` or `/>` end the tag, anything else rejects it. */
  function AttrTail(text: seq<char>, name: string, loop: (Option<Attribute>, Option<char>, nat)): (res: (Option<TagValue>, nat))
    requires loop.2 <= |text|
    requires loop.1.Some? ==> 0 < loop.2 && text[loop.2 - 1] == loop.1.value
    ensures loop.2 <= res.1 <= |text|
    ensures res.0.Some? ==> 0 < res.1 && text[res.1 - 1] == '>'
    ensures res.0.Some? ==> res.0.value.kind in {Opening, Unique}
  {
    var (acc, c, q) := loop;
    if c == Some('>') then (Some(TagValue(name, acc, Opening)), q)
    else if c == Some('/') then
      if CharAt(text, q) == Some('>') then (Some(TagValue(name, acc, Unique)), q + 1)
      else (None, After(text, q))
    else (None, q)
  }

  /**
   * What `readXMLTag` does once the name is complete and the name-ending
   * character at `q` has been read: `>` ends the tag, `/` must be followed by
   * `>` (and is refused in a closing tag), a space starts the attribute
   * loop (and is refused in a closing tag), EOF is a failure.
   */
  function AfterName(text: seq<char>, closing: bool, name: string, q: nat): (res: (Option<TagValue>, nat))
    requires q <= |text|
    ensures q <= res.1 <= |text|
    ensures res.0.Some? ==> q < res.1 && text[res.1 - 1] == '>'
    ensures res.0.Some? ==> res.0.value.kind != Unknown
    ensures res.0.Some? && closing ==> res.0.value.kind == Closing
  {
    if q == |text| then (None, |text|)
    else if text[q] == '>' then (Some(TagValue(name, None, if closing then Closing else Opening)), q + 1)
    else if closing then (None, q + 1)
    else if text[q] == '/' then
      if CharAt(text, q + 1) == Some('>') then (Some(TagValue(name, None, Unique)), q + 2)
      else (None, After(text, q + 1))
    else if text[q] == ' ' then AttrTail(text, name, AttrLoop(text, q + 1, None))
    else (None, q + 1)
  }

  /**
   * The result and the new cursor of `readXMLTag` started at offset `p`.
   * A `/` as first character marks a closing tag; otherwise that character
   * (whatever it is) starts the name. The name runs up to a space, `>`, `/`
   * or EOF and must stay under `BufferLength` characters.
   */
  function ReadTagSpec(text: seq<char>, p: nat): (res: (Option<TagValue>, nat))
    requires p <= |text|
    ensures p <= res.1 <= |text|
    ensures res.0.Some? ==> p + 2 <= res.1 && text[res.1 - 1] == '>'
    ensures res.0.Some? ==> res.0.value.kind != Unknown
  {
    var (c1, p1) := TagHead(text, p);
    var closing := c1 == Some('/');
    var init := if closing then [] else [if c1.Some? then c1.value else EofChar];
    var q := NameEnd(text, p1);
    if |init| + (q - p1) >= BufferLength then (None, After(text, p1 + BufferLength - |init|))
    else AfterName(text, closing, CString(init + text[p1..q]), q)
  }

  /** `XML_Tag`. */
  class Tag {
    var name: Option<string>
    var attr: Option<Attribute>
    var kind: TagType

    /** The tag holds exactly `v`. */
    predicate Holds(v: TagValue)
      reads this
    {
      name == Some(v.name) && attr == v.attr && kind == v.kind
    }

    /** `createXMLTag`: allocation followed by `initXMLTag`. */
    constructor ()
      ensures name.None? && attr.None? && kind == Unknown
    {
      name, attr, kind := None, None, Unknown;
    }

    /** `initXMLTag`. */
    method Init()
      modifies this
      ensures name.None? && attr.None? && kind == Unknown
    {
      name, attr, kind := None, None, Unknown;
    }

    /** `freeXMLTag`: only a tag without name and attributes is released. */
    method Free() returns (released: bool)
      ensures released <==> name.None? && attr.None?
    {
      released := name.None? && attr.None?;
    }

    /**
     * `resetXMLTag`: the name and every attribute of the list are released
     * and the tag is initialised again.
     */
    method Reset() returns (attributesReleased: nat)
      modifies this
      ensures attributesReleased == |Pairs(old(attr))|
      ensures name.None? && attr.None? && kind == Unknown
    {
      attributesReleased := if attr.Some? then DestroyAttribute(attr) else 0;
      Init();
    }

    /** `destroyXMLTag`: reset, then free, which then always succeeds. */
    method Destroy() returns (released: bool)
      modifies this
      ensures released
      ensures name.None? && attr.None? && kind == Unknown
    {
      var _ := Reset();
      released := Free();
    }

    /** `setXMLTagName`: a NULL name leaves the tag as it is. */
    method SetName(n: Option<string>)
      modifies this
      ensures name == (if n.Some? then n else old(name))
      ensures attr == old(attr) && kind == old(kind)
    {
      if n.Some? {
        name := n;
      }
    }

    /** `addAttributeToXMLTag`: the attribute is prepended; NULL is ignored. */
    method AddAttribute(a: Option<Attribute>)
      modifies this
      ensures attr == Push(a, old(attr))
      ensures name == old(name) && kind == old(kind)
    {
      attr := Push(a, attr);
    }

    /** `deleteAttributeFromXMLTag`: the head is unlinked and returned, NULL for an empty list. */
    method DeleteAttribute() returns (deleted: Option<Attribute>)
      modifies this
      ensures (deleted, attr) == Pop(old(attr))
      ensures name == old(name) && kind == old(kind)
    {
      deleted, attr := Pop(attr).0, Pop(attr).1;
    }
  }

  /** The name loop of `readXMLTag`: `Some(buf)` ends at a name end, None means the buffer filled up. */
  method ReadName(r: Reader, init: string) returns (buf: Option<string>, c: Option<char>)
    requires r.Valid() && |init| <= 1
    modifies r`pos
    ensures r.Valid()
    ensures var q := NameEnd(r.text, old(r.pos));
      if |init| + (q - old(r.pos)) >= BufferLength then
        buf.None? && r.pos == After(r.text, old(r.pos) + BufferLength - |init|)
      else
        buf == Some(init + r.text[old(r.pos)..q]) && c == CharAt(r.text, q) && r.pos == After(r.text, q)
  {
    ghost var text, start := r.text, r.pos;
    var s := init;
    ghost var k := start;
    c := r.GetC();
    while c.Some? && !IsNameEnd(c.value)
      invariant start <= k <= |text| && r.Valid()
      invariant c == CharAt(text, k) && r.pos == After(text, k)
      invariant s == init + text[start..k] && |s| < BufferLength
      invariant forall j :: start <= j < k ==> !IsNameEnd(text[j])
      decreases |text| - k
    {
      s := s + [c.value];
      k := k + 1;
      c := r.GetC();
      if |s| >= BufferLength {
        assert NameEnd(text, start) >= k;
        return None, c;
      }
    }
    NameEndIs(text, start, k);
    buf := Some(s);
  }

  /** The attribute loop of `readXMLTag`, proved to compute `AttrLoop`. */
  method ReadAttributes(r: Reader, tag: Tag) returns (c: Option<char>)
    requires r.Valid() && 0 < r.pos && r.text[r.pos - 1] == ' '
    modifies r, tag
    ensures r.Valid()
    ensures (tag.attr, c, r.pos) == AttrLoop(r.text, old(r.pos), old(tag.attr))
    ensures tag.name == old(tag.name) && tag.kind == old(tag.kind)
  {
    ghost var text := r.text;
    ghost var goal := AttrLoop(text, r.pos, tag.attr);
    c := Some(' ');
    while c == Some(' ')
      invariant r.Valid() && r.text == text
      invariant tag.name == old(tag.name) && tag.kind == old(tag.kind)
      invariant c == Some(' ') ==> AttrLoop(text, r.pos, tag.attr) == goal
      invariant c != Some(' ') ==> (tag.attr, c, r.pos) == goal
      decreases |text| - r.pos, if c == Some(' ') then 1 else 0
    {
      var a := ReadAttribute(r);
      tag.AddAttribute(a);
      c := r.GetC();
    }
  }

  /** `readXMLTag`, proved to compute `ReadTagSpec`. */
  method ReadTag(r: Reader) returns (tag: Tag?)
    requires r.Valid()
    modifies r
    ensures r.Valid()
    ensures var (res, q) := ReadTagSpec(r.text, old(r.pos));
      r.pos == q && (tag == null <==> res.None?) && (tag != null ==> fresh(tag) && tag.Holds(res.value))
  {
    ghost var text, p := r.text, r.pos;
    tag := new Tag();

    var c := r.GetC();
    if c == Some('<') {
      c := r.GetC();
    }
    ghost var p1 := r.pos;
    assert (c, p1) == TagHead(text, p);
    var init := [];
    if c == Some('/') {
      tag.kind := Closing;
    } else {
      init := [if c.Some? then c.value else EofChar];
    }

    var buf;
    buf, c := ReadName(r, init);
    if buf.None? {
      var _ := tag.Free();
      return null;
    }
    ghost var q := NameEnd(text, p1);
    tag.SetName(Some(CString(buf.value)));
    tag := FinishTag(r, tag, c, q);
  }

  /** The part of `readXMLTag` after the name, proved to compute `AfterName`. */
  method FinishTag(r: Reader, tag: Tag, c0: Option<char>, ghost q: nat) returns (res: Tag?)
    requires r.Valid() && q <= |r.text| && c0 == CharAt(r.text, q) && r.pos == After(r.text, q)
    requires tag.name.Some? && tag.attr.None? && tag.kind in {Closing, Unknown}
    modifies r, tag
    ensures r.Valid()
    ensures var (v, q') := AfterName(r.text, old(tag.kind) == Closing, old(tag.name).value, q);
      r.pos == q' && (res == null <==> v.None?) && (res != null ==> res == tag && tag.Holds(v.value))
  {
    var c := c0;
    res := tag;
    if c == Some('>') {
      if tag.kind == Unknown {
        tag.kind := Opening;
      }
    } else if c == Some('/') {
      if tag.kind == Unknown {
        tag.kind := Unique;
        c := r.GetC();
        if c != Some('>') {
          var _ := tag.Destroy();
          return null;
        }
      } else {
        var _ := tag.Destroy();
        return null;
      }
    } else if c == Some(' ') {
    } else {
      var _ := tag.Destroy();
      return null;
    }

    if tag.kind == Unknown {
      c := ReadAttributes(r, tag);
      if c == Some('>') {
        tag.kind := Opening;
      } else if c == Some('/') {
        tag.kind := Unique;
        c := r.GetC();
      }
    }

    if c != Some('>') {
      var _ := tag.Destroy();
      return null;
    }
  }

  /** A tag name that `readXMLTag` gives back unchanged: no name-ending character and no NUL. */
  predicate PlainName(s: string)
  {
    forall i :: 0 <= i < |s| ==> !IsNameEnd(s[i]) && s[i] != '\0'
  }

  /** Attributes that `readXMLAttribute` gives back unchanged. */
  predicate PlainAttrs(attrs: seq<(string, string)>)
  {
    forall i :: 0 <= i < |attrs| ==>
      '=' !in attrs[i].0 && '\0' !in attrs[i].0 && '"' !in attrs[i].1 && '\0' !in attrs[i].1
  }

  /** The (name, value) pairs of written attributes, as an attribute chain shows them. */
  function AsPairs(attrs: seq<(string, string)>): (s: seq<(Option<string>, Option<string>)>)
    ensures |s| == |attrs|
  {
    if |attrs| == 0 then [] else [(Some(attrs[0].0), Some(attrs[0].1))] + AsPairs(attrs[1..])
  }

  /** Attributes as written inside a tag, each after one space. */
  function AttrsText(attrs: seq<(string, string)>): string
  {
    if |attrs| == 0 then [] else [' '] + (AttributeText(attrs[0].0, attrs[0].1) + AttrsText(attrs[1..]))
  }

  /** The start-tag `<name attrs>`, or the empty-element tag `<name attrs/>` when `empty`. */
  function TagText(name: string, attrs: seq<(string, string)>, empty: bool): string
  {
    ['<'] + (name + (AttrsText(attrs) + (if empty then ['/', '>'] else ['>'])))
  }

  /** The end-tag `</name>`. */
  function EndTagText(name: string): string
  {
    ['<', '/'] + (name + ['>'])
  }

  /** A name-end-free `piece` at `p` followed by a name end (or EOF) is the whole name. */
  lemma NameEndAt(text: seq<char>, p: nat, piece: string)
    requires At(text, p, piece) && forall i :: 0 <= i < |piece| ==> !IsNameEnd(piece[i])
    requires p + |piece| < |text| ==> IsNameEnd(text[p + |piece|])
    ensures NameEnd(text, p) == p + |piece|
  {
    AtSlice(text, p, piece);
    forall j | p <= j < p + |piece|
      ensures !IsNameEnd(text[j])
    {
      assert text[j] == piece[j - p];
    }
    NameEndIs(text, p, p + |piece|);
  }

  /** No name end in `text[p..k]` means the name runs at least up to `k`. */
  lemma {:induction false} NameEndBeyond(text: seq<char>, p: nat, k: nat)
    requires p <= k <= |text| && forall j :: p <= j < k ==> !IsNameEnd(text[j])
    ensures NameEnd(text, p) >= k
    decreases k - p
  {
    if p < k {
      NameEndBeyond(text, p + 1, k);
    }
  }

  /** The attribute loop stops when the character after an attribute is not a space. */
  lemma AttrLoopStops(text: seq<char>, p: nat, acc: Option<Attribute>, a: Option<Attribute>, p1: nat, c: char)
    requires p <= |text| && ReadAttributeSpec(text, p) == (a, p1)
    requires p1 < |text| && text[p1] == c && c != ' '
    ensures AttrLoop(text, p, acc) == (Push(a, acc), Some(c), p1 + 1)
  {
  }

  /** The attribute loop goes round again when a space follows an attribute. */
  lemma AttrLoopGoesOn(text: seq<char>, p: nat, acc: Option<Attribute>, a: Option<Attribute>, p1: nat)
    requires p <= |text| && ReadAttributeSpec(text, p) == (a, p1)
    requires p1 < |text| && text[p1] == ' '
    ensures AttrLoop(text, p, acc) == AttrLoop(text, p1 + 1, Push(a, acc))
  {
  }

  /** The first of several written attributes, and what follows it. */
  lemma AttrsTextAt(text: seq<char>, p: nat, attrs: seq<(string, string)>)
    requires 0 < p && |attrs| > 0 && At(text, p - 1, AttrsText(attrs))
    ensures At(text, p, AttributeText(attrs[0].0, attrs[0].1))
    ensures var p1 := p + |AttributeText(attrs[0].0, attrs[0].1)|;
      |AttrsText(attrs)| == p1 - p + 1 + |AttrsText(attrs[1..])| && At(text, p1, AttrsText(attrs[1..]))
      && (|attrs| > 1 ==> p1 < |text| && text[p1] == ' ')
  {
    var first := AttributeText(attrs[0].0, attrs[0].1);
    var more := AttrsText(attrs[1..]);
    var p1 := p + |first|;
    AtSplit(text, p - 1, [' '], first + more);
    AtSplit(text, p, first, more);
    if |attrs| > 1 {
      AtSplit(text, p1, [' '], AttributeText(attrs[1].0, attrs[1].1) + AttrsText(attrs[1..][1..]));
      AtChar(text, p1, ' ');
    }
  }

  /** The head of plain attributes is plain, and so is the tail. */
  lemma PlainAttrsTail(attrs: seq<(string, string)>)
    requires |attrs| > 0 && PlainAttrs(attrs)
    ensures '=' !in attrs[0].0 && '\0' !in attrs[0].0 && '"' !in attrs[0].1 && '\0' !in attrs[0].1
    ensures PlainAttrs(attrs[1..])
  {
    forall i | 0 <= i < |attrs[1..]|
      ensures '=' !in attrs[1..][i].0 && '\0' !in attrs[1..][i].0 && '"' !in attrs[1..][i].1 && '\0' !in attrs[1..][i].1
    {
      assert attrs[1..][i] == attrs[i + 1];
    }
  }

  /** Prepending the head of `s` to `acc` after the reversed tail is prepending all of `s` reversed. */
  lemma ReversedStep<T>(s: seq<T>, acc: seq<T>)
    requires s != []
    ensures Reversed(s[1..]) + ([s[0]] + acc) == Reversed(s) + acc
  {
  }

  /** The first written attribute is read back and the cursor lands right after it. */
  lemma FirstWrittenAttr(text: seq<char>, p: nat, attrs: seq<(string, string)>)
    requires 0 < p && |attrs| > 0 && PlainAttrs(attrs) && At(text, p - 1, AttrsText(attrs))
    ensures ReadAttributeSpec(text, p)
      == (Some(Attribute(Some(attrs[0].0), Some(attrs[0].1), None)), p + |AttributeText(attrs[0].0, attrs[0].1)|)
  {
    AttrsTextAt(text, p, attrs);
    PlainAttrsTail(attrs);
    ReadAttributeAt(text, p, attrs[0].0, attrs[0].1);
  }

  /** Prepending the first written attribute moves it from `attrs` to the reversed list. */
  lemma PushWritten(attrs: seq<(string, string)>, acc: Option<Attribute>)
    requires |attrs| > 0
    ensures Reversed(AsPairs(attrs[1..])) + Pairs(Push(Some(Attribute(Some(attrs[0].0), Some(attrs[0].1), None)), acc))
      == Reversed(AsPairs(attrs)) + Pairs(acc)
  {
    PushSingle(Attribute(Some(attrs[0].0), Some(attrs[0].1), None), acc);
    assert AsPairs(attrs)[1..] == AsPairs(attrs[1..]);
    ReversedStep(AsPairs(attrs), Pairs(acc));
  }

  /**
   * Reading attributes from `p` yields exactly `attrs`, separated by single
   * spaces, and the character after the last one is `c`.
   */
  ghost predicate ReadsAttrs(text: seq<char>, p: nat, attrs: seq<(string, string)>, c: char)
    requires p <= |text|
    decreases |attrs|
  {
    |attrs| > 0 &&
    var p1 := p + |AttributeText(attrs[0].0, attrs[0].1)|;
    ReadAttributeSpec(text, p) == (Some(Attribute(Some(attrs[0].0), Some(attrs[0].1), None)), p1) &&
    p1 < |text| &&
    if |attrs| == 1 then text[p1] == c
    else text[p1] == ' ' && ReadsAttrs(text, p1 + 1, attrs[1..], c)
  }

  /** What follows the first of several written attributes. */
  lemma AttrsTextRest(text: seq<char>, p: nat, attrs: seq<(string, string)>, c: char)
    requires 0 < p && |attrs| > 0 && PlainAttrs(attrs)
    requires At(text, p - 1, AttrsText(attrs))
    requires p - 1 + |AttrsText(attrs)| < |text| && text[p - 1 + |AttrsText(attrs)|] == c
    ensures var p1 := p + |AttributeText(attrs[0].0, attrs[0].1)|;
      p1 < |text| &&
      (|attrs| == 1 ==> text[p1] == c) &&
      (|attrs| > 1 ==>
        text[p1] == ' ' && PlainAttrs(attrs[1..]) && At(text, p1, AttrsText(attrs[1..])) &&
        p1 + |AttrsText(attrs[1..])| < |text| && text[p1 + |AttrsText(attrs[1..])|] == c)
  {
    AttrsTextAt(text, p, attrs);
    PlainAttrsTail(attrs);
  }

  /** Written attributes followed by `c` are read back one by one. */
  lemma {:induction false} WrittenAttrsRead(text: seq<char>, p: nat, attrs: seq<(string, string)>, c: char)
    requires 0 < p && |attrs| > 0 && PlainAttrs(attrs)
    requires At(text, p - 1, AttrsText(attrs))
    requires p - 1 + |AttrsText(attrs)| < |text| && text[p - 1 + |AttrsText(attrs)|] == c
    ensures p <= |text| && ReadsAttrs(text, p, attrs, c)
    decreases |attrs|
  {
    AttrsTextRest(text, p, attrs, c);
    FirstWrittenAttr(text, p, attrs);
    if |attrs| > 1 {
      var p1 := p + |AttributeText(attrs[0].0, attrs[0].1)|;
      WrittenAttrsRead(text, p1 + 1, attrs[1..], c);
    }
  }

  /**
   * The attribute loop over attributes followed by a character `c` other
   * than a space: every attribute is prepended, so the list holds them in
   * reverse order, and `c` is what stops the loop.
   */
  lemma {:induction false} AttrLoopReads(text: seq<char>, p: nat, acc: Option<Attribute>, attrs: seq<(string, string)>, c: char)
    requires p <= |text| && c != ' ' && ReadsAttrs(text, p, attrs, c)
    ensures var res := AttrLoop(text, p, acc);
      Pairs(res.0) == Reversed(AsPairs(attrs)) + Pairs(acc) && res.1 == Some(c)
    ensures AttrLoop(text, p, acc).2 == p + |AttrsText(attrs)|
    decreases |attrs|
  {
    var a := Attribute(Some(attrs[0].0), Some(attrs[0].1), None);
    var p1 := p + |AttributeText(attrs[0].0, attrs[0].1)|;
    PushWritten(attrs, acc);
    if |attrs| == 1 {
      AttrLoopStops(text, p, acc, Some(a), p1, c);
    } else {
      AttrLoopGoesOn(text, p, acc, Some(a), p1);
      AttrLoopReads(text, p1 + 1, Push(Some(a), acc), attrs[1..], c);
    }
  }

  /** `readXMLTag` on a tag that is not a closing one, once its name is known. */
  lemma ReadTagOpened(text: seq<char>, p: nat, x: char, q: nat)
    requires p <= |text| && TagHead(text, p) == (Some(x), p + 2) && x != '/'
    requires NameEnd(text, p + 2) == q && 1 + q - (p + 2) < BufferLength
    ensures ReadTagSpec(text, p) == AfterName(text, false, CString([x] + text[p + 2..q]), q)
  {
  }

  /** How the head of a written start- or empty-element tag is split up. */
  lemma WrittenNameLayout(text: seq<char>, p: nat, name: string)
    requires name != [] && PlainName(name)
    requires p < |text| && text[p] == '<' && At(text, p + 1, name)
    requires p + 1 + |name| < |text| && IsNameEnd(text[p + 1 + |name|])
    ensures TagHead(text, p) == (Some(name[0]), p + 2) && name[0] != '/'
    ensures NameEnd(text, p + 2) == p + 1 + |name|
    ensures CString([name[0]] + text[p + 2..p + 1 + |name|]) == name
  {
    assert text[p + 1] == name[0] && At(text, p + 2, name[1..]);
    assert !IsNameEnd(name[0]) && name[0] != '\0';
    NameEndAt(text, p + 2, name[1..]);
    AtSlice(text, p + 2, name[1..]);
    assert [name[0]] + text[p + 2..p + 1 + |name|] == name;
    CStringOfPlain(name);
  }

  /** A space after the name of a tag that is not a closing one starts the attribute loop. */
  lemma AfterNameSpace(text: seq<char>, name: string, q: nat)
    requires q < |text| && text[q] == ' '
    ensures AfterName(text, false, name, q) == AttrTail(text, name, AttrLoop(text, q + 1, None))
  {
  }

  /** `>` or `/>` after the attributes ends the tag. */
  lemma AttrTailCloses(text: seq<char>, name: string, loop: (Option<Attribute>, Option<char>, nat), empty: bool, e: nat)
    requires e < |text| && text[e] == Closer(empty) && (empty ==> CharAt(text, e + 1) == Some('>'))
    requires loop.1 == Some(Closer(empty)) && loop.2 == e + 1
    ensures AttrTail(text, name, loop)
      == (Some(TagValue(name, loop.0, if empty then Unique else Opening)), e + (if empty then 2 else 1))
  {
  }

  /** The character that ends a written tag: `/` of `/>` for an empty-element tag, else `>`. */
  function Closer(empty: bool): char
  {
    if empty then '/' else '>'
  }

  /** Where the pieces of a written tag sit. */
  lemma TagTextAt(text: seq<char>, p: nat, name: string, attrs: seq<(string, string)>, empty: bool)
    requires At(text, p, TagText(name, attrs, empty))
    ensures p < |text| && text[p] == '<' && At(text, p + 1, name)
    ensures At(text, p + 1 + |name|, AttrsText(attrs))
    ensures var e := p + 1 + |name| + |AttrsText(attrs)|;
      e < |text| && text[e] == Closer(empty) && (empty ==> CharAt(text, e + 1) == Some('>'))
    ensures |TagText(name, attrs, empty)| == 1 + |name| + |AttrsText(attrs)| + (if empty then 2 else 1)
  {
    var close: seq<char> := if empty then ['/', '>'] else ['>'];
    AtSplit(text, p, ['<'], name + (AttrsText(attrs) + close));
    AtSplit(text, p + 1, name, AttrsText(attrs) + close);
    AtSplit(text, p + 1 + |name|, AttrsText(attrs), close);
  }

  /** The attributes of a written tag, read after the space that follows its name. */
  lemma WrittenAttrsTail(text: seq<char>, name: string, q: nat, attrs: seq<(string, string)>, empty: bool, e: nat)
    returns (attr: Option<Attribute>)
    requires q < |text| && text[q] == ' ' && ReadsAttrs(text, q + 1, attrs, Closer(empty))
    requires e == q + |AttrsText(attrs)| && e < |text| && text[e] == Closer(empty)
    requires empty ==> CharAt(text, e + 1) == Some('>')
    ensures AfterName(text, false, name, q) == (Some(TagValue(name, attr, if empty then Unique else Opening)), e + (if empty then 2 else 1))
    ensures Pairs(attr) == Reversed(AsPairs(attrs))
  {
    AfterNameSpace(text, name, q);
    AttrLoopReads(text, q + 1, None, attrs, Closer(empty));
    var loop := AttrLoop(text, q + 1, None);
    attr := loop.0;
    AttrTailCloses(text, name, loop, empty, e);
    assert Reversed(AsPairs(attrs)) + Pairs(None) == Reversed(AsPairs(attrs));
  }

  /**
   * Where the pieces of a written start- or empty-element tag `<name attrs>`
   * or `<name attrs/>` at `p` sit, as the reader meets them.
   */
  ghost predicate LaidOut(text: seq<char>, p: nat, name: string, attrs: seq<(string, string)>, empty: bool)
  {
    var q := p + 1 + |name|;
    var e := q + |AttrsText(attrs)|;
    p < |text| && text[p] == '<' && At(text, p + 1, name) &&
    q < |text| && IsNameEnd(text[q]) &&
    e < |text| && text[e] == Closer(empty) && (empty ==> CharAt(text, e + 1) == Some('>')) &&
    |TagText(name, attrs, empty)| == e - p + (if empty then 2 else 1) &&
    (|attrs| > 0 ==> text[q] == ' ' && ReadsAttrs(text, q + 1, attrs, Closer(empty)))
  }

  /** A written tag is laid out as `LaidOut` says. */
  lemma WrittenTagLayout(text: seq<char>, p: nat, name: string, attrs: seq<(string, string)>, empty: bool)
    requires PlainAttrs(attrs) && At(text, p, TagText(name, attrs, empty))
    ensures LaidOut(text, p, name, attrs, empty)
  {
    TagTextAt(text, p, name, attrs, empty);
    if |attrs| > 0 {
      var q := p + 1 + |name|;
      assert text[q] == ' ';
      WrittenAttrsRead(text, q + 1, attrs, Closer(empty));
    }
  }

  /**
   * `readXMLTag` on a tag whose name `name` is followed at `q` by what
   * `AfterName` reads as a start- or empty-element tag.
   */
  lemma ReadNamedTag(text: seq<char>, p: nat, name: string, q: nat, empty: bool, attr: Option<Attribute>, e: nat)
    requires name != [] && |name| < BufferLength && q == p + 1 + |name| && q <= |text|
    requires p <= |text| && TagHead(text, p) == (Some(name[0]), p + 2) && name[0] != '/'
    requires NameEnd(text, p + 2) == q && CString([name[0]] + text[p + 2..q]) == name
    requires AfterName(text, false, name, q) == (Some(TagValue(name, attr, if empty then Unique else Opening)), e)
    ensures ReadTagSpec(text, p) == (Some(TagValue(name, attr, if empty then Unique else Opening)), e)
  {
    ReadTagOpened(text, p, name[0], q);
  }

  /** `AfterName` on the rest of a written tag without attributes. */
  lemma BareTagTail(text: seq<char>, name: string, q: nat, attrs: seq<(string, string)>, empty: bool, e: nat)
    requires |attrs| == 0 && e == q + |AttrsText(attrs)|
    requires e < |text| && text[e] == Closer(empty) && (empty ==> CharAt(text, e + 1) == Some('>'))
    ensures AfterName(text, false, name, q) == (Some(TagValue(name, None, if empty then Unique else Opening)), e + (if empty then 2 else 1))
  {
  }

  /** What follows the name of a written tag, read by `AfterName`. */
  lemma WrittenTagTail(text: seq<char>, name: string, q: nat, attrs: seq<(string, string)>, empty: bool, e: nat)
    returns (attr: Option<Attribute>)
    requires q < |text| && e == q + |AttrsText(attrs)| && e < |text| && text[e] == Closer(empty)
    requires empty ==> CharAt(text, e + 1) == Some('>')
    requires |attrs| > 0 ==> text[q] == ' ' && ReadsAttrs(text, q + 1, attrs, Closer(empty))
    ensures AfterName(text, false, name, q) == (Some(TagValue(name, attr, if empty then Unique else Opening)), e + (if empty then 2 else 1))
    ensures Pairs(attr) == Reversed(AsPairs(attrs))
  {
    if |attrs| == 0 {
      BareTagTail(text, name, q, attrs, empty, e);
      attr := None;
    } else {
      attr := WrittenAttrsTail(text, name, q, attrs, empty, e);
    }
  }

  /** `ReadWrittenTag` once the layout of the tag is known. */
  lemma ReadLaidOutTag(text: seq<char>, p: nat, name: string, attrs: seq<(string, string)>, empty: bool)
    requires name != [] && PlainName(name) && |name| < BufferLength && LaidOut(text, p, name, attrs, empty)
    ensures ReadTagSpec(text, p).0.Some?
    ensures ReadTagSpec(text, p).0.value.name == name
    ensures ReadTagSpec(text, p).0.value.kind == (if empty then Unique else Opening)
    ensures Pairs(ReadTagSpec(text, p).0.value.attr) == Reversed(AsPairs(attrs))
    ensures ReadTagSpec(text, p).1 == p + |TagText(name, attrs, empty)|
  {
    var q := p + 1 + |name|;
    var e := q + |AttrsText(attrs)|;
    WrittenNameLayout(text, p, name);
    var attr := WrittenTagTail(text, name, q, attrs, empty, e);
    ReadNamedTag(text, p, name, q, empty, attr, e + (if empty then 2 else 1));
  }

  /**
   * A written start-tag `<name attrs>` reads as OPENING and an empty-element
   * tag `<name attrs/>` as UNIQUE, with the name and every attribute (the
   * list holding them in reverse order), and the whole tag is consumed.
   */
  lemma ReadWrittenTag(text: seq<char>, p: nat, name: string, attrs: seq<(string, string)>, empty: bool)
    requires name != [] && PlainName(name) && |name| < BufferLength && PlainAttrs(attrs)
    requires At(text, p, TagText(name, attrs, empty))
    ensures ReadTagSpec(text, p).0.Some?
    ensures ReadTagSpec(text, p).0.value.name == name
    ensures ReadTagSpec(text, p).0.value.kind == (if empty then Unique else Opening)
    ensures Pairs(ReadTagSpec(text, p).0.value.attr) == Reversed(AsPairs(attrs))
    ensures ReadTagSpec(text, p).1 == p + |TagText(name, attrs, empty)|
  {
    WrittenTagLayout(text, p, name, attrs, empty);
    ReadLaidOutTag(text, p, name, attrs, empty);
  }

  /** A written end-tag `</name>` reads as CLOSING with that name and no attributes. */
  lemma ReadWrittenEndTag(text: seq<char>, p: nat, name: string)
    requires PlainName(name) && |name| < BufferLength
    requires At(text, p, EndTagText(name))
    ensures ReadTagSpec(text, p) == (Some(TagValue(name, None, Closing)), p + |name| + 3)
  {
    AtSplit(text, p, ['<', '/'], name + ['>']);
    AtSplit(text, p + 2, name, ['>']);
    AtChar(text, p + 2 + |name|, '>');
    assert TagHead(text, p) == (Some('/'), p + 2);
    NameEndAt(text, p + 2, name);
    AtSlice(text, p + 2, name);
    assert [] + text[p + 2..p + 2 + |name|] == name;
    CStringOfPlain(name);
  }

  /** A space after the name of an end-tag, as in `</a >`, makes the read fail. */
  lemma EndTagRefusesSpace(text: seq<char>, p: nat, name: string)
    requires PlainName(name) && |name| < BufferLength
    requires At(text, p, ['<', '/'] + (name + [' ']))
    ensures ReadTagSpec(text, p).0.None?
  {
    AtSplit(text, p, ['<', '/'], name + [' ']);
    AtSplit(text, p + 2, name, [' ']);
    AtChar(text, p + 2 + |name|, ' ');
    assert TagHead(text, p) == (Some('/'), p + 2);
    NameEndAt(text, p + 2, name);
  }

  /** A name of `BufferLength` characters or more makes the read fail. */
  lemma LongNameRefused(text: seq<char>, p: nat, name: string)
    requires |name| >= BufferLength && forall i :: 0 <= i < |name| ==> !IsNameEnd(name[i])
    requires At(text, p, ['<'] + name)
    ensures ReadTagSpec(text, p).0.None?
  {
    AtSplit(text, p, ['<'], name);
    assert text[p + 1] == name[0] && At(text, p + 2, name[1..]);
    assert TagHead(text, p) == (Some(name[0]), p + 2);
    AtSlice(text, p + 2, name[1..]);
    forall j | p + 2 <= j < p + 1 + |name|
      ensures !IsNameEnd(text[j])
    {
      assert text[j] == name[1..][j - p - 2];
    }
    NameEndBeyond(text, p + 2, p + 1 + |name|);
  }

  /** The same holds for an end-tag: `</` followed by 200 or more name characters fails. */
  lemma LongEndNameRefused(text: seq<char>, p: nat, name: string)
    requires |name| >= BufferLength && forall i :: 0 <= i < |name| ==> !IsNameEnd(name[i])
    requires At(text, p, ['<', '/'] + name)
    ensures ReadTagSpec(text, p).0.None?
  {
    AtSplit(text, p, ['<', '/'], name);
    assert TagHead(text, p) == (Some('/'), p + 2);
    AtSlice(text, p + 2, name);
    forall j | p + 2 <= j < p + 2 + |name|
      ensures !IsNameEnd(text[j])
    {
      assert text[j] == name[j - p - 2];
    }
    NameEndBeyond(text, p + 2, p + 2 + |name|);
  }

  /** A `/` after the name of a start-tag that is not followed by `>`, as in `<a/x`, makes the read fail. */
  lemma SlashWithoutCloseRefused(text: seq<char>, p: nat, name: string, c: char)
    requires name != [] && PlainName(name) && |name| < BufferLength && c != '>'
    requires At(text, p, ['<'] + (name + ['/', c]))
    ensures ReadTagSpec(text, p).0.None?
  {
    AtSplit(text, p, ['<'], name + ['/', c]);
    AtSplit(text, p + 1, name, ['/', c]);
    var q := p + 1 + |name|;
    assert text[q] == '/' && text[q + 1] == c;
    WrittenNameLayout(text, p, name);
    ReadTagOpened(text, p, name[0], q);
  }

  /** A `/` after the name of an end-tag, as in `</a/>`, makes the read fail. */
  lemma EndTagRefusesSlash(text: seq<char>, p: nat, name: string)
    requires PlainName(name) && |name| < BufferLength
    requires At(text, p, ['<', '/'] + (name + ['/']))
    ensures ReadTagSpec(text, p).0.None?
  {
    AtSplit(text, p, ['<', '/'], name + ['/']);
    AtSplit(text, p + 2, name, ['/']);
    AtChar(text, p + 2 + |name|, '/');
    assert TagHead(text, p) == (Some('/'), p + 2);
    NameEndAt(text, p + 2, name);
  }

  /** A start-tag whose name runs up to the end of the text, as in `<a`, makes the read fail. */
  lemma NameAtEofRefused(text: seq<char>, p: nat, name: string)
    requires name != [] && PlainName(name) && |name| < BufferLength
    requires At(text, p, ['<'] + name) && p + 1 + |name| == |text|
    ensures ReadTagSpec(text, p).0.None?
  {
    AtSplit(text, p, ['<'], name);
    assert text[p + 1] == name[0] && At(text, p + 2, name[1..]);
    assert !IsNameEnd(name[0]);
    assert TagHead(text, p) == (Some(name[0]), p + 2);
    forall i | 0 <= i < |name[1..]|
      ensures !IsNameEnd(name[1..][i])
    {
      assert name[1..][i] == name[i + 1];
    }
    NameEndAt(text, p + 2, name[1..]);
    ReadTagOpened(text, p, name[0], |text|);
  }

  /**
   * The character after `<` starts the name whatever it is (a `/` apart), so
   * `<` `c` `>` reads as an OPENING tag named `c`; `<>>` is the tag named `>`.
   */
  lemma FirstCharStartsName(text: seq<char>, p: nat, c: char)
    requires c != '/' && c != '\0'
    requires At(text, p, ['<', c, '>'])
    ensures ReadTagSpec(text, p) == (Some(TagValue([c], None, Opening)), p + 3)
  {
    AtSplit(text, p, ['<'], [c, '>']);
    AtSplit(text, p + 1, [c], ['>']);
    AtChar(text, p, '<');
    AtChar(text, p + 1, c);
    AtChar(text, p + 2, '>');
    assert TagHead(text, p) == (Some(c), p + 2);
    NameEndAt(text, p + 2, []);
    ReadTagOpened(text, p, c, p + 2);
    assert [c] + text[p + 2..p + 2] == [c];
    CStringOfPlain([c]);
  }
}
