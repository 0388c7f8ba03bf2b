/**
 * Written documents and what `parseXMLFile` makes of them: an element
 * without children written as `<name attrs/>`, any other as `<name attrs>`,
 * its children and `</name>`, with no text in between, parses back to the
 * tree of that element.
 */
module Documents {
  import opened Wrappers
  import opened Attributes
  import opened Stream
  import opened Tags
  import opened Nodes
  import opened Trees
  import opened Parsing

  /** An element as a writer produces it: a name, its attributes in order and its child elements. */
  datatype Doc = Doc(name: string, attrs: seq<(string, string)>, children: seq<Doc>)

  /** The text of an element. */
  function DocText(d: Doc): string
    decreases d
  {
    if |d.children| == 0 then TagText(d.name, d.attrs, true)
    else TagText(d.name, d.attrs, false) + ForestText(d.children) + EndTagText(d.name)
  }

  /** The texts of elements, one after the other. */
  function ForestText(ds: seq<Doc>): string
    decreases ds
  {
    if |ds| == 0 then [] else DocText(ds[0]) + ForestText(ds[1..])
  }

  /** The attribute chain holding `attrs` in order. */
  function Chain(attrs: seq<(string, string)>): (a: Option<Attribute>)
    ensures Pairs(a) == AsPairs(attrs)
  {
    if |attrs| == 0 then None
    else Some(Attribute(Some(attrs[0].0), Some(attrs[0].1), Chain(attrs[1..])))
  }

  /** The tree an element stands for: no values, attributes in document order. */
  function TreeOfDoc(d: Doc): (t: Tree)
    decreases d
  {
    Element(Some(d.name), None, Chain(d.attrs), TreesOfDocs(d.children))
  }

  /** The trees of elements. */
  function TreesOfDocs(ds: seq<Doc>): (ts: seq<Tree>)
    ensures |ts| == |ds|
    decreases ds
  {
    if |ds| == 0 then [] else [TreeOfDoc(ds[0])] + TreesOfDocs(ds[1..])
  }

  /**
   * Elements whose text reads back unchanged: every name non-empty, plain,
   * shorter than `BufferLength` and not starting with `<` (which the tag
   * reader would skip), and plain attributes.
   */
  predicate Good(d: Doc)
    decreases d
  {
    |d.name| > 0 && PlainName(d.name) && |d.name| < BufferLength && d.name[0] != '<' &&
    PlainAttrs(d.attrs) &&
    forall i :: 0 <= i < |d.children| ==> Good(d.children[i])
  }

  /** Two attribute chains with the same pairs are the same chain. */
  lemma {:induction false} PairsInjective(a: Option<Attribute>, b: Option<Attribute>)
    requires Pairs(a) == Pairs(b)
    ensures a == b
    decreases a
  {
    if a.Some? {
      assert Pairs(a)[0] == Pairs(b)[0];
      assert Pairs(a.value.next) == Pairs(a)[1..] == Pairs(b)[1..] == Pairs(b.value.next);
      PairsInjective(a.value.next, b.value.next);
    }
  }

  /** The element opened for a written tag carries the written attributes in order. */
  lemma OpenedChain(t: TagValue, attrs: seq<(string, string)>)
    requires Pairs(t.attr) == Reversed(AsPairs(attrs))
    ensures Opened(t).attr == Chain(attrs)
  {
    ReversedTwice(AsPairs(attrs));
    PairsInjective(Opened(t).attr, Chain(attrs));
  }

  /** The `<` in front of a tag is consumed by the value read before it. */
  lemma ValueBeforeTag(text: seq<char>, p: nat)
    requires p < |text| && text[p] == '<'
    ensures ReadValueSpec(text, p) == (None, p + 1)
  {
  }

  /** Reading a tag just after its `<` is reading it at the `<`, unless another `<` follows. */
  lemma TagAfterLt(text: seq<char>, p: nat)
    requires p + 1 < |text| && text[p] == '<' && text[p + 1] != '<'
    ensures ReadTagSpec(text, p + 1) == ReadTagSpec(text, p)
  {
    assert TagHead(text, p + 1) == TagHead(text, p);
  }

  /** The stack with `ts` added to the children its innermost element has finished. */
  function Extend(stack: seq<Frame>, ts: seq<Tree>): (s: seq<Frame>)
    requires |stack| > 0
    ensures |s| == |stack|
  {
    stack[..|stack| - 1] + [stack[|stack| - 1].(done := stack[|stack| - 1].done + ts)]
  }

  /** A written tag that the parse loop meets: value read, then the tag read after its `<`. */
  lemma LoopTag(text: seq<char>, p: nat, name: string, attrs: seq<(string, string)>, empty: bool)
    requires |name| > 0 && PlainName(name) && |name| < BufferLength && name[0] != '<' && PlainAttrs(attrs)
    requires At(text, p, TagText(name, attrs, empty))
    ensures p + |TagText(name, attrs, empty)| <= |text|
    ensures ReadValueSpec(text, p) == (None, p + 1)
    ensures ReadTagSpec(text, p + 1) == ReadTagSpec(text, p)
  {
    AtSplit(text, p, ['<'], name + (AttrsText(attrs) + (if empty then ['/', '>'] else ['>'])));
    AtSplit(text, p + 1, name, AttrsText(attrs) + (if empty then ['/', '>'] else ['>']));
    AtSlice(text, p, TagText(name, attrs, empty));
    AtSlice(text, p + 1, name);
    assert text[p + 1] == name[0];
    ValueBeforeTag(text, p);
    TagAfterLt(text, p);
  }

  /**
   * A written end-tag, ending at `e`, that the parse loop meets: value read,
   * then the end-tag read after its `<`.
   */
  lemma LoopEndTag(text: seq<char>, p: nat, e: nat, name: string)
    requires PlainName(name) && |name| < BufferLength && At(text, p, EndTagText(name)) && e == p + |name| + 3
    ensures e <= |text|
    ensures ReadValueSpec(text, p) == (None, p + 1)
    ensures ReadTagSpec(text, p + 1) == (Some(TagValue(name, None, Closing)), e)
  {
    AtSlice(text, p, EndTagText(name));
    assert text[p] == '<' && text[p + 1] == '/';
    ValueBeforeTag(text, p);
    TagAfterLt(text, p);
    ReadWrittenEndTag(text, p, name);
  }

  /**
   * The text of an element with children, split into its start-tag, its
   * children from `p2` and its end-tag from `p3`.
   */
  lemma DocLayout(text: seq<char>, p: nat, p2: nat, p3: nat, d: Doc)
    requires |d.children| > 0 && At(text, p, DocText(d))
    requires p2 == p + |TagText(d.name, d.attrs, false)| && p3 == p2 + |ForestText(d.children)|
    ensures At(text, p, TagText(d.name, d.attrs, false))
    ensures At(text, p2, ForestText(d.children))
    ensures At(text, p3, EndTagText(d.name))
    ensures p + |DocText(d)| == p3 + |d.name| + 3
  {
    var a, b, c := TagText(d.name, d.attrs, false), ForestText(d.children), EndTagText(d.name);
    AtSplit(text, p, a + b, c);
    AtSplit(text, p, a, b);
  }

  /** A loop pass that meets a start-tag opens an element. */
  lemma OpenStep(text: seq<char>, p: nat, stack: seq<Frame>, t: TagValue, p2: nat)
    requires p < |text| && |stack| > 0 && ReadValueSpec(text, p) == (None, p + 1)
    requires ReadTagSpec(text, p + 1) == (Some(t), p2) && t.kind == Opening
    ensures ParseFrom(text, p, stack) == ParseFrom(text, p2, stack + [Opened(t)])
  {
    assert WithValue(stack, None) == stack;
  }

  /** A loop pass that meets an empty-element tag adds a finished child. */
  lemma UniqueStep(text: seq<char>, p: nat, stack: seq<Frame>, t: TagValue, p2: nat)
    requires p < |text| && |stack| > 0 && ReadValueSpec(text, p) == (None, p + 1)
    requires ReadTagSpec(text, p + 1) == (Some(t), p2) && t.kind == Unique
    ensures ParseFrom(text, p, stack) == ParseFrom(text, p2, AddDone(stack, Closed(Opened(t))))
  {
    assert WithValue(stack, None) == stack;
  }

  /** A loop pass that meets an end-tag inside the root closes the innermost element. */
  lemma CloseStep(text: seq<char>, p: nat, stack: seq<Frame>, t: TagValue, p2: nat)
    requires p < |text| && |stack| >= 2 && ReadValueSpec(text, p) == (None, p + 1)
    requires ReadTagSpec(text, p + 1) == (Some(t), p2) && t.kind == Closing
    ensures ParseFrom(text, p, stack) == ParseFrom(text, p2, Close(stack))
  {
    assert WithValue(stack, None) == stack;
  }

  /** A loop pass that meets an end-tag with only the root open ends the parse. */
  lemma FinalStep(text: seq<char>, p: nat, stack: seq<Frame>, t: TagValue, p2: nat)
    requires p < |text| && |stack| == 1 && ReadValueSpec(text, p) == (None, p + 1)
    requires ReadTagSpec(text, p + 1) == (Some(t), p2) && t.kind == Closing
    ensures ParseFrom(text, p, stack) == (Some(Closed(stack[0])), p2)
  {
    assert WithValue(stack, None) == stack;
  }

  /** A first tag that opens an element starts the parse loop with it. */
  lemma RootStep(text: seq<char>, p: nat, t: TagValue, p2: nat)
    requires p <= |text| && ReadTagSpec(text, p) == (Some(t), p2) && t.kind == Opening
    ensures ParseSpec(text, p) == ParseFrom(text, p2, [Opened(t)])
  {
  }

  /** The element the parser opens for `d`, before any child is finished. */
  function DocFrame(d: Doc): (f: Frame)
    ensures f.name == Some(d.name) && f.value.None? && f.attr == Chain(d.attrs) && |f.done| == 0
  {
    Frame(Some(d.name), None, Chain(d.attrs), [])
  }

  /** The start-tag of a written element, ending at `p2`, read where the document starts. */
  lemma ReadRootTag(text: seq<char>, p: nat, p2: nat, d: Doc) returns (t: TagValue)
    requires Good(d) && At(text, p, TagText(d.name, d.attrs, |d.children| == 0))
    requires p2 == p + |TagText(d.name, d.attrs, |d.children| == 0)|
    ensures ReadTagSpec(text, p) == (Some(t), p2)
    ensures t.kind == (if |d.children| == 0 then Unique else Opening)
    ensures Opened(t) == DocFrame(d)
  {
    ReadWrittenTag(text, p, d.name, d.attrs, |d.children| == 0);
    t := ReadTagSpec(text, p).0.value;
    OpenedChain(t, d.attrs);
  }

  /** The start-tag of a written element, ending at `p2`, read as the parse loop reads it. */
  lemma ReadLoopTag(text: seq<char>, p: nat, p2: nat, d: Doc) returns (t: TagValue)
    requires Good(d) && At(text, p, TagText(d.name, d.attrs, |d.children| == 0))
    requires p2 == p + |TagText(d.name, d.attrs, |d.children| == 0)|
    ensures p < |text| && p2 <= |text| && ReadValueSpec(text, p) == (None, p + 1)
    ensures ReadTagSpec(text, p + 1) == (Some(t), p2)
    ensures t.kind == (if |d.children| == 0 then Unique else Opening)
    ensures Opened(t) == DocFrame(d)
  {
    LoopTag(text, p, d.name, d.attrs, |d.children| == 0);
    t := ReadRootTag(text, p, p2, d);
  }

  /** Inside the parse loop, a written element without children, ending at `e`, is one finished child. */
  lemma LeafParsed(text: seq<char>, p: nat, e: nat, stack: seq<Frame>, d: Doc)
    requires |stack| > 0 && Good(d) && |d.children| == 0 && At(text, p, DocText(d)) && e == p + |DocText(d)|
    ensures e <= |text|
    ensures ParseFrom(text, p, stack) == ParseFrom(text, e, AddDone(stack, TreeOfDoc(d)))
  {
    var t := ReadLoopTag(text, p, e, d);
    UniqueStep(text, p, stack, t, e);
    assert Closed(DocFrame(d)) == TreeOfDoc(d);
  }

  /**
   * Inside the parse loop, the start-tag of a written element with children,
   * ending at `e`, opens it; its children follow from `p2` to `p3`.
   */
  lemma OpenDoc(text: seq<char>, p: nat, e: nat, stack: seq<Frame>, d: Doc) returns (p2: nat, p3: nat)
    requires |stack| > 0 && Good(d) && |d.children| > 0 && At(text, p, DocText(d)) && e == p + |DocText(d)|
    ensures p2 <= |text| && ParseFrom(text, p, stack) == ParseFrom(text, p2, stack + [DocFrame(d)])
    ensures At(text, p2, ForestText(d.children)) && p3 == p2 + |ForestText(d.children)|
    ensures At(text, p3, EndTagText(d.name)) && e == p3 + |d.name| + 3
  {
    p2 := p + |TagText(d.name, d.attrs, false)|;
    p3 := p2 + |ForestText(d.children)|;
    DocLayout(text, p, p2, p3, d);
    var t := ReadLoopTag(text, p, p2, d);
    OpenStep(text, p, stack, t, p2);
  }

  /** Inside the parse loop, the end-tag of a written element whose children are finished closes it. */
  lemma CloseDocAt(text: seq<char>, p3: nat, e: nat, stack: seq<Frame>, d: Doc)
    requires |stack| > 0 && Good(d) && At(text, p3, EndTagText(d.name)) && e == p3 + |d.name| + 3
    ensures e <= |text|
    ensures ParseFrom(text, p3, Extend(stack + [DocFrame(d)], TreesOfDocs(d.children)))
      == ParseFrom(text, e, AddDone(stack, TreeOfDoc(d)))
  {
    LoopEndTag(text, p3, e, d.name);
    CloseDoc(stack, d);
    CloseStep(text, p3, Extend(stack + [DocFrame(d)], TreesOfDocs(d.children)),
              TagValue(d.name, None, Closing), e);
  }

  /** Closing the element of `d` once its children are finished gives the tree of `d`. */
  lemma CloseDoc(stack: seq<Frame>, d: Doc)
    requires |stack| > 0
    ensures Close(Extend(stack + [DocFrame(d)], TreesOfDocs(d.children))) == AddDone(stack, TreeOfDoc(d))
  {
    var st := Extend(stack + [DocFrame(d)], TreesOfDocs(d.children));
    assert st[..|st| - 1] == stack;
    assert [] + TreesOfDocs(d.children) == TreesOfDocs(d.children);
  }

  /**
   * Inside the parse loop, a written element ending at `e` is read as one
   * finished child of the innermost open element.
   */
  lemma {:induction false} ChildParsed(text: seq<char>, p: nat, e: nat, stack: seq<Frame>, d: Doc)
    requires |stack| > 0 && Good(d) && At(text, p, DocText(d)) && e == p + |DocText(d)|
    ensures e <= |text|
    ensures ParseFrom(text, p, stack) == ParseFrom(text, e, AddDone(stack, TreeOfDoc(d)))
    decreases d, 2
  {
    if |d.children| == 0 {
      LeafParsed(text, p, e, stack, d);
    } else {
      BranchParsed(text, p, e, stack, d);
    }
  }

  /** `ChildParsed` for an element with children. */
  lemma {:induction false} BranchParsed(text: seq<char>, p: nat, e: nat, stack: seq<Frame>, d: Doc)
    requires |stack| > 0 && Good(d) && |d.children| > 0 && At(text, p, DocText(d)) && e == p + |DocText(d)|
    ensures e <= |text|
    ensures ParseFrom(text, p, stack) == ParseFrom(text, e, AddDone(stack, TreeOfDoc(d)))
    decreases d, 1
  {
    var p2, p3 := OpenDoc(text, p, e, stack, d);
    ForestParsed(text, p2, p3, stack + [DocFrame(d)], d.children);
    CloseDocAt(text, p3, e, stack, d);
  }

  /** Adding one tree and then more is adding them all. */
  lemma ExtendAfterAdd(stack: seq<Frame>, t: Tree, ts: seq<Tree>)
    requires |stack| > 0
    ensures Extend(AddDone(stack, t), ts) == Extend(stack, [t] + ts)
  {
    assert stack[|stack| - 1].done + [t] + ts == stack[|stack| - 1].done + ([t] + ts);
  }

  /** The text of elements, split after the first, whose text ends at `q`. */
  lemma ForestLayout(text: seq<char>, p: nat, q: nat, ds: seq<Doc>)
    requires |ds| > 0 && At(text, p, ForestText(ds)) && q == p + |DocText(ds[0])|
    ensures At(text, p, DocText(ds[0])) && At(text, q, ForestText(ds[1..]))
    ensures |ForestText(ds)| == |DocText(ds[0])| + |ForestText(ds[1..])|
  {
    AtSplit(text, p, DocText(ds[0]), ForestText(ds[1..]));
  }

  /**
   * Inside the parse loop, written elements one after another, ending at
   * `e`, are read as finished children of the innermost open element, in order.
   */
  lemma {:induction false} ForestParsed(text: seq<char>, p: nat, e: nat, stack: seq<Frame>, ds: seq<Doc>)
    requires |stack| > 0 && (forall i :: 0 <= i < |ds| ==> Good(ds[i])) && At(text, p, ForestText(ds))
    requires e == p + |ForestText(ds)|
    ensures e <= |text|
    ensures ParseFrom(text, p, stack) == ParseFrom(text, e, Extend(stack, TreesOfDocs(ds)))
    decreases ds, 0
  {
    if |ds| == 0 {
      AtSlice(text, p, []);
      assert stack[|stack| - 1].done + [] == stack[|stack| - 1].done;
      assert Extend(stack, []) == stack;
    } else {
      var q := p + |DocText(ds[0])|;
      ForestLayout(text, p, q, ds);
      ChildParsed(text, p, q, stack, ds[0]);
      ForestParsed(text, q, e, AddDone(stack, TreeOfDoc(ds[0])), ds[1..]);
      ExtendAfterAdd(stack, TreeOfDoc(ds[0]), TreesOfDocs(ds[1..]));
    }
  }

  /** The start-tag of a written root element with children, ending at `e`, opens the parse loop with it. */
  lemma OpenRoot(text: seq<char>, p: nat, e: nat, d: Doc) returns (p2: nat, p3: nat)
    requires Good(d) && |d.children| > 0 && At(text, p, DocText(d)) && e == p + |DocText(d)|
    ensures p2 <= |text| && ParseSpec(text, p) == ParseFrom(text, p2, [DocFrame(d)])
    ensures At(text, p2, ForestText(d.children)) && p3 == p2 + |ForestText(d.children)|
    ensures At(text, p3, EndTagText(d.name)) && e == p3 + |d.name| + 3
  {
    p2 := p + |TagText(d.name, d.attrs, false)|;
    p3 := p2 + |ForestText(d.children)|;
    DocLayout(text, p, p2, p3, d);
    var t := ReadRootTag(text, p, p2, d);
    RootStep(text, p, t, p2);
  }

  /** The end-tag of the root, once its children are finished, ends the parse at `e` with its tree. */
  lemma CloseRoot(text: seq<char>, p3: nat, e: nat, d: Doc)
    requires Good(d) && At(text, p3, EndTagText(d.name)) && e == p3 + |d.name| + 3
    ensures ParseFrom(text, p3, Extend([DocFrame(d)], TreesOfDocs(d.children))) == (Some(TreeOfDoc(d)), e)
  {
    LoopEndTag(text, p3, e, d.name);
    var st := Extend([DocFrame(d)], TreesOfDocs(d.children));
    FinalStep(text, p3, st, TagValue(d.name, None, Closing), e);
    assert [] + TreesOfDocs(d.children) == TreesOfDocs(d.children);
    assert Closed(st[0]) == TreeOfDoc(d);
  }

  /** A written root element without children, ending at `e`, is the whole document. */
  lemma LeafRoot(text: seq<char>, p: nat, e: nat, d: Doc)
    requires Good(d) && |d.children| == 0 && At(text, p, DocText(d)) && e == p + |DocText(d)|
    ensures ParseSpec(text, p) == (Some(TreeOfDoc(d)), e)
  {
    var t := ReadRootTag(text, p, e, d);
    assert Closed(DocFrame(d)) == TreeOfDoc(d);
  }

  /**
   * `parseXMLFile` on a written document ending at `e` gives back the tree
   * of its root element and stops right after it.
   */
  lemma ParseWritten(text: seq<char>, p: nat, e: nat, d: Doc)
    requires Good(d) && At(text, p, DocText(d)) && e == p + |DocText(d)|
    ensures e <= |text|
    ensures ParseSpec(text, p) == (Some(TreeOfDoc(d)), e)
  {
    if |d.children| == 0 {
      LeafRoot(text, p, e, d);
    } else {
      var p2, p3 := OpenRoot(text, p, e, d);
      ForestParsed(text, p2, p3, [DocFrame(d)], d.children);
      CloseRoot(text, p3, e, d);
    }
  }
}
