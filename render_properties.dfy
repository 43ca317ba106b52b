/** What rendering promises: the exact attribute and markup strings, the order
    in which a node's guards are checked, and which error a tree raises. */
module RenderProperties {
  import opened Wrappers
  import opened HtmlNode

  // ---------------------------------------------------------------------
  // Construction

  /** LeafNode and ParentNode both initialise through the base constructor:
      a leaf passes None for children and a parent passes None for value. */
  lemma SubclassesInitialiseThroughBase(t: Option<string>, v: Option<string>, c: Children, p: Option<Props>)
    ensures FieldsOf(Leaf(t, v, p)) == FieldsOf(Base(t, v, NoList, p))
    ensures FieldsOf(Parent(t, c, p)) == FieldsOf(Base(t, None, c, p))
  {
  }

  // ---------------------------------------------------------------------
  // Attributes

  /** Splitting the entries splits the rendered string at the same place. */
  lemma {:induction false} AttrsAppend(a: Props, b: Props)
    ensures AttrsOf(a + b) == AttrsOf(a) + AttrsOf(b)
    decreases |b|
  {
    if b == [] {
      assert a + b == a;
    } else {
      var init, last := b[..|b| - 1], b[|b| - 1];
      assert (a + b)[..|a + b| - 1] == a + init;
      assert (a + b)[|a + b| - 1] == last;
      calc {
        AttrsOf(a + b);
        AttrsOf(a + init) + Attr(last.0, last.1);
        { AttrsAppend(a, init); }
        AttrsOf(a) + AttrsOf(init) + Attr(last.0, last.1);
        AttrsOf(a) + (AttrsOf(init) + Attr(last.0, last.1));
        AttrsOf(a) + AttrsOf(b);
      }
    }
  }

  /** The first entry in insertion order comes first, as ` k="v"`, and the
      rest follow with nothing in between. */
  lemma PropsStringFirstEntry(k: string, v: string, ps: Props)
    ensures PropsString(Some([(k, v)] + ps)) == " " + k + "=\"" + v + "\"" + PropsString(Some(ps))
  {
    AttrsAppend([(k, v)], ps);
    PropsStringSingle(k, v);
  }

  /** A mapping with a single entry renders with one leading space and no
      trailing space. */
  lemma PropsStringSingle(k: string, v: string)
    ensures PropsString(Some([(k, v)])) == " " + k + "=\"" + v + "\""
  {
  }

  /** The two-entry mapping of the attribute test. */
  lemma PropsStringLinkExample()
    ensures PropsString(Some([("href", "https://www.google.com"), ("target", "_blank")]))
         == " href=\"https://www.google.com\" target=\"_blank\""
  {
    var url := "https://www.google.com";
    assert [("href", url), ("target", "_blank")] == [("href", url)] + [("target", "_blank")];
    PropsStringFirstEntry("href", url, [("target", "_blank")]);
    PropsStringSingle("target", "_blank");
    LinkExampleText(url);
  }

  /** The attribute text of the example, assembled piece by piece. This helper
      says nothing about the model: it is here only because the solver cannot
      equate the concatenated literals in one step. */
  lemma LinkExampleText(url: string)
    requires url == "https://www.google.com"
    ensures " " + "href" + "=\"" + url + "\"" + (" " + "target" + "=\"" + "_blank" + "\"")
         == " href=\"https://www.google.com\" target=\"_blank\""
  {
    assert " " + "href" + "=\"" == " href=\"";
    assert " href=\"" + url == " href=\"https://www.google.com";
    assert " href=\"https://www.google.com" + "\"" == " href=\"https://www.google.com\"";
    assert " " + "target" + "=\"" + "_blank" + "\"" == " target=\"_blank\"";
  }

  // ---------------------------------------------------------------------
  // The three classes on their own

  /** The opening tag, the inner text and the closing tag written out as one
      string. (Solver aid: it regroups the concatenation so that the lemmas
      below can state the output in the source's own left-to-right form.) */
  lemma TagsAround(t: string, p: Option<Props>, inner: string)
    ensures OpenTag(t, p) + inner + CloseTag(t) == "<" + t + PropsString(p) + ">" + inner + "</" + t + ">"
  {
  }

  /** A bare node never renders, whatever its attributes. */
  lemma BaseNeverRenders(t: Option<string>, v: Option<string>, c: Children, p: Option<Props>)
    ensures Render(Base(t, v, c, p)) == Failure(NotImplementedError)
  {
  }

  /** A leaf: a missing value fails before the tag is looked at; without a tag
      the value is the whole output and the props are ignored; with one the
      value is wrapped in the opening and closing tag. */
  lemma LeafRendering(t: Option<string>, v: Option<string>, p: Option<Props>)
    ensures v.None? ==> Render(Leaf(t, v, p)) == Failure(ValueError(LeafValueMessage))
    ensures v.Some? && t.None? ==> Render(Leaf(t, v, p)) == Success(v.value)
    ensures v.Some? && t.Some? ==>
      Render(Leaf(t, v, p)) == Success("<" + t.value + PropsString(p) + ">" + v.value + "</" + t.value + ">")
  {
    if v.Some? && t.Some? {
      TagsAround(t.value, p, v.value);
    }
  }

  /** A tagged leaf without attributes renders as `<t>v</t>`. */
  lemma LeafWithoutProps(t: string, v: string)
    ensures Render(Leaf(Some(t), Some(v), None)) == Success("<" + t + ">" + v + "</" + t + ">")
  {
    TagsAround(t, None, v);
    assert "<" + t + "" == "<" + t;
  }

  /** A parent's guards, in the order they run: the tag, then len() of the
      children (which fails on None), then emptiness; none of them looks inside
      a child. */
  lemma ParentGuards(t: Option<string>, c: Children, p: Option<Props>)
    ensures t.None? ==> Render(Parent(t, c, p)) == Failure(ValueError(ParentTagMessage))
    ensures t.Some? && c.NoList? ==> Render(Parent(t, c, p)) == Failure(TypeError(LenOfNoneMessage))
    ensures t.Some? && c == List([]) ==> Render(Parent(t, c, p)) == Failure(ValueError(ParentChildrenMessage))
  {
  }

  // ---------------------------------------------------------------------
  // Children, in order

  /** "".join of strings already computed. */
  function Join(ss: seq<string>): string
  {
    if ss == [] then "" else ss[0] + Join(ss[1..])
  }

  /** When every child renders, the join is their outputs in list order. */
  lemma {:induction false} RenderChildrenJoins(cs: seq<Node>, outs: seq<string>)
    requires |outs| == |cs|
    requires forall i :: 0 <= i < |cs| ==> Render(cs[i]) == Success(outs[i])
    ensures RenderChildren(cs) == Success(Join(outs))
    decreases cs
  {
    if cs != [] {
      assert Render(cs[0]) == Success(outs[0]);
      RenderChildrenJoins(cs[1..], outs[1..]);
    }
  }

  /** When child k is the first to fail, the join fails with its error. */
  lemma {:induction false} RenderChildrenFirstFailure(cs: seq<Node>, k: nat)
    requires k < |cs|
    requires forall i :: 0 <= i < k ==> Render(cs[i]).Success?
    requires Render(cs[k]).Failure?
    ensures RenderChildren(cs) == Failure(Render(cs[k]).error)
    decreases k
  {
    if k > 0 {
      assert Render(cs[0]).Success?;
      RenderChildrenFirstFailure(cs[1..], k - 1);
    }
  }

  /** A parent whose children all render: its opening tag with attributes,
      each child's output in list order, then its closing tag. */
  lemma ParentRendersChildrenInOrder(t: string, cs: seq<Node>, p: Option<Props>, outs: seq<string>)
    requires cs != [] && |outs| == |cs|
    requires forall i :: 0 <= i < |cs| ==> Render(cs[i]) == Success(outs[i])
    ensures Render(Parent(Some(t), List(cs), p))
         == Success("<" + t + PropsString(p) + ">" + Join(outs) + "</" + t + ">")
  {
    RenderChildrenJoins(cs, outs);
    TagsAround(t, p, Join(outs));
  }

  /** A tagged parent with children fails with the error of the first failing
      child in list order. (When no child fails it renders, by
      ParentRendersChildrenInOrder.) */
  lemma ParentFailsWithFirstFailingChild(t: string, cs: seq<Node>, p: Option<Props>, k: nat)
    requires k < |cs|
    requires forall i :: 0 <= i < k ==> Render(cs[i]).Success?
    requires Render(cs[k]).Failure?
    ensures Render(Parent(Some(t), List(cs), p)) == Failure(Render(cs[k]).error)
  {
    RenderChildrenFirstFailure(cs, k);
  }

  /** The inner two levels of the nesting example: span > b around "x". */
  lemma SpanAroundBold()
    ensures Render(Parent(Some("span"), List([Leaf(Some("b"), Some("x"), None)]), None))
         == Success("<span><b>x</b></span>")
  {
    var b := Leaf(Some("b"), Some("x"), None);
    LeafWithoutProps("b", "x");
    // The asserts on literals below only help the solver: it equates
    // concatenated string literals one short piece at a time.
    assert "<" + "b" + ">" + "x" + "</" + "b" + ">" == "<b>x</b>";
    ParentRendersChildrenInOrder("span", [b], None, ["<b>x</b>"]);
    assert Join(["<b>x</b>"]) == "<b>x</b>" + "";
    WrapText("span", "<b>x</b>");
    assert "<" + "span" + ">" == "<span>";
    assert "<span>" + "<b>x</b>" == "<span><b>x</b>";
    assert "<span><b>x</b>" + "</" == "<span><b>x</b></";
    assert "<span><b>x</b></" + "span" == "<span><b>x</b></span";
    assert "<span><b>x</b></span" + ">" == "<span><b>x</b></span>";
  }

  /** Tags nest in document order: div > span > b around "x". */
  lemma NestingExample()
    ensures Render(Parent(Some("div"), List([Parent(Some("span"), List([Leaf(Some("b"), Some("x"), None)]), None)]), None))
         == Success("<div><span><b>x</b></span></div>")
  {
    var span := Parent(Some("span"), List([Leaf(Some("b"), Some("x"), None)]), None);
    SpanAroundBold();
    // As in SpanAroundBold, the literal asserts only help the solver.
    ParentRendersChildrenInOrder("div", [span], None, ["<span><b>x</b></span>"]);
    assert Join(["<span><b>x</b></span>"]) == "<span><b>x</b></span>" + "";
    WrapText("div", "<span><b>x</b></span>");
    assert "<" + "div" + ">" == "<div>";
    assert "<div>" + "<span><b>x</b></span>" == "<div><span><b>x</b></span>";
    assert "<div><span><b>x</b></span>" + "</" == "<div><span><b>x</b></span></";
    assert "<div><span><b>x</b></span></" + "div" == "<div><span><b>x</b></span></div";
    assert "<div><span><b>x</b></span></div" + ">" == "<div><span><b>x</b></span></div>";
  }

  /** An attribute-less element around some text, as one string. (Solver aid
      for the two examples above: it drops the empty attribute text and the
      empty tail of the join.) */
  lemma WrapText(t: string, inner: string)
    ensures "<" + t + "" + ">" + (inner + "") + "</" + t + ">" == "<" + t + ">" + inner + "</" + t + ">"
  {
  }

  // ---------------------------------------------------------------------
  // Which error a tree raises: the first faulty node in document order

  /** The nodes of a tree in document (pre-)order: a node, then, for a parent
      with a children list, the nodes under each child in list order. */
  function Preorder(n: Node): (r: seq<Node>)
    ensures |r| >= 1 && r[0] == n
    decreases n
  {
    match n
    case Parent(_, List(cs), _) => [n] + PreorderAll(cs)
    case _ => [n]
  }

  function PreorderAll(cs: seq<Node>): seq<Node>
    decreases cs
  {
    if cs == [] then [] else Preorder(cs[0]) + PreorderAll(cs[1..])
  }

  /** The error a node raises on its own, before any child is rendered. */
  function LocalError(n: Node): (r: Option<Error>)
    ensures n.Base? ==> r.Some?
    ensures n.Leaf? ==> (r.Some? <==> n.value.None?)
    ensures n.Parent? ==> (r.Some? <==> n.tag.None? || n.children.NoList? || n.children == List([]))
  {
    match n
    case Base(_, _, _, _) => Some(NotImplementedError)
    case Leaf(_, v, _) =>
      if v.None? then Some(ValueError(LeafValueMessage)) else None
    case Parent(t, c, _) =>
      if t.None? then Some(ValueError(ParentTagMessage))
      else if c.NoList? then Some(TypeError(LenOfNoneMessage))
      else if c.nodes == [] then Some(ValueError(ParentChildrenMessage))
      else None
  }

  /** The local error of the first faulty node in the list. */
  function FirstError(ns: seq<Node>): Option<Error>
  {
    if ns == [] then None
    else if LocalError(ns[0]).Some? then LocalError(ns[0])
    else FirstError(ns[1..])
  }

  lemma {:induction false} FirstErrorAppend(a: seq<Node>, b: seq<Node>)
    ensures FirstError(a + b) == if FirstError(a).Some? then FirstError(a) else FirstError(b)
    decreases a
  {
    if a != [] {
      assert (a + b)[0] == a[0];
      assert (a + b)[1..] == a[1..] + b;
      if LocalError(a[0]).None? {
        calc {
          FirstError(a + b);
          FirstError(a[1..] + b);
          { FirstErrorAppend(a[1..], b); }
          if FirstError(a[1..]).Some? then FirstError(a[1..]) else FirstError(b);
        }
      }
    } else {
      assert a + b == b;
    }
  }

  lemma {:induction false} FirstErrorNoneIff(ns: seq<Node>)
    ensures FirstError(ns).None? <==> forall m :: m in ns ==> LocalError(m).None?
    decreases ns
  {
    if ns != [] {
      FirstErrorNoneIff(ns[1..]);
      assert ns == [ns[0]] + ns[1..];
    }
  }

  /** Rendering raises exactly the local error of the first faulty node in
      document order, and succeeds when there is none. */
  lemma {:induction false} RenderErrorIsFirstInPreorder(n: Node)
    ensures FailureOf(Render(n)) == FirstError(Preorder(n))
    decreases n
  {
    match n
    case Base(_, _, _, _) =>
    case Leaf(_, _, _) =>
    case Parent(t, c, p) =>
      if t.Some? && c.List? && c.nodes != [] {
        assert Preorder(n) == [n] + PreorderAll(c.nodes);
        assert ([n] + PreorderAll(c.nodes))[1..] == PreorderAll(c.nodes);
        ChildrenErrorIsFirstInPreorder(c.nodes);
      }
  }

  lemma {:induction false} ChildrenErrorIsFirstInPreorder(cs: seq<Node>)
    ensures FailureOf(RenderChildren(cs)) == FirstError(PreorderAll(cs))
    decreases cs
  {
    if cs != [] {
      RenderErrorIsFirstInPreorder(cs[0]);
      ChildrenErrorIsFirstInPreorder(cs[1..]);
      FirstErrorAppend(Preorder(cs[0]), PreorderAll(cs[1..]));
    }
  }

  /** A tree renders if and only if none of its nodes is faulty on its own:
      no bare node, no leaf without a value, no parent without a tag or with
      None or an empty children list. */
  lemma RenderSucceedsIffNoFaultyNode(n: Node)
    ensures Render(n).Success? <==> forall m :: m in Preorder(n) ==> LocalError(m).None?
  {
    RenderErrorIsFirstInPreorder(n);
    FirstErrorNoneIff(Preorder(n));
  }

  /** Every listed child is among the nodes of the list. */
  lemma {:induction false} ChildInPreorderAll(cs: seq<Node>, i: nat)
    requires i < |cs|
    ensures cs[i] in PreorderAll(cs)
    decreases i
  {
    if i == 0 {
      assert PreorderAll(cs)[0] == Preorder(cs[0])[0];
    } else {
      ChildInPreorderAll(cs[1..], i - 1);
    }
  }

  /** A bare node anywhere among a parent's children makes the parent fail. */
  lemma BaseChildSpoilsParent(t: Option<string>, cs: seq<Node>, p: Option<Props>, i: nat)
    requires i < |cs| && cs[i].Base?
    ensures Render(Parent(t, List(cs), p)).Failure?
  {
    var n := Parent(t, List(cs), p);
    ChildInPreorderAll(cs, i);
    assert cs[i] in Preorder(n);
    RenderSucceedsIffNoFaultyNode(n);
  }
}
