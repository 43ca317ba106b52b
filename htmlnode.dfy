/** The markup-node hierarchy: a bare node that cannot render, a leaf that
    holds text, and a parent that holds an ordered list of children, each
    rendered to a markup string together with its attributes. */
module HtmlNode {
  import opened Wrappers

  /** An attribute mapping as its entries in insertion order (a dict's items()). */
  type Props = seq<(string, string)>

  /** The three node classes. Every instance carries a tag, a value, a children
      list and a props mapping, each possibly None; LeafNode's constructor fixes
      children to None and ParentNode's fixes value to None, so those two
      shapes do not carry the field at all. */
  datatype Node =
    | Base(tag: Option<string>, value: Option<string>, children: Children, props: Option<Props>)
    | Leaf(tag: Option<string>, value: Option<string>, props: Option<Props>)
    | Parent(tag: Option<string>, children: Children, props: Option<Props>)

  /** A children attribute: None, or a list of nodes. (Kept apart from Option
      so that Dafny sees each listed node as smaller than its parent.) */
  datatype Children = NoList | List(nodes: seq<Node>)

  /** The four attributes an instance holds once its constructor has run. */
  datatype Fields = Fields(tag: Option<string>, value: Option<string>, children: Children, props: Option<Props>)

  function FieldsOf(n: Node): (f: Fields)
    ensures f.tag == n.tag && f.props == n.props
    ensures n.Leaf? ==> f.children.NoList? && f.value == n.value
    ensures n.Parent? ==> f.value.None? && f.children == n.children
    ensures n.Base? ==> f.value == n.value && f.children == n.children
  {
    match n
    case Base(t, v, c, p) => Fields(t, v, c, p)
    case Leaf(t, v, p) => Fields(t, v, NoList, p)
    case Parent(t, c, p) => Fields(t, None, c, p)
  }

  /** The exceptions rendering raises: Python's exception class and message. */
  datatype Error =
    | NotImplementedError
    | ValueError(message: string)
    | TypeError(message: string)

  const LeafValueMessage: string := "All leaf nodes must have a value."
  const ParentTagMessage: string := "Parent Nodes must have a tag"
  const ParentChildrenMessage: string := "Parent Nodes must have children"
  /** The message the interpreter gives when len() is applied to None. */
  const LenOfNoneMessage: string := "object of type 'NoneType' has no len()"

  /** One attribute entry as it appears inside an opening tag. */
  function Attr(k: string, v: string): string
  {
    " " + k + "=\"" + v + "\""
  }

  /** The entries rendered one after another in order; each brings its own
      leading space and nothing separates or follows them. */
  function AttrsOf(ps: Props): (r: string)
    ensures r == "" <==> ps == []
    ensures ps != [] ==> r[0] == ' ' && r[|r| - 1] == '"'
    decreases |ps|
  {
    if ps == [] then ""
    else AttrsOf(ps[..|ps| - 1]) + Attr(ps[|ps| - 1].0, ps[|ps| - 1].1)
  }

  /** What props_to_html computes: nothing for a missing or empty mapping. */
  function PropsString(props: Option<Props>): (r: string)
    ensures r == "" <==> props.None? || props == Some([])
  {
    match props
    case None => ""
    case Some(ps) => AttrsOf(ps)
  }

  /** HTMLNode.props_to_html: accumulates the entries into a local string. */
  method PropsToHtml(n: Node) returns (html: string)
    ensures html == PropsString(n.props)
  {
    if n.props.Some? && n.props.value != [] {
      var ps := n.props.value;
      var result := "";
      for i := 0 to |ps|
        invariant result == AttrsOf(ps[..i])
      {
        var (k, v) := ps[i];
        result := result + " " + k + "=\"" + v + "\"";
        assert ps[..i + 1][..i] == ps[..i];
      }
      assert ps[..|ps|] == ps;
      return result;
    }
    return "";
  }

  function OpenTag(t: string, props: Option<Props>): string
  {
    "<" + t + PropsString(props) + ">"
  }

  function CloseTag(t: string): string
  {
    "</" + t + ">"
  }

  /** to_html of the three classes, dispatched on the node's class. */
  function Render(n: Node): (r: Result<string, Error>)
    decreases n
  {
    match n
    case Base(_, _, _, _) =>
      Failure(NotImplementedError)
    case Leaf(t, v, p) =>
      if v.None? then Failure(ValueError(LeafValueMessage))
      else if t.None? then Success(v.value)
      else Success(OpenTag(t.value, p) + v.value + CloseTag(t.value))
    case Parent(t, c, p) =>
      if t.None? then Failure(ValueError(ParentTagMessage))
      // the length test runs first, so a None list fails inside len()
      // and the `is None` test after it is never reached
      else if c.NoList? then Failure(TypeError(LenOfNoneMessage))
      else if |c.nodes| == 0 then Failure(ValueError(ParentChildrenMessage))
      else
        match RenderChildren(c.nodes)
        case Failure(e) => Failure(e)
        case Success(inner) => Success(OpenTag(t.value, p) + inner + CloseTag(t.value))
  }

  /** "".join(child.to_html() for child in children): left to right, and the
      first child that raises ends the join with its exception. */
  function RenderChildren(cs: seq<Node>): (r: Result<string, Error>)
    decreases cs
  {
    if cs == [] then Success("")
    else
      match Render(cs[0])
      case Failure(e) => Failure(e)
      case Success(head) =>
        match RenderChildren(cs[1..])
        case Failure(e) => Failure(e)
        case Success(tail) => Success(head + tail)
  }

  /** The exception a rendering raised, if any. */
  function FailureOf(r: Result<string, Error>): Option<Error>
  {
    match r
    case Success(_) => None
    case Failure(e) => Some(e)
  }
}
