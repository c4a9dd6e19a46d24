/** The HTML node tree and its serialiser: the base node (htmlnode.py), the leaf
    node (leafnode.py) and the parent node (parentnode.py). */
module HtmlNodes {
  import opened Wrappers
  import opened Strings

  /** Attributes as name/value pairs in insertion order (a Python dict keeps that order). */
  type Props = seq<(string, string)>

  /** A children list that may be absent; kept apart from Option so that Dafny sees
      every child as smaller than its parent. */
  datatype ChildList = Absent | Present(nodes: seq<Node>)

  /** The three node classes. Html is a bare HTMLNode; Leaf and Parent are the
      subclasses, whose constructors fix children (leaf) or value (parent) to None. */
  datatype Node =
    | Html(tag: Option<string>, value: Option<string>, children: ChildList, props: Option<Props>)
    | Leaf(tag: Option<string>, value: Option<string>, props: Option<Props>)
    | Parent(tag: Option<string>, children: ChildList, props: Option<Props>)

  /** HTMLNode(tag=None, value=None, children=None, props=None). */
  function NewHtmlNode(tag: Option<string> := None, value: Option<string> := None,
                       children: ChildList := Absent, props: Option<Props> := None): (n: Node)
    ensures n.Html? && n.tag == tag && ValueOf(n) == value
    ensures ChildrenOf(n) == children && n.props == props
  {
    Html(tag, value, children, props)
  }

  /** LeafNode(tag, value, props=None): a node with the given tag, value and attributes
      and no children. */
  function NewLeafNode(tag: Option<string>, value: Option<string>, props: Option<Props> := None): (n: Node)
    ensures n.Leaf? && n.tag == tag && ValueOf(n) == value
    ensures ChildrenOf(n) == Absent && n.props == props
  {
    Leaf(tag, value, props)
  }

  /** ParentNode(tag, children, props=None): a node with the given tag, children and
      attributes and no value. */
  function NewParentNode(tag: Option<string>, children: ChildList, props: Option<Props> := None): (n: Node)
    ensures n.Parent? && n.tag == tag && ValueOf(n) == None
    ensures ChildrenOf(n) == children && n.props == props
  {
    Parent(tag, children, props)
  }

  /** The value attribute every node has; a parent's is always None. */
  function ValueOf(n: Node): (v: Option<string>)
    ensures n.Parent? ==> v == None
  {
    match n
    case Html(_, value, _, _) => value
    case Leaf(_, value, _) => value
    case Parent(_, _, _) => None
  }

  /** The children attribute every node has; a leaf's is always None. */
  function ChildrenOf(n: Node): (c: ChildList)
    ensures n.Leaf? ==> c == Absent
  {
    match n
    case Html(_, _, children, _) => children
    case Leaf(_, _, _) => Absent
    case Parent(_, children, _) => children
  }

  /** One attribute as name="value", with nothing escaped. */
  function PropString(p: (string, string)): string
  {
    p.0 + "=\"" + p.1 + "\""
  }

  function PropStrings(ps: Props): (r: seq<string>)
    ensures |r| == |ps|
    ensures forall i :: 0 <= i < |ps| ==> r[i] == PropString(ps[i])
  {
    if ps == [] then [] else [PropString(ps[0])] + PropStrings(ps[1..])
  }

  /** HTMLNode.props_to_html: the attributes joined by single spaces, or "" for None. */
  function PropsToHtml(props: Option<Props>): (r: string)
    ensures r == "" <==> props.None? || props.value == []
  {
    match props
    case None => ""
    case Some(ps) => Join(PropStrings(ps), " ")
  }

  lemma PropsToHtmlEmpty()
    ensures PropsToHtml(None) == ""
    ensures PropsToHtml(Some([])) == ""
  {
  }

  /** A single attribute appears verbatim between the fixed =" and " characters. */
  lemma PropsToHtmlSingle(name: string, val: string)
    ensures PropsToHtml(Some([(name, val)])) == name + "=\"" + val + "\""
  {
  }

  /** Attributes render in insertion order: rendering a + b is rendering a, one space,
      then rendering b. With PropsToHtmlSingle this fixes the output for every list. */
  lemma PropsToHtmlAppend(a: Props, b: Props)
    requires |a| > 0 && |b| > 0
    ensures PropsToHtml(Some(a + b)) == PropsToHtml(Some(a)) + " " + PropsToHtml(Some(b))
  {
    assert PropStrings(a + b) == PropStrings(a) + PropStrings(b);
    JoinAppend(PropStrings(a), PropStrings(b), " ");
  }

  /** LeafNode.to_html. */
  function LeafHtml(tag: Option<string>, value: Option<string>, props: Option<Props>): (r: Result<string>)
    ensures r.Failure? <==> value.None?
    ensures r.Failure? ==> r.error == ValueIsNone
    ensures value.Some? && tag.None? ==> r == Success(value.value)
  {
    if value.None? then Failure(ValueIsNone)
    else if tag.None? then Success(value.value)
    else if props.Some? && props.value != [] then
      Success("<" + tag.value + " " + PropsToHtml(props) + ">" + value.value + "</" + tag.value + ">")
    else
      Success("<" + tag.value + ">" + value.value + "</" + tag.value + ">")
  }

  /** A tagged leaf puts a space before its attributes exactly when it has some, and an
      empty value is as good as any other. */
  lemma LeafHtmlTagged(t: string, v: string, props: Option<Props>)
    ensures props.None? || props == Some([]) ==>
      LeafHtml(Some(t), Some(v), props) == Success("<" + t + ">" + v + "</" + t + ">")
    ensures props.Some? && props.value != [] ==>
      LeafHtml(Some(t), Some(v), props) == Success("<" + t + " " + PropsToHtml(props) + ">" + v + "</" + t + ">")
  {
  }

  /** The errors to_html raises: NotImplementedError of the base class and the three
      ValueErrors of the subclasses. */
  predicate RenderError(e: Error)
  {
    e == NotImplemented || e == ValueIsNone || e == TagIsNone || e == ChildrenIsNone
  }

  /** to_html on any node: the base class always fails, a leaf renders itself, a parent
      checks its tag, then its children, then renders its children in order. */
  function Render(n: Node): (r: Result<string>)
    decreases n
    ensures r.Failure? ==> RenderError(r.error)
    ensures r.Success? ==> n.Leaf? || n.Parent?
  {
    match n
    case Html(_, _, _, _) => Failure(NotImplemented)
    case Leaf(tag, value, props) => LeafHtml(tag, value, props)
    case Parent(None, _, _) => Failure(TagIsNone)
    case Parent(Some(_), Absent, _) => Failure(ChildrenIsNone)
    case Parent(Some(t), Present(cs), props) =>
      var body :- RenderAll(cs);
      Success("<" + t + PropsToHtml(props) + ">" + body + "</" + t + ">")
  }

  /** HTMLNode.to_html: the base class cannot render, whatever its fields hold. */
  lemma BaseToHtmlFails(tag: Option<string>, value: Option<string>, children: ChildList, props: Option<Props>)
    ensures Render(NewHtmlNode(tag, value, children, props)) == Failure(NotImplemented)
  {
  }

  /** The children's renderings concatenated in order; the first failure wins. */
  function RenderAll(cs: seq<Node>): (r: Result<string>)
    decreases cs
    ensures r.Failure? ==> RenderError(r.error)
  {
    if cs == [] then Success("")
    else
      var front :- RenderAll(cs[..|cs| - 1]);
      var last :- Render(cs[|cs| - 1]);
      Success(front + last)
  }

  /** What a node needs to render: no bare HTMLNode anywhere, a value on every leaf,
      and a tag and a children list on every parent, at every depth. */
  predicate Renderable(n: Node)
    decreases n
  {
    match n
    case Html(_, _, _, _) => false
    case Leaf(_, value, _) => value.Some?
    case Parent(tag, Absent, _) => false
    case Parent(tag, Present(cs), _) =>
      tag.Some? && forall i :: 0 <= i < |cs| ==> Renderable(cs[i])
  }

  /** Once a prefix of the children fails, the whole list fails with that error. */
  lemma {:induction false} RenderAllPrefixFailure(cs: seq<Node>, k: nat)
    requires k <= |cs| && RenderAll(cs[..k]).Failure?
    ensures RenderAll(cs) == RenderAll(cs[..k])
    decreases |cs|
  {
    if k == |cs| {
      assert cs[..k] == cs;
    } else {
      var front := cs[..|cs| - 1];
      assert front[..k] == cs[..k];
      RenderAllPrefixFailure(front, k);
    }
  }

  /** The first failing child decides the error of the whole list. */
  lemma RenderAllFirstFailure(cs: seq<Node>, k: nat)
    requires k < |cs| && RenderAll(cs[..k]).Success? && Render(cs[k]).Failure?
    ensures RenderAll(cs) == Failure(Render(cs[k]).error)
  {
    assert cs[..k + 1][..k] == cs[..k];
    RenderAllPrefixFailure(cs, k + 1);
  }

  /** The list renders exactly when every child does. */
  lemma {:induction false} RenderAllSucceeds(cs: seq<Node>)
    ensures RenderAll(cs).Success? <==> forall i :: 0 <= i < |cs| ==> Render(cs[i]).Success?
    decreases |cs|
  {
    if cs != [] {
      var front := cs[..|cs| - 1];
      RenderAllSucceeds(front);
      assert forall i :: 0 <= i < |front| ==> front[i] == cs[i];
    }
  }

  /** The children's renderings, one per child, when all of them succeed. */
  function Renderings(cs: seq<Node>): (r: seq<string>)
    requires forall i :: 0 <= i < |cs| ==> Render(cs[i]).Success?
    ensures |r| == |cs|
    ensures forall i :: 0 <= i < |cs| ==> r[i] == Render(cs[i]).value
  {
    if cs == [] then [] else Renderings(cs[..|cs| - 1]) + [Render(cs[|cs| - 1]).value]
  }

  /** The list's rendering is the concatenation of the children's, in order. */
  lemma {:induction false} RenderAllConcat(cs: seq<Node>)
    requires forall i :: 0 <= i < |cs| ==> Render(cs[i]).Success?
    ensures RenderAll(cs) == Success(Concat(Renderings(cs)))
    decreases |cs|
  {
    if cs != [] {
      var front := cs[..|cs| - 1];
      assert forall i :: 0 <= i < |front| ==> front[i] == cs[i];
      RenderAllConcat(front);
      ConcatSnoc(Renderings(front), Render(cs[|cs| - 1]).value);
    }
  }

  /** A node renders exactly when it is Renderable; in particular a failure in any
      child, at any depth, aborts the whole rendering. */
  lemma {:induction false} RenderSucceeds(n: Node)
    ensures Render(n).Success? <==> Renderable(n)
    decreases n
  {
    match n
    case Html(_, _, _, _) =>
    case Leaf(_, _, _) =>
    case Parent(None, _, _) =>
    case Parent(Some(_), Absent, _) =>
    case Parent(Some(t), Present(cs), props) =>
      forall i | 0 <= i < |cs| ensures Render(cs[i]).Success? <==> Renderable(cs[i]) {
        RenderSucceeds(cs[i]);
      }
      RenderAllSucceeds(cs);
  }

  /** A parent with a tag and children renders as its open tag (attributes straight after
      the tag name), its children's renderings in order, and its close tag. */
  lemma ParentHtml(t: string, cs: seq<Node>, props: Option<Props>)
    requires forall i :: 0 <= i < |cs| ==> Render(cs[i]).Success?
    ensures Render(Parent(Some(t), Present(cs), props))
         == Success("<" + t + PropsToHtml(props) + ">" + Concat(Renderings(cs)) + "</" + t + ">")
  {
    RenderAllConcat(cs);
  }

  /** The tag is checked before the children, so a parent with neither fails on its tag. */
  lemma ParentErrorOrder(t: string, cs: ChildList, props: Option<Props>)
    ensures Render(Parent(None, cs, props)) == Failure(TagIsNone)
    ensures Render(Parent(Some(t), Absent, props)) == Failure(ChildrenIsNone)
  {
  }

  /** A parent's attributes follow its tag name with no space in between. */
  lemma ParentPropsNoSpace()
    ensures Render(Parent(Some("p"), Present([]), Some([("class", "x")]))) == Success("<pclass=\"x\"></p>")
  {
    var attrs := "class=\"x\"";
    assert PropsToHtml(Some([("class", "x")])) == attrs;
    assert "<" + "p" + attrs + ">" + "" + "</" + "p" + ">" == "<pclass=\"x\"></p>";
  }

  /** A leaf with the same attributes puts a space before them. */
  lemma LeafPropsSpace()
    ensures Render(Leaf(Some("p"), Some(""), Some([("class", "x")]))) == Success("<p class=\"x\"></p>")
  {
    var attrs := "class=\"x\"";
    assert PropsToHtml(Some([("class", "x")])) == attrs;
    assert "<" + "p" + " " + attrs + ">" + "" + "</" + "p" + ">" == "<p class=\"x\"></p>";
  }

  /** ParentNode.to_html and the to_html it dispatches to, with the loop that
      accumulates the children's HTML. */
  method ToHtml(n: Node) returns (r: Result<string>)
    ensures r == Render(n)
    decreases n
  {
    match n {
      case Html(_, _, _, _) =>
        r := Failure(NotImplemented);
      case Leaf(tag, value, props) =>
        r := LeafHtml(tag, value, props);
      case Parent(tag, children, props) =>
        if tag.None? {
          return Failure(TagIsNone);
        }
        if children.Absent? {
          return Failure(ChildrenIsNone);
        }
        var cs := children.nodes;
        var childrenHtml := "";
        for i := 0 to |cs|
          invariant RenderAll(cs[..i]) == Success(childrenHtml)
        {
          var child := ToHtml(cs[i]);
          if child.Failure? {
            RenderAllFirstFailure(cs, i);
            return Failure(child.error);
          }
          assert cs[..i + 1][..i] == cs[..i];
          childrenHtml := childrenHtml + child.value;
        }
        assert cs[..|cs|] == cs;
        r := Success("<" + tag.value + PropsToHtml(props) + ">" + childrenHtml + "</" + tag.value + ">");
    }
  }
}
