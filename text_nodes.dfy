/** Typed spans of inline text and their mapping to HTML leaves (textnode.py). */
module TextNodes {
  import opened Wrappers
  import opened HtmlNodes

  /** The six members of the TextType enum, and Other for any other value a node's
      type can hold in Python (None, a plain string). */
  datatype TextType = Text | Bold | Italic | Code | Link | Image | Other

  /** A span of text with its type and, for links and images, its url. */
  datatype TextNode = TextNode(text: string, textType: TextType, url: Option<string>)

  /** TextNode(text, text_type, url=None). */
  function NewTextNode(text: string, textType: TextType, url: Option<string> := None): (n: TextNode)
    ensures n.text == text && n.textType == textType && n.url == url
  {
    TextNode(text, textType, url)
  }

  /** TextNode.__eq__: the three fields compared one by one. */
  function Equals(a: TextNode, b: TextNode): (r: bool)
    ensures r <==> a == b
  {
    a.text == b.text && a.textType == b.textType && a.url == b.url
  }

  /** What an f-string prints for an optional text: the text, or "None". */
  function Str(v: Option<string>): string
  {
    match v
    case Some(s) => s
    case None => "None"
  }

  /** text_node_to_html_node: one leaf per span type, an error for anything else. */
  function TextNodeToHtmlNode(n: TextNode): (r: Result<Node>)
    ensures r.Failure? <==> n.textType == Other
    ensures r.Failure? ==> r.error == InvalidTextType
    ensures r.Success? ==> r.value.Leaf?
    ensures r.Success? ==> (r.value.value.None? <==> n.textType == Image)
    ensures r.Success? && r.value.value.Some? ==> r.value.value.value == n.text
    ensures r.Success? ==> (r.value.tag.None? <==> n.textType == Text)
  {
    match n.textType
    case Text => Success(Leaf(None, Some(n.text), None))
    case Bold => Success(Leaf(Some("b"), Some(n.text), None))
    case Italic => Success(Leaf(Some("i"), Some(n.text), None))
    case Code => Success(Leaf(Some("code"), Some(n.text), None))
    case Link => Success(Leaf(Some("a"), Some(n.text), Some([("href", Str(n.url))])))
    case Image => Success(Leaf(Some("img"), None, Some([("src", Str(n.url)), ("alt", n.text)])))
    case Other => Failure(InvalidTextType)
  }

  /** A plain span renders as its text verbatim. */
  lemma RenderPlain(n: TextNode)
    requires n.textType == Text
    ensures Render(TextNodeToHtmlNode(n).value) == Success(n.text)
  {
  }

  /** Bold, italic and code spans render as their text wrapped in b, i or code tags. */
  lemma RenderStyled(n: TextNode)
    ensures n.textType == Bold ==> Render(TextNodeToHtmlNode(n).value) == Success("<b>" + n.text + "</b>")
    ensures n.textType == Italic ==> Render(TextNodeToHtmlNode(n).value) == Success("<i>" + n.text + "</i>")
    ensures n.textType == Code ==> Render(TextNodeToHtmlNode(n).value) == Success("<code>" + n.text + "</code>")
  {
    var t := n.text;
    if n.textType == Bold {
      assert "<" + "b" + ">" + t + "</" + "b" + ">" == "<b>" + t + "</b>";
    } else if n.textType == Italic {
      assert "<" + "i" + ">" + t + "</" + "i" + ">" == "<i>" + t + "</i>";
    } else if n.textType == Code {
      assert "<" + "code" + ">" + t + "</" + "code" + ">" == "<code>" + t + "</code>";
    }
  }

  /** A link span renders as an a tag whose one attribute is href with the url. */
  lemma RenderLink(n: TextNode)
    requires n.textType == Link
    ensures Render(TextNodeToHtmlNode(n).value) == Success("<a href=\"" + Str(n.url) + "\">" + n.text + "</a>")
  {
    var t, u := n.text, Str(n.url);
    assert PropsToHtml(Some([("href", u)])) == "href" + "=\"" + u + "\"";
    assert "<" + "a" + " " + ("href" + "=\"" + u + "\"") + ">" + t + "</" + "a" + ">"
        == "<a href=\"" + u + "\">" + t + "</a>";
  }

  /** An image leaf has no value, so rendering it fails. */
  lemma RenderImage(n: TextNode)
    requires n.textType == Image
    ensures Render(TextNodeToHtmlNode(n).value) == Failure(ValueIsNone)
  {
  }

  /** The image attributes render as src then alt, one space apart. */
  lemma ImageProps(url: string, alt: string)
    ensures PropsToHtml(Some([("src", url), ("alt", alt)])) == "src=\"" + url + "\" alt=\"" + alt + "\""
  {
    var ps := [("src", url), ("alt", alt)];
    assert ps == [ps[0]] + [ps[1]];
    PropsToHtmlAppend([ps[0]], [ps[1]]);
    PropsToHtmlSingle("src", url);
    PropsToHtmlSingle("alt", alt);
  }

  /** The image leaf carries src then alt, in that order, and no value. */
  lemma ImageLeaf(n: TextNode)
    requires n.textType == Image
    ensures TextNodeToHtmlNode(n) == Success(Leaf(Some("img"), None, Some([("src", Str(n.url)), ("alt", n.text)])))
    ensures PropsToHtml(TextNodeToHtmlNode(n).value.props)
         == "src=\"" + Str(n.url) + "\" alt=\"" + n.text + "\""
  {
    ImageProps(Str(n.url), n.text);
  }
}
