# static-site-generator core, modelled in Dafny

This project models the core of a small static site generator written in Python.
That core turns Markdown text into HTML in four pieces:

- **The inline tokenizer** (`src/inline_markdown.py`, module `Inline`). A line of
  text becomes a list of typed spans (`TextNode`s):
  - three delimiter passes, for `**` bold, `_` italic and `` ` `` code;
  - an image pass for `![alt](url)`;
  - a link pass for `[text](url)`.

  The two markup patterns are hand-written scanners that stand in for the regular
  expressions. Each pass is modelled twice:
  - as the source's loop, a `method` that appends to a node list;
  - as one stage of a fold over the node list, a function.

  Each method is proved to compute its fold. The lemmas are stated about the fold.
- **Text spans and their HTML leaves** (`src/textnode.py`, module `TextNodes`):
  - `TextType`;
  - `TextNode`, its constructor and its equality;
  - `text_node_to_html_node`.

  The file also holds a second `split_nodes_image`, modelled in module
  `TextNodeCopies`. It is proved to compute the image pass.
- **The HTML tree and its serialiser** (`src/htmlnode.py`, `src/leafnode.py`,
  `src/parentnode.py`, module `HtmlNodes`):
  - the three node classes, as one datatype;
  - `props_to_html`;
  - the leaf's `to_html`;
  - the parent's recursive `to_html`, with its accumulating loop as a method proved
    against the recursive function `Render`.
- **The block splitter** (`src/block_markdown.py`, module `Blocks`). It strips the
  document's end newlines, splits at `"\n\n"` and drops the blank pieces.

Module `Strings` models the Python string operations the code relies on:
`str.find`, `str.split` (both unbounded and with `maxsplit=1`), `str.join`,
`str.strip` of one character, and the `\s` class of Python's regular expressions.

Module `Wrappers` holds `Option` (Python's `None`) and `Result`. Every exception the
code raises is a `Failure` carrying an `Error` variant, each with the source's message:

- `split_nodes_delimiter` raises `ValueError` for an unclosed section.
- `str.split("")` raises `ValueError` for an empty separator, which gives
  `EmptySeparator`.
- `split_nodes` reads `split_text[1]` after a failed split, which is an `IndexError`.
  It is modelled as `MarkupNotFound`, and `Inline.CutNeverFails` proves it never
  happens.

A link or image node without a url puts the text `None` into its attribute, as
Python's f-string does (`TextNodes.Str`). The source stores `None` itself in the
props dictionary and only `props_to_html` prints it as `None`; the model does that
conversion when the leaf is built. Only the serialiser reads props, so the HTML is
the same.

## Model

| member | source | states |
|---|---|---|
| Strings.IndexOf | src/inline_markdown.py:36-38 | finds an occurrence exactly when the text holds the separator; the index returned is an occurrence and no earlier index is one |
| Strings.IndexFrom | src/inline_markdown.py:36-38 | (helper) str.find from a start position: the index returned is an occurrence at or after the start with none between; none is returned only when no occurrence starts at or after it |
| Strings.Split | src/inline_markdown.py:65 | at least one piece; the pieces joined back with the separator give the text; no piece holds the separator; every piece but the last is cut at the leftmost occurrence that follows it |
| Strings.LeftmostPrefix | src/inline_markdown.py:65 | (helper) the text before the first occurrence of the separator, followed by the separator, has no earlier occurrence |
| Strings.SplitUnique | src/inline_markdown.py:65 | a list of pieces free of the separator that joins back to the text, each but the last cut at the leftmost occurrence, is the split of the text: the split is determined by those properties |
| Strings.SplitOnce | src/inline_markdown.py:36-38 | one part exactly when the separator is absent, and then it is the text; otherwise the first part, the separator and the rest give the text, and the separator occurs nowhere in the text before the end of the first part, so the cut is at the first occurrence |
| Strings.Join | src/inline_markdown.py:65 | sep.join(pieces): the first piece begins the result (the other properties of the join are the contracts of Split, JoinAppend and ConcatSplit) |
| Strings.ConcatSplit | src/inline_markdown.py:65-78 | joining the pieces of a split with nothing in between removes every occurrence of the separator, as a left-to-right removal scan defines it |
| Strings.Concat | src/inline_markdown.py:78 | (helper) "".join(pieces): Join with the empty separator (no contract of its own) |
| Strings.Strip | src/block_markdown.py:5 | neither end of the result is the stripped character |
| Strings.StripLeading | src/block_markdown.py:5 | (helper) the leading half of strip: the result is a suffix of the text, only the character is removed, and the result does not start with it |
| Strings.StripTrailing | src/block_markdown.py:5 | (helper) the trailing half of strip: the result is a prefix of the text, only the character is removed, and the result does not end with it |
| Strings.StripWindow | src/block_markdown.py:5 | the result is a window of the text with only the stripped character before and after it |
| Strings.IsSpace | src/block_markdown.py:8 | the characters the \s class of a str pattern matches, one by one (no contract of its own) |
| Strings.IsBlank | src/block_markdown.py:8 | re.fullmatch(r'^\s*$', block) succeeds: every character is whitespace, and the empty text is blank (no contract of its own) |
| Blocks.Candidates | src/block_markdown.py:5-6 | at least one piece; the pieces joined with "\n\n" give the document without its end newlines; no piece holds "\n\n"; each piece but the last is cut at the leftmost "\n\n" after it, which with Strings.SplitUnique fixes the pieces |
| Blocks.KeepNonBlank | src/block_markdown.py:7-10 | a piece is kept exactly when it is in the input and not blank; never more pieces than the input |
| Blocks.KeepNonBlankAppend | src/block_markdown.py:7-10 | the filter keeps order: filtering two runs in a row is filtering each |
| Blocks.MarkdownToBlocks | src/block_markdown.py:4-11 | no block is blank or holds "\n\n"; a text is a block exactly when it is a non-blank candidate |
| Blocks.BlankDocument | src/block_markdown.py:4-11 | a document of whitespace only has no blocks |
| Blocks.StripNotBlank | src/block_markdown.py:5 | stripping newlines cannot make a non-blank document blank |
| Blocks.SingleBlock | src/block_markdown.py:4-11 | a document without "\n\n" that is not all whitespace is one block: the document without its end newlines |
| Blocks.OddNewlines | src/block_markdown.py:5-10 | "a\n\n\nb" gives ["a", "\nb"]: kept blocks are not trimmed |
| Blocks.SpacesKept | src/block_markdown.py:5 | "\n a \n" gives [" a "]: only newlines are stripped from the ends |
| HtmlNodes.NewHtmlNode | src/htmlnode.py:2-6 | the node holds the given tag, value, children and props, all None by default |
| HtmlNodes.NewLeafNode | src/leafnode.py:5-6 | a leaf with the given tag, value and props, children None, and props None by default |
| HtmlNodes.NewParentNode | src/parentnode.py:5-6 | a parent with the given tag, children and props, value None, and props None by default |
| HtmlNodes.BaseToHtmlFails | src/htmlnode.py:11-12 | the base class's to_html fails with NotImplemented whatever its fields |
| HtmlNodes.ValueOf | src/parentnode.py:5-6 | a parent's value is always None |
| HtmlNodes.ChildrenOf | src/leafnode.py:5-6 | a leaf's children are always None |
| HtmlNodes.PropStrings | src/htmlnode.py:18-19 | one name="value" text per attribute, in insertion order |
| HtmlNodes.PropString | src/htmlnode.py:18 | (helper) one attribute as name="value", nothing escaped (no contract of its own; PropsToHtmlSingle states it) |
| HtmlNodes.PropsToHtml | src/htmlnode.py:14-20 | the attributes text is empty exactly when the props are None or hold no attribute |
| HtmlNodes.PropsToHtmlEmpty | src/htmlnode.py:14-20 | both absent and empty props give "" |
| HtmlNodes.PropsToHtmlSingle | src/htmlnode.py:18-20 | one attribute gives its name and value verbatim around the fixed =" and ", with no escaping and no space at either end |
| HtmlNodes.PropsToHtmlAppend | src/htmlnode.py:19-20 | attributes a + b give a's text, one space, then b's text: insertion order with single spaces |
| HtmlNodes.LeafHtml | src/leafnode.py:8-15 | fails, with ValueIsNone, exactly when the value is None, whatever the tag; an untagged leaf gives its value |
| HtmlNodes.LeafHtmlTagged | src/leafnode.py:14-15 | a tagged leaf gives <tag>value</tag> for absent or empty props and puts one space before non-empty props; an empty value is accepted |
| HtmlNodes.Render | src/parentnode.py:11-21 | to_html of any node: every failure is one of the four errors the node classes raise; only leaves and parents ever render |
| HtmlNodes.RenderAll | src/parentnode.py:17-19 | the children loop fails only with one of the four rendering errors |
| HtmlNodes.RenderAllPrefixFailure | src/parentnode.py:18-19 | once some children fail, adding more children does not change the error |
| HtmlNodes.RenderAllFirstFailure | src/parentnode.py:18-19 | the first failing child's error is the error of the whole list |
| HtmlNodes.RenderAllSucceeds | src/parentnode.py:17-19 | the children render exactly when each child does |
| HtmlNodes.Renderings | src/parentnode.py:18-19 | one rendering per child, in order |
| HtmlNodes.RenderAllConcat | src/parentnode.py:17-19 | the body is the children's renderings concatenated in order |
| HtmlNodes.RenderSucceeds | src/parentnode.py:11-21 | a node renders exactly when the tree has no bare HTMLNode, a value on every leaf, and a tag and children on every parent, at every depth: any failure deep down aborts the whole rendering |
| HtmlNodes.ParentHtml | src/parentnode.py:17-21 | a parent gives <tag, its props text, >, the children's renderings in order, </tag>; no children give an empty body |
| HtmlNodes.ParentErrorOrder | src/parentnode.py:12-15 | the tag is checked before the children: a missing tag fails with TagIsNone whatever the children, and missing children with any tag fail with ChildrenIsNone |
| HtmlNodes.ParentPropsNoSpace | src/parentnode.py:21 | a parent's props follow its tag name with no space: <pclass="x"></p> |
| HtmlNodes.LeafPropsSpace | src/leafnode.py:14-15 | a leaf with the same props puts a space before them: <p class="x"></p> |
| HtmlNodes.ToHtml | src/parentnode.py:11-21 | the loop that accumulates children_html computes Render, for every node |
| TextNodes.NewTextNode | src/textnode.py:16-19 | the node holds the given text, type and url; the url is None unless supplied |
| TextNodes.Equals | src/textnode.py:21-26 | two nodes are equal exactly when text, type and url are all equal |
| TextNodes.Str | src/htmlnode.py:18 | what an f-string prints for an optional text: the text, or None (no contract of its own; RenderLink and ImageProps use it) |
| Wrappers.Message | src/parentnode.py:12-15 | the message each raised exception carries, as the source writes it (no contract of its own) |
| TextNodes.TextNodeToHtmlNode | src/textnode.py:32-47 | fails, with InvalidTextType, exactly for a type outside the six; otherwise a leaf that is untagged exactly for TEXT, whose value is the text for every type but IMAGE, which has none |
| TextNodes.RenderPlain | src/textnode.py:34-35 | a TEXT span renders as its text |
| TextNodes.RenderStyled | src/textnode.py:36-41 | BOLD, ITALIC and CODE spans render as their text inside b, i and code tags |
| TextNodes.RenderLink | src/textnode.py:42-43 | a LINK span renders as an a tag whose only attribute is href with the url |
| TextNodes.RenderImage | src/textnode.py:44-45 | rendering an IMAGE span's leaf fails with ValueIsNone, since the leaf has no value |
| TextNodes.ImageProps | src/htmlnode.py:18-20 | the image attributes render as src="url" alt="text", in that order, one space apart |
| TextNodes.ImageLeaf | src/textnode.py:44-45 | the image leaf is tagged img with no value and props src then alt; its props text is src="url" alt="text" |
| TextNodeCopies.SplitNodesImage | src/textnode.py:73-99 | the second split_nodes_image computes the image pass that split_nodes(…, IMAGE) computes, on every node list |
| Inline.RunEnd | src/inline_markdown.py:7 | a greedy character class: the run ends at the first of the two excluded characters, or at the end |
| Inline.RunHasNeither | src/inline_markdown.py:7 | a run of the class holds neither excluded character |
| Inline.BracketAt | src/inline_markdown.py:7 | a match of the shared [text](url) part spans exactly the markup rebuilt from its groups, and the groups hold no bracket of their kind |
| Inline.MatchAt | src/inline_markdown.py:6-11 | a match of either pattern starts where it was tried, spans exactly the rebuilt markup of its kind, has clean groups, and a link never starts right after a "!" |
| Inline.FindAll | src/inline_markdown.py:6-11 | re.findall over any forward pattern: every match reported is the pattern's match at its start, within the range, left to right without overlap |
| Inline.PatternForward | src/inline_markdown.py:6-11 | (helper) each pattern, tried position by position, moves forward within the text |
| Inline.FindAllPattern | src/inline_markdown.py:6-11 | (helper) every match found with a pattern is that pattern's match at its start |
| Inline.FindAllNone | src/inline_markdown.py:6-11 | re.findall finds nothing exactly when the pattern fails at every position of the range |
| Inline.FindAllFirst | src/inline_markdown.py:6-11 | the first match is the pattern's match at the leftmost position where it succeeds, and the rest are found from its end on |
| Inline.FindAllComplete | src/inline_markdown.py:6-11 | every position where the pattern succeeds lies inside some reported match: nothing is skipped except a match that overlaps an earlier one |
| Inline.Scan | src/inline_markdown.py:6-11 | re.findall: every match lies in the text, spans the markup of its groups, has clean groups, and the matches come left to right without overlap |
| Inline.ScanNone | src/inline_markdown.py:6-11 | the scan is empty exactly when the pattern fails at every position from where it starts |
| Inline.ScanFirst | src/inline_markdown.py:6-11 | the first match is at the leftmost position where the pattern succeeds, and the rest are scanned from its end |
| Inline.ScanSound | src/inline_markdown.py:6-11 | every match reported is the pattern's match at its start |
| Inline.ScanComplete | src/inline_markdown.py:6-11 | every position where the pattern succeeds lies inside a reported match |
| Inline.Pairs | src/inline_markdown.py:7 | the two groups of each match, in order |
| Inline.Extract | src/inline_markdown.py:6-11 | every extracted item has clean groups |
| Inline.ExtractMarkdownImages | src/inline_markdown.py:6-7 | every image has an alt without brackets and a url without parentheses; there are none exactly when the image pattern matches at no position of the text |
| Inline.ExtractMarkdownLinks | src/inline_markdown.py:10-11 | every link has a text without brackets and a url without parentheses; there are none exactly when the link pattern, look-behind included, matches at no position of the text |
| Inline.ExtractItems | src/inline_markdown.py:21-25 | the extractor split_nodes picks for its type computes the extraction of that kind |
| Inline.Markup | src/inline_markdown.py:36-38 | the f-strings ![text](url) and [text](url) rebuilt from an item (no contract of its own; MarkupLayout and ExtractExact state its properties) |
| Inline.MarkupBang | src/inline_markdown.py:36-38 | (helper) an image's rebuilt markup is "!" before a link's |
| Inline.RunEndAt | src/inline_markdown.py:7 | the greedy run ends at the first excluded character |
| Inline.MarkupLayout | src/inline_markdown.py:36-38 | where the brackets of rebuilt markup sit, with the caption and url between them |
| Inline.BracketAtRuns | src/inline_markdown.py:7 | with brackets at their places and none inside the runs, the shared part matches up to the closing parenthesis |
| Inline.WindowAt | src/inline_markdown.py:36-38 | (helper) an occurrence of a text is its characters one by one |
| Inline.MarkupAt | src/inline_markdown.py:36-38 | (helper) where the brackets, caption and url of a clean markup sit once it occurs at a position |
| Inline.BracketAtParts | src/inline_markdown.py:7 | (helper) the shared [text](url) part matches exactly the caption and url placed between its brackets |
| Inline.BracketAtMarkup | src/inline_markdown.py:7 | (helper) where a clean markup occurs, the shared part matches it from its "[" on |
| Inline.MatchAtBracket | src/inline_markdown.py:6-11 | (helper) at a "![" or a "[" not after "!", the pattern is the shared part tried at the "[" |
| Inline.MatchAtOccurrence | src/inline_markdown.py:6-11 | wherever a clean markup occurs in any text, the pattern of its kind tried there matches exactly it, unless it is a link right after a "!" |
| Inline.MatchAtMarkup | src/inline_markdown.py:6-11 | the pattern tried at the start of a clean rebuilt markup matches all of it |
| Inline.ExtractExact | src/inline_markdown.py:6-11 | extracting from the rebuilt markup of a clean item gives back exactly that item: extraction inverts the rebuild |
| Inline.ExtractFirst | src/inline_markdown.py:6-11 | a clean markup at the first position where the pattern succeeds is the first item extracted |
| Inline.ExtractFinds | src/inline_markdown.py:6-11 | every occurrence of a clean markup lies inside an extracted match, which is that very item when it starts there |
| Inline.LinksSkipBang | src/inline_markdown.py:10-11 | a text whose every "[" follows a "!" has no links: the look-behind rejects them |
| Inline.ImageIsNoLink | src/inline_markdown.py:10-11 | an image's markup, with no "[" in its url, holds no link |
| Inline.ScanNoBracket | src/inline_markdown.py:6-11 | a text without "[" has no matches of either pattern |
| Inline.Convert | src/inline_markdown.py:72-76 | every node made from the pieces has one piece's text, never empty, no url, and type TEXT or the requested type |
| Inline.CutItems | src/inline_markdown.py:32-46 | what the item loop and the tail make of one text: before each item's first markup occurrence a TEXT node when not empty, then the item's node; IndexError when the markup is not found (no contract of its own; CutItemsWellFormed, CutItemsRoundTrip and CutNeverFails state its properties) |
| Inline.StepNode | src/inline_markdown.py:16-46 | what one pass makes of one node: other types pass unchanged, a TEXT node is split by the delimiter or cut at its items (no contract of its own; SpanFixed, DelimitNode, CutFree and StepRoundTrip state its properties) |
| Inline.Fold | src/inline_markdown.py:61-78 | the loop of a pass over a list, the nodes' results concatenated in order (no contract of its own; the Fold lemmas state its properties) |
| Inline.Apply | src/inline_markdown.py:59-79 | one pass over a list: the stage's step folded over it (no contract of its own) |
| Inline.Tokenize | src/inline_markdown.py:82-89 | text_to_textnodes as a function: the five passes in order (no contract of its own; the Tokenize lemmas state its properties) |
| Inline.FoldPrefixFailure | src/inline_markdown.py:67-70 | once a prefix of the node list fails, the pass fails with that error |
| Inline.FoldFirstFailure | src/inline_markdown.py:67-70 | the first failing node decides the error of the whole pass |
| Inline.FoldSnoc | src/inline_markdown.py:61-78 | (helper) one more node at the end adds its nodes at the end: a pass keeps the order of its input |
| Inline.FoldOne | src/inline_markdown.py:83-84 | a pass over one node is what the stage makes of that node |
| Inline.FoldFails | src/inline_markdown.py:61-70 | a pass fails exactly when some node fails |
| Inline.FoldError | src/inline_markdown.py:61-70 | when every node that fails fails with one error, so does the pass |
| Inline.FoldFixed | src/inline_markdown.py:61-63 | a pass that leaves each node unchanged leaves the list unchanged |
| Inline.FoldKeeps | src/inline_markdown.py:61-78 | a property of every node's results holds of every node of the pass's result |
| Inline.SpanFixed | src/inline_markdown.py:62-63 | every stage passes a node that is not TEXT through unchanged |
| Inline.SpansPassThrough | src/inline_markdown.py:61-63 | a list with no TEXT node passes through a stage unchanged, node by node and in order |
| Inline.ConvertSections | src/inline_markdown.py:72-76 | the index loop computes Convert of the pieces |
| Inline.SplitNodesDelimiter | src/inline_markdown.py:59-79 | the loop computes the delimiter pass on every node list, including its errors |
| Inline.PrependAssoc | src/inline_markdown.py:40-42 | (helper) putting nodes in front of a result in two steps is putting them in front in one step |
| Inline.CutItemsUnfold | src/inline_markdown.py:33-43 | one item's step: a failed split is MarkupNotFound, otherwise the prefix, the item's node, then the rest |
| Inline.Emit | src/inline_markdown.py:40-42 | (helper) what one item appends: a TEXT node for the text before its markup when that is not empty, then the item's node with its url (no contract of its own) |
| Inline.Prepend | src/inline_markdown.py:40-46 | (helper) nodes put in front of a successful result; a failure is kept (no contract of its own; PrependAssoc states it) |
| Inline.CutItemsAdvance | src/inline_markdown.py:33-43 | one turn of the item loop keeps the nodes emitted so far in front of what the rest of the text makes |
| Inline.CutText | src/inline_markdown.py:32-46 | the item loop and the tail computes CutItems of the text and its items |
| Inline.SplitNodes | src/inline_markdown.py:14-48 | the loop computes the image or link pass on every node list |
| Inline.SplitNodesImage | src/inline_markdown.py:51-52 | computes the image pass |
| Inline.SplitNodesLink | src/inline_markdown.py:55-56 | computes the link pass |
| Inline.TextToTextNodes | src/inline_markdown.py:82-89 | the five reassignments compute Tokenize: bold, italic, code, images, then links, from one TEXT node |
| Inline.CutAtFirst | src/inline_markdown.py:36-38 | cutting at the first occurrence of a markup that occurs at some index finds it no later than that index |
| Inline.CutFinds | src/inline_markdown.py:33-43 | the cut at each extracted item finds its markup in what is left of the text |
| Inline.CutStepSucceeds | src/inline_markdown.py:32-46 | split_nodes never reaches its IndexError on a node |
| Inline.CutNeverFails | src/inline_markdown.py:14-48 | the image and link passes never fail, on any node list |
| Inline.WriteAllOne | src/inline_markdown.py:40-46 | (helper) one node writes back as its own piece |
| Inline.WriteAllSnoc | src/inline_markdown.py:40-46 | (helper) one more node at the end writes back one more piece at the end |
| Inline.WriteAllAppend | src/inline_markdown.py:40-46 | writing back a list is writing back its two parts one after the other |
| Inline.CutItemsRoundTrip | src/inline_markdown.py:32-46 | cutting a text at its items loses nothing: the nodes written back as markdown are the text |
| Inline.StepRoundTrip | src/inline_markdown.py:16-46 | one node cut by the pass writes back to what the node wrote back as |
| Inline.FoldRoundTrip | src/inline_markdown.py:16-48 | a stage whose nodes write back to their source node makes a pass that writes the whole list back unchanged |
| Inline.CutRoundTrip | src/inline_markdown.py:14-48 | the image and link passes never fail, and their result written back as markdown is their input written back |
| Inline.Typed | src/inline_markdown.py:73-76 | one node per piece |
| Inline.KeepNonEmptySnoc | src/inline_markdown.py:74 | (helper) dropping empty nodes from a list with one more node adds that node when it is not empty |
| Inline.ConvertIsKeepTyped | src/inline_markdown.py:72-76 | the index loop types each piece by the parity of its index (even TEXT, odd the requested type) and drops the empty ones |
| Inline.Texts | src/inline_markdown.py:76 | one text per node |
| Inline.TextsSnoc | src/inline_markdown.py:76 | (helper) one more node adds its text at the end |
| Inline.ConvertTexts | src/inline_markdown.py:72-78 | the converted nodes' texts concatenate to the pieces concatenated |
| Inline.DelimitNode | src/inline_markdown.py:65-78 | a TEXT node fails, with SectionNotClosed, exactly when it splits into an even number of pieces; otherwise its nodes are the typed non-empty pieces, and their texts concatenate to the text with every delimiter removed |
| Inline.DelimitFree | src/inline_markdown.py:65-76 | a non-empty TEXT node without a url and without the delimiter is left as it is |
| Inline.DelimitDropsUrl | src/inline_markdown.py:72-76 | a TEXT node with a url is rebuilt from its pieces without it: even with no delimiter in its text, the pass returns it with the url None, so it is not left as it is |
| Inline.DelimitStepFixed | src/inline_markdown.py:65-76 | every node the delimiter pass makes is left alone by a second pass |
| Inline.DelimitIdempotent | src/inline_markdown.py:59-79 | running the delimiter pass twice with the same delimiter and type is running it once |
| Inline.DelimitError | src/inline_markdown.py:67-70 | a delimiter pass with a non-empty delimiter fails only with SectionNotClosed |
| Inline.CutItemsWellFormed | src/inline_markdown.py:40-46 | the cut makes non-empty TEXT nodes without a url and item nodes with one |
| Inline.StepWellFormed | src/inline_markdown.py:59-79 | each stage of the pipeline makes well-formed nodes of a well-formed node |
| Inline.PassWellFormed | src/inline_markdown.py:14-79 | each pass of the pipeline keeps a list well formed |
| Inline.TokenizeEmpty | src/inline_markdown.py:82-89 | an empty text gives no nodes |
| Inline.TokenizeWellFormed | src/inline_markdown.py:82-89 | every node text_to_textnodes returns is well formed: TEXT, BOLD, ITALIC and CODE nodes are non-empty without a url, LINK and IMAGE nodes have a url, and no other type occurs |
| Inline.TokenizeError | src/inline_markdown.py:82-89 | the only error text_to_textnodes raises is an unclosed section |
| Inline.TokenizeUnclosedBold | src/inline_markdown.py:84 | a text that splits into an even number of pieces at "**" fails with SectionNotClosed |
| Inline.CutFree | src/inline_markdown.py:27-30 | a TEXT node from which nothing of its kind is extracted, whatever its text and urls, is kept when its text is not empty and dropped when it is empty |
| Inline.NoBracketNoItems | src/inline_markdown.py:6-11 | a text without "[" yields no images and no links |
| Inline.TokenizePlain | src/inline_markdown.py:82-89 | a non-empty text with no delimiter, no image and no link extracted gives exactly one TEXT node holding it |
| Inline.SplitAfter | src/inline_markdown.py:65 | the first "**" of a + "**" + rest is the one after a when a holds none and does not end in "*" |
| Inline.BoldSplit | src/inline_markdown.py:65 | a + "**" + x + "**" + b splits into [a, x, b] |
| Inline.ConvertSnoc | src/inline_markdown.py:73-76 | (helper) one more piece adds its node, typed by its index's parity, when it is not empty |
| Inline.ConvertTwo | src/inline_markdown.py:73-76 | two non-empty pieces give a TEXT node, then one of the requested type |
| Inline.ConvertThree | src/inline_markdown.py:73-76 | three non-empty pieces give TEXT, the requested type, then TEXT |
| Inline.BoldPass | src/inline_markdown.py:84 | the bold pass cuts a + "**" + x + "**" + b into a TEXT, a BOLD and a TEXT node |
| Inline.FixedThree | src/inline_markdown.py:61-63 | (helper) a pass that leaves three nodes alone leaves the list of them alone |
| Inline.AfterBold | src/inline_markdown.py:85-88 | the italic, code, image and link passes leave two plain texts around a bold span alone |
| Inline.TokenizeBold | src/inline_markdown.py:82-89 | a bold span between two plain texts gives the three nodes TEXT, BOLD, TEXT |

## Left out

- The `__repr__` methods (`src/textnode.py:28-29`, `src/htmlnode.py:8-9`,
  `src/parentnode.py:8-9`) are left out. They only format Python values for printing.
- Python's dynamic-typing errors are left out. These include a TypeError for a
  missing constructor argument, an AttributeError when a TextNode is compared with
  something else, and a non-list `children`. The datatypes make such values
  impossible.
- Block classification and document assembly are left out. `src/block_markdown.py`
  holds neither.
- The `re` engine is not modelled. The two fixed patterns of
  `extract_markdown_images` and `extract_markdown_links` are hand-written scanners
  (`Inline.Scan`).
- Strings.IsSpace: the `\s` class is the set of characters `str.isspace` accepts,
  written out. Python's tables are not modelled beyond that set.
- Inline.SplitNodes: requires the type to be IMAGE or LINK; it does not model the
  TypeError that `len(None)` raises for any other type, because the source's only
  callers pass those two.
- The copies of `split_nodes_delimiter` (`src/textnode.py:50-70`) and
  `extract_markdown_images`/`extract_markdown_links` (`src/textnode.py:102-107`) are
  modelled once. Their text is the same as in `src/inline_markdown.py`, so
  `Inline.SplitNodesDelimiter` and `Inline.ExtractMarkdownImages`/`Links` stand for
  both. The copy of `split_nodes_image` differs in form and has its own method.
- HtmlNodes.PropsToHtmlAppend: attributes are a sequence of pairs kept in insertion
  order. The model does not require the names to be distinct, as a Python dict's
  keys are.
- TextNodes.TextType: `Other` stands for every value that is not one of the six
  members, so `Equals` does not tell apart two different non-members, such as `None`
  and the string `"bold"` (`src/textnode.py:24`).
- The exception classes (ValueError, NotImplementedError, IndexError, Exception) are
  not modelled. Each error is an `Error` variant with the source's message.
- The tests are not modelled. `src/test_parentnode.py:110-114` expects a space
  between a parent's tag and its props. The code writes none, and the model follows
  the code (`HtmlNodes.ParentPropsNoSpace`).
