/** The second split_nodes_image that textnode.py carries: a version of split_nodes
    written for images only. It is proved to compute what the image pass of the
    inline tokenizer computes. */
module TextNodeCopies {
  import opened Wrappers
  import opened TextNodes
  import opened Inline

  /** split_nodes_image of textnode.py: the image pass, node by node. */
  method SplitNodesImage(oldNodes: seq<TextNode>) returns (r: Result<seq<TextNode>>)
    ensures r == Apply(Cut(Image), oldNodes)
  {
    ghost var st := Cut(Image);
    var newNodes: seq<TextNode> := [];
    for k := 0 to |oldNodes|
      invariant Apply(st, oldNodes[..k]) == Success(newNodes)
    {
      var node := oldNodes[k];
      assert oldNodes[..k + 1] == oldNodes[..k] + [node];
      if node.textType != Text {
        FoldSnoc(StepOf(st), oldNodes[..k], node);
        newNodes := newNodes + [node];
        continue;
      }
      var extractedImages := ExtractMarkdownImages(node.text);
      if |extractedImages| == 0 {
        FoldSnoc(StepOf(st), oldNodes[..k], node);
        if node.text != "" {
          newNodes := newNodes + [node];
        } else {
          assert newNodes + [] == newNodes;
        }
        continue;
      }
      var cut := CutText(node.text, extractedImages, Image);
      if cut.Failure? {
        FoldFirstFailure(StepOf(st), oldNodes, k);
        return Failure(cut.error);
      }
      newNodes := newNodes + cut.value;
      FoldSnoc(StepOf(st), oldNodes[..k], node);
    }
    assert oldNodes[..|oldNodes|] == oldNodes;
    return Success(newNodes);
  }
}
