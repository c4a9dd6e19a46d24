/** The block splitter (block_markdown.py): a document cut into its blocks at blank
    lines. */
module Blocks {
  import opened Wrappers
  import opened Strings

  /** The pieces markdown_to_blocks filters: the document without its end newlines,
      cut at every "\n\n". Joined back with "\n\n" they are that document again, none
      holds a "\n\n", and each but the last is cut at the leftmost "\n\n" after it. */
  function Candidates(markdown: string): (pieces: seq<string>)
    ensures |pieces| >= 1
    ensures Join(pieces, "\n\n") == Strip(markdown, '\n')
    ensures forall k :: 0 <= k < |pieces| ==> Free(pieces[k], "\n\n")
    ensures forall k :: 0 <= k < |pieces| - 1 ==> Leftmost(pieces[k], "\n\n")
  {
    Split(Strip(markdown, '\n'), "\n\n")
  }

  /** filter with the not-blank lambda: the non-blank pieces, in order. */
  function KeepNonBlank(pieces: seq<string>): (r: seq<string>)
    ensures |r| <= |pieces|
    ensures forall b :: b in r <==> b in pieces && !IsBlank(b)
  {
    if pieces == [] then []
    else (if IsBlank(pieces[0]) then [] else [pieces[0]]) + KeepNonBlank(pieces[1..])
  }

  /** The filter keeps order: filtering two runs one after the other is filtering
      each. */
  lemma {:induction false} KeepNonBlankAppend(a: seq<string>, b: seq<string>)
    ensures KeepNonBlank(a + b) == KeepNonBlank(a) + KeepNonBlank(b)
    decreases |a|
  {
    if a == [] {
      assert a + b == b;
    } else {
      assert (a + b)[1..] == a[1..] + b;
      KeepNonBlankAppend(a[1..], b);
    }
  }

  /** markdown_to_blocks: the blocks are exactly the non-blank candidates, and no block
      is blank or holds a "\n\n". */
  function MarkdownToBlocks(markdown: string): (blocks: seq<string>)
    ensures forall k :: 0 <= k < |blocks| ==> !IsBlank(blocks[k]) && Free(blocks[k], "\n\n")
    ensures forall b :: b in blocks <==> b in Candidates(markdown) && !IsBlank(b)
  {
    KeepNonBlank(Candidates(markdown))
  }

  /** Every character of a piece is a character of the joined text. */
  lemma {:induction false} JoinHolds(pieces: seq<string>, sep: string, k: nat, ch: char)
    requires k < |pieces| && ch in pieces[k]
    ensures ch in Join(pieces, sep)
    decreases |pieces|
  {
    if k > 0 {
      JoinHolds(pieces[1..], sep, k - 1, ch);
    }
  }

  lemma {:induction false} AllBlank(pieces: seq<string>)
    requires forall k :: 0 <= k < |pieces| ==> IsBlank(pieces[k])
    ensures KeepNonBlank(pieces) == []
    decreases |pieces|
  {
    if pieces != [] {
      AllBlank(pieces[1..]);
    }
  }

  /** A document of whitespace only has no blocks. */
  lemma BlankDocument(markdown: string)
    requires IsBlank(markdown)
    ensures MarkdownToBlocks(markdown) == []
  {
    var w := Strip(markdown, '\n');
    var pieces := Candidates(markdown);
    forall k | 0 <= k < |pieces|
      ensures IsBlank(pieces[k])
    {
      forall i | 0 <= i < |pieces[k]|
        ensures IsSpace(pieces[k][i])
      {
        JoinHolds(pieces, "\n\n", k, pieces[k][i]);
      }
    }
    AllBlank(pieces);
  }

  /** Stripping newlines, which are whitespace, cannot make a text blank. */
  lemma StripNotBlank(markdown: string)
    requires !IsBlank(markdown)
    ensures !IsBlank(Strip(markdown, '\n'))
  {
    var w := Strip(markdown, '\n');
    var a := StripWindow(markdown, '\n');
    var k :| 0 <= k < |markdown| && !IsSpace(markdown[k]);
    assert a <= k < a + |w|;
    assert w[k - a] == markdown[k];
  }

  /** A document without "\n\n" that is not all whitespace is one block: the document
      without its end newlines. */
  lemma SingleBlock(markdown: string)
    requires Free(markdown, "\n\n") && !IsBlank(markdown)
    ensures MarkdownToBlocks(markdown) == [Strip(markdown, '\n')]
  {
    var w := Strip(markdown, '\n');
    var a := StripWindow(markdown, '\n');
    WindowFree(markdown, "\n\n", a, w);
    StripNotBlank(markdown);
    assert Candidates(markdown) == [w];
    assert [w][1..] == [];
  }

  lemma OddNewlinesStrip()
    ensures Strip("a\n\n\nb", '\n') == "a\n\n\nb"
  {
    var md := "a\n\n\nb";
    assert md[0] == 'a' && md[4] == 'b';
  }

  lemma OddNewlinesFirst()
    ensures IndexOf("a\n\n\nb", "\n\n") == Some(1)
  {
    var md := "a\n\n\nb";
    assert md[1..3] == "\n\n";
    assert md[0..2][0] == 'a';
    assert OccursAt(md, "\n\n", 1) && !OccursAt(md, "\n\n", 0);
  }

  lemma OddNewlinesTail()
    ensures Split("\nb", "\n\n") == ["\nb"]
  {
    assert "\nb"[0..2][1] == 'b';
    assert !OccursAt("\nb", "\n\n", 0);
    assert IndexOf("\nb", "\n\n") == None;
  }

  lemma OddNewlinesSplit()
    ensures Candidates("a\n\n\nb") == ["a", "\nb"]
  {
    var md := "a\n\n\nb";
    OddNewlinesStrip();
    OddNewlinesFirst();
    OddNewlinesTail();
    assert md[..1] == "a" && md[3..] == "\nb";
    assert Split(md, "\n\n") == [md[..1]] + Split(md[3..], "\n\n");
  }

  lemma OddNewlinesKept()
    ensures KeepNonBlank(["a", "\nb"]) == ["a", "\nb"]
  {
    assert "a"[0] == 'a' && !IsSpace('a');
    assert "\nb"[1] == 'b' && !IsSpace('b');
    assert ["a", "\nb"][1..] == ["\nb"];
    assert ["\nb"][1..] == [];
  }

  /** Kept blocks are not trimmed: the newline left over from an odd run of three stays
      at the head of the second block. */
  lemma OddNewlines()
    ensures MarkdownToBlocks("a\n\n\nb") == ["a", "\nb"]
  {
    OddNewlinesSplit();
    OddNewlinesKept();
  }

  lemma SpacesKeptFree()
    ensures Free("\n a \n", "\n\n") && !IsBlank("\n a \n")
  {
    var md := "\n a \n";
    forall j | 0 <= j <= |md|
      ensures !OccursAt(md, "\n\n", j)
    {
      if j + 2 <= |md| {
        assert md[j..j + 2][0] == md[j] && md[j..j + 2][1] == md[j + 1];
      }
    }
    assert md[2] == 'a' && !IsSpace('a');
  }

  lemma SpacesKeptStrip()
    ensures Strip("\n a \n", '\n') == " a "
  {
    var md := "\n a \n";
    var t := md[1..];
    assert md[0] == '\n' && t[0] == ' ';
    assert StripLeading(md, '\n') == StripLeading(t, '\n') == t;
    var u := t[..3];
    assert t[3] == '\n' && u[2] == ' ';
    assert StripTrailing(t, '\n') == StripTrailing(u, '\n') == u;
    assert u == " a ";
  }

  /** Only newlines are stripped from the ends: other whitespace stays. */
  lemma SpacesKept()
    ensures MarkdownToBlocks("\n a \n") == [" a "]
  {
    SpacesKeptFree();
    SingleBlock("\n a \n");
    SpacesKeptStrip();
  }
}
