/** The inline tokenizer (inline_markdown.py): the two markup scanners standing in for
    the regular expressions, the delimiter splitter, the image and link splitters, and
    the fixed pipeline that turns a line of text into typed spans. */
module Inline {
  import opened Wrappers
  import opened Strings
  import opened TextNodes

  // ---------------------------------------------------------------------------
  // Markup scanners: the image pattern is a '!', then a bracketed caption free of
  // square brackets, then a parenthesised url free of parentheses; the link pattern is
  // the same without the '!', and refuses a '[' that comes right after a '!'.
  // ---------------------------------------------------------------------------

  /** The two span types whose markup is scanned for. */
  predicate IsMarkupKind(kind: TextType)
  {
    kind == Image || kind == Link
  }

  /** The markup the source rebuilds for an extracted item: ![text](url) or [text](url). */
  function Markup(kind: TextType, caption: string, url: string): string
  {
    (if kind == Image then "![" else "[") + caption + "](" + url + ")"
  }

  /** What the two capture groups allow: no square bracket in the caption, no
      parenthesis in the url. */
  predicate Clean(caption: string, url: string)
  {
    (forall c :: c in caption ==> c != '[' && c != ']') &&
    (forall c :: c in url ==> c != '(' && c != ')')
  }

  /** An image's markup is a link's markup after a '!'. */
  lemma MarkupBang(caption: string, url: string)
    ensures Markup(Image, caption, url) == ['!'] + Markup(Link, caption, url)
  {
  }

  /** One match of a pattern: its two groups and where it starts and ends. */
  datatype Match = Match(caption: string, url: string, start: nat, end: nat)

  /** The end of the longest run from i of characters other than a and b. */
  function RunEnd(s: string, i: nat, a: char, b: char): (j: nat)
    requires i <= |s|
    decreases |s| - i
    ensures i <= j <= |s|
    ensures forall k :: i <= k < j ==> s[k] != a && s[k] != b
    ensures j < |s| ==> s[j] == a || s[j] == b
  {
    if i == |s| || s[i] == a || s[i] == b then i else RunEnd(s, i + 1, a, b)
  }

  /** A run of characters other than a and b holds neither a nor b. */
  lemma RunHasNeither(s: string, i: nat, j: nat, a: char, b: char)
    requires i <= j <= |s|
    requires forall k :: i <= k < j ==> s[k] != a && s[k] != b
    ensures forall c :: c in s[i..j] ==> c != a && c != b
  {
    forall c | c in s[i..j]
      ensures c != a && c != b
    {
      var k :| 0 <= k < j - i && s[i..j][k] == c;
      assert s[i + k] == c;
    }
  }

  /** s from q to k is its character at q, the run up to j, the two at j, the run up to
      k and the one at k. */
  lemma SliceAround(s: string, q: nat, j: nat, k: nat)
    requires q < j && j + 1 < k < |s|
    ensures s[q..k + 1] == [s[q]] + s[q + 1..j] + [s[j], s[j + 1]] + s[j + 2..k] + [s[k]]
  {
    assert s[q..k + 1] == s[q..k] + [s[k]];
    assert s[q..k] == s[q..j + 2] + s[j + 2..k];
    assert s[q..j + 2] == s[q..j] + [s[j], s[j + 1]];
    assert s[q..j] == [s[q]] + s[q + 1..j];
  }

  /** The part both patterns share, [text](url), matched with its '[' at q; the match
      is reported as starting at start. Both character classes exclude the character
      that ends them, so the greedy runs are the only way to match. */
  function BracketAt(s: string, start: nat, q: nat): (m: Option<Match>)
    requires start <= q < |s| && s[q] == '['
    ensures m.Some? ==> m.value.start == start && q < m.value.end <= |s|
    ensures m.Some? ==> s[q..m.value.end] == Markup(Link, m.value.caption, m.value.url)
    ensures m.Some? ==> Clean(m.value.caption, m.value.url)
  {
    var j := RunEnd(s, q + 1, '[', ']');
    if j + 1 < |s| && s[j] == ']' && s[j + 1] == '(' then
      var k := RunEnd(s, j + 2, '(', ')');
      if k < |s| && s[k] == ')' then
        SliceAround(s, q, j, k);
        RunHasNeither(s, q + 1, j, '[', ']');
        RunHasNeither(s, j + 2, k, '(', ')');
        Some(Match(s[q + 1..j], s[j + 2..k], start, k + 1))
      else None
    else None
  }

  /** The pattern of kind tried at position p. The link pattern's look-behind rejects a
      '[' that comes right after a '!'. */
  function MatchAt(s: string, p: nat, kind: TextType): (m: Option<Match>)
    requires IsMarkupKind(kind) && p <= |s|
    ensures m.Some? ==> m.value.start == p && p < m.value.end <= |s|
    ensures m.Some? ==> s[p..m.value.end] == Markup(kind, m.value.caption, m.value.url)
    ensures m.Some? ==> Clean(m.value.caption, m.value.url)
    ensures m.Some? && kind == Link ==> p == 0 || s[p - 1] != '!'
  {
    if kind == Image then
      if p + 1 < |s| && s[p] == '!' && s[p + 1] == '[' then
        var m := BracketAt(s, p, p + 1);
        if m.Some? then
          assert s[p..m.value.end] == [s[p]] + s[p + 1..m.value.end];
          MarkupBang(m.value.caption, m.value.url);
          m
        else m
      else None
    else
      if p < |s| && s[p] == '[' && (p == 0 || s[p - 1] != '!') then BracketAt(s, p, p) else None
  }

  /** A pattern tried position by position: what it matches at each position. */
  type Matcher = nat -> Option<Match>

  /** Every match of f up to n starts where it was tried and ends after that, by n. */
  predicate Forward(f: Matcher, n: nat)
  {
    forall i: nat :: i <= n && f(i).Some? ==> f(i).value.start == i && i < f(i).value.end <= n
  }

  /** re.findall over the positions p to n: the leftmost match, then the next one from
      its end, and so on; positions where the pattern fails are skipped one at a time.
      Every match reported is the pattern's match at its start, and no two overlap. */
  function FindAll(f: Matcher, p: nat, n: nat): (r: seq<Match>)
    requires p <= n && Forward(f, n)
    decreases n - p
    ensures forall k :: 0 <= k < |r| ==> f(r[k].start) == Some(r[k]) && p <= r[k].start < r[k].end <= n
    ensures forall k :: 0 <= k < |r| - 1 ==> r[k].end <= r[k + 1].start
  {
    if p == n then []
    else
      match f(p)
      case Some(m) => [m] + FindAll(f, m.end, n)
      case None => FindAll(f, p + 1, n)
  }

  /** The pattern of kind over s as a matcher; it fails past the end of s. */
  function PatternOf(s: string, kind: TextType): Matcher
    requires IsMarkupKind(kind)
  {
    (i: nat) => if i <= |s| then MatchAt(s, i, kind) else None
  }

  /** The pattern of kind over s moves forward within s. */
  lemma PatternForward(s: string, kind: TextType)
    requires IsMarkupKind(kind)
    ensures Forward(PatternOf(s, kind), |s|)
  {
  }

  /** Every match found by the pattern of kind from p is its match at its start. */
  lemma FindAllPattern(s: string, p: nat, kind: TextType)
    requires IsMarkupKind(kind) && p <= |s| && Forward(PatternOf(s, kind), |s|)
    ensures var r := FindAll(PatternOf(s, kind), p, |s|);
      forall k :: 0 <= k < |r| ==> MatchAt(s, r[k].start, kind) == Some(r[k])
  {
    var f := PatternOf(s, kind);
    var r := FindAll(f, p, |s|);
    forall k | 0 <= k < |r|
      ensures MatchAt(s, r[k].start, kind) == Some(r[k])
    {
      assert f(r[k].start) == Some(r[k]);
    }
  }

  /** re.findall of the pattern of kind over s from position p. */
  function Scan(s: string, p: nat, kind: TextType): (r: seq<Match>)
    requires IsMarkupKind(kind) && p <= |s|
    ensures forall i :: 0 <= i < |r| ==> p <= r[i].start < r[i].end <= |s|
    ensures forall i :: 0 <= i < |r| ==>
      s[r[i].start..r[i].end] == Markup(kind, r[i].caption, r[i].url) && Clean(r[i].caption, r[i].url)
    ensures forall i :: 0 <= i < |r| - 1 ==> r[i].end <= r[i + 1].start
  {
    PatternForward(s, kind);
    FindAllPattern(s, p, kind);
    FindAll(PatternOf(s, kind), p, |s|)
  }

  /** The (caption, url) groups of each match. */
  function Pairs(ms: seq<Match>): (r: seq<(string, string)>)
    ensures |r| == |ms|
    ensures forall i :: 0 <= i < |ms| ==> r[i] == (ms[i].caption, ms[i].url)
  {
    if ms == [] then [] else [(ms[0].caption, ms[0].url)] + Pairs(ms[1..])
  }

  /** The items of kind found in text, left to right. */
  function Extract(text: string, kind: TextType): (r: seq<(string, string)>)
    requires IsMarkupKind(kind)
    ensures forall i :: 0 <= i < |r| ==> Clean(r[i].0, r[i].1)
  {
    Pairs(Scan(text, 0, kind))
  }

  /** extract_markdown_images. */
  function ExtractMarkdownImages(text: string): (r: seq<(string, string)>)
    ensures forall i :: 0 <= i < |r| ==> Clean(r[i].0, r[i].1)
    ensures r == [] <==> forall p :: 0 <= p < |text| ==> MatchAt(text, p, Image).None?
  {
    ScanNone(text, 0, Image);
    Extract(text, Image)
  }

  /** extract_markdown_links. */
  function ExtractMarkdownLinks(text: string): (r: seq<(string, string)>)
    ensures forall i :: 0 <= i < |r| ==> Clean(r[i].0, r[i].1)
    ensures r == [] <==> forall p :: 0 <= p < |text| ==> MatchAt(text, p, Link).None?
  {
    ScanNone(text, 0, Link);
    Extract(text, Link)
  }

  /** The run from i ends at j when every character before j is neither a nor b and
      s[j] is one of them. */
  lemma {:induction false} RunEndAt(s: string, i: nat, a: char, b: char, j: nat)
    requires i <= j < |s| && (s[j] == a || s[j] == b)
    requires forall k :: i <= k < j ==> s[k] != a && s[k] != b
    ensures RunEnd(s, i, a, b) == j
    decreases j - i
  {
    if i < j {
      RunEndAt(s, i + 1, a, b, j);
    }
  }

  /** Where the brackets of a markup sit: '[' at q, ']' at j, '(' right after it and
      ')' at k, the last character; the caption and the url lie between them. */
  lemma MarkupLayout(kind: TextType, caption: string, url: string) returns (q: nat, j: nat, k: nat)
    requires IsMarkupKind(kind) && Clean(caption, url)
    ensures var s := Markup(kind, caption, url);
      q == (if kind == Image then 1 else 0) && j == q + 1 + |caption| && k == j + 2 + |url| &&
      |s| == k + 1 && s[q] == '[' && s[j] == ']' && s[j + 1] == '(' && s[k] == ')' &&
      (kind == Image ==> s[0] == '!')
    ensures var s := Markup(kind, caption, url);
      s[q + 1..j] == caption && s[j + 2..k] == url &&
      (forall i :: q + 1 <= i < j ==> s[i] != '[' && s[i] != ']') &&
      (forall i :: j + 2 <= i < k ==> s[i] != '(' && s[i] != ')')
  {
    var s := Markup(kind, caption, url);
    q := if kind == Image then 1 else 0;
    j := q + 1 + |caption|;
    k := j + 2 + |url|;
    var open := if kind == Image then "![" else "[";
    assert s == open + caption + "](" + url + ")";
    forall i | q + 1 <= i < j
      ensures s[i] != '[' && s[i] != ']'
    {
      assert s[i] == caption[i - q - 1] && caption[i - q - 1] in caption;
    }
    forall i | j + 2 <= i < k
      ensures s[i] != '(' && s[i] != ')'
    {
      assert s[i] == url[i - j - 2] && url[i - j - 2] in url;
    }
  }

  /** With the brackets at q, j, j + 1 and k and no bracket of either kind within the
      runs between them, the shared pattern matches from q to k. */
  lemma BracketAtRuns(s: string, start: nat, q: nat, j: nat, k: nat)
    requires start <= q < j && j + 1 < k < |s|
    requires s[q] == '[' && s[j] == ']' && s[j + 1] == '(' && s[k] == ')'
    requires forall i :: q + 1 <= i < j ==> s[i] != '[' && s[i] != ']'
    requires forall i :: j + 2 <= i < k ==> s[i] != '(' && s[i] != ')'
    ensures BracketAt(s, start, q) == Some(Match(s[q + 1..j], s[j + 2..k], start, k + 1))
  {
    RunEndAt(s, q + 1, '[', ']', j);
    RunEndAt(s, j + 2, '(', ')', k);
  }

  /** A window t of s at p: s holds t's characters from p on. */
  lemma WindowAt(s: string, p: nat, t: string)
    requires OccursAt(s, t, p)
    ensures forall i :: 0 <= i < |t| ==> s[p + i] == t[i]
  {
    forall i | 0 <= i < |t|
      ensures s[p + i] == t[i]
    {
      assert s[p..p + |t|][i] == s[p + i];
    }
  }

  /** Where a clean item's markup occurs at p, the shared pattern matches it from its
      '[' on. */
  lemma BracketAtMarkup(s: string, p: nat, kind: TextType, caption: string, url: string) returns (q: nat)
    requires IsMarkupKind(kind) && Clean(caption, url)
    requires OccursAt(s, Markup(kind, caption, url), p)
    ensures q == (if kind == Image then 1 else 0) && p + q < |s| && s[p + q] == '['
    ensures kind == Image ==> s[p] == '!'
    ensures BracketAt(s, p, p + q) == Some(Match(caption, url, p, p + |Markup(kind, caption, url)|))
  {
    var j, k;
    q, j, k := MarkupAt(s, p, kind, caption, url);
    BracketAtParts(s, p, q, j, k, caption, url);
  }

  /** The shared pattern at p + q, with its brackets in place, has caption and url as
      its groups. */
  lemma BracketAtParts(s: string, p: nat, q: nat, j: nat, k: nat, caption: string, url: string)
    requires q < j && j + 1 < k && p + k < |s|
    requires s[p + q] == '[' && s[p + j] == ']' && s[p + j + 1] == '(' && s[p + k] == ')'
    requires forall i :: p + q + 1 <= i < p + j ==> s[i] != '[' && s[i] != ']'
    requires forall i :: p + j + 2 <= i < p + k ==> s[i] != '(' && s[i] != ')'
    requires s[p + q + 1..p + j] == caption && s[p + j + 2..p + k] == url
    ensures BracketAt(s, p, p + q) == Some(Match(caption, url, p, p + k + 1))
  {
    BracketAtRuns(s, p, p + q, p + j, p + k);
  }

  /** Where the brackets of a clean item's markup sit when it occurs at p. */
  lemma MarkupAt(s: string, p: nat, kind: TextType, caption: string, url: string) returns (q: nat, j: nat, k: nat)
    requires IsMarkupKind(kind) && Clean(caption, url)
    requires OccursAt(s, Markup(kind, caption, url), p)
    ensures q == (if kind == Image then 1 else 0) && j == q + 1 + |caption| && k == j + 2 + |url|
    ensures p + k < |s| && |Markup(kind, caption, url)| == k + 1
    ensures s[p + q] == '[' && s[p + j] == ']' && s[p + j + 1] == '(' && s[p + k] == ')'
    ensures kind == Image ==> s[p] == '!'
    ensures forall i :: p + q + 1 <= i < p + j ==> s[i] != '[' && s[i] != ']'
    ensures forall i :: p + j + 2 <= i < p + k ==> s[i] != '(' && s[i] != ')'
    ensures s[p + q + 1..p + j] == caption && s[p + j + 2..p + k] == url
  {
    var mk := Markup(kind, caption, url);
    q, j, k := MarkupLayout(kind, caption, url);
    WindowAt(s, p, mk);
    assert s[p + q] == mk[q] && s[p + j] == mk[j] && s[p + j + 1] == mk[j + 1] && s[p + k] == mk[k];
    assert s[p] == mk[0];
    forall i | p + q + 1 <= i < p + j
      ensures s[i] != '[' && s[i] != ']'
    {
      assert s[i] == mk[i - p];
    }
    forall i | p + j + 2 <= i < p + k
      ensures s[i] != '(' && s[i] != ')'
    {
      assert s[i] == mk[i - p];
    }
    assert s[p + q + 1..p + j] == mk[q + 1..j];
    assert s[p + j + 2..p + k] == mk[j + 2..k];
  }

  /** Where the link pattern's '[' is, or the image pattern's "![", the pattern of
      kind is the shared pattern tried at that '['. */
  lemma MatchAtBracket(s: string, p: nat, kind: TextType)
    requires IsMarkupKind(kind)
    requires kind == Image ==> p + 1 < |s| && s[p] == '!' && s[p + 1] == '['
    requires kind == Link ==> p < |s| && s[p] == '[' && (p == 0 || s[p - 1] != '!')
    ensures MatchAt(s, p, kind) == BracketAt(s, p, p + if kind == Image then 1 else 0)
  {
  }

  /** Wherever the markup of a clean item occurs, the pattern tried there matches exactly
      that markup, unless it is a link's and a '!' comes right before it. */
  lemma MatchAtOccurrence(s: string, p: nat, kind: TextType, caption: string, url: string)
    requires IsMarkupKind(kind) && Clean(caption, url)
    requires OccursAt(s, Markup(kind, caption, url), p)
    requires kind == Link ==> p == 0 || s[p - 1] != '!'
    ensures MatchAt(s, p, kind) == Some(Match(caption, url, p, p + |Markup(kind, caption, url)|))
  {
    var q := BracketAtMarkup(s, p, kind, caption, url);
    MatchAtBracket(s, p, kind);
  }

  /** The pattern tried at the start of a clean item's markup matches all of it. */
  lemma MatchAtMarkup(kind: TextType, caption: string, url: string)
    requires IsMarkupKind(kind) && Clean(caption, url)
    ensures MatchAt(Markup(kind, caption, url), 0, kind)
         == Some(Match(caption, url, 0, |Markup(kind, caption, url)|))
  {
    var s := Markup(kind, caption, url);
    assert s[0..|s|] == s;
    MatchAtOccurrence(s, 0, kind, caption, url);
  }

  /** FindAll is empty exactly when f fails at every position from p on. */
  lemma {:induction false} FindAllNone(f: Matcher, p: nat, n: nat)
    requires p <= n && Forward(f, n)
    decreases n - p
    ensures FindAll(f, p, n) == [] <==> forall i: nat :: p <= i < n ==> f(i).None?
  {
    if p < n {
      FindAllNone(f, p + 1, n);
    }
  }

  /** When FindAll reports a match, the first is f's match at the leftmost position from
      p where f succeeds, and the rest are searched for from that match's end. */
  lemma {:induction false} FindAllFirst(f: Matcher, p: nat, n: nat)
    requires p <= n && Forward(f, n) && FindAll(f, p, n) != []
    decreases n - p
    ensures var m := FindAll(f, p, n)[0];
      f(m.start) == Some(m) &&
      (forall i: nat :: p <= i < m.start ==> f(i).None?) &&
      FindAll(f, p, n)[1..] == FindAll(f, m.end, n)
  {
    if f(p).None? {
      FindAllFirst(f, p + 1, n);
    }
  }

  /** No match is skipped but one that overlaps a match reported before it: every
      position from p where f succeeds lies within a reported match, the k-th. */
  lemma {:induction false} FindAllComplete(f: Matcher, p: nat, n: nat, i: nat) returns (k: nat)
    requires p <= i < n && Forward(f, n) && f(i).Some?
    decreases n - p
    ensures k < |FindAll(f, p, n)| && FindAll(f, p, n)[k].start <= i < FindAll(f, p, n)[k].end
  {
    var r := FindAll(f, p, n);
    match f(p)
    case Some(m) =>
      var rest := FindAll(f, m.end, n);
      assert r == [m] + rest;
      assert m.start == p;
      if i < m.end {
        k := 0;
        assert r[k] == m;
      } else {
        var k' := FindAllComplete(f, m.end, n, i);
        k := k' + 1;
        assert r[k] == rest[k'];
      }
    case None =>
      k := FindAllComplete(f, p + 1, n, i);
  }

  /** Scan from p is empty exactly when the pattern fails at every position from p on. */
  lemma ScanNone(s: string, p: nat, kind: TextType)
    requires IsMarkupKind(kind) && p <= |s|
    ensures Scan(s, p, kind) == [] <==> forall i :: p <= i < |s| ==> MatchAt(s, i, kind).None?
  {
    var f := PatternOf(s, kind);
    PatternForward(s, kind);
    FindAllNone(f, p, |s|);
    assert forall i: nat :: i <= |s| ==> f(i) == MatchAt(s, i, kind);
  }

  /** Scan is re.findall: when it reports a match, the first is the one at the leftmost
      position from p where the pattern succeeds, and the rest are searched for from
      that match's end. */
  lemma ScanFirst(s: string, p: nat, kind: TextType)
    requires IsMarkupKind(kind) && p <= |s| && Scan(s, p, kind) != []
    ensures var m := Scan(s, p, kind)[0];
      MatchAt(s, m.start, kind) == Some(m) &&
      (forall i :: p <= i < m.start ==> MatchAt(s, i, kind).None?) &&
      Scan(s, p, kind)[1..] == Scan(s, m.end, kind)
  {
    var f := PatternOf(s, kind);
    PatternForward(s, kind);
    FindAllFirst(f, p, |s|);
    assert forall i: nat :: i <= |s| ==> f(i) == MatchAt(s, i, kind);
  }

  /** Every match Scan reports is what the pattern finds at the match's start. */
  lemma ScanSound(s: string, p: nat, kind: TextType)
    requires IsMarkupKind(kind) && p <= |s|
    ensures forall k :: 0 <= k < |Scan(s, p, kind)| ==>
      MatchAt(s, Scan(s, p, kind)[k].start, kind) == Some(Scan(s, p, kind)[k])
  {
    PatternForward(s, kind);
    FindAllPattern(s, p, kind);
  }

  /** No match is skipped but one that overlaps a match reported before it: every
      position from p where the pattern succeeds lies within a reported match, the
      k-th. */
  lemma ScanComplete(s: string, p: nat, kind: TextType, i: nat) returns (k: nat)
    requires IsMarkupKind(kind) && p <= i <= |s| && MatchAt(s, i, kind).Some?
    ensures k < |Scan(s, p, kind)| && Scan(s, p, kind)[k].start <= i < Scan(s, p, kind)[k].end
  {
    var f := PatternOf(s, kind);
    PatternForward(s, kind);
    assert f(i) == MatchAt(s, i, kind);
    k := FindAllComplete(f, p, |s|, i);
    assert Scan(s, p, kind) == FindAll(f, p, |s|);
  }

  /** A clean item whose markup occurs at p, where the pattern fails at every position
      before p, is the first item found. */
  lemma ExtractFirst(text: string, kind: TextType, p: nat, caption: string, url: string)
    requires IsMarkupKind(kind) && Clean(caption, url)
    requires OccursAt(text, Markup(kind, caption, url), p)
    requires kind == Link ==> p == 0 || text[p - 1] != '!'
    requires forall i :: 0 <= i < p ==> MatchAt(text, i, kind).None?
    ensures Extract(text, kind) != [] && Extract(text, kind)[0] == (caption, url)
  {
    MatchAtOccurrence(text, p, kind, caption, url);
    var k := ScanComplete(text, 0, kind, p);
    ScanFirst(text, 0, kind);
    var m := Scan(text, 0, kind)[0];
    assert MatchAt(text, m.start, kind).Some?;
    assert !(m.start < p);
    assert m.start == p;
    assert m == Match(caption, url, p, p + |Markup(kind, caption, url)|);
  }

  /** Every occurrence at p of a clean item's markup, bar a link's right after a '!',
      lies within the k-th reported match, which is that item when it starts at p and
      otherwise began earlier. */
  lemma ExtractFinds(text: string, kind: TextType, p: nat, caption: string, url: string) returns (k: nat)
    requires IsMarkupKind(kind) && Clean(caption, url)
    requires OccursAt(text, Markup(kind, caption, url), p)
    requires kind == Link ==> p == 0 || text[p - 1] != '!'
    ensures k < |Scan(text, 0, kind)| && Scan(text, 0, kind)[k].start <= p < Scan(text, 0, kind)[k].end
    ensures Scan(text, 0, kind)[k].start == p ==> Extract(text, kind)[k] == (caption, url)
  {
    MatchAtOccurrence(text, p, kind, caption, url);
    k := ScanComplete(text, 0, kind, p);
    ScanSound(text, 0, kind);
  }

  /** The markup of a clean item is found as exactly that item. */
  lemma ExtractExact(kind: TextType, caption: string, url: string)
    requires IsMarkupKind(kind) && Clean(caption, url)
    ensures Extract(Markup(kind, caption, url), kind) == [(caption, url)]
  {
    var s := Markup(kind, caption, url);
    MatchAtMarkup(kind, caption, url);
    ScanNone(s, 0, kind);
    ScanFirst(s, 0, kind);
    ScanNone(s, |s|, kind);
    assert Scan(s, 0, kind) == [Match(caption, url, 0, |s|)];
  }

  /** No link is found at a '[' that follows a '!': a text whose every '[' comes right
      after a '!' has no links, so an image's markup is never read as a link. */
  lemma LinksSkipBang(s: string, p: nat)
    requires p <= |s|
    requires forall i :: 0 < i < |s| && s[i] == '[' ==> s[i - 1] == '!'
    requires |s| > 0 ==> s[0] != '['
    ensures Scan(s, p, Link) == []
  {
    forall i | p <= i < |s|
      ensures MatchAt(s, i, Link).None?
    {
    }
    ScanNone(s, p, Link);
  }

  /** The markup of an image, with no '[' in its url, holds no link. */
  lemma ImageIsNoLink(caption: string, url: string)
    requires Clean(caption, url) && '[' !in url
    ensures Extract(Markup(Image, caption, url), Link) == []
  {
    var s := Markup(Image, caption, url);
    var j := 2 + |caption|;
    assert s == "![" + caption + "](" + url + ")";
    forall i | 0 < i < |s|
      ensures s[i] == '[' ==> s[i - 1] == '!'
    {
      if 2 <= i < j {
        assert s[i] == caption[i - 2] && caption[i - 2] in caption;
      } else if j + 2 <= i < |s| - 1 {
        assert s[i] == url[i - j - 2] && url[i - j - 2] in url;
      }
    }
    LinksSkipBang(s, 0);
  }

  // ---------------------------------------------------------------------------
  // The node splitters, as the stages of one fold over the node list
  // ---------------------------------------------------------------------------

  /** One pass over a node list: split_nodes_delimiter with its delimiter and type, or
      split_nodes with the type whose markup it extracts. */
  datatype Stage = Delimit(delimiter: string, textType: TextType) | Cut(kind: TextType)
  {
    predicate Valid()
    {
      Cut? ==> IsMarkupKind(kind)
    }
  }

  /** The nodes split_nodes_delimiter makes of the pieces of a split, by the index loop:
      a non-empty piece at an even index is plain text, at an odd index it gets t. */
  function Convert(pieces: seq<string>, t: TextType): (r: seq<TextNode>)
    decreases |pieces|
    ensures forall k :: 0 <= k < |r| ==>
      r[k].text in pieces && r[k].text != "" && r[k].url == None && (r[k].textType == Text || r[k].textType == t)
  {
    if pieces == [] then []
    else
      var i := |pieces| - 1;
      Convert(pieces[..i], t)
        + (if pieces[i] != "" then [TextNode(pieces[i], if i % 2 == 0 then Text else t, None)] else [])
  }

  /** What split_nodes makes of one text once its items are known: for each item, the
      text before the first occurrence of its rebuilt markup (when not empty), then the
      item's node, then on with the rest; a non-empty tail ends the list. Not finding
      the markup is the IndexError of split_text[1]. */
  function CutItems(text: string, items: seq<(string, string)>, kind: TextType): Result<seq<TextNode>>
    requires IsMarkupKind(kind)
    decreases |items|
  {
    if items == [] then Success(if text != "" then [TextNode(text, Text, None)] else [])
    else
      var parts := SplitOnce(text, Markup(kind, items[0].0, items[0].1));
      if |parts| < 2 then Failure(MarkupNotFound)
      else
        var rest :- CutItems(parts[1], items[1..], kind);
        Success((if parts[0] != "" then [TextNode(parts[0], Text, None)] else [])
                + [TextNode(items[0].0, kind, Some(items[0].1))] + rest)
  }

  /** What one stage makes of one node. Nodes that are not plain text pass unchanged. */
  function StepNode(st: Stage, node: TextNode): Result<seq<TextNode>>
    requires st.Valid()
  {
    if node.textType != Text then Success([node])
    else
      match st
      case Delimit(d, t) =>
        if d == [] then Failure(EmptySeparator)
        else
          var pieces := Split(node.text, d);
          if |pieces| % 2 == 0 then Failure(SectionNotClosed) else Success(Convert(pieces, t))
      case Cut(kind) =>
        var items := Extract(node.text, kind);
        if |items| == 0 then Success(if node.text != "" then [node] else [])
        else CutItems(node.text, items, kind)
  }

  /** What one pass does to one node, as a function value. */
  type Step = TextNode -> Result<seq<TextNode>>

  /** The step of a stage. */
  function StepOf(st: Stage): Step
    requires st.Valid()
  {
    (n: TextNode) => StepNode(st, n)
  }

  /** The loop of every splitter over a whole list: the nodes' results concatenated
      in order; the first failing node decides the error. */
  function Fold(f: Step, nodes: seq<TextNode>): Result<seq<TextNode>>
    decreases |nodes|
  {
    if nodes == [] then Success([])
    else
      var front :- Fold(f, nodes[..|nodes| - 1]);
      var last :- f(nodes[|nodes| - 1]);
      Success(front + last)
  }

  /** One stage over a whole list. */
  function Apply(st: Stage, nodes: seq<TextNode>): Result<seq<TextNode>>
    requires st.Valid()
  {
    Fold(StepOf(st), nodes)
  }

  /** text_to_textnodes as a function: bold, italic and code delimiters, then images,
      then links, starting from one plain node holding the whole text. */
  function Tokenize(text: string): Result<seq<TextNode>>
  {
    var bold :- Apply(Delimit("**", Bold), [TextNode(text, Text, None)]);
    var italic :- Apply(Delimit("_", Italic), bold);
    var code :- Apply(Delimit("`", Code), italic);
    var images :- Apply(Cut(Image), code);
    Apply(Cut(Link), images)
  }

  // ---------------------------------------------------------------------------
  // The fold
  // ---------------------------------------------------------------------------

  /** Once a prefix of the list fails, the whole list fails with that error. */
  lemma {:induction false} FoldPrefixFailure(f: Step, nodes: seq<TextNode>, k: nat)
    requires k <= |nodes| && Fold(f, nodes[..k]).Failure?
    ensures Fold(f, nodes) == Fold(f, nodes[..k])
    decreases |nodes|
  {
    if k == |nodes| {
      assert nodes[..k] == nodes;
    } else {
      var front := nodes[..|nodes| - 1];
      assert front[..k] == nodes[..k];
      FoldPrefixFailure(f, front, k);
    }
  }

  /** The first failing node decides the error of the whole pass. */
  lemma FoldFirstFailure(f: Step, nodes: seq<TextNode>, k: nat)
    requires k < |nodes| && Fold(f, nodes[..k]).Success? && f(nodes[k]).Failure?
    ensures Fold(f, nodes) == Failure(f(nodes[k]).error)
  {
    assert nodes[..k + 1][..k] == nodes[..k];
    FoldPrefixFailure(f, nodes, k + 1);
  }

  /** One more node at the end of the list adds its results at the end. */
  lemma FoldSnoc(f: Step, nodes: seq<TextNode>, n: TextNode)
    requires Fold(f, nodes).Success? && f(n).Success?
    ensures Fold(f, nodes + [n]) == Success(Fold(f, nodes).value + f(n).value)
  {
    assert (nodes + [n])[..|nodes|] == nodes;
  }

  /** A pass over one node is that node's step. */
  lemma FoldOne(f: Step, n: TextNode)
    ensures Fold(f, [n]) == f(n)
  {
    assert [n][..0] == [];
    if f(n).Success? {
      assert [] + f(n).value == f(n).value;
    }
  }

  /** A pass fails exactly when one of the nodes fails. */
  lemma {:induction false} FoldFails(f: Step, nodes: seq<TextNode>)
    ensures Fold(f, nodes).Failure? <==> exists i :: 0 <= i < |nodes| && f(nodes[i]).Failure?
    decreases |nodes|
  {
    if nodes != [] {
      var front := nodes[..|nodes| - 1];
      FoldFails(f, front);
      assert forall i :: 0 <= i < |front| ==> front[i] == nodes[i];
      if Fold(f, front).Failure? {
        var i :| 0 <= i < |front| && f(front[i]).Failure?;
        assert f(nodes[i]).Failure?;
      }
    }
  }

  /** When every node that fails fails with e, so does the pass. */
  lemma {:induction false} FoldError(f: Step, nodes: seq<TextNode>, e: Error)
    requires forall i :: 0 <= i < |nodes| && f(nodes[i]).Failure? ==> f(nodes[i]).error == e
    ensures Fold(f, nodes).Failure? ==> Fold(f, nodes).error == e
    decreases |nodes|
  {
    if nodes != [] {
      var front := nodes[..|nodes| - 1];
      assert forall i :: 0 <= i < |front| ==> front[i] == nodes[i];
      FoldError(f, front, e);
    }
  }

  /** A node that a step maps to itself. */
  predicate Fixed(f: Step, n: TextNode)
  {
    f(n) == Success([n])
  }

  /** A pass leaves a list unchanged when it leaves each of its nodes unchanged. */
  lemma {:induction false} FoldFixed(f: Step, nodes: seq<TextNode>)
    requires forall i :: 0 <= i < |nodes| ==> Fixed(f, nodes[i])
    ensures Fold(f, nodes) == Success(nodes)
    decreases |nodes|
  {
    if nodes != [] {
      var front := nodes[..|nodes| - 1];
      assert forall i :: 0 <= i < |front| ==> front[i] == nodes[i];
      FoldFixed(f, front);
      assert nodes == front + [nodes[|nodes| - 1]];
    }
  }

  /** A property every node's results have is had by every node of the pass's result. */
  lemma {:induction false} FoldKeeps(f: Step, nodes: seq<TextNode>, P: TextNode -> bool)
    requires forall i :: 0 <= i < |nodes| && f(nodes[i]).Success? ==>
      forall k :: 0 <= k < |f(nodes[i]).value| ==> P(f(nodes[i]).value[k])
    ensures Fold(f, nodes).Success? ==>
      forall k :: 0 <= k < |Fold(f, nodes).value| ==> P(Fold(f, nodes).value[k])
    decreases |nodes|
  {
    if nodes != [] {
      var front := nodes[..|nodes| - 1];
      assert forall i :: 0 <= i < |front| ==> front[i] == nodes[i];
      FoldKeeps(f, front, P);
    }
  }

  /** A stage passes every node that is not plain text through unchanged. */
  lemma SpanFixed(st: Stage, n: TextNode)
    requires st.Valid() && n.textType != Text
    ensures Fixed(StepOf(st), n)
  {
  }

  /** A list of spans none of which is plain text passes through a stage as it is:
      every node stays, unchanged and in its place. */
  lemma SpansPassThrough(st: Stage, nodes: seq<TextNode>)
    requires st.Valid() && forall i :: 0 <= i < |nodes| ==> nodes[i].textType != Text
    ensures Apply(st, nodes) == Success(nodes)
  {
    forall i | 0 <= i < |nodes|
      ensures Fixed(StepOf(st), nodes[i])
    {
      SpanFixed(st, nodes[i]);
    }
    FoldFixed(StepOf(st), nodes);
  }

  // ---------------------------------------------------------------------------
  // The methods, as the source writes them
  // ---------------------------------------------------------------------------

  /** The inner loop of split_nodes_delimiter: the non-empty sections, in order, the
      even ones plain and the odd ones of the delimiter's type. */
  method ConvertSections(splitText: seq<string>, textType: TextType) returns (convertedNodes: seq<TextNode>)
    ensures convertedNodes == Convert(splitText, textType)
  {
    convertedNodes := [];
    for i := 0 to |splitText|
      invariant convertedNodes == Convert(splitText[..i], textType)
    {
      assert splitText[..i + 1][..i] == splitText[..i];
      if splitText[i] != "" {
        var t := if i % 2 == 0 then Text else textType;
        convertedNodes := convertedNodes + [TextNode(splitText[i], t, None)];
      }
    }
    assert splitText[..|splitText|] == splitText;
  }

  /** split_nodes_delimiter (inline_markdown.py; textnode.py holds the same code). */
  method SplitNodesDelimiter(oldNodes: seq<TextNode>, delimiter: string, textType: TextType)
    returns (r: Result<seq<TextNode>>)
    ensures r == Apply(Delimit(delimiter, textType), oldNodes)
  {
    ghost var st := Delimit(delimiter, textType);
    var newNodes: seq<TextNode> := [];
    for k := 0 to |oldNodes|
      invariant Apply(st, oldNodes[..k]) == Success(newNodes)
    {
      var node := oldNodes[k];
      assert oldNodes[..k + 1] == oldNodes[..k] + [node];
      if node.textType != Text {
        FoldSnoc(StepOf(st), oldNodes[..k], node);
        newNodes := newNodes + [node];
      } else {
        if delimiter == [] {
          FoldFirstFailure(StepOf(st), oldNodes, k);
          return Failure(EmptySeparator);
        }
        var splitText := Split(node.text, delimiter);
        if |splitText| % 2 == 0 {
          FoldFirstFailure(StepOf(st), oldNodes, k);
          return Failure(SectionNotClosed);
        }
        var convertedNodes := ConvertSections(splitText, textType);
        FoldSnoc(StepOf(st), oldNodes[..k], node);
        newNodes := newNodes + convertedNodes;
      }
    }
    assert oldNodes[..|oldNodes|] == oldNodes;
    return Success(newNodes);
  }

  /** The result r with xs in front of its nodes. */
  function Prepend(xs: seq<TextNode>, r: Result<seq<TextNode>>): Result<seq<TextNode>>
  {
    if r.Success? then Success(xs + r.value) else r
  }

  /** What split_nodes appends for one item: the text before its markup, when not
      empty, then the item's own node. */
  function Emit(before: string, item: (string, string), kind: TextType): seq<TextNode>
  {
    (if before != "" then [TextNode(before, Text, None)] else []) + [TextNode(item.0, kind, Some(item.1))]
  }

  lemma PrependAssoc(a: seq<TextNode>, b: seq<TextNode>, r: Result<seq<TextNode>>)
    ensures Prepend(a, Prepend(b, r)) == Prepend(a + b, r)
  {
    if r.Success? {
      assert a + (b + r.value) == (a + b) + r.value;
    }
  }

  /** One step of CutItems from item j on. */
  lemma CutItemsUnfold(text: string, items: seq<(string, string)>, j: nat, kind: TextType)
    requires IsMarkupKind(kind) && j < |items|
    ensures var parts := SplitOnce(text, Markup(kind, items[j].0, items[j].1));
      CutItems(text, items[j..], kind)
        == if |parts| < 2 then Failure(MarkupNotFound)
           else Prepend(Emit(parts[0], items[j], kind), CutItems(parts[1], items[j + 1..], kind))
  {
    assert items[j..][0] == items[j] && items[j..][1..] == items[j + 1..];
  }

  /** One turn of the inner loop of split_nodes: cutting at item j puts its nodes
      after the ones emitted so far and goes on with what follows its markup. */
  lemma CutItemsAdvance(text: string, items: seq<(string, string)>, j: nat, kind: TextType, emitted: seq<TextNode>)
    requires IsMarkupKind(kind) && j < |items|
    requires |SplitOnce(text, Markup(kind, items[j].0, items[j].1))| >= 2
    ensures var parts := SplitOnce(text, Markup(kind, items[j].0, items[j].1));
      Prepend(emitted, CutItems(text, items[j..], kind))
        == Prepend(emitted + Emit(parts[0], items[j], kind), CutItems(parts[1], items[j + 1..], kind))
  {
    var parts := SplitOnce(text, Markup(kind, items[j].0, items[j].1));
    CutItemsUnfold(text, items, j, kind);
    PrependAssoc(emitted, Emit(parts[0], items[j], kind), CutItems(parts[1], items[j + 1..], kind));
  }

  /** The inner loop of split_nodes: cut one text at each extracted item in turn. */
  method CutText(text: string, items: seq<(string, string)>, kind: TextType)
    returns (r: Result<seq<TextNode>>)
    requires IsMarkupKind(kind)
    ensures r == CutItems(text, items, kind)
  {
    var nodeText := text;
    var emitted: seq<TextNode> := [];
    assert items[0..] == items;
    assert CutItems(text, items, kind).Success? ==> [] + CutItems(text, items, kind).value == CutItems(text, items, kind).value;
    for j := 0 to |items|
      invariant CutItems(text, items, kind) == Prepend(emitted, CutItems(nodeText, items[j..], kind))
    {
      var item := items[j];
      var splitText := SplitOnce(nodeText, Markup(kind, item.0, item.1));
      if |splitText| < 2 {
        CutItemsUnfold(nodeText, items, j, kind);
        return Failure(MarkupNotFound);
      }
      CutItemsAdvance(nodeText, items, j, kind, emitted);
      var textNode := if splitText[0] != "" then [TextNode(splitText[0], Text, None)] else [];
      emitted := emitted + (textNode + [TextNode(item.0, kind, Some(item.1))]);
      nodeText := splitText[1];
    }
    assert items[|items|..] == [];
    ghost var before := emitted;
    if nodeText != "" {
      emitted := emitted + [TextNode(nodeText, Text, None)];
      assert CutItems(nodeText, [], kind) == Success([TextNode(nodeText, Text, None)]);
    } else {
      assert CutItems(nodeText, [], kind) == Success([]);
      assert before + [] == before;
    }
    return Success(emitted);
  }

  /** The extractor split_nodes calls for its type: extract_markdown_images for IMAGE,
      extract_markdown_links for LINK. */
  method ExtractItems(text: string, kind: TextType) returns (items: seq<(string, string)>)
    requires IsMarkupKind(kind)
    ensures items == Extract(text, kind)
  {
    items := if kind == Image then ExtractMarkdownImages(text) else ExtractMarkdownLinks(text);
  }

  /** split_nodes: for a plain node, extract the items of the requested type, then cut
      the text item by item. */
  method SplitNodes(oldNodes: seq<TextNode>, kind: TextType) returns (r: Result<seq<TextNode>>)
    requires IsMarkupKind(kind)
    ensures r == Apply(Cut(kind), oldNodes)
  {
    ghost var st := Cut(kind);
    var newNodes: seq<TextNode> := [];
    for k := 0 to |oldNodes|
      invariant Apply(st, oldNodes[..k]) == Success(newNodes)
    {
      var node := oldNodes[k];
      assert oldNodes[..k + 1] == oldNodes[..k] + [node];
      if node.textType != Text {
        FoldSnoc(StepOf(st), oldNodes[..k], node);
        newNodes := newNodes + [node];
        assert Apply(st, oldNodes[..k + 1]) == Success(newNodes);
        continue;
      }
      var extractedItems := ExtractItems(node.text, kind);
      if |extractedItems| == 0 {
        FoldSnoc(StepOf(st), oldNodes[..k], node);
        if node.text != "" {
          newNodes := newNodes + [node];
        } else {
          assert newNodes + [] == newNodes;
        }
        assert Apply(st, oldNodes[..k + 1]) == Success(newNodes);
        continue;
      }
      var cut := CutText(node.text, extractedItems, kind);
      if cut.Failure? {
        FoldFirstFailure(StepOf(st), oldNodes, k);
        return Failure(cut.error);
      }
      newNodes := newNodes + cut.value;
      FoldSnoc(StepOf(st), oldNodes[..k], node);
      assert Apply(st, oldNodes[..k + 1]) == Success(newNodes);
    }
    assert oldNodes[..|oldNodes|] == oldNodes;
    return Success(newNodes);
  }

  /** split_nodes_image. */
  method SplitNodesImage(oldNodes: seq<TextNode>) returns (r: Result<seq<TextNode>>)
    ensures r == Apply(Cut(Image), oldNodes)
  {
    r := SplitNodes(oldNodes, Image);
  }

  /** split_nodes_link. */
  method SplitNodesLink(oldNodes: seq<TextNode>) returns (r: Result<seq<TextNode>>)
    ensures r == Apply(Cut(Link), oldNodes)
  {
    r := SplitNodes(oldNodes, Link);
  }

  /** text_to_textnodes: the five passes in their fixed order. */
  method TextToTextNodes(text: string) returns (r: Result<seq<TextNode>>)
    ensures r == Tokenize(text)
  {
    var nodes := [TextNode(text, Text, None)];
    r := SplitNodesDelimiter(nodes, "**", Bold);
    if r.Failure? { return; }
    r := SplitNodesDelimiter(r.value, "_", Italic);
    if r.Failure? { return; }
    r := SplitNodesDelimiter(r.value, "`", Code);
    if r.Failure? { return; }
    r := SplitNodesImage(r.value);
    if r.Failure? { return; }
    r := SplitNodesLink(r.value);
  }

  // ---------------------------------------------------------------------------
  // The image and link splitters
  // ---------------------------------------------------------------------------

  /** The suffix of s from off, cut at the first occurrence of a markup that occurs at
      start: the cut is found, and what is left starts at or before start's end. */
  lemma CutAtFirst(s: string, off: nat, start: nat, mk: string) returns (next: nat)
    requires off <= start && start + |mk| <= |s| && |mk| > 0 && s[start..start + |mk|] == mk
    ensures off <= next <= start + |mk|
    ensures var parts := SplitOnce(s[off..], mk); |parts| == 2 && parts[1] == s[next..]
  {
    var t := s[off..];
    var at := start - off;
    assert t[at..at + |mk|] == s[start..start + |mk|];
    assert OccursAt(t, mk, at);
    var i := IndexOf(t, mk).value;
    assert i <= at;
    assert SplitOnce(t, mk) == [t[..i], t[i + |mk|..]];
    next := off + i + |mk|;
    assert t[i + |mk|..] == s[next..];
  }

  /** Cutting the text from off on at the markup of matches that lie, in order and
      without overlap, at or after off always finds each markup: the first occurrence
      of a match's markup is never later than the match itself. */
  lemma {:induction false} CutFinds(s: string, ms: seq<Match>, off: nat, kind: TextType)
    requires IsMarkupKind(kind) && off <= |s|
    requires forall i :: 0 <= i < |ms| ==>
      ms[i].start < ms[i].end <= |s| && s[ms[i].start..ms[i].end] == Markup(kind, ms[i].caption, ms[i].url)
    requires forall i :: 0 <= i < |ms| - 1 ==> ms[i].end <= ms[i + 1].start
    requires ms != [] ==> off <= ms[0].start
    ensures CutItems(s[off..], Pairs(ms), kind).Success?
    decreases |ms|
  {
    if ms != [] {
      var m := ms[0];
      var mk := Markup(kind, m.caption, m.url);
      assert |mk| == m.end - m.start;
      var next := CutAtFirst(s, off, m.start, mk);
      CutFinds(s, ms[1..], next, kind);
      var items := Pairs(ms);
      assert items[0] == (m.caption, m.url) && items[1..] == Pairs(ms[1..]);
      CutItemsUnfold(s[off..], items, 0, kind);
      assert items[0..] == items;
    }
  }

  /** split_nodes never reaches its IndexError on a node: each extracted item's markup
      is found in what is left of the text. */
  lemma CutStepSucceeds(kind: TextType, n: TextNode)
    requires IsMarkupKind(kind)
    ensures StepNode(Cut(kind), n).Success?
  {
    var text := n.text;
    assert text[0..] == text;
    CutFinds(text, Scan(text, 0, kind), 0, kind);
  }

  /** split_nodes never reaches its IndexError, whatever the node list. */
  lemma CutNeverFails(kind: TextType, nodes: seq<TextNode>)
    requires IsMarkupKind(kind)
    ensures Apply(Cut(kind), nodes).Success?
  {
    var f := StepOf(Cut(kind));
    forall i | 0 <= i < |nodes|
      ensures f(nodes[i]).Success?
    {
      CutStepSucceeds(kind, nodes[i]);
    }
    FoldFails(f, nodes);
  }

  /** How a node is written back as text, as a function value. */
  type Writer = TextNode -> string

  /** The nodes written back one by one with w, concatenated in order. */
  function WriteAll(w: Writer, nodes: seq<TextNode>): string
    decreases |nodes|
  {
    if nodes == [] then "" else WriteAll(w, nodes[..|nodes| - 1]) + w(nodes[|nodes| - 1])
  }

  lemma WriteAllOne(w: Writer, n: TextNode)
    ensures WriteAll(w, [n]) == w(n)
  {
    assert [n][..0] == [];
    assert "" + w(n) == w(n);
  }

  /** One more node at the end writes back one more piece at the end. */
  lemma WriteAllSnoc(w: Writer, nodes: seq<TextNode>, n: TextNode)
    ensures WriteAll(w, nodes + [n]) == WriteAll(w, nodes) + w(n)
  {
    assert (nodes + [n])[..|nodes|] == nodes;
  }

  /** Writing back a list is writing back its parts one after the other. */
  lemma {:induction false} WriteAllAppend(w: Writer, a: seq<TextNode>, b: seq<TextNode>)
    ensures WriteAll(w, a + b) == WriteAll(w, a) + WriteAll(w, b)
    decreases |b|
  {
    if b == [] {
      assert a + b == a;
    } else {
      var front, n := b[..|b| - 1], b[|b| - 1];
      assert b == front + [n];
      assert a + b == (a + front) + [n];
      WriteAllSnoc(w, a + front, n);
      WriteAllAppend(w, a, front);
      WriteAllSnoc(w, front, n);
    }
  }

  /** A node written back as markdown for the pass of kind: a node of that kind with a
      url becomes its markup again, every other node is its text. */
  function Piece(kind: TextType): Writer
  {
    (n: TextNode) => if n.textType == kind && n.url.Some? then Markup(kind, n.text, n.url.value) else n.text
  }

  /** A node list written back as markdown for the pass of kind. */
  function Unparse(nodes: seq<TextNode>, kind: TextType): string
  {
    WriteAll(Piece(kind), nodes)
  }

  /** Cutting a text at its items loses nothing: the pieces written back are the text. */
  lemma {:induction false} CutItemsRoundTrip(text: string, items: seq<(string, string)>, kind: TextType)
    requires IsMarkupKind(kind) && CutItems(text, items, kind).Success?
    ensures Unparse(CutItems(text, items, kind).value, kind) == text
    decreases |items|
  {
    if items == [] {
      if text != "" {
        WriteAllOne(Piece(kind), TextNode(text, Text, None));
      }
    } else {
      var parts := SplitOnce(text, Markup(kind, items[0].0, items[0].1));
      var rest := CutItems(parts[1], items[1..], kind);
      var emit := Emit(parts[0], items[0], kind);
      CutItemsRoundTrip(parts[1], items[1..], kind);
      WriteAllAppend(Piece(kind), emit, rest.value);
      var item := TextNode(items[0].0, kind, Some(items[0].1));
      WriteAllOne(Piece(kind), item);
      if parts[0] != "" {
        WriteAllAppend(Piece(kind), [TextNode(parts[0], Text, None)], [item]);
        WriteAllOne(Piece(kind), TextNode(parts[0], Text, None));
      } else {
        assert emit == [item];
      }
      assert Unparse(emit, kind) == parts[0] + Markup(kind, items[0].0, items[0].1);
    }
  }

  /** One node cut by the pass of kind writes back to what the node wrote back as. */
  lemma StepRoundTrip(kind: TextType, n: TextNode)
    requires IsMarkupKind(kind)
    ensures StepNode(Cut(kind), n).Success?
    ensures Unparse(StepNode(Cut(kind), n).value, kind) == Piece(kind)(n)
  {
    CutStepSucceeds(kind, n);
    if n.textType == Text {
      var items := Extract(n.text, kind);
      if |items| == 0 {
        if n.text != "" {
          WriteAllOne(Piece(kind), n);
        }
      } else {
        CutItemsRoundTrip(n.text, items, kind);
      }
    } else {
      WriteAllOne(Piece(kind), n);
    }
  }

  /** A step whose results write back, with w, to what their node writes back as makes
      a pass that writes the whole list back unchanged. */
  lemma {:induction false} FoldRoundTrip(f: Step, w: Writer, nodes: seq<TextNode>)
    requires forall i :: 0 <= i < |nodes| ==>
      f(nodes[i]).Success? && WriteAll(w, f(nodes[i]).value) == w(nodes[i])
    ensures Fold(f, nodes).Success?
    ensures WriteAll(w, Fold(f, nodes).value) == WriteAll(w, nodes)
    decreases |nodes|
  {
    if nodes != [] {
      var front, last := nodes[..|nodes| - 1], nodes[|nodes| - 1];
      assert forall i :: 0 <= i < |front| ==> front[i] == nodes[i];
      FoldRoundTrip(f, w, front);
      FoldSnoc(f, front, last);
      WriteAllAppend(w, Fold(f, front).value, f(last).value);
    }
  }

  /** The pass of kind writes back to the markdown it read: for every node list, the
      result written back equals the input written back. */
  lemma CutRoundTrip(kind: TextType, nodes: seq<TextNode>)
    requires IsMarkupKind(kind)
    ensures Apply(Cut(kind), nodes).Success?
    ensures Unparse(Apply(Cut(kind), nodes).value, kind) == Unparse(nodes, kind)
  {
    var f := StepOf(Cut(kind));
    forall i | 0 <= i < |nodes|
      ensures f(nodes[i]).Success? && Unparse(f(nodes[i]).value, kind) == Piece(kind)(nodes[i])
    {
      StepRoundTrip(kind, nodes[i]);
    }
    FoldRoundTrip(f, Piece(kind), nodes);
  }

  // ---------------------------------------------------------------------------
  // The delimiter splitter
  // ---------------------------------------------------------------------------

  /** Every piece of a split as a node: even indexes plain text, odd indexes of type t. */
  function Typed(pieces: seq<string>, t: TextType): (r: seq<TextNode>)
    ensures |r| == |pieces|
  {
    seq(|pieces|, i requires 0 <= i < |pieces| => TextNode(pieces[i], if i % 2 == 0 then Text else t, None))
  }

  /** The nodes with a non-empty text, in order. */
  function KeepNonEmpty(nodes: seq<TextNode>): seq<TextNode>
    decreases |nodes|
  {
    if nodes == [] then []
    else
      var n := nodes[|nodes| - 1];
      KeepNonEmpty(nodes[..|nodes| - 1]) + (if n.text != "" then [n] else [])
  }

  lemma KeepNonEmptySnoc(nodes: seq<TextNode>, n: TextNode)
    ensures KeepNonEmpty(nodes + [n]) == KeepNonEmpty(nodes) + (if n.text != "" then [n] else [])
  {
    assert (nodes + [n])[..|nodes|] == nodes;
  }

  /** The index loop of split_nodes_delimiter is the typing of every piece followed by
      dropping the empty ones. */
  lemma {:induction false} ConvertIsKeepTyped(pieces: seq<string>, t: TextType)
    ensures Convert(pieces, t) == KeepNonEmpty(Typed(pieces, t))
    decreases |pieces|
  {
    if pieces != [] {
      var i := |pieces| - 1;
      ConvertIsKeepTyped(pieces[..i], t);
      var last := TextNode(pieces[i], if i % 2 == 0 then Text else t, None);
      assert Typed(pieces, t) == Typed(pieces[..i], t) + [last];
      KeepNonEmptySnoc(Typed(pieces[..i], t), last);
    }
  }

  /** The texts of a node list. */
  function Texts(nodes: seq<TextNode>): (r: seq<string>)
    ensures |r| == |nodes|
  {
    seq(|nodes|, i requires 0 <= i < |nodes| => nodes[i].text)
  }

  /** Texts of a list with one more node. */
  lemma TextsSnoc(nodes: seq<TextNode>, n: TextNode)
    ensures Texts(nodes + [n]) == Texts(nodes) + [n.text]
  {
  }

  /** The converted nodes hold the pieces' characters, in order. */
  lemma {:induction false} ConvertTexts(pieces: seq<string>, t: TextType)
    ensures Concat(Texts(Convert(pieces, t))) == Concat(pieces)
    decreases |pieces|
  {
    if pieces != [] {
      var i := |pieces| - 1;
      var before, p := pieces[..i], pieces[i];
      var front := Convert(before, t);
      ConvertTexts(before, t);
      assert pieces == before + [p];
      ConcatSnoc(before, p);
      if p != "" {
        var last := TextNode(p, if i % 2 == 0 then Text else t, None);
        assert Convert(pieces, t) == front + [last];
        TextsSnoc(front, last);
        ConcatSnoc(Texts(front), p);
      } else {
        assert Convert(pieces, t) == front;
        assert Concat(before) + p == Concat(before);
      }
    }
  }

  /** What the delimiter pass does to one plain node: it fails exactly when the number
      of pieces is even (an unclosed section); otherwise the nodes are the typed
      non-empty pieces, and their texts are the text with every delimiter removed. */
  lemma DelimitNode(d: string, t: TextType, n: TextNode)
    requires |d| > 0 && n.textType == Text
    ensures StepNode(Delimit(d, t), n).Failure? <==> |Split(n.text, d)| % 2 == 0
    ensures StepNode(Delimit(d, t), n).Failure? ==> StepNode(Delimit(d, t), n).error == SectionNotClosed
    ensures StepNode(Delimit(d, t), n).Success? ==>
      StepNode(Delimit(d, t), n).value == KeepNonEmpty(Typed(Split(n.text, d), t)) &&
      Concat(Texts(StepNode(Delimit(d, t), n).value)) == RemoveAll(n.text, d)
  {
    var pieces := Split(n.text, d);
    ConvertIsKeepTyped(pieces, t);
    ConvertTexts(pieces, t);
    ConcatSplit(n.text, d);
  }

  /** A plain non-empty text with no delimiter in it is left alone by the pass. */
  lemma DelimitFree(d: string, t: TextType, x: string)
    requires |d| > 0 && x != "" && Free(x, d)
    ensures Fixed(StepOf(Delimit(d, t)), TextNode(x, Text, None))
  {
    assert Split(x, d) == [x];
    assert [x][..0] == [];
    assert Convert([x], t) == [] + [TextNode(x, Text, None)];
    assert d != [];
    assert |Split(x, d)| % 2 == 1;
    assert StepNode(Delimit(d, t), TextNode(x, Text, None)) == Success(Convert([x], t));
    assert Convert([x], t) == [TextNode(x, Text, None)];
  }

  /** The pass rebuilds a plain node from its pieces, so a url on the node is lost:
      the node is not left as it is, even without a delimiter in its text. */
  lemma DelimitDropsUrl(d: string, t: TextType, x: string, u: string)
    requires |d| > 0 && x != "" && Free(x, d)
    ensures StepNode(Delimit(d, t), TextNode(x, Text, Some(u))) == Success([TextNode(x, Text, None)])
    ensures !Fixed(StepOf(Delimit(d, t)), TextNode(x, Text, Some(u)))
  {
    DelimitFree(d, t, x);
    assert Split(x, d) == [x];
  }

  /** Each node the delimiter pass makes is left alone by a second pass. */
  lemma DelimitStepFixed(d: string, t: TextType, n: TextNode)
    requires |d| > 0 && StepNode(Delimit(d, t), n).Success?
    ensures forall k :: 0 <= k < |StepNode(Delimit(d, t), n).value| ==>
      Fixed(StepOf(Delimit(d, t)), StepNode(Delimit(d, t), n).value[k])
  {
    var out := StepNode(Delimit(d, t), n).value;
    if n.textType == Text {
      var pieces := Split(n.text, d);
      forall k | 0 <= k < |out|
        ensures Fixed(StepOf(Delimit(d, t)), out[k])
      {
        if out[k].textType == Text {
          var j :| 0 <= j < |pieces| && pieces[j] == out[k].text;
          DelimitFree(d, t, out[k].text);
        }
      }
    }
  }

  /** The delimiter pass is idempotent: running it on its own result changes nothing. */
  lemma DelimitIdempotent(d: string, t: TextType, nodes: seq<TextNode>)
    requires |d| > 0 && Apply(Delimit(d, t), nodes).Success?
    ensures Apply(Delimit(d, t), Apply(Delimit(d, t), nodes).value) == Apply(Delimit(d, t), nodes)
  {
    var st := Delimit(d, t);
    var f := StepOf(st);
    forall i | 0 <= i < |nodes| && f(nodes[i]).Success?
      ensures forall k :: 0 <= k < |f(nodes[i]).value| ==> Fixed(f, f(nodes[i]).value[k])
    {
      DelimitStepFixed(d, t, nodes[i]);
    }
    FoldKeeps(f, nodes, n => Fixed(f, n));
    FoldFixed(f, Fold(f, nodes).value);
  }

  // ---------------------------------------------------------------------------
  // The pipeline
  // ---------------------------------------------------------------------------

  /** The shape of every node text_to_textnodes returns: plain and delimited spans are
      non-empty and carry no url, images and links carry one, no other type occurs. */
  predicate WellFormed(n: TextNode)
  {
    match n.textType
    case Text => n.text != "" && n.url.None?
    case Bold => n.text != "" && n.url.None?
    case Italic => n.text != "" && n.url.None?
    case Code => n.text != "" && n.url.None?
    case Link => n.url.Some?
    case Image => n.url.Some?
    case Other => false
  }

  /** The stages text_to_textnodes uses. */
  predicate InPipeline(st: Stage)
  {
    match st
    case Delimit(_, t) => t == Bold || t == Italic || t == Code
    case Cut(kind) => IsMarkupKind(kind)
  }

  lemma {:induction false} CutItemsWellFormed(text: string, items: seq<(string, string)>, kind: TextType)
    requires IsMarkupKind(kind) && CutItems(text, items, kind).Success?
    ensures forall k :: 0 <= k < |CutItems(text, items, kind).value| ==> WellFormed(CutItems(text, items, kind).value[k])
    decreases |items|
  {
    if items != [] {
      var parts := SplitOnce(text, Markup(kind, items[0].0, items[0].1));
      CutItemsWellFormed(parts[1], items[1..], kind);
    }
  }

  /** One stage of the pipeline makes well-formed nodes of a well-formed node. */
  lemma StepWellFormed(st: Stage, n: TextNode)
    requires InPipeline(st) && WellFormed(n) && StepNode(st, n).Success?
    ensures forall k :: 0 <= k < |StepNode(st, n).value| ==> WellFormed(StepNode(st, n).value[k])
  {
    if n.textType == Text && st.Cut? {
      var items := Extract(n.text, st.kind);
      if |items| > 0 {
        CutItemsWellFormed(n.text, items, st.kind);
      }
    }
  }

  /** Each stage of the pipeline keeps a list well formed. */
  lemma PassWellFormed(st: Stage, nodes: seq<TextNode>)
    requires InPipeline(st) && forall i :: 0 <= i < |nodes| ==> WellFormed(nodes[i])
    ensures Apply(st, nodes).Success? ==>
      forall k :: 0 <= k < |Apply(st, nodes).value| ==> WellFormed(Apply(st, nodes).value[k])
  {
    var f := StepOf(st);
    forall i | 0 <= i < |nodes| && f(nodes[i]).Success?
      ensures forall k :: 0 <= k < |f(nodes[i]).value| ==> WellFormed(f(nodes[i]).value[k])
    {
      StepWellFormed(st, nodes[i]);
    }
    FoldKeeps(f, nodes, WellFormed);
  }

  /** An empty text makes no nodes at all. */
  lemma TokenizeEmpty()
    ensures Tokenize("") == Success([])
  {
    var empty := TextNode("", Text, None);
    assert Split("", "**") == [""];
    assert Convert([""], Bold) == [];
    FoldOne(StepOf(Delimit("**", Bold)), empty);
  }

  /** Every node text_to_textnodes returns is well formed. */
  lemma TokenizeWellFormed(text: string)
    ensures Tokenize(text).Success? ==>
      forall k :: 0 <= k < |Tokenize(text).value| ==> WellFormed(Tokenize(text).value[k])
  {
    if text == "" {
      TokenizeEmpty();
    } else {
      var bold := Apply(Delimit("**", Bold), [TextNode(text, Text, None)]);
      PassWellFormed(Delimit("**", Bold), [TextNode(text, Text, None)]);
      if bold.Success? {
        var italic := Apply(Delimit("_", Italic), bold.value);
        PassWellFormed(Delimit("_", Italic), bold.value);
        if italic.Success? {
          var code := Apply(Delimit("`", Code), italic.value);
          PassWellFormed(Delimit("`", Code), italic.value);
          if code.Success? {
            var images := Apply(Cut(Image), code.value);
            PassWellFormed(Cut(Image), code.value);
            if images.Success? {
              PassWellFormed(Cut(Link), images.value);
            }
          }
        }
      }
    }
  }

  /** A delimiter pass fails only on an unclosed section. */
  lemma DelimitError(d: string, t: TextType, nodes: seq<TextNode>)
    requires |d| > 0 && Apply(Delimit(d, t), nodes).Failure?
    ensures Apply(Delimit(d, t), nodes).error == SectionNotClosed
  {
    var f := StepOf(Delimit(d, t));
    forall i | 0 <= i < |nodes| && f(nodes[i]).Failure?
      ensures f(nodes[i]).error == SectionNotClosed
    {
    }
    FoldError(f, nodes, SectionNotClosed);
  }

  /** The only error text_to_textnodes raises is the unclosed section of a delimiter:
      the image and link passes never fail. */
  lemma TokenizeError(text: string)
    requires Tokenize(text).Failure?
    ensures Tokenize(text).error == SectionNotClosed
  {
    var bold := Apply(Delimit("**", Bold), [TextNode(text, Text, None)]);
    if bold.Failure? {
      DelimitError("**", Bold, [TextNode(text, Text, None)]);
    } else {
      var italic := Apply(Delimit("_", Italic), bold.value);
      if italic.Failure? {
        DelimitError("_", Italic, bold.value);
      } else {
        var code := Apply(Delimit("`", Code), italic.value);
        if code.Failure? {
          DelimitError("`", Code, italic.value);
        } else {
          CutNeverFails(Image, code.value);
          CutNeverFails(Link, Apply(Cut(Image), code.value).value);
        }
      }
    }
  }

  /** An odd number of "**" in the text is an unclosed bold section. */
  lemma TokenizeUnclosedBold(text: string)
    requires |Split(text, "**")| % 2 == 0
    ensures Tokenize(text) == Failure(SectionNotClosed)
  {
    var n := TextNode(text, Text, None);
    assert StepNode(Delimit("**", Bold), n) == Failure(SectionNotClosed);
    FoldOne(StepOf(Delimit("**", Bold)), n);
  }

  /** Without '[' there is nothing for either pattern to match. */
  lemma ScanNoBracket(s: string, p: nat, kind: TextType)
    requires IsMarkupKind(kind) && p <= |s| && forall i :: 0 <= i < |s| ==> s[i] != '['
    ensures Scan(s, p, kind) == []
  {
    forall i | p <= i < |s|
      ensures MatchAt(s, i, kind).None?
    {
    }
    ScanNone(s, p, kind);
  }

  /** A plain node in whose text the pattern of kind finds nothing, whatever its url:
      the pass of kind keeps it when its text is not empty and drops it when it is. */
  lemma CutFree(kind: TextType, n: TextNode)
    requires IsMarkupKind(kind) && n.textType == Text && Extract(n.text, kind) == []
    ensures n.text != "" ==> Fixed(StepOf(Cut(kind)), n)
    ensures n.text == "" ==> StepNode(Cut(kind), n) == Success([])
  {
  }

  /** A non-empty text with no delimiter and nothing either pattern matches is one plain
      node. */
  lemma TokenizePlain(text: string)
    requires text != "" && Free(text, "**") && Free(text, "_") && Free(text, "`")
    requires Extract(text, Image) == [] && Extract(text, Link) == []
    ensures Tokenize(text) == Success([TextNode(text, Text, None)])
  {
    var n := TextNode(text, Text, None);
    DelimitFree("**", Bold, text);
    FoldOne(StepOf(Delimit("**", Bold)), n);
    DelimitFree("_", Italic, text);
    FoldOne(StepOf(Delimit("_", Italic)), n);
    DelimitFree("`", Code, text);
    FoldOne(StepOf(Delimit("`", Code)), n);
    CutFree(Image, n);
    FoldOne(StepOf(Cut(Image)), n);
    CutFree(Link, n);
    FoldOne(StepOf(Cut(Link)), n);
  }

  /** A text without '[' has nothing for either pattern to match. */
  lemma NoBracketNoItems(x: string)
    requires forall i :: 0 <= i < |x| ==> x[i] != '['
    ensures Extract(x, Image) == [] && Extract(x, Link) == []
  {
    ScanNoBracket(x, 0, Image);
    ScanNoBracket(x, 0, Link);
  }

  /** Text with no delimiter and nothing either pattern matches: what the pipeline
      keeps as one plain node. */
  predicate Plain(x: string)
  {
    x != "" && Free(x, "**") && Free(x, "_") && Free(x, "`") && Extract(x, Image) == [] && Extract(x, Link) == []
  }

  /** The first "**" of a + "**" + rest is the one after a, when a holds none and does
      not end in '*'. */
  lemma SplitAfter(a: string, rest: string)
    requires Free(a, "**") && (a == [] || a[|a| - 1] != '*')
    ensures Split(a + "**" + rest, "**") == [a] + Split(rest, "**")
  {
    var t := a + "**" + rest;
    assert t[|a|..|a| + 2] == "**";
    forall j | 0 <= j < |a|
      ensures !OccursAt(t, "**", j)
    {
      if j + 2 <= |a| {
        assert t[j..j + 2] == a[j..j + 2];
        assert !OccursAt(a, "**", j);
      } else {
        assert t[j..j + 2][0] == t[j] == a[|a| - 1];
      }
    }
    assert OccursAt(t, "**", |a|);
    assert !Free(t, "**");
    var r := IndexOf(t, "**").value;
    assert r == |a|;
    assert t[..|a|] == a && t[|a| + 2..] == rest;
  }

  lemma BoldSplit(a: string, x: string, b: string)
    requires Plain(a) && Plain(b) && a[|a| - 1] != '*'
    requires x != "" && Free(x, "**") && x[|x| - 1] != '*'
    ensures Split(a + "**" + x + "**" + b, "**") == [a, x, b]
  {
    SplitAfter(a, x + "**" + b);
    assert a + "**" + x + "**" + b == a + "**" + (x + "**" + b);
    SplitAfter(x, b);
    assert Split(b, "**") == [b];
  }

  /** One more piece adds its node, typed by the parity of its index, when it is not
      empty. */
  lemma ConvertSnoc(pieces: seq<string>, p: string, t: TextType)
    ensures Convert(pieces + [p], t)
         == Convert(pieces, t) + if p != "" then [TextNode(p, if |pieces| % 2 == 0 then Text else t, None)] else []
  {
    assert (pieces + [p])[..|pieces|] == pieces;
  }

  lemma ConvertTwo(a: string, x: string, t: TextType)
    requires a != "" && x != ""
    ensures Convert([a, x], t) == [TextNode(a, Text, None), TextNode(x, t, None)]
  {
    assert [a][..0] == [];
    assert Convert([a], t) == [] + [TextNode(a, Text, None)];
    assert [a] + [x] == [a, x];
    ConvertSnoc([a], x, t);
  }

  lemma ConvertThree(a: string, x: string, b: string, t: TextType)
    requires a != "" && x != "" && b != ""
    ensures Convert([a, x, b], t) == [TextNode(a, Text, None), TextNode(x, t, None), TextNode(b, Text, None)]
  {
    ConvertTwo(a, x, t);
    assert [a, x] + [b] == [a, x, b];
    ConvertSnoc([a, x], b, t);
  }

  /** The bold pass cuts a + "**" + x + "**" + b into its three spans. */
  lemma BoldPass(a: string, x: string, b: string)
    requires Plain(a) && Plain(b) && a[|a| - 1] != '*'
    requires x != "" && Free(x, "**") && x[|x| - 1] != '*'
    ensures Apply(Delimit("**", Bold), [TextNode(a + "**" + x + "**" + b, Text, None)])
         == Success([TextNode(a, Text, None), TextNode(x, Bold, None), TextNode(b, Text, None)])
  {
    var n := TextNode(a + "**" + x + "**" + b, Text, None);
    BoldSplit(a, x, b);
    ConvertThree(a, x, b, Bold);
    FoldOne(StepOf(Delimit("**", Bold)), n);
  }

  /** A pass that leaves three nodes alone leaves the list of them alone. */
  lemma FixedThree(f: Step, x: TextNode, y: TextNode, z: TextNode)
    requires Fixed(f, x) && Fixed(f, y) && Fixed(f, z)
    ensures Fold(f, [x, y, z]) == Success([x, y, z])
  {
    FoldFixed(f, [x, y, z]);
  }

  /** The passes after the bold one leave two plain texts around a bold span alone. */
  lemma AfterBold(a: string, x: string, b: string)
    requires Plain(a) && Plain(b)
    ensures var nodes := [TextNode(a, Text, None), TextNode(x, Bold, None), TextNode(b, Text, None)];
      Apply(Delimit("_", Italic), nodes) == Success(nodes) &&
      Apply(Delimit("`", Code), nodes) == Success(nodes) &&
      Apply(Cut(Image), nodes) == Success(nodes) &&
      Apply(Cut(Link), nodes) == Success(nodes)
  {
    var na, y, nb := TextNode(a, Text, None), TextNode(x, Bold, None), TextNode(b, Text, None);
    DelimitFree("_", Italic, a);
    DelimitFree("_", Italic, b);
    SpanFixed(Delimit("_", Italic), y);
    FixedThree(StepOf(Delimit("_", Italic)), na, y, nb);
    DelimitFree("`", Code, a);
    DelimitFree("`", Code, b);
    SpanFixed(Delimit("`", Code), y);
    FixedThree(StepOf(Delimit("`", Code)), na, y, nb);
    CutFree(Image, na);
    CutFree(Image, nb);
    SpanFixed(Cut(Image), y);
    FixedThree(StepOf(Cut(Image)), na, y, nb);
    CutFree(Link, na);
    CutFree(Link, nb);
    SpanFixed(Cut(Link), y);
    FixedThree(StepOf(Cut(Link)), na, y, nb);
  }

  /** A bold span between two plain texts: the three nodes test_bold_text expects. */
  lemma TokenizeBold(a: string, x: string, b: string)
    requires Plain(a) && Plain(b) && a[|a| - 1] != '*'
    requires x != "" && Free(x, "**") && x[|x| - 1] != '*'
    ensures Tokenize(a + "**" + x + "**" + b)
         == Success([TextNode(a, Text, None), TextNode(x, Bold, None), TextNode(b, Text, None)])
  {
    BoldPass(a, x, b);
    AfterBold(a, x, b);
  }
}
