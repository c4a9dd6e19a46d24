/** The few operations on Python strings that the modelled code relies on:
    find, split (unbounded and with maxsplit 1), join, strip of one character,
    and the whitespace class of Python's regular expressions. */
module Strings {
  import opened Wrappers

  /** s holds the text d starting at index j. */
  predicate OccursAt(s: string, d: string, j: int)
  {
    0 <= j && j + |d| <= |s| && s[j..j + |d|] == d
  }

  /** d occurs nowhere in s. */
  predicate Free(s: string, d: string)
  {
    forall j :: 0 <= j <= |s| ==> !OccursAt(s, d, j)
  }

  /** The first index at or after p where d occurs in s, as str.find(d, p). */
  function IndexFrom(s: string, d: string, p: nat): (r: Option<nat>)
    decreases |s| - p
    ensures r.Some? ==> p <= r.value && OccursAt(s, d, r.value)
    ensures r.Some? ==> forall j :: p <= j < r.value ==> !OccursAt(s, d, j)
    ensures r.None? ==> forall j :: p <= j ==> !OccursAt(s, d, j)
  {
    if p + |d| > |s| then None
    else if s[p..p + |d|] == d then Some(p)
    else IndexFrom(s, d, p + 1)
  }

  /** The first index where d occurs in s, as str.find(d). */
  function IndexOf(s: string, d: string): (r: Option<nat>)
    ensures r.Some? <==> !Free(s, d)
    ensures r.Some? ==> OccursAt(s, d, r.value)
    ensures r.Some? ==> forall j :: 0 <= j < r.value ==> !OccursAt(s, d, j)
  {
    IndexFrom(s, d, 0)
  }

  /** Within a window w of s that starts at a, d occurs at j just when it occurs in s
      at a + j. */
  lemma OccursInWindow(s: string, d: string, a: nat, w: string, j: nat)
    requires a + |w| <= |s| && w == s[a..a + |w|] && j + |d| <= |w|
    ensures OccursAt(w, d, j) <==> OccursAt(s, d, a + j)
  {
    var x, y := w[j..j + |d|], s[a + j..a + j + |d|];
    forall i | 0 <= i < |d|
      ensures x[i] == y[i]
    {
      assert x[i] == w[j + i] == s[a + j + i];
    }
    assert x == y;
  }

  /** A window of a text without d holds no d either. */
  lemma WindowFree(s: string, d: string, a: nat, w: string)
    requires a + |w| <= |s| && w == s[a..a + |w|] && Free(s, d)
    ensures Free(w, d)
  {
    forall j | 0 <= j <= |w| && j + |d| <= |w|
      ensures !OccursAt(w, d, j)
    {
      OccursInWindow(s, d, a, w, j);
    }
  }

  /** When no occurrence of d starts before n, the first n characters hold none. */
  lemma PrefixFree(s: string, d: string, n: nat)
    requires |d| > 0 && n <= |s|
    requires forall j :: 0 <= j < n ==> !OccursAt(s, d, j)
    ensures Free(s[..n], d)
  {
    var w := s[..n];
    assert w == s[0..0 + |w|];
    forall j | 0 <= j <= n && j + |d| <= n
      ensures !OccursAt(w, d, j)
    {
      OccursInWindow(s, d, 0, w, j);
    }
  }

  /** The pieces joined back with sep in between, as sep.join(pieces). */
  function Join(pieces: seq<string>, sep: string): (r: string)
    ensures |pieces| > 0 ==> pieces[0] <= r
  {
    if |pieces| == 0 then ""
    else if |pieces| == 1 then pieces[0]
    else pieces[0] + sep + Join(pieces[1..], sep)
  }

  /** Joining two non-empty runs of pieces puts one separator between their joins. */
  lemma {:induction false} JoinAppend(a: seq<string>, b: seq<string>, sep: string)
    requires |a| > 0 && |b| > 0
    ensures Join(a + b, sep) == Join(a, sep) + sep + Join(b, sep)
    decreases |a|
  {
    if |a| == 1 {
      assert (a + b)[1..] == b;
    } else {
      assert (a + b)[1..] == a[1..] + b;
      JoinAppend(a[1..], b, sep);
    }
  }

  /** The pieces concatenated, as "".join(pieces). */
  function Concat(pieces: seq<string>): string
  {
    Join(pieces, "")
  }

  /** Adding one piece at the end of a concatenation appends it. */
  lemma ConcatSnoc(a: seq<string>, x: string)
    ensures Concat(a + [x]) == Concat(a) + x
  {
    if |a| == 0 {
      assert a + [x] == [x];
    } else {
      JoinAppend(a, [x], "");
    }
  }

  /** x followed by d holds no occurrence of d that starts inside x: cutting x + d at
      its first d gives back x. */
  predicate Leftmost(x: string, d: string)
  {
    forall j :: 0 <= j < |x| ==> !OccursAt(x + d, d, j)
  }

  /** The text before the first occurrence of d, at i, is cut at its leftmost d. */
  lemma LeftmostPrefix(s: string, d: string, i: nat)
    requires OccursAt(s, d, i) && forall j :: 0 <= j < i ==> !OccursAt(s, d, j)
    ensures Leftmost(s[..i], d)
  {
    var w := s[..i] + d;
    assert w == s[0..0 + |w|];
    forall j | 0 <= j < i
      ensures !OccursAt(w, d, j)
    {
      OccursInWindow(s, d, 0, w, j);
    }
  }

  /** s cut at every occurrence of d, left to right, as s.split(d) for a non-empty d:
      each cut is at the leftmost occurrence of d in what is left. */
  function Split(s: string, d: string): (pieces: seq<string>)
    requires |d| > 0
    decreases |s|
    ensures |pieces| >= 1
    ensures Join(pieces, d) == s
    ensures forall k :: 0 <= k < |pieces| ==> Free(pieces[k], d)
    ensures forall k :: 0 <= k < |pieces| - 1 ==> Leftmost(pieces[k], d)
  {
    match IndexOf(s, d)
    case None => [s]
    case Some(i) =>
      var rest := Split(s[i + |d|..], d);
      assert s == s[..i] + d + s[i + |d|..];
      PrefixFree(s, d, i);
      LeftmostPrefix(s, d, i);
      [s[..i]] + rest
  }

  /** Split is the only way to cut s at occurrences of d into pieces that hold no d,
      each cut at the leftmost occurrence of d in what is left. */
  lemma {:induction false} SplitUnique(s: string, d: string, ps: seq<string>)
    requires |d| > 0 && |ps| >= 1 && Join(ps, d) == s
    requires forall k :: 0 <= k < |ps| ==> Free(ps[k], d)
    requires forall k :: 0 <= k < |ps| - 1 ==> Leftmost(ps[k], d)
    ensures Split(s, d) == ps
    decreases |ps|
  {
    var x := ps[0];
    if |ps| == 1 {
      assert s == x;
    } else {
      var rest := ps[1..];
      var t := Join(rest, d);
      assert ps == [x] + rest;
      JoinCons(x, rest, d);
      assert s[|x|..|x| + |d|] == d;
      assert OccursAt(s, d, |x|);
      var w := x + d;
      assert w == s[0..0 + |w|];
      forall j | 0 <= j < |x|
        ensures !OccursAt(s, d, j)
      {
        OccursInWindow(s, d, 0, w, j);
      }
      var i := IndexOf(s, d).value;
      assert i == |x|;
      assert s[..i] == x && s[i + |d|..] == t;
      SplitUnique(t, d, rest);
    }
  }

  /** s cut at the first occurrence of d only, as s.split(d, 1) for a non-empty d. */
  function SplitOnce(s: string, d: string): (parts: seq<string>)
    requires |d| > 0
    ensures |parts| == 1 || |parts| == 2
    ensures |parts| == 1 <==> Free(s, d)
    ensures |parts| == 1 ==> parts[0] == s
    ensures |parts| == 2 ==> parts[0] + d + parts[1] == s && Free(parts[0], d)
    ensures |parts| == 2 ==> forall j :: 0 <= j < |parts[0]| ==> !OccursAt(s, d, j)
  {
    match IndexOf(s, d)
    case None => [s]
    case Some(i) =>
      assert s == s[..i] + d + s[i + |d|..];
      PrefixFree(s, d, i);
      [s[..i], s[i + |d|..]]
  }

  /** s with every occurrence of d taken out, found by a left-to-right scan:
      a second description of what joining the pieces of Split gives. */
  function RemoveAll(s: string, d: string): string
    requires |d| > 0
    decreases |s|
  {
    if |s| == 0 then ""
    else if OccursAt(s, d, 0) then RemoveAll(s[|d|..], d)
    else [s[0]] + RemoveAll(s[1..], d)
  }

  lemma {:induction false} RemoveAllFree(s: string, d: string)
    requires |d| > 0 && Free(s, d)
    ensures RemoveAll(s, d) == s
    decreases |s|
  {
    if |s| > 0 {
      assert !OccursAt(s, d, 0);
      var t := s[1..];
      assert t == s[1..1 + |t|];
      forall j | 0 <= j <= |t| && j + |d| <= |t| ensures !OccursAt(t, d, j) {
        OccursInWindow(s, d, 1, t, j);
      }
      RemoveAllFree(s[1..], d);
    }
  }

  /** The characters before the first occurrence of d are kept as they are. */
  lemma {:induction false} RemoveAllPrefix(s: string, d: string, i: nat)
    requires |d| > 0 && i <= |s|
    requires forall j :: 0 <= j < i ==> !OccursAt(s, d, j)
    ensures RemoveAll(s, d) == s[..i] + RemoveAll(s[i..], d)
    decreases i
  {
    if i > 0 {
      var t := s[1..];
      assert !OccursAt(s, d, 0);
      assert t == s[1..1 + |t|];
      forall j | 0 <= j < i - 1 ensures !OccursAt(t, d, j) {
        if j + |d| <= |t| { OccursInWindow(s, d, 1, t, j); }
      }
      RemoveAllPrefix(t, d, i - 1);
      assert t[i - 1..] == s[i..];
      assert [s[0]] + t[..i - 1] == s[..i];
    } else {
      assert s[..0] + RemoveAll(s[0..], d) == RemoveAll(s, d);
    }
  }

  /** Removal skips the first occurrence of d and carries on after it. */
  lemma RemoveAllUpTo(s: string, d: string, i: nat)
    requires |d| > 0 && OccursAt(s, d, i)
    requires forall j :: 0 <= j < i ==> !OccursAt(s, d, j)
    ensures RemoveAll(s, d) == s[..i] + RemoveAll(s[i + |d|..], d)
  {
    RemoveAllPrefix(s, d, i);
    var u := s[i..];
    assert u[..|d|] == s[i..i + |d|];
    assert OccursAt(u, d, 0);
    assert u[|d|..] == s[i + |d|..];
  }

  lemma JoinCons(a: string, t: seq<string>, sep: string)
    requires |t| > 0
    ensures Join([a] + t, sep) == a + sep + Join(t, sep)
  {
    assert ([a] + t)[1..] == t;
  }

  /** Joining the pieces of a split without the separator removes every occurrence of it. */
  lemma {:induction false} ConcatSplit(s: string, d: string)
    requires |d| > 0
    ensures Concat(Split(s, d)) == RemoveAll(s, d)
    decreases |s|
  {
    var r := IndexOf(s, d);
    if r.None? {
      assert Split(s, d) == [s];
      RemoveAllFree(s, d);
    } else {
      var i := r.value;
      var rest := s[i + |d|..];
      var tail := Split(rest, d);
      assert Split(s, d) == [s[..i]] + tail;
      ConcatSplit(rest, d);
      RemoveAllUpTo(s, d, i);
      JoinCons(s[..i], tail, "");
      calc {
        Concat(Split(s, d));
        Join([s[..i]] + tail, "");
        s[..i] + "" + Join(tail, "");
        { assert s[..i] + "" == s[..i]; }
        s[..i] + RemoveAll(rest, d);
      }
    }
  }

  /** s without its leading run of c. */
  function StripLeading(s: string, c: char): (r: string)
    decreases |s|
    ensures |r| <= |s| && r == s[|s| - |r|..]
    ensures forall k :: 0 <= k < |s| - |r| ==> s[k] == c
    ensures r == [] || r[0] != c
  {
    if |s| > 0 && s[0] == c then StripLeading(s[1..], c) else s
  }

  /** s without its trailing run of c. */
  function StripTrailing(s: string, c: char): (r: string)
    decreases |s|
    ensures |r| <= |s| && r == s[..|r|]
    ensures forall k :: |r| <= k < |s| ==> s[k] == c
    ensures r == [] || r[|r| - 1] != c
  {
    if |s| > 0 && s[|s| - 1] == c then StripTrailing(s[..|s| - 1], c) else s
  }

  /** s without c at either end, as s.strip(c): neither end of the result is c. */
  function Strip(s: string, c: char): (r: string)
    ensures r == [] || (r[0] != c && r[|r| - 1] != c)
  {
    var t := StripLeading(s, c);
    var r := StripTrailing(t, c);
    assert r == [] || r[0] == t[0];
    r
  }

  /** What Strip removes is a run of c at each end: the result is the window of s
      that starts at the returned offset, with only c before and after it. */
  lemma StripWindow(s: string, c: char) returns (a: nat)
    ensures a + |Strip(s, c)| <= |s| && Strip(s, c) == s[a..a + |Strip(s, c)|]
    ensures forall k :: 0 <= k < a ==> s[k] == c
    ensures forall k :: a + |Strip(s, c)| <= k < |s| ==> s[k] == c
  {
    var t := StripLeading(s, c);
    var r := StripTrailing(t, c);
    a := |s| - |t|;
    assert Strip(s, c) == r;
    assert t == s[a..] && r == t[..|r|];
    assert r == s[a..a + |r|];
    forall k | a + |r| <= k < |s|
      ensures s[k] == c
    {
      assert s[k] == t[k - a];
    }
  }

  /** The characters Python's regular expressions match with \s in a str pattern
      (the characters for which str.isspace holds). */
  predicate IsSpace(ch: char)
  {
    ch == ' ' || ch == '\t' || ch == '\n' || ch == '\r' || ch == '\U{0B}' || ch == '\U{0C}'
    || ('\U{1C}' <= ch <= '\U{1F}') || ch == '\U{85}' || ch == '\U{A0}' || ch == '\U{1680}'
    || ('\U{2000}' <= ch <= '\U{200A}') || ch == '\U{2028}' || ch == '\U{2029}'
    || ch == '\U{202F}' || ch == '\U{205F}' || ch == '\U{3000}'
  }

  /** s is empty or every character of it is whitespace: re.fullmatch(r'^\s*$', s) succeeds. */
  predicate IsBlank(s: string)
  {
    forall k :: 0 <= k < |s| ==> IsSpace(s[k])
  }
}
