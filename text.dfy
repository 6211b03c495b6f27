/**
  String primitives that the log tailer takes from Python: `startswith`,
  `in` on strings, `str.strip()`, `str.split('\n')`, and the greedy runs of a
  character class that its regular expressions match.
 */
module Text {
  import opened Wrappers

  /** `s.startswith(p)` */
  predicate HasPrefix(s: string, p: string) {
    |p| <= |s| && s[..|p|] == p
  }

  /** `p` occurs in `s` starting at index `i`. */
  predicate OccursAt(s: string, p: string, i: nat) {
    i + |p| <= |s| && s[i..i + |p|] == p
  }

  /** Python's `p in s` on strings. */
  ghost predicate Contains(s: string, p: string) {
    exists i: nat :: OccursAt(s, p, i)
  }

  lemma {:induction false} OccursAtTail(s: string, p: string, i: nat)
    requires |s| > 0
    ensures OccursAt(s, p, i + 1) <==> OccursAt(s[1..], p, i)
  {
    if i + 1 + |p| <= |s| {
      assert s[1..][i..i + |p|] == s[i + 1..i + 1 + |p|];
    }
  }

  /** An occurrence in `text` is an occurrence in any string that ends with `text`. */
  lemma ContainsAfter(prefix: string, text: string, p: string)
    requires Contains(text, p)
    ensures Contains(prefix + text, p)
  {
    var i: nat :| OccursAt(text, p, i);
    assert (prefix + text)[|prefix| + i..|prefix| + i + |p|] == text[i..i + |p|];
    assert OccursAt(prefix + text, p, |prefix| + i);
  }

  /**
    The first index at which `p` occurs in `s`, if any: the search behind
    `p in s`, and the first-occurrence scans of the lazy `(.*?)` and of a
    quoted `[^q]+`.
   */
  function Find(s: string, p: string): (r: Option<nat>)
    ensures r.Some? ==> OccursAt(s, p, r.value)
    ensures r.Some? ==> forall i: nat :: i < r.value ==> !OccursAt(s, p, i)
    ensures r.None? <==> !Contains(s, p)
    decreases |s|
  {
    if |s| < |p| then
      None
    else if s[..|p|] == p then
      assert OccursAt(s, p, 0);
      Some(0)
    else
      var t := Find(s[1..], p);
      assert forall i: nat :: i > 0 ==> (OccursAt(s, p, i) <==> OccursAt(s[1..], p, i - 1)) by {
        forall i: nat | i > 0 ensures OccursAt(s, p, i) <==> OccursAt(s[1..], p, i - 1) {
          OccursAtTail(s, p, i - 1);
        }
      }
      assert !OccursAt(s, p, 0);
      match t
      case None => None
      case Some(k) =>
        assert OccursAt(s, p, k + 1);
        Some(k + 1)
  }

  /** The characters Python's `str.isspace()` accepts, which `str.strip()` removes. */
  const Whitespace: set<char> := {
    ' ', '\t', '\n', '\U{b}', '\U{c}', '\r', '\U{1c}', '\U{1d}', '\U{1e}', '\U{1f}',
    '\U{85}', '\U{a0}', '\U{1680}',
    '\U{2000}', '\U{2001}', '\U{2002}', '\U{2003}', '\U{2004}', '\U{2005}',
    '\U{2006}', '\U{2007}', '\U{2008}', '\U{2009}', '\U{200a}',
    '\U{2028}', '\U{2029}', '\U{202f}', '\U{205f}', '\U{3000}'
  }

  /** `c.isspace()` */
  predicate IsSpace(c: char) {
    c in Whitespace
  }

  predicate AllSpace(s: string) {
    forall i :: 0 <= i < |s| ==> IsSpace(s[i])
  }

  /**
    The start of the run of space characters that ends `s[..hi]`, looking no
    further back than `lo`: where `rstrip` cuts.
   */
  function SpaceEnd(s: string, lo: nat, hi: nat): (j: nat)
    requires lo <= hi <= |s|
    ensures lo <= j <= hi
    ensures forall k :: j <= k < hi ==> IsSpace(s[k])
    ensures j == lo || !IsSpace(s[j - 1])
    decreases hi
  {
    if hi > lo && IsSpace(s[hi - 1]) then SpaceEnd(s, lo, hi - 1) else hi
  }

  /** `s.strip()`: `s` without its leading and trailing whitespace. */
  function Strip(s: string): (r: string)
    ensures exists i :: 0 <= i <= |s| - |r| && r == s[i..i + |r|] && AllSpace(s[..i]) && AllSpace(s[i + |r|..])
    ensures r == [] || (!IsSpace(r[0]) && !IsSpace(r[|r| - 1]))
  {
    var i := Span(s, IsSpace);
    var j := SpaceEnd(s, i, |s|);
    StripCut(s, i, j, s[i..j]);
    s[i..j]
  }

  /** Cutting `s` at the end of its leading space and the start of its trailing space. */
  lemma StripCut(s: string, i: nat, j: nat, r: string)
    requires i <= j <= |s| && r == s[i..j]
    requires forall k :: 0 <= k < i ==> IsSpace(s[k])
    requires forall k :: j <= k < |s| ==> IsSpace(s[k])
    requires i == |s| || !IsSpace(s[i])
    requires j == i || !IsSpace(s[j - 1])
    ensures exists m :: 0 <= m <= |s| - |r| && r == s[m..m + |r|] && AllSpace(s[..m]) && AllSpace(s[m + |r|..])
    ensures r == [] || (!IsSpace(r[0]) && !IsSpace(r[|r| - 1]))
  {
    SpacePrefix(s, i);
    SpaceSuffix(s, j);
    assert |r| == j - i;
    assert r == s[i..i + |r|] && AllSpace(s[..i]) && AllSpace(s[i + |r|..]);
    if r != [] {
      assert r[0] == s[i] && r[|r| - 1] == s[j - 1];
    }
  }

  lemma SpacePrefix(s: string, i: nat)
    requires i <= |s| && forall k :: 0 <= k < i ==> IsSpace(s[k])
    ensures AllSpace(s[..i])
  {
    forall k | 0 <= k < i ensures IsSpace(s[..i][k]) {
      assert s[..i][k] == s[k];
    }
  }

  lemma SpaceSuffix(s: string, j: nat)
    requires j <= |s| && forall k :: j <= k < |s| ==> IsSpace(s[k])
    ensures AllSpace(s[j..])
  {
    forall k | 0 <= k < |s| - j ensures IsSpace(s[j..][k]) {
      assert s[j..][k] == s[j + k];
    }
  }

  /** Stripping a stripped text changes nothing. */
  lemma StripIdempotent(s: string)
    ensures Strip(Strip(s)) == Strip(s)
  {
    var r := Strip(s);
    assert Span(r, IsSpace) == 0;
    assert SpaceEnd(r, 0, |r|) == |r|;
    assert r[0..|r|] == r;
  }

  /**
    The length of the longest prefix of `s` whose characters all satisfy
    `p`: what a greedy `[...]*` matches.
   */
  function Span(s: string, p: char -> bool): (n: nat)
    ensures n <= |s|
    ensures forall i :: 0 <= i < n ==> p(s[i])
    ensures n == |s| || !p(s[n])
  {
    if s != [] && p(s[0]) then 1 + Span(s[1..], p) else 0
  }

  /** A greedy run stops exactly where its class does. */
  lemma {:induction false} SpanOf(run: string, rest: string, p: char -> bool)
    requires forall i :: 0 <= i < |run| ==> p(run[i])
    requires rest == [] || !p(rest[0])
    ensures Span(run + rest, p) == |run|
  {
    if run != [] {
      assert (run + rest)[1..] == run[1..] + rest;
      SpanOf(run[1..], rest, p);
    } else {
      assert run + rest == rest;
    }
  }

  predicate NotNewline(c: char) {
    c != '\n'
  }

  /** What a regular expression `(.*)` captures: everything up to the first newline. */
  function FirstLine(s: string): (r: string)
    ensures HasPrefix(s, r)
    ensures '\n' !in r
    ensures r == s || s[|r|] == '\n'
  {
    var n := Span(s, NotNewline);
    assert forall c :: c in s[..n] ==> NotNewline(c);
    s[..n]
  }

  /** `[\w]` of Python's regular expressions, restricted to ASCII. */
  predicate IsWordChar(c: char) {
    ('a' <= c <= 'z') || ('A' <= c <= 'Z') || ('0' <= c <= '9') || c == '_'
  }

  predicate AllWord(s: string) {
    forall i :: 0 <= i < |s| ==> IsWordChar(s[i])
  }

  /** The number of occurrences of `c` in `s`. */
  function Count(s: string, c: char): (n: nat)
    ensures n <= |s|
    ensures n == 0 <==> c !in s
  {
    if s == [] then 0 else (if s[0] == c then 1 else 0) + Count(s[1..], c)
  }

  /** `s.split(sep)` for a one-character separator. */
  function Split(s: string, sep: char): (parts: seq<string>)
    ensures |parts| > 0
    ensures forall k :: 0 <= k < |parts| ==> sep !in parts[k]
  {
    if s == [] then
      [""]
    else
      var tail := Split(s[1..], sep);
      if s[0] == sep then [""] + tail else [[s[0]] + tail[0]] + tail[1..]
  }

  /** `sep.join(parts)` */
  function Join(parts: seq<string>, sep: char): string
    requires |parts| > 0
  {
    if |parts| == 1 then parts[0] else parts[0] + [sep] + Join(parts[1..], sep)
  }

  /** Splitting yields one part more than there are separators. */
  lemma {:induction false} SplitLength(s: string, sep: char)
    ensures |Split(s, sep)| == Count(s, sep) + 1
  {
    if s != [] {
      SplitLength(s[1..], sep);
    }
  }

  /** Joining the parts with the separator gives back the string. */
  lemma {:induction false} JoinSplit(s: string, sep: char)
    ensures Join(Split(s, sep), sep) == s
  {
    if s != [] {
      var tail := Split(s[1..], sep);
      JoinSplit(s[1..], sep);
      if s[0] == sep {
        assert ([""] + tail)[1..] == tail;
      } else {
        var parts := [[s[0]] + tail[0]] + tail[1..];
        if |tail| == 1 {
          assert parts == [[s[0]] + tail[0]];
        } else {
          assert parts[1..] == tail[1..];
          assert Join(tail, sep) == tail[0] + [sep] + Join(tail[1..], sep);
        }
      }
    }
  }
}
