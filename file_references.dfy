/**
  `AILogMonitor.extract_file_references`: candidate file names found by four
  regular expressions, collected into a set, then filtered.

    (?:in |file |update |modify |edit |create |delete )([\w/.-]+\.[\w]+)
    `([^`]+\.\w+)`      "([^"]+\.\w+)"      '([^']+\.\w+)'

  Each `re.findall` is modelled as a left-to-right scan (`FindAll`) with a hand
  matcher per pattern (`MatchRef`) that reproduces the engine's backtracking.
 */
module FileReferences {
  import opened Wrappers
  import opened Text

  datatype RefPattern = Verb | Quoted(quote: char)

  const RefPatterns: seq<RefPattern> := [Verb, Quoted('`'), Quoted('"'), Quoted('\'')]

  /** The alternation of the first pattern, in order. */
  const Verbs: seq<string> := ["in ", "file ", "update ", "modify ", "edit ", "create ", "delete "]

  /** `[\w/.-]` */
  predicate IsPathChar(c: char) {
    IsWordChar(c) || c == '/' || c == '.' || c == '-'
  }

  /** The length of the longest suffix of `s` made of word characters. */
  function WordSuffix(s: string): (n: nat)
    ensures n <= |s|
    ensures forall i :: |s| - n <= i < |s| ==> IsWordChar(s[i])
    ensures n == |s| || !IsWordChar(s[|s| - n - 1])
  {
    if s != [] && IsWordChar(s[|s| - 1]) then 1 + WordSuffix(s[..|s| - 1]) else 0
  }

  lemma {:induction false} WordSuffixOf(stem: string, ext: string)
    requires AllWord(ext)
    requires stem == [] || !IsWordChar(stem[|stem| - 1])
    ensures WordSuffix(stem + ext) == |ext|
    decreases |ext|
  {
    if ext == [] {
      assert stem + ext == stem;
    } else {
      var shorter := ext[..|ext| - 1];
      assert (stem + ext)[..|stem + ext| - 1] == stem + shorter;
      WordSuffixOf(stem, shorter);
    }
  }

  /** `f` ends with a dot, one or more word characters, and has a non-empty stem before the dot. */
  predicate HasExtension(f: string) {
    var w := WordSuffix(f);
    w >= 1 && |f| - w - 1 >= 1 && f[|f| - w - 1] == '.'
  }

  /** `run[L]` is a dot followed by a word character. */
  predicate DotBeforeWord(run: string, L: nat) {
    L + 1 < |run| && run[L] == '.' && IsWordChar(run[L + 1])
  }

  /**
    The largest `L` below `hi` with `1 <= L` and `DotBeforeWord(run, L)`: where
    `[\w/.-]+` gives back characters, from the longest run down, until `\.[\w]+` matches.
   */
  function LastDot(run: string, hi: nat): (r: Option<nat>)
    ensures r.Some? ==> 1 <= r.value < hi && DotBeforeWord(run, r.value)
    ensures r.Some? ==> forall L: nat :: r.value < L < hi ==> !DotBeforeWord(run, L)
    ensures r.None? ==> forall L: nat :: 1 <= L < hi ==> !DotBeforeWord(run, L)
    decreases hi
  {
    if hi <= 1 then None
    else if DotBeforeWord(run, hi - 1) then Some(hi - 1)
    else LastDot(run, hi - 1)
  }

  /** The first verb of `vs` that begins `t`. */
  function FirstVerb(vs: seq<string>, t: string): (r: Option<string>)
    ensures r.Some? ==> r.value in vs && HasPrefix(t, r.value)
    ensures r.None? <==> forall v :: v in vs ==> !HasPrefix(t, v)
  {
    if vs == [] then None
    else if HasPrefix(t, vs[0]) then Some(vs[0])
    else FirstVerb(vs[1..], t)
  }

  /** What `[\w/.-]+\.[\w]+` captures of a run when it gives back characters down to the dot at `L`. */
  function VerbCapture(run: string, L: nat): (name: string)
    requires 1 <= L && DotBeforeWord(run, L)
    ensures HasExtension(name) && HasPrefix(run, name) && |name| > L + 1
  {
    var tail := run[L + 1..];
    var ext := tail[..Span(tail, IsWordChar)];
    var stem := run[..L] + ".";
    assert AllWord(ext);
    WordSuffixOf(stem, ext);
    assert run[..L + 1 + |ext|] == stem + ext;
    stem + ext
  }

  /** `[\w/.-]+` taken greedily at the start of `s`. */
  function PathRun(s: string): (run: string)
    ensures |run| <= |s| && s[..|run|] == run
    ensures forall i :: 0 <= i < |run| ==> IsPathChar(run[i])
    ensures |run| == |s| || !IsPathChar(s[|run|])
  {
    s[..Span(s, IsPathChar)]
  }

  /** The first pattern matched at the very start of `t`: its capture and the length of the match. */
  function MatchVerb(t: string): (r: Option<(string, nat)>)
    ensures r.Some? ==> 0 < r.value.1 <= |t| && HasExtension(r.value.0)
  {
    match FirstVerb(Verbs, t)
    case None => None
    case Some(v) =>
      var run := PathRun(t[|v|..]);
      match LastDot(run, |run|)
      case None => None
      case Some(L) =>
        var name := VerbCapture(run, L);
        Some((name, |v| + |name|))
  }

  /** A quoted pattern matched at the very start of `t`: the text up to the next quote, if it has an extension. */
  function MatchQuoted(q: char, t: string): (r: Option<(string, nat)>)
    ensures r.Some? ==> 0 < r.value.1 <= |t| && HasExtension(r.value.0)
  {
    if t != [] && t[0] == q then
      match Find(t[1..], [q])
      case None => None
      case Some(k) =>
        var inner := t[1..1 + k];
        if HasExtension(inner) then Some((inner, k + 2)) else None
    else
      None
  }

  /** The capture of one pattern matched at the very start of `t`, with the length of the match. */
  function MatchRef(p: RefPattern, t: string): (r: Option<(string, nat)>)
    ensures r.Some? ==> 0 < r.value.1 <= |t| && HasExtension(r.value.0)
  {
    match p
    case Verb => MatchVerb(t)
    case Quoted(q) => MatchQuoted(q, t)
  }

  /** `re.findall(p, t)`: the captures of all matches, left to right, without overlap. */
  function FindAll(p: RefPattern, t: string): (r: seq<string>)
    ensures forall f :: f in r ==> HasExtension(f)
    decreases |t|
  {
    if t == [] then
      []
    else
      match MatchRef(p, t)
      case Some((f, n)) => [f] + FindAll(p, t[n..])
      case None => FindAll(p, t[1..])
  }

  /**
    The set after `files.update(re.findall(p, text))` for each pattern of `ps`
    in turn: exactly what some pattern finds, each with an extension.
   */
  function CandidatesOf(ps: seq<RefPattern>, text: string): (files: set<string>)
    ensures forall f :: f in files ==> HasExtension(f)
    ensures forall f :: f in files <==> exists i :: 0 <= i < |ps| && f in FindAll(ps[i], text)
  {
    if ps == [] then
      {}
    else
      var init, last := ps[..|ps| - 1], ps[|ps| - 1];
      var before := CandidatesOf(init, text);
      var after := before + Elements(FindAll(last, text));
      CandidatesStep(ps, init, last, text, before, after);
      after
  }

  /** What the patterns of `init` find, together with what `last` finds, is what `ps` = `init + [last]` finds. */
  lemma CandidatesStep(ps: seq<RefPattern>, init: seq<RefPattern>, last: RefPattern, text: string,
                       before: set<string>, after: set<string>)
    requires ps != [] && init == ps[..|ps| - 1] && last == ps[|ps| - 1]
    requires forall f :: f in before <==> exists i :: 0 <= i < |init| && f in FindAll(init[i], text)
    requires after == before + Elements(FindAll(last, text))
    ensures forall f :: f in after <==> exists i :: 0 <= i < |ps| && f in FindAll(ps[i], text)
  {
    var n := |init|;
    assert |ps| == n + 1 && ps[n] == last;
    forall f | f in before
      ensures exists i :: 0 <= i < |ps| && f in FindAll(ps[i], text)
    {
      var i :| 0 <= i < |init| && f in FindAll(init[i], text);
      assert ps[i] == init[i];
    }
    forall f | f in Elements(FindAll(last, text))
      ensures exists i :: 0 <= i < |ps| && f in FindAll(ps[i], text)
    {
      assert f in FindAll(ps[n], text);
    }
    forall f | exists i :: 0 <= i < |ps| && f in FindAll(ps[i], text)
      ensures f in after
    {
      var i :| 0 <= i < |ps| && f in FindAll(ps[i], text);
      if i < n {
        assert ps[i] == init[i];
      } else {
        assert i == n;
      }
    }
  }

  function Elements(s: seq<string>): set<string> {
    set f | f in s
  }

  /** The filter of the comprehension: `not f.startswith('http') and len(f) < 200`. */
  predicate Accepted(f: string) {
    !HasPrefix(f, "http") && |f| < 200
  }

  /** The file references a text mentions: every one passes the filter and has an extension. */
  function ReferenceSet(text: string): (refs: set<string>)
    ensures forall f :: f in refs ==> !HasPrefix(f, "http") && |f| < 200 && HasExtension(f)
  {
    set f | f in CandidatesOf(RefPatterns, text) && Accepted(f)
  }

  predicate NoDuplicates(s: seq<string>) {
    forall i, j :: 0 <= i < j < |s| ==> s[i] != s[j]
  }

  /** `refs` lists the references of `text`, each once, in some order. */
  ghost predicate IsReferenceList(refs: seq<string>, text: string) {
    && NoDuplicates(refs)
    && forall f :: f in refs <==> f in ReferenceSet(text)
  }

  lemma {:induction false} NoDuplicatesLength(s: seq<string>)
    requires NoDuplicates(s)
    ensures |set f | f in s| == |s|
  {
    if s != [] {
      var init := s[..|s| - 1];
      assert NoDuplicates(init);
      NoDuplicatesLength(init);
      assert (set f | f in s) == (set f | f in init) + {s[|s| - 1]};
      assert s[|s| - 1] !in init;
    }
  }

  /** A reference list has exactly as many entries as there are distinct references. */
  lemma ReferenceListLength(refs: seq<string>, text: string)
    requires IsReferenceList(refs, text)
    ensures |refs| == |ReferenceSet(text)|
  {
    NoDuplicatesLength(refs);
    assert (set f | f in refs) == ReferenceSet(text);
  }

  /** `extract_file_references(text)`; the order of the result is Python's set iteration order, left open. */
  method ExtractFileReferences(text: string) returns (refs: seq<string>)
    ensures IsReferenceList(refs, text)
    ensures forall f :: f in refs ==> !HasPrefix(f, "http") && |f| < 200 && HasExtension(f)
  {
    var files: set<string> := {};
    for k := 0 to |RefPatterns|
      invariant files == CandidatesOf(RefPatterns[..k], text)
    {
      CandidatesSnoc(RefPatterns, k, text);
      files := files + Elements(FindAll(RefPatterns[k], text));
    }
    assert RefPatterns[..|RefPatterns|] == RefPatterns;
    refs := ListAccepted(files);
    ReferencesOfCandidates(refs, text);
  }

  /** One more pattern adds what it finds to the candidates. */
  lemma CandidatesSnoc(ps: seq<RefPattern>, k: nat, text: string)
    requires k < |ps|
    ensures CandidatesOf(ps[..k + 1], text) == CandidatesOf(ps[..k], text) + Elements(FindAll(ps[k], text))
  {
    var upTo := ps[..k + 1];
    assert upTo[..k] == ps[..k] && upTo[k] == ps[k];
  }

  /** The accepted candidates of all patterns, each once, are a reference list. */
  lemma ReferencesOfCandidates(refs: seq<string>, text: string)
    requires NoDuplicates(refs)
    requires forall f :: f in refs <==> f in CandidatesOf(RefPatterns, text) && Accepted(f)
    ensures IsReferenceList(refs, text)
    ensures forall f :: f in refs ==> !HasPrefix(f, "http") && |f| < 200 && HasExtension(f)
  {
  }

  /** `[f for f in files if ...]`: each accepted candidate once, in the set's iteration order. */
  method ListAccepted(files: set<string>) returns (refs: seq<string>)
    ensures NoDuplicates(refs)
    ensures forall f :: f in refs <==> f in files && Accepted(f)
  {
    refs := [];
    var remaining := files;
    while remaining != {}
      invariant remaining <= files
      invariant forall f :: f in refs <==> f in files - remaining && Accepted(f)
      invariant NoDuplicates(refs)
      decreases |remaining|
    {
      var f :| f in remaining;
      if Accepted(f) {
        assert f !in refs;
        refs := refs + [f];
      }
      remaining := remaining - {f};
    }
  }

  /** `find` of a one-character string stops at the first occurrence of the character. */
  lemma FindCharAt(s: string, q: char, k: nat)
    requires k < |s| && s[k] == q
    requires forall i :: 0 <= i < k ==> s[i] != q
    ensures Find(s, [q]) == Some(k)
  {
    assert OccursAt(s, [q], k);
    forall i: nat | i < k
      ensures !OccursAt(s, [q], i)
    {
      assert s[i..i + 1][0] == s[i];
    }
  }

  /** A name `stem.ext` with a non-empty stem and a word extension has an extension. */
  lemma NameHasExtension(stem: string, ext: string)
    requires |stem| >= 1 && |ext| >= 1 && AllWord(ext)
    ensures HasExtension(stem + "." + ext)
  {
    WordSuffixOf(stem + ".", ext);
    assert stem + "." + ext == (stem + ".") + ext;
  }

  /** A quoted pattern at a quote, a name free of the quote with an extension, and a second quote. */
  lemma MatchQuotedAt(q: char, t: string, name: string)
    requires |name| + 2 <= |t| && t[0] == q && t[|name| + 1] == q
    requires forall i :: 0 <= i < |name| ==> t[1 + i] == name[i] && name[i] != q
    requires HasExtension(name)
    ensures MatchQuoted(q, t).Some?
    ensures MatchQuoted(q, t).value.0 == name && MatchQuoted(q, t).value.1 == |name| + 2
  {
    var s := t[1..];
    forall i | 0 <= i < |name|
      ensures s[i] != q
    {
      assert s[i] == t[1 + i] == name[i];
    }
    FindCharAt(s, q, |name|);
    assert t[1..1 + |name|] == name;
  }

  /** `findall` takes the match at the start of the text and goes on after it. */
  lemma FindAllOfMatch(p: RefPattern, t: string, f: string, n: nat)
    requires MatchRef(p, t).Some? && MatchRef(p, t).value.0 == f && MatchRef(p, t).value.1 == n
    ensures FindAll(p, t) == [f] + FindAll(p, t[n..])
  {
    assert MatchRef(p, t).value == (f, n);
  }

  /**
    Round trip for the quoted patterns: a name with a non-empty stem free of the
    quote and a word extension, written between quotes, is found back as itself.
   */
  lemma QuotedRoundTrip(q: char, stem: string, ext: string, rest: string)
    requires q == '`' || q == '"' || q == '\''
    requires |stem| >= 1 && q !in stem
    requires |ext| >= 1 && AllWord(ext)
    ensures FindAll(Quoted(q), [q] + (stem + "." + ext) + [q] + rest) == [stem + "." + ext] + FindAll(Quoted(q), rest)
  {
    var name := stem + "." + ext;
    var t := [q] + name + [q] + rest;
    forall i | 0 <= i < |name|
      ensures t[1 + i] == name[i] && name[i] != q
    {
      if i > |stem| {
        assert name[i] == ext[i - |stem| - 1];
      }
    }
    NameHasExtension(stem, ext);
    MatchQuotedAt(q, t, name);
    FindAllOfMatch(Quoted(q), t, name, |name| + 2);
    assert t[|name| + 2..] == rest;
  }

  /** Every verb begins with a letter no other verb begins with. */
  lemma VerbFound(v: string, t: string)
    requires v in Verbs && HasPrefix(t, v)
    ensures FirstVerb(Verbs, t) == Some(v)
  {
    var r := FirstVerb(Verbs, t);
    assert r.Some?;
    assert t[0] == v[0] == r.value[0];
  }

  /** A name `stem.ext`: the dot before the extension is the last dot followed by a word character. */
  lemma LastDotOfName(stem: string, ext: string)
    requires |stem| >= 1 && |ext| >= 1 && AllWord(ext)
    ensures LastDot(stem + "." + ext, |stem + "." + ext|) == Some(|stem|)
  {
    var name := stem + "." + ext;
    assert DotBeforeWord(name, |stem|);
    forall L: nat | |stem| < L < |name|
      ensures !DotBeforeWord(name, L)
    {
      assert name[L] == ext[L - |stem| - 1];
    }
  }

  /** Giving back characters down to that dot captures the whole name. */
  lemma VerbCaptureOfName(stem: string, ext: string)
    requires |stem| >= 1 && |ext| >= 1 && AllWord(ext)
    ensures DotBeforeWord(stem + "." + ext, |stem|)
    ensures VerbCapture(stem + "." + ext, |stem|) == stem + "." + ext
  {
    var name := stem + "." + ext;
    assert name[|stem| + 1..] == ext;
    SpanOf(ext, [], IsWordChar);
    assert ext + [] == ext;
    assert name[..|stem|] == stem;
  }

  /** The verb pattern at the start of `v + stem.ext + rest` captures the whole name. */
  lemma MatchVerbOfName(v: string, stem: string, ext: string, rest: string)
    requires v in Verbs
    requires |stem| >= 1 && forall i :: 0 <= i < |stem| ==> IsPathChar(stem[i])
    requires |ext| >= 1 && AllWord(ext)
    requires rest == [] || !IsPathChar(rest[0])
    ensures MatchVerb(v + (stem + "." + ext) + rest).Some?
    ensures MatchVerb(v + (stem + "." + ext) + rest).value.0 == stem + "." + ext
    ensures MatchVerb(v + (stem + "." + ext) + rest).value.1 == |v| + |stem| + 1 + |ext|
  {
    var name := stem + "." + ext;
    var t := v + name + rest;
    VerbFound(v, t);
    DropFront(v, name, rest);
    PathRunOfName(stem, ext, rest);
    LastDotOfName(stem, ext);
    VerbCaptureOfName(stem, ext);
    MatchVerbUnfold(t, v, name, |stem|);
  }

  /** What is left of `a + b + c` after `a`, and after `a + b`. */
  lemma DropFront(a: string, b: string, c: string)
    ensures (a + b + c)[|a|..] == b + c
    ensures (a + b + c)[|a| + |b|..] == c
  {
  }

  /** The maximal path run at the start of `stem.ext + rest` is exactly the name. */
  lemma PathRunOfName(stem: string, ext: string, rest: string)
    requires forall i :: 0 <= i < |stem| ==> IsPathChar(stem[i])
    requires AllWord(ext)
    requires rest == [] || !IsPathChar(rest[0])
    ensures PathRun((stem + "." + ext) + rest) == stem + "." + ext
  {
    var name := stem + "." + ext;
    NameIsPath(stem, ext);
    SpanOf(name, rest, IsPathChar);
    assert (name + rest)[..|name|] == name;
  }

  /** `MatchVerb` once its verb, its run and its dot are known. */
  lemma MatchVerbUnfold(t: string, v: string, run: string, L: nat)
    requires FirstVerb(Verbs, t) == Some(v)
    requires PathRun(t[|v|..]) == run
    requires LastDot(run, |run|) == Some(L)
    ensures MatchVerb(t).Some?
    ensures MatchVerb(t).value.0 == VerbCapture(run, L)
    ensures MatchVerb(t).value.1 == |v| + |VerbCapture(run, L)|
  {
  }

  lemma NameIsPath(stem: string, ext: string)
    requires forall i :: 0 <= i < |stem| ==> IsPathChar(stem[i])
    requires AllWord(ext)
    ensures forall i :: 0 <= i < |stem + "." + ext| ==> IsPathChar((stem + "." + ext)[i])
  {
    var name := stem + "." + ext;
    forall i | 0 <= i < |name| ensures IsPathChar(name[i]) {
      if i > |stem| {
        assert name[i] == ext[i - |stem| - 1];
      }
    }
  }

  /**
    Round trip for the verb pattern: a path of `[\w/.-]` characters that ends in
    a dot and a word extension, written after a verb and followed by a character
    outside the path class (or by nothing), is found back as itself.
   */
  lemma VerbRoundTrip(v: string, stem: string, ext: string, rest: string)
    requires v in Verbs
    requires |stem| >= 1 && forall i :: 0 <= i < |stem| ==> IsPathChar(stem[i])
    requires |ext| >= 1 && AllWord(ext)
    requires rest == [] || !IsPathChar(rest[0])
    ensures FindAll(Verb, v + (stem + "." + ext) + rest) == [stem + "." + ext] + FindAll(Verb, rest)
  {
    var name := stem + "." + ext;
    var t := v + name + rest;
    MatchVerbOfName(v, stem, ext, rest);
    FindAllOfMatch(Verb, t, name, |v| + |name|);
    DropFront(v, name, rest);
  }

  /** A quoted name that passes the filter is among the references of the text. */
  lemma QuotedReferenceListed(q: char, stem: string, ext: string)
    requires q == '`' || q == '"' || q == '\''
    requires |stem| >= 1 && q !in stem
    requires |ext| >= 1 && AllWord(ext)
    requires Accepted(stem + "." + ext)
    ensures stem + "." + ext in ReferenceSet([q] + (stem + "." + ext) + [q])
  {
    var name := stem + "." + ext;
    QuotedRoundTrip(q, stem, ext, []);
    assert [q] + name + [q] + [] == [q] + name + [q];
    var i := if q == '`' then 1 else if q == '"' then 2 else 3;
    assert RefPatterns[i] == Quoted(q);
    assert name in FindAll(RefPatterns[i], [q] + name + [q]);
  }
}
