/**
  `AILogMonitor.extract_code_snippets`: every fenced code block
  ```` ```<lang>\n<code>\n``` ```` of a text, found left to right without
  overlap, as `re.finditer(r'```(\w+)?\n(.*?)\n```', text, re.DOTALL)` does.
 */
module CodeSnippets {
  import opened Wrappers
  import opened Text

  /** The record `{language, code, lines}` of one code block. */
  datatype Snippet = Snippet(language: string, code: string, lines: nat)

  const Closing: string := "\n```"

  /** What each snippet satisfies: its tag or `unknown`, code without a closing fence, and its line count. */
  ghost predicate WellFormed(s: Snippet) {
    && (s.language == "unknown" || (s.language != [] && AllWord(s.language)))
    && !Contains(s.code, Closing)
    && s.lines == Count(s.code, '\n') + 1
  }

  /**
    The match of the fence pattern at the very start of `t`, with its length.
    The optional tag is the greedy word run after the opening fence, and it must
    be followed by a newline; the lazy `(.*?)` ends at the first `\n```` after it.
   */
  function MatchFence(t: string): (r: Option<(Snippet, nat)>)
    ensures r.Some? ==> 0 < r.value.1 <= |t|
  {
    if !HasPrefix(t, "```") then
      None
    else
      var w := Span(t[3..], IsWordChar);
      var after := t[3 + w..];
      if after == [] || after[0] != '\n' then
        None
      else
        var body := after[1..];
        match Find(body, Closing)
        case None => None
        case Some(k) =>
          var code := body[..k];
          var language := if w == 0 then "unknown" else t[3..3 + w];
          Some((Snippet(language, code, |Split(code, '\n')|), 3 + w + 1 + k + |Closing|))
  }

  /**
    All matches, left to right; after a match the search resumes at its end.
    Every snippet has a language, code without a closing fence, and
    `lines` = newlines + 1 >= 1.
   */
  function Fences(t: string): (r: seq<Snippet>)
    ensures forall s :: s in r ==> WellFormed(s) && s.lines >= 1
    decreases |t|
  {
    if t == [] then
      []
    else
      match MatchFence(t)
      case Some((s, n)) =>
        MatchFenceWellFormed(t);
        [s] + Fences(t[n..])
      case None => Fences(t[1..])
  }

  /** One step of the scan: the snippet matched at the start of `t`, if any, and how far the scan moves on. */
  function Advance(t: string): (r: (seq<Snippet>, nat))
    requires t != []
    ensures 0 < r.1 <= |t|
  {
    match MatchFence(t)
    case Some((s, n)) => ([s], n)
    case None => ([], 1)
  }

  /** `extract_code_snippets(text)` */
  method ExtractCodeSnippets(text: string) returns (snippets: seq<Snippet>)
    ensures snippets == Fences(text)
  {
    snippets := [];
    var pos := 0;
    ScanStart(text);
    while pos < |text|
      invariant pos <= |text|
      invariant snippets + Fences(text[pos..]) == Fences(text)
    {
      var step := Advance(text[pos..]);
      ScanStep(text, pos, snippets);
      snippets := snippets + step.0;
      pos := pos + step.1;
    }
    ScanEnd(text, snippets);
  }

  /** The scan starts with nothing found and the whole text ahead. */
  lemma ScanStart(text: string)
    ensures [] + Fences(text[0..]) == Fences(text)
  {
    assert text[0..] == text;
  }

  /** At the end of the text everything has been found. */
  lemma ScanEnd(text: string, snippets: seq<Snippet>)
    requires snippets + Fences(text[|text|..]) == Fences(text)
    ensures snippets == Fences(text)
  {
    assert text[|text|..] == [];
    assert snippets + [] == snippets;
  }

  /** The scan takes the step `Advance` says. */
  lemma FencesAdvance(t: string)
    requires t != []
    ensures Fences(t) == Advance(t).0 + Fences(t[Advance(t).1..])
  {
    match MatchFence(t)
    case Some((s, n)) =>
      assert Advance(t).0 == [s] && Advance(t).1 == n;
    case None =>
      assert Advance(t).0 == [] && Advance(t).1 == 1;
      assert [] + Fences(t[1..]) == Fences(t[1..]);
  }

  /** `FencesAdvance` at a position of a text. */
  lemma FencesAdvanceAt(text: string, pos: nat)
    requires pos < |text|
    ensures pos + Advance(text[pos..]).1 <= |text|
    ensures Fences(text[pos..]) == Advance(text[pos..]).0 + Fences(text[pos + Advance(text[pos..]).1..])
  {
    var t := text[pos..];
    FencesAdvance(t);
    assert t[Advance(t).1..] == text[pos + Advance(t).1..];
  }

  /** One step of the scan keeps its invariant. */
  lemma ScanStep(text: string, pos: nat, snippets: seq<Snippet>)
    requires pos < |text|
    requires snippets + Fences(text[pos..]) == Fences(text)
    ensures pos + Advance(text[pos..]).1 <= |text|
    ensures (snippets + Advance(text[pos..]).0) + Fences(text[pos + Advance(text[pos..]).1..]) == Fences(text)
  {
    FencesAdvanceAt(text, pos);
    Regroup(snippets, Fences(text), Fences(text[pos..]), Advance(text[pos..]).0, Fences(text[pos + Advance(text[pos..]).1..]));
  }

  /** Moving what a step found from the part ahead to the part found. */
  lemma Regroup(done: seq<Snippet>, all: seq<Snippet>, current: seq<Snippet>, found: seq<Snippet>, rest: seq<Snippet>)
    requires done + current == all && current == found + rest
    ensures (done + found) + rest == all
  {
    assert (done + found) + rest == done + (found + rest);
  }

  /** The text before the first closing fence contains none. */
  lemma CodeBeforeFirst(body: string, k: nat)
    requires Find(body, Closing) == Some(k)
    ensures !Contains(body[..k], Closing)
  {
    var code := body[..k];
    forall i: nat
      ensures !OccursAt(code, Closing, i)
    {
      if i + |Closing| <= |code| {
        assert !OccursAt(body, Closing, i);
        assert code[i..i + |Closing|] == body[i..i + |Closing|];
      }
    }
  }

  /** A match at the start of `t` has an opening fence, a word run, a newline and a closing fence. */
  lemma MatchFenceShape(t: string)
    requires MatchFence(t).Some?
    ensures HasPrefix(t, "```")
    ensures 3 + Span(t[3..], IsWordChar) < |t| && t[3 + Span(t[3..], IsWordChar)] == '\n'
    ensures Find(t[4 + Span(t[3..], IsWordChar)..], Closing).Some?
  {
    var w := Span(t[3..], IsWordChar);
    assert t[3 + w..][0] == t[3 + w];
    assert t[3 + w..][1..] == t[4 + w..];
  }

  /** The snippet matched at the start of a text is well formed. */
  lemma MatchFenceWellFormed(t: string)
    requires MatchFence(t).Some?
    ensures WellFormed(MatchFence(t).value.0) && MatchFence(t).value.0.lines >= 1
  {
    MatchFenceShape(t);
    var w := Span(t[3..], IsWordChar);
    var body := t[4 + w..];
    var k := Find(body, Closing).value;
    MatchFenceParts(t, w, k);
    SplitLength(body[..k], '\n');
    CodeBeforeFirst(body, k);
    var tag := t[3..3 + w];
    forall i | 0 <= i < |tag|
      ensures IsWordChar(tag[i])
    {
      assert tag[i] == t[3..][i];
    }
  }

  /** A text with no opening fence has no snippets. */
  lemma {:induction false} NoFenceNoSnippets(t: string)
    requires !Contains(t, "```")
    ensures Fences(t) == []
    decreases |t|
  {
    if t != [] {
      assert !OccursAt(t, "```", 0);
      forall i: nat
        ensures !OccursAt(t[1..], "```", i)
      {
        OccursAtTail(t, "```", i);
      }
      NoFenceNoSnippets(t[1..]);
    }
  }

  /** A code block as it is written in a response. */
  function Render(language: string, code: string): string {
    "```" + language + "\n" + code + Closing
  }

  /** In `code + "\n```" + rest`, the first closing fence is the one right after `code`. */
  lemma FirstClosing(code: string, rest: string)
    requires !Contains(code, Closing)
    ensures Find(code + Closing + rest, Closing) == Some(|code|)
  {
    var body := code + Closing + rest;
    assert body[|code|..|code| + |Closing|] == Closing;
    assert OccursAt(body, Closing, |code|);
    forall i: nat | i < |code|
      ensures !OccursAt(body, Closing, i)
    {
      if i + |Closing| <= |code| {
        assert !OccursAt(code, Closing, i);
        assert code[i..i + |Closing|] == body[i..i + |Closing|];
      } else if i + |Closing| <= |body| {
        var j := |code| - i;
        assert 1 <= j < |Closing|;
        assert body[i..i + |Closing|][j] == body[|code|] == '\n';
        assert Closing[j] != '\n';
      }
    }
  }

  /** The fence pattern matches where the opening fence, a word run, a newline and a closing fence line up. */
  lemma MatchFenceParts(t: string, w: nat, k: nat)
    requires HasPrefix(t, "```") && Span(t[3..], IsWordChar) == w
    requires 3 + w < |t| && t[3 + w] == '\n'
    requires Find(t[4 + w..], Closing) == Some(k)
    ensures MatchFence(t).Some? && MatchFence(t).value.1 == 4 + w + k + |Closing|
    ensures MatchFence(t).value.0.language == if w == 0 then "unknown" else t[3..3 + w]
    ensures MatchFence(t).value.0.code == t[4 + w..][..k]
    ensures MatchFence(t).value.0.lines == |Split(t[4 + w..][..k], '\n')|
  {
    assert t[3 + w..][1..] == t[4 + w..];
  }

  /** The fence pattern at the start of a written block matches exactly that block. */
  lemma MatchFenceOfBlock(t: string, language: string, code: string, rest: string)
    requires AllWord(language)
    requires !Contains(code, Closing)
    requires HasPrefix(t, "```") && t[3..] == language + ("\n" + (code + Closing + rest))
    ensures MatchFence(t).Some? && MatchFence(t).value.1 == 3 + |language| + 1 + |code| + |Closing|
    ensures MatchFence(t).value.0.language == if language == [] then "unknown" else language
    ensures MatchFence(t).value.0.code == code
    ensures MatchFence(t).value.0.lines == |Split(code, '\n')|
  {
    var w := |language|;
    var body := code + Closing + rest;
    SpanOf(language, "\n" + body, IsWordChar);
    assert t[3..][w] == '\n';
    assert t[4 + w..] == t[3..][w + 1..] == body;
    FirstClosing(code, rest);
    MatchFenceParts(t, w, |code|);
    assert body[..|code|] == code;
    assert t[3..3 + w] == t[3..][..w] == language;
  }

  /** A match at the start of `t` is the first snippet, and the scan goes on with `rest`. */
  lemma FencesOfMatch(t: string, rest: string)
    requires MatchFence(t).Some? && t[MatchFence(t).value.1..] == rest
    ensures Fences(t) == [MatchFence(t).value.0] + Fences(rest)
  {
  }

  /**
    Round trip: a block written with a word tag (or none) and code without a
    closing fence is extracted back as exactly that tag (or `unknown`) and code,
    and the search resumes right after it.
   */
  lemma FencesOfRendered(t: string, language: string, code: string, rest: string)
    requires AllWord(language)
    requires !Contains(code, Closing)
    requires t == Render(language, code) + rest
    ensures Fences(t) ==
            [Snippet(if language == [] then "unknown" else language, code, Count(code, '\n') + 1)] + Fences(rest)
  {
    assert HasPrefix(t, "```");
    assert t[3..] == language + ("\n" + (code + Closing + rest));
    assert t[3 + |language| + 1 + |code| + |Closing|..] == rest;
    FencesOfBlock(t, language, code, rest);
  }

  /** The round trip for any text laid out as a block followed by `rest`. */
  lemma FencesOfBlock(t: string, language: string, code: string, rest: string)
    requires AllWord(language)
    requires !Contains(code, Closing)
    requires HasPrefix(t, "```") && t[3..] == language + ("\n" + (code + Closing + rest))
    requires 3 + |language| + 1 + |code| + |Closing| <= |t| && t[3 + |language| + 1 + |code| + |Closing|..] == rest
    ensures Fences(t) ==
            [Snippet(if language == [] then "unknown" else language, code, Count(code, '\n') + 1)] + Fences(rest)
  {
    BlockSnippet(t, language, code, rest);
    FencesOfMatch(t, rest);
  }

  /** The snippet matched at the start of a block, as one value. */
  lemma BlockSnippet(t: string, language: string, code: string, rest: string)
    requires AllWord(language)
    requires !Contains(code, Closing)
    requires HasPrefix(t, "```") && t[3..] == language + ("\n" + (code + Closing + rest))
    ensures MatchFence(t).Some? && MatchFence(t).value.1 == 3 + |language| + 1 + |code| + |Closing|
    ensures MatchFence(t).value.0 == Snippet(if language == [] then "unknown" else language, code, Count(code, '\n') + 1)
  {
    MatchFenceOfBlock(t, language, code, rest);
    SplitLength(code, '\n');
    var found := MatchFence(t).value.0;
    assert found == Snippet(found.language, found.code, found.lines);
  }
}
