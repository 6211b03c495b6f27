/**
  The log-line parser of the AI-log tailer (`AILogMonitor.parse_claude_desktop_log`).

  A line is tried against four start-anchored patterns, in order:
    `[<stamp>] USER: <text>`, `[<stamp>] ASSISTANT: <text>`, `USER: <text>`, `ASSISTANT: <text>`
  where `<stamp>` is a non-empty run of digits, '-', ':' and ' ', and `<text>` is
  everything up to the first newline. The first pattern that matches decides the
  timestamp and the content; the role is decided by whether `USER` occurs
  anywhere in the line.
 */
module LogParser {
  import opened Wrappers
  import opened Text

  /** What `datetime.strptime(s, '%Y-%m-%d %H:%M:%S')` produces. */
  datatype DateTime = DateTime(year: int, month: int, day: int, hour: int, minute: int, second: int)

  /** A parsed timestamp, or the moment of parsing (`datetime.now()`), which the model leaves abstract. */
  datatype Timestamp = Logged(at: DateTime) | Now

  datatype Role = User | Assistant

  /** The record `{timestamp, role, content}` the parser returns. */
  datatype Entry = Entry(timestamp: Timestamp, role: Role, content: string)

  /** `\[([\d\-: ]+)\] <tag>: (.*)` or `<tag>: (.*)` */
  datatype Pattern = Bracketed(tag: string) | Bare(tag: string)

  /** The capture groups of a match: two for the bracketed patterns, one for the bare ones. */
  datatype Groups = Two(stamp: string, text: string) | One(text: string)

  const Patterns: seq<Pattern> := [Bracketed("USER"), Bracketed("ASSISTANT"), Bare("USER"), Bare("ASSISTANT")]

  /** The class `[\d\-: ]` (digits restricted to ASCII). */
  predicate IsStampChar(c: char) {
    ('0' <= c <= '9') || c == '-' || c == ':' || c == ' '
  }

  /** The literal between the stamp and the text: `] <tag>: `. */
  function Closer(tag: string): string {
    "] " + tag + ": "
  }

  /** `line` is `[ts] <tag>: rest` with `ts` a non-empty run of stamp characters. */
  ghost predicate BracketedForm(line: string, tag: string, ts: string, rest: string) {
    && |ts| > 0
    && (forall i :: 0 <= i < |ts| ==> IsStampChar(ts[i]))
    && line == "[" + ts + Closer(tag) + rest
  }

  /** `re.match(r'\[([\d\-: ]+)\] <tag>: (.*)', line)` succeeds. */
  ghost predicate MatchesBracketed(line: string, tag: string) {
    exists ts, rest :: BracketedForm(line, tag, ts, rest)
  }

  /**
    `re.match` of one pattern at the start of `line`, written as a hand matcher.
    A bare pattern matches exactly the lines that begin with its tag and `: `;
    a bracketed match captures a non-empty stamp of stamp characters; the text
    captured by `(.*)` never holds a newline.
   */
  function MatchPattern(p: Pattern, line: string): (r: Option<Groups>)
    ensures p.Bare? ==> (r.Some? <==> HasPrefix(line, p.tag + ": "))
    ensures r.Some? ==> (r.value.Two? <==> p.Bracketed?) && '\n' !in r.value.text
    ensures r.Some? && p.Bracketed? ==>
              |r.value.stamp| > 0 && forall i :: 0 <= i < |r.value.stamp| ==> IsStampChar(r.value.stamp[i])
  {
    match p
    case Bracketed(tag) =>
      if line != [] && line[0] == '[' then
        var n := Span(line[1..], IsStampChar);
        var after := line[1 + n..];
        var lit := Closer(tag);
        var stamp := line[1..1 + n];
        assert forall i :: 0 <= i < n ==> stamp[i] == line[1..][i];
        if n > 0 && HasPrefix(after, lit) then Some(Two(stamp, FirstLine(after[|lit|..]))) else None
      else
        None
    case Bare(tag) =>
      var lit := tag + ": ";
      if HasPrefix(line, lit) then Some(One(FirstLine(line[|lit|..]))) else None
  }

  /** The bracketed matcher finds exactly the decomposition `BracketedForm` describes. */
  lemma BracketedMatchComplete(line: string, tag: string, ts: string, rest: string)
    requires BracketedForm(line, tag, ts, rest)
    ensures MatchPattern(Bracketed(tag), line) == Some(Two(ts, FirstLine(rest)))
  {
    var lit := Closer(tag);
    assert line[1..] == ts + (lit + rest);
    SpanOf(ts, lit + rest, IsStampChar);
    assert line[1 + |ts|..] == lit + rest;
    assert (lit + rest)[|lit|..] == rest;
    assert line[1..1 + |ts|] == ts;
  }

  /** The bracketed matcher succeeds if and only if the line has the bracketed form. */
  lemma BracketedMatch(line: string, tag: string)
    ensures MatchPattern(Bracketed(tag), line).Some? <==> MatchesBracketed(line, tag)
  {
    if MatchPattern(Bracketed(tag), line).Some? {
      var n := Span(line[1..], IsStampChar);
      var lit := Closer(tag);
      var ts, rest := line[1..1 + n], line[1 + n + |lit|..];
      assert line == "[" + ts + lit + rest;
      assert BracketedForm(line, tag, ts, rest);
    }
    if MatchesBracketed(line, tag) {
      var ts, rest :| BracketedForm(line, tag, ts, rest);
      BracketedMatchComplete(line, tag, ts, rest);
    }
  }

  /** The first pattern of `ps` that matches, as the source's loop with early return. */
  function FirstMatch(ps: seq<Pattern>, line: string): (r: Option<Groups>)
    ensures r.None? <==> forall i :: 0 <= i < |ps| ==> MatchPattern(ps[i], line).None?
    ensures r.Some? ==> exists i :: 0 <= i < |ps| && r == MatchPattern(ps[i], line)
                                    && forall j :: 0 <= j < i ==> MatchPattern(ps[j], line).None?
  {
    if ps == [] then
      None
    else
      match MatchPattern(ps[0], line)
      case Some(g) => Some(g)
      case None =>
        var r := FirstMatch(ps[1..], line);
        assert forall i :: 1 <= i < |ps| ==> ps[i] == ps[1..][i - 1];
        if r.Some? then
          var i :| 0 <= i < |ps[1..]| && r == MatchPattern(ps[1..][i], line)
                   && forall j :: 0 <= j < i ==> MatchPattern(ps[1..][j], line).None?;
          assert r == MatchPattern(ps[i + 1], line);
          r
        else
          r
  }

  /** `'user' if 'USER' in line else 'assistant'` */
  function RoleOf(line: string): (role: Role)
    ensures role == User <==> Contains(line, "USER")
  {
    if Find(line, "USER").Some? then User else Assistant
  }

  /** The timestamp the source records: the parsed one, or `datetime.now()` when parsing fails. */
  function StampOf(parsed: Option<DateTime>): (r: Timestamp)
    ensures r.Now? <==> parsed.None?
    ensures r.Logged? ==> parsed == Some(r.at)
  {
    match parsed
    case Some(t) => Logged(t)
    case None => Now
  }

  /**
    `parse_claude_desktop_log(line)`; `strptime` stands for
    `datetime.strptime(_, '%Y-%m-%d %H:%M:%S')`, which fails with `None`.
    The parser fails exactly when no pattern matches. The role is `User`
    exactly when the line contains `USER`, whichever pattern matched; the
    content is stripped; a logged timestamp is the parse of a bracketed stamp.
   */
  function Parse(line: string, strptime: string -> Option<DateTime>): (r: Option<Entry>)
    ensures r.None? <==> FirstMatch(Patterns, line).None?
    ensures r.Some? ==> (r.value.role == User <==> Contains(line, "USER"))
    ensures r.Some? ==> var c := r.value.content; c == [] || (!IsSpace(c[0]) && !IsSpace(c[|c| - 1]))
    ensures r.Some? && r.value.timestamp.Logged? ==>
              var g := FirstMatch(Patterns, line).value;
              g.Two? && strptime(g.stamp) == Some(r.value.timestamp.at)
  {
    match FirstMatch(Patterns, line)
    case None => None
    case Some(g) =>
      var timestamp := if g.Two? then StampOf(strptime(g.stamp)) else Now;
      var content := Strip(g.text);
      Some(Entry(timestamp, RoleOf(line), content))
  }

  /** The line has one of the four forms the parser accepts. */
  ghost predicate MatchesSomePattern(line: string) {
    || MatchesBracketed(line, "USER")
    || MatchesBracketed(line, "ASSISTANT")
    || HasPrefix(line, "USER: ")
    || HasPrefix(line, "ASSISTANT: ")
  }

  /** The search over `Patterns`, unrolled. */
  lemma FirstMatchUnrolled(line: string)
    ensures FirstMatch(Patterns, line) ==
            var bu, ba := MatchPattern(Bracketed("USER"), line), MatchPattern(Bracketed("ASSISTANT"), line);
            var u, a := MatchPattern(Bare("USER"), line), MatchPattern(Bare("ASSISTANT"), line);
            if bu.Some? then bu else if ba.Some? then ba else if u.Some? then u else a
  {
    var u, a := MatchPattern(Bare("USER"), line), MatchPattern(Bare("ASSISTANT"), line);
    var ba := MatchPattern(Bracketed("ASSISTANT"), line);
    var ps3 := [Bare("ASSISTANT")];
    var ps2 := [Bare("USER")] + ps3;
    var ps1 := [Bracketed("ASSISTANT")] + ps2;
    assert ps3[1..] == [];
    assert FirstMatch(ps3, line) == a;
    assert ps2[1..] == ps3;
    assert FirstMatch(ps2, line) == if u.Some? then u else a;
    assert ps1[1..] == ps2;
    assert FirstMatch(ps1, line) == if ba.Some? then ba else if u.Some? then u else a;
    assert Patterns == [Bracketed("USER")] + ps1;
    assert Patterns[1..] == ps1;
  }

  /** The search fails exactly when each of the four patterns does. */
  lemma NoPatternMatches(line: string)
    ensures FirstMatch(Patterns, line).None? <==>
              && MatchPattern(Bracketed("USER"), line).None? && MatchPattern(Bracketed("ASSISTANT"), line).None?
              && MatchPattern(Bare("USER"), line).None? && MatchPattern(Bare("ASSISTANT"), line).None?
  {
    FirstMatchUnrolled(line);
  }

  /** The literals of the two bare patterns, written out. */
  lemma BareLiterals()
    ensures "USER" + ": " == "USER: " && "ASSISTANT" + ": " == "ASSISTANT: "
  {
  }

  /** The bare match for a tag whose literal is written out. */
  lemma BareLiteral(line: string, tag: string, lit: string)
    requires lit == tag + ": "
    ensures MatchPattern(Bare(tag), line).Some? <==> HasPrefix(line, lit)
  {
  }

  /** The parser returns `None` exactly when the line matches none of the four patterns. */
  lemma ParseNoneIff(line: string, strptime: string -> Option<DateTime>)
    ensures Parse(line, strptime).None? <==> !MatchesSomePattern(line)
  {
    NoPatternMatches(line);
    BracketedMatch(line, "USER");
    BracketedMatch(line, "ASSISTANT");
    BareLiterals();
    BareLiteral(line, "USER", "USER: ");
    BareLiteral(line, "ASSISTANT", "ASSISTANT: ");
  }

  /** A bracketed match has the first letter of its tag two places after the stamp run. */
  lemma BracketedTagLetter(line: string, tag: string)
    requires tag != [] && MatchPattern(Bracketed(tag), line).Some?
    ensures line != [] && 1 + Span(line[1..], IsStampChar) + 2 < |line|
    ensures line[1 + Span(line[1..], IsStampChar) + 2] == tag[0]
  {
    var n := Span(line[1..], IsStampChar);
    var lit := Closer(tag);
    assert HasPrefix(line[1 + n..], lit);
    assert line[1 + n..][2] == lit[2] == tag[0];
  }

  /** The two bracketed patterns exclude each other: the tag follows the same stamp run. */
  lemma BracketedExclusive(line: string)
    ensures MatchPattern(Bracketed("USER"), line).None? || MatchPattern(Bracketed("ASSISTANT"), line).None?
  {
    if MatchPattern(Bracketed("USER"), line).Some? {
      BracketedTagLetter(line, "USER");
      if MatchPattern(Bracketed("ASSISTANT"), line).Some? {
        BracketedTagLetter(line, "ASSISTANT");
      }
    }
  }

  /** What each pattern demands of the first character of a line it matches. */
  lemma LeadingChar(line: string, p: Pattern)
    requires p.tag != [] && MatchPattern(p, line).Some?
    ensures line != [] && line[0] == if p.Bracketed? then '[' else p.tag[0]
  {
    if p.Bare? {
      assert line[..|p.tag + ": "|][0] == (p.tag + ": ")[0];
    }
  }

  /** At most one of the four patterns matches any line, so their order never decides the result. */
  lemma PatternsExclusive(line: string)
    ensures forall i, j :: 0 <= i < j < |Patterns| ==>
              MatchPattern(Patterns[i], line).None? || MatchPattern(Patterns[j], line).None?
  {
    BracketedExclusive(line);
    forall i, j | 0 <= i < j < |Patterns| && MatchPattern(Patterns[i], line).Some?
      ensures MatchPattern(Patterns[j], line).None?
    {
      if j >= 2 {
        LeadingChar(line, Patterns[i]);
        if MatchPattern(Patterns[j], line).Some? {
          LeadingChar(line, Patterns[j]);
        }
      }
    }
  }

  /** A bracketed line yields its timestamp (or `Now` when it does not parse) and its stripped text. */
  lemma ParseBracketed(line: string, tag: string, ts: string, rest: string, strptime: string -> Option<DateTime>)
    requires tag == "USER" || tag == "ASSISTANT"
    requires BracketedForm(line, tag, ts, rest)
    ensures Parse(line, strptime) ==
            Some(Entry(if strptime(ts).Some? then Logged(strptime(ts).value) else Now,
                       if Contains(line, "USER") then User else Assistant,
                       Strip(FirstLine(rest))))
  {
    BracketedMatchComplete(line, tag, ts, rest);
    BracketedExclusive(line);
    FirstMatchUnrolled(line);
  }

  /** A bare line yields `Now` as its timestamp and its stripped text. */
  lemma ParseBare(line: string, tag: string, strptime: string -> Option<DateTime>)
    requires tag == "USER" || tag == "ASSISTANT"
    requires HasPrefix(line, tag + ": ")
    ensures Parse(line, strptime) ==
            Some(Entry(Now, if Contains(line, "USER") then User else Assistant,
                       Strip(FirstLine(line[|tag| + 2..]))))
  {
    var lit := tag + ": ";
    var m := Some(One(FirstLine(line[|lit|..])));
    assert MatchPattern(Bare(tag), line) == m;
    assert line[0] == lit[0] != '[';
    assert MatchPattern(Bracketed("USER"), line).None?;
    assert MatchPattern(Bracketed("ASSISTANT"), line).None?;
    if tag == "ASSISTANT" {
      assert line[0] == 'A';
      assert MatchPattern(Bare("USER"), line).None?;
    }
    FirstMatchUnrolled(line);
    assert FirstMatch(Patterns, line) == m;
  }

  /**
    An assistant line whose text mentions `USER` is parsed as a user line:
    the role test looks at the whole line, not at the matched pattern.
   */
  lemma AssistantLineMentioningUser(ts: string, text: string, strptime: string -> Option<DateTime>)
    requires |ts| > 0 && forall i :: 0 <= i < |ts| ==> IsStampChar(ts[i])
    requires Contains(text, "USER")
    ensures Parse("[" + ts + "] ASSISTANT: " + text, strptime).Some?
    ensures Parse("[" + ts + "] ASSISTANT: " + text, strptime).value.role == User
  {
    var line := "[" + ts + "] ASSISTANT: " + text;
    assert Closer("ASSISTANT") == "] ASSISTANT: ";
    assert BracketedForm(line, "ASSISTANT", ts, text);
    ParseBracketed(line, "ASSISTANT", ts, text, strptime);
    ContainsAfter("[" + ts + "] ASSISTANT: ", text, "USER");
  }
}
