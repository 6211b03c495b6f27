# AI-log tailer: parsing, extraction and exchange pairing

This project models the core of `AILogMonitor` in `scripts/monitor_ai_logs.py`. That
companion script tails the log of an AI assistant, turns each user prompt and the
assistant reply that follows it into a conversation record, and posts the record
to the Code Monitor server. The model covers four things:

- **Log-line parser** (`LogParser`). `parse_claude_desktop_log` tries four
  start-anchored patterns in order:
  - `[ts] USER: …`
  - `[ts] ASSISTANT: …`
  - `USER: …`
  - `ASSISTANT: …`

  It returns `{timestamp, role, content}` or `None`. Each pattern is written as a
  hand matcher, and the first-match search is the same loop with early return.
  Two behaviours of the code are kept exactly:
  - the role is `User` when the substring `USER` occurs anywhere in the line,
    whichever pattern matched;
  - a bracketed stamp that does not parse yields the current time.
- **Metadata extractors**:
  - `CodeSnippets` models `extract_code_snippets` as a loop over a text, specified
    by a left-to-right, non-overlapping scan for fenced blocks.
  - `FileReferences` models `extract_file_references`. Four `findall` scans add to a
    set; the set is then filtered into a list with no duplicates.
- **Exchange pairing** (`Pairing`). The two-slot buffer `{user, assistant}` of
  `monitor_file` is modelled as a step function and a fold over parsed lines.
  It is compared with an independent one-slot reference.
- **Conversation record and tailer** (`Conversations`, `Monitor`). The class
  `AILogMonitor` keeps its provider and session id. Its `outbox` field holds every
  record handed to `send_to_code_monitor`. `MonitorLines` is the pairing loop of
  `monitor_file` over the lines it reads.

Supporting modules:
- `Wrappers` holds the `Option` type.
- `Text` holds the string operations taken from Python (`startswith`, `in`,
  `strip`, `split('\n')`), the first-occurrence search that `in` and the
  regular expressions rely on, and greedy character-class runs.

**How the regular expressions are modelled.** Each regular expression is a hand
matcher that reproduces the engine's backtracking:
- the bracketed stamp `[\d\-: ]+` is one greedy run, because `]` is not in the class;
- the fence tag `(\w+)?` must be followed directly by the newline;
- the lazy `(.*?)` ends at the first closing `` \n``` ``;
- the verb pattern `[\w/.-]+\.[\w]+` gives characters back from the longest path
  run until it reaches the last dot that is followed by a word character;
- a quoted pattern takes the text up to the next quote, which must end in a dot
  and word characters.

## Model

| member | source | states |
|---|---|---|
| Text.Find | scripts/monitor_ai_logs.py:58 | the first-occurrence search behind `'USER' in line` (and behind the lazy `(.*?)` of line 76 and the quoted `[^q]+` of lines 94-96): the result is an occurrence with no earlier one, and it is `None` exactly when `p` does not occur in `s` |
| Text.Strip | scripts/monitor_ai_logs.py:62 | `strip()` yields the part of the text between a leading and a trailing run of whitespace, and that part neither begins nor ends with whitespace |
| Text.StripIdempotent | scripts/monitor_ai_logs.py:62 | stripping a stripped content changes nothing |
| Text.FirstLine | scripts/monitor_ai_logs.py:41-44 | the `(.*)` capture is a prefix of the rest of the line with no newline, and it stops at the first newline |
| Text.Split | scripts/monitor_ai_logs.py:85 | `split('\n')` gives at least one piece, and no piece holds a newline |
| Text.SplitLength | scripts/monitor_ai_logs.py:85 | `len(code.split('\n'))` is the number of newlines in the code plus one |
| Text.JoinSplit | scripts/monitor_ai_logs.py:85 | joining the pieces of `split('\n')` with newlines gives back the code |
| LogParser.MatchPattern | scripts/monitor_ai_logs.py:41-48 | a bare pattern matches exactly the lines that begin with `TAG: `; a bracketed pattern yields two groups whose stamp is a non-empty run of digits, `-`, `:` and spaces, a bare one a single group; the `(.*)` text never holds a newline |
| LogParser.BracketedMatchComplete | scripts/monitor_ai_logs.py:41-42 | a line `[ts] TAG: rest` with a stamp of digits, `-`, `:` and spaces is matched with groups `ts` and the first line of `rest` |
| LogParser.BracketedMatch | scripts/monitor_ai_logs.py:41-42 | the bracketed matcher succeeds if and only if the line has that form for some stamp and rest |
| LogParser.FirstMatch | scripts/monitor_ai_logs.py:47-50 | the search fails exactly when no pattern matches; otherwise its result is that of a matching pattern with no matching pattern before it |
| LogParser.FirstMatchUnrolled | scripts/monitor_ai_logs.py:40-50 | the search over the four patterns, case by case in the source's order |
| LogParser.NoPatternMatches | scripts/monitor_ai_logs.py:47-50 | the search fails exactly when each of the four patterns fails |
| LogParser.StampOf | scripts/monitor_ai_logs.py:53-56 | the timestamp is `Now` (the `datetime.now()` of the `except` branch) exactly when `strptime` fails, and otherwise the parsed value |
| LogParser.Parse | scripts/monitor_ai_logs.py:34-72 | the parser returns `None` exactly when no pattern matches; otherwise the role is `User` if and only if the line contains `USER`, whichever pattern matched, the content neither begins nor ends with whitespace, and a logged timestamp is the parse of the stamp of a bracketed match |
| LogParser.ParseNoneIff | scripts/monitor_ai_logs.py:40-72 | the parser returns `None` if and only if the line has none of the four forms |
| LogParser.RoleOf | scripts/monitor_ai_logs.py:58 | the role is `User` if and only if the line contains `USER` |
| LogParser.AssistantLineMentioningUser | scripts/monitor_ai_logs.py:42-58 | a bracketed `ASSISTANT:` line whose text mentions `USER` is parsed with the role `User` |
| LogParser.BracketedExclusive | scripts/monitor_ai_logs.py:41-42 | no line matches both bracketed patterns |
| LogParser.PatternsExclusive | scripts/monitor_ai_logs.py:40-49 | no two of the four patterns match the same line, so their order never changes the result |
| LogParser.ParseBracketed | scripts/monitor_ai_logs.py:51-63 | a bracketed line yields the parsed stamp, or `Now` when `strptime` fails; the role by substring; and the stripped first line of the text |
| LogParser.ParseBare | scripts/monitor_ai_logs.py:64-70 | a bare line yields the timestamp `Now`, the role by substring and the stripped first line after `TAG: ` |
| CodeSnippets.MatchFence | scripts/monitor_ai_logs.py:76 | a fence match at the start of a text has a positive length within the text |
| CodeSnippets.Fences | scripts/monitor_ai_logs.py:76-86 | the left-to-right, non-overlapping scan of `finditer`: every snippet it yields has a word tag or `unknown`, code without a closing fence, and `lines` equal to its newlines plus one, so at least 1 |
| CodeSnippets.ExtractCodeSnippets | scripts/monitor_ai_logs.py:74-88 | the loop returns exactly the blocks of the left-to-right scan `Fences` |
| CodeSnippets.MatchFenceWellFormed | scripts/monitor_ai_logs.py:76-86 | a matched snippet has a word tag or `unknown`, code without a closing fence, and `lines` equal to its newlines plus one, so at least 1 |
| CodeSnippets.NoFenceNoSnippets | scripts/monitor_ai_logs.py:76-79 | a text without a triple backquote has no snippets |
| CodeSnippets.FirstClosing | scripts/monitor_ai_logs.py:76 | the lazy body ends at the closing fence right after code that holds none |
| CodeSnippets.MatchFenceOfBlock | scripts/monitor_ai_logs.py:76-86 | a block written with a word tag (or none) and code without a closing fence is matched back with that tag (or `unknown`), that code and its length |
| CodeSnippets.FencesOfRendered | scripts/monitor_ai_logs.py:74-88 | round trip: a written block is extracted as exactly that snippet, and the scan resumes right after it |
| FileReferences.LastDot | scripts/monitor_ai_logs.py:93 | backtracking stops at the last dot, below the bound, that is followed by a word character, and there is none when no such dot exists |
| FileReferences.FirstVerb | scripts/monitor_ai_logs.py:93 | the alternation picks a verb that begins the text, and it fails exactly when none does |
| FileReferences.VerbCapture | scripts/monitor_ai_logs.py:93 | the capture is a prefix of the path run and ends in a dot and word characters |
| FileReferences.MatchVerb | scripts/monitor_ai_logs.py:93 | a verb match consumes part of the text, and its capture has an extension |
| FileReferences.MatchQuoted | scripts/monitor_ai_logs.py:94-96 | a quoted match consumes part of the text, and its capture has an extension |
| FileReferences.MatchRef | scripts/monitor_ai_logs.py:93-96 | a match of any of the four patterns at the start of a text consumes a non-empty part of it, and its capture has an extension |
| FileReferences.FindAll | scripts/monitor_ai_logs.py:101 | every capture `findall` returns has an extension |
| FileReferences.CandidatesOf | scripts/monitor_ai_logs.py:99-101 | the set built by `files.update(re.findall(...))` holds exactly what some pattern finds, and every member has an extension |
| FileReferences.ReferenceSet | scripts/monitor_ai_logs.py:99-104 | every distinct reference of a text does not start with `http`, is shorter than 200 and has an extension |
| FileReferences.ExtractFileReferences | scripts/monitor_ai_logs.py:90-105 | the result lists each accepted candidate exactly once; every entry is shorter than 200, does not start with `http` and has an extension |
| FileReferences.ListAccepted | scripts/monitor_ai_logs.py:104 | the comprehension keeps exactly the accepted members of the set, without duplicates |
| FileReferences.ReferenceListLength | scripts/monitor_ai_logs.py:99-105 | such a list is as long as the set of distinct accepted references |
| FileReferences.MatchQuotedAt | scripts/monitor_ai_logs.py:94-96 | a name between two quotes, free of the quote and with an extension, is captured as itself |
| FileReferences.QuotedRoundTrip | scripts/monitor_ai_logs.py:94-101 | `findall` on a quoted `stem.ext` returns that name and then goes on with the text after it |
| FileReferences.MatchVerbOfName | scripts/monitor_ai_logs.py:93 | after a verb, a path `stem.ext` followed by a non-path character is captured whole |
| FileReferences.VerbRoundTrip | scripts/monitor_ai_logs.py:93-101 | `findall` on `verb stem.ext` returns that name and then goes on with the rest |
| FileReferences.QuotedReferenceListed | scripts/monitor_ai_logs.py:94-104 | a quoted name that passes the filter is among the references of the text |
| Pairing.ParseAll | scripts/monitor_ai_logs.py:156 | every line is parsed, one result per line and in order |
| Pairing.Step | scripts/monitor_ai_logs.py:158-170 | an exchange is emitted if and only if an assistant line arrives while a user message is held; it pairs the held message with that line, and both slots are empty afterwards; otherwise only the slot of the line's role changes |
| Pairing.Run | scripts/monitor_ai_logs.py:145-170 | the loop over the parsed lines never hands on more exchanges than there are assistant lines, since each exchange consumes its own reply |
| Pairing.Emitted | scripts/monitor_ai_logs.py:145-170 | each exchange a log produces pairs the parse of one of its user lines with the parse of one of its assistant lines, and there are no more exchanges than assistant lines |
| Pairing.RunAppend | scripts/monitor_ai_logs.py:145-170 | reading two runs of lines one after the other is reading their concatenation |
| Pairing.RunSnoc | scripts/monitor_ai_logs.py:145-170 | one more line takes the loop one step further from where it stood |
| Pairing.RunMatchesReference | scripts/monitor_ai_logs.py:158-170 | the two-slot loop emits exactly what a one-slot reference that holds only the latest user message emits |
| Pairing.EmittedFromInput | scripts/monitor_ai_logs.py:158-170 | each emitted pair is a user line and an assistant line from the input (or the held message) |
| Pairing.OrphanReplyOverwritten | scripts/monitor_ai_logs.py:163-170 | an assistant line with no held user emits nothing; a later user line and a reply emit that newer pair, and the earlier reply is overwritten |
| Pairing.LatestUserWins | scripts/monitor_ai_logs.py:159-161 | a second user line before a reply replaces the first, which is never emitted |
| Conversations.BuildConversation | scripts/monitor_ai_logs.py:175-200 | there is no record exactly when the user or the assistant part is missing; otherwise the record describes the exchange |
| Conversations.Describes | scripts/monitor_ai_logs.py:184-200 | the record of an exchange has the session id, the provider, the model name `<provider>-model`, both contents, the snippets of the response and the references of prompt plus space plus response; then `code_blocks` is the number of blocks of the response; `mentioned_files` is the number of distinct accepted references of prompt plus space plus response; `response_length` is the length of the response; context files pass the filter and snippets are well formed |
| Conversations.PlainResponse | scripts/monitor_ai_logs.py:184-196 | a response without a fence gives no snippets and `code_blocks` 0 |
| Monitor.AILogMonitor.constructor | scripts/monitor_ai_logs.py:28-32 | the tailer starts with its provider and session id and nothing sent |
| Monitor.AILogMonitor.CreateAndSendConversation | scripts/monitor_ai_logs.py:175-207 | nothing is sent for an incomplete exchange; otherwise exactly one record describing it is appended |
| Monitor.AILogMonitor.Feed | scripts/monitor_ai_logs.py:156-170 | the loop body moves the slots as `Step` says and sends exactly the exchange it completes |
| Monitor.AILogMonitor.MonitorLines | scripts/monitor_ai_logs.py:138-173 | over the lines read, one record is sent per emitted exchange, in order, each describing its pair; earlier records are kept |

## Left out

- `send_to_code_monitor`: the HTTP POST, its status handling and its logging are not modelled. A call to it is modelled as appending the record to `outbox`.
- File I/O in `monitor_file`: opening the file, the existence check, `seek`/`tell`, `last_position`, `readline` and the 0.5 s poll with `sleep`. `MonitorLines` works on the sequence of lines already read.
- `monitor_directory` and `main`: a filesystem glob, argument parsing and a health-check request.
- `datetime.now()`: there is no clock. The session id is a constructor argument, and the fallback timestamp is the value `Now`.
- `datetime.strptime`: its calendar validation is not modelled. It is a parameter `strptime` that returns `None` when it fails.
- Logging throughout.
- Unicode character classes: `\w` and `\d` are modelled on ASCII letters, digits and `_`, while Python's classes also accept other Unicode letters and digits. `str.isspace()` and `strip()` use Python's full whitespace set.
- Python's set iteration order: `ExtractFileReferences` returns the references in an order the model leaves open, chosen with `:|`. The contract states the contents and the absence of duplicates, not the order.
- `re.DOTALL` matches newlines with `.`, and the code of a block is taken up to the first `` \n``` `` whatever it holds. Characters the file reader drops with `errors='ignore'` are not modelled, because the lines themselves are inputs.
