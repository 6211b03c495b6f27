/**
  The conversation record that `AILogMonitor.create_and_send_conversation`
  assembles from a completed exchange, before it is posted.
 */
module Conversations {
  import opened Wrappers
  import opened Text
  import opened LogParser
  import opened CodeSnippets
  import opened FileReferences
  import opened Pairing

  /** The `metadata` sub-record. */
  datatype Metadata = Metadata(codeBlocks: nat, mentionedFiles: nat, responseLength: nat)

  /** The record posted for one exchange. */
  datatype Conversation = Conversation(
    sessionId: string,
    aiProvider: string,
    aiModel: string,
    userPrompt: string,
    aiResponse: string,
    contextFiles: seq<string>,
    codeSnippets: seq<Snippet>,
    metadata: Metadata)

  /**
    `c` is the record for the exchange `user`/`assistant` of session `sessionId`
    and provider `provider`: the prompt and response are the two contents, the
    model name is the provider followed by `-model`, the snippets are those of
    the response, the context files are the references of the prompt and the
    response joined by a space, and the metadata counts them.

    The counts then agree with the texts themselves: the code blocks of the
    response, the distinct accepted references of prompt and response, and the
    length of the response; every context file is accepted and every snippet
    well formed.
   */
  ghost predicate Describes(c: Conversation, sessionId: string, provider: string, user: Entry, assistant: Entry): (r: bool)
    ensures r ==> c.metadata == Metadata(|Fences(assistant.content)|,
                                         |ReferenceSet(user.content + " " + assistant.content)|,
                                         |c.aiResponse|)
    ensures r ==> forall f :: f in c.contextFiles ==> !HasPrefix(f, "http") && |f| < 200
    ensures r ==> forall s :: s in c.codeSnippets ==> WellFormed(s) && s.lines >= 1
  {
    var text := user.content + " " + assistant.content;
    && c.sessionId == sessionId
    && c.aiProvider == provider
    && c.aiModel == provider + "-model"
    && c.userPrompt == user.content
    && c.aiResponse == assistant.content
    && c.codeSnippets == Fences(assistant.content)
    && IsReferenceList(c.contextFiles, text)
    && (ReferenceListLength(c.contextFiles, text);
        c.metadata == Metadata(|c.codeSnippets|, |c.contextFiles|, |assistant.content|))
  }

  /** `records` are the records of the exchanges `pairs`, one for one and in order. */
  ghost predicate DescribesAll(records: seq<Conversation>, pairs: seq<Pair>, sessionId: string, provider: string) {
    && |records| == |pairs|
    && forall k :: 0 <= k < |pairs| ==> Describes(records[k], sessionId, provider, pairs[k].user, pairs[k].assistant)
  }

  /**
    Sending at most one more record keeps the records after `base` in step
    with the exchanges: `sent` is the exchange completed, if any.
   */
  lemma DescribesAllSend(before: seq<Conversation>, after: seq<Conversation>, base: nat, pairs: seq<Pair>,
                         sent: Option<Pair>, sessionId: string, provider: string)
    requires base <= |before| && DescribesAll(before[base..], pairs, sessionId, provider)
    requires sent.None? ==> after == before
    requires sent.Some? ==> && |after| == |before| + 1 && after[..|before|] == before
                            && Describes(after[|before|], sessionId, provider, sent.value.user, sent.value.assistant)
    ensures base <= |after| && after[..base] == before[..base]
    ensures DescribesAll(after[base..], pairs + ToSeq(sent), sessionId, provider)
  {
    if sent.Some? {
      SliceOfExtended(before, after, base);
      assert ToSeq(sent) == [sent.value];
      DescribesAllSnoc(before[base..], pairs, after[|before|], sent.value, sessionId, provider);
    } else {
      assert pairs + ToSeq(sent) == pairs;
    }
  }

  /** One more record for one more exchange keeps the two in step. */
  lemma DescribesAllSnoc(records: seq<Conversation>, pairs: seq<Pair>, c: Conversation, p: Pair, sessionId: string, provider: string)
    requires DescribesAll(records, pairs, sessionId, provider)
    requires Describes(c, sessionId, provider, p.user, p.assistant)
    ensures DescribesAll(records + [c], pairs + [p], sessionId, provider)
  {
    var rs, ps, n := records + [c], pairs + [p], |pairs|;
    assert |rs| == |ps| == n + 1;
    forall k | 0 <= k < n + 1
      ensures Describes(rs[k], sessionId, provider, ps[k].user, ps[k].assistant)
    {
      if k < n {
        assert rs[k] == records[k] && ps[k] == pairs[k];
      } else {
        assert k == n;
        assert rs[k] == c && ps[k] == p;
      }
    }
  }

  /** A sequence extended by one element keeps its prefix and its old entries after `base`. */
  lemma SliceOfExtended<T>(before: seq<T>, after: seq<T>, base: nat)
    requires base <= |before| && |after| == |before| + 1 && after[..|before|] == before
    ensures after[..base] == before[..base]
    ensures after[base..] == before[base..] + [after[|before|]]
  {
    assert after == before + [after[|before|]];
  }

  /**
    The record construction of `create_and_send_conversation`: nothing when
    either part of the exchange is missing, and otherwise the record that
    describes it.
   */
  method BuildConversation(sessionId: string, provider: string, x: Exchange) returns (c: Option<Conversation>)
    ensures c.None? <==> x.user.None? || x.assistant.None?
    ensures c.Some? ==> Describes(c.value, sessionId, provider, x.user.value, x.assistant.value)
  {
    if x.user.None? || x.assistant.None? {
      return None;
    }
    var userContent := x.user.value.content;
    var aiContent := x.assistant.value.content;
    var snippets := ExtractCodeSnippets(aiContent);
    var files := ExtractFileReferences(userContent + " " + aiContent);
    c := Some(Conversation(
      sessionId, provider, provider + "-model", userContent, aiContent, files, snippets,
      Metadata(|snippets|, |files|, |aiContent|)));
  }

  /** A response without an opening fence yields a record with no snippets and `code_blocks` 0. */
  lemma PlainResponse(c: Conversation, sessionId: string, provider: string, user: Entry, assistant: Entry)
    requires Describes(c, sessionId, provider, user, assistant)
    requires !Contains(assistant.content, "```")
    ensures c.codeSnippets == [] && c.metadata.codeBlocks == 0
  {
    NoFenceNoSnippets(assistant.content);
  }
}
