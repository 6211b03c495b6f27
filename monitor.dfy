/**
  `AILogMonitor`: the tailer object. Its provider and session id are fixed
  at construction; every conversation it hands to `send_to_code_monitor` is
  appended to `outbox`, which stands for the posts it makes.
 */
module Monitor {
  import opened Wrappers
  import opened LogParser
  import opened Pairing
  import opened Conversations

  class AILogMonitor {
    const provider: string
    /** `datetime.now().strftime("%Y%m%d-%H%M%S")` at construction, passed in. */
    const sessionId: string
    /** The conversations handed to `send_to_code_monitor`, oldest first. */
    var outbox: seq<Conversation>

    constructor(provider: string, sessionId: string)
      ensures this.provider == provider && this.sessionId == sessionId
      ensures outbox == []
    {
      this.provider := provider;
      this.sessionId := sessionId;
      outbox := [];
    }

    /** Nothing is sent for an incomplete exchange; otherwise one record describing it is. */
    method CreateAndSendConversation(x: Exchange)
      modifies this
      ensures x.user.None? || x.assistant.None? ==> outbox == old(outbox)
      ensures x.user.Some? && x.assistant.Some? ==>
                && |outbox| == |old(outbox)| + 1
                && outbox[..|old(outbox)|] == old(outbox)
                && Describes(outbox[|old(outbox)|], sessionId, provider, x.user.value, x.assistant.value)
    {
      var c := BuildConversation(sessionId, provider, x);
      if c.Some? {
        outbox := outbox + [c.value];
      }
    }

    /**
      The body of the `monitor_file` loop for one parsed line: the slots are
      updated as `Step` says, and the exchange it completes, if any, is sent.
     */
    method Feed(current: Exchange, parsed: Option<Entry>) returns (next: Exchange)
      modifies this
      ensures next == Step(current, parsed).0
      ensures Step(current, parsed).1.None? ==> outbox == old(outbox)
      ensures Step(current, parsed).1.Some? ==>
                && |outbox| == |old(outbox)| + 1
                && outbox[..|old(outbox)|] == old(outbox)
                && Describes(outbox[|old(outbox)|], sessionId, provider,
                             Step(current, parsed).1.value.user, Step(current, parsed).1.value.assistant)
    {
      next := current;
      if parsed.Some? {
        if parsed.value.role == User {
          next := next.(user := parsed);
        } else {
          next := next.(assistant := parsed);
          if next.user.Some? {
            CreateAndSendConversation(next);
            next := Empty;
          }
        }
      }
    }

    /**
      The pairing loop of `monitor_file` over the lines read: one record is
      sent per exchange the pairing emits, in order, each describing its pair.
     */
    method MonitorLines(lines: seq<string>, strptime: string -> Option<DateTime>)
      modifies this
      ensures |old(outbox)| <= |outbox| && outbox[..|old(outbox)|] == old(outbox)
      ensures DescribesAll(outbox[|old(outbox)|..], Emitted(lines, strptime), sessionId, provider)
    {
      var current := Empty;
      ghost var pairs: seq<Pair> := [];
      var i := 0;
      while i < |lines|
        invariant i <= |lines|
        invariant current == Run(Empty, ParseAll(lines[..i], strptime)).0
        invariant pairs == Run(Empty, ParseAll(lines[..i], strptime)).1
        invariant |old(outbox)| <= |outbox| && outbox[..|old(outbox)|] == old(outbox)
        invariant DescribesAll(outbox[|old(outbox)|..], pairs, sessionId, provider)
      {
        var parsed := Parse(lines[i], strptime);
        assert ParseAll(lines[..i + 1], strptime) == ParseAll(lines[..i], strptime) + [parsed];
        RunSnoc(Empty, ParseAll(lines[..i], strptime), parsed);
        ghost var sent := Step(current, parsed).1;
        ghost var before := outbox;
        current := Feed(current, parsed);
        DescribesAllSend(before, outbox, |old(outbox)|, pairs, sent, sessionId, provider);
        pairs := pairs + ToSeq(sent);
        i := i + 1;
      }
      assert lines[..i] == lines;
    }
  }
}
