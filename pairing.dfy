/**
  The exchange-pairing state machine of `AILogMonitor.monitor_file`: a
  two-slot buffer `{user, assistant}` fed with the parsed lines of a log.
  A user line overwrites the user slot; an assistant line fills the assistant
  slot and, when a user message is held, completes an exchange and empties
  both slots.
 */
module Pairing {
  import opened Wrappers
  import opened LogParser

  /** `current_exchange = {'user': ..., 'assistant': ...}` */
  datatype Exchange = Exchange(user: Option<Entry>, assistant: Option<Entry>)

  const Empty: Exchange := Exchange(None, None)

  /** A completed exchange: the held user message and the assistant reply that completed it. */
  datatype Pair = Pair(user: Entry, assistant: Entry)

  /**
    The body of the loop for one parsed line: the new slots, and the exchange
    handed on, if any. An exchange is handed on exactly when an assistant line
    arrives while a user message is held; it pairs that message with this line,
    and both slots are empty afterwards. Otherwise a user line only replaces the
    user slot, an assistant line only fills the assistant slot, and an unparsed
    line changes nothing.
   */
  function Step(x: Exchange, parsed: Option<Entry>): (r: (Exchange, Option<Pair>))
    ensures r.1.Some? <==> parsed.Some? && parsed.value.role == Assistant && x.user.Some?
    ensures r.1.Some? ==> r == (Empty, Some(Pair(x.user.value, parsed.value)))
    ensures r.1.None? ==>
              r.0 == match parsed
                     case None => x
                     case Some(e) => if e.role == User then x.(user := parsed) else x.(assistant := parsed)
  {
    match parsed
    case None => (x, None)
    case Some(e) =>
      if e.role == User then
        (x.(user := Some(e)), None)
      else
        assert e.role == Assistant;
        var filled := x.(assistant := Some(e));
        if filled.user.Some? then (Empty, Some(Pair(filled.user.value, filled.assistant.value)))
        else (filled, None)
  }

  /**
    The loop over a sequence of parsed lines: the final slots and the exchanges
    handed on, in order. Each exchange consumes its own assistant line, so there
    are never more exchanges than replies.
   */
  function Run(x: Exchange, parsed: seq<Option<Entry>>): (r: (Exchange, seq<Pair>))
    ensures |r.1| <= Replies(parsed)
    decreases |parsed|
  {
    if parsed == [] then
      (x, [])
    else
      var first := Step(x, parsed[0]);
      var later := Run(first.0, parsed[1..]);
      (later.0, ToSeq(first.1) + later.1)
  }

  /** `parse_claude_desktop_log` applied to every line. */
  function ParseAll(lines: seq<string>, strptime: string -> Option<DateTime>): (parsed: seq<Option<Entry>>)
    ensures |parsed| == |lines|
    ensures forall i :: 0 <= i < |lines| ==> parsed[i] == Parse(lines[i], strptime)
  {
    if lines == [] then [] else [Parse(lines[0], strptime)] + ParseAll(lines[1..], strptime)
  }

  /**
    The exchanges a log produces, read from the start with empty slots: each
    pairs the parse of a user line with the parse of an assistant line of the
    log, and there are no more of them than assistant lines.
   */
  function Emitted(lines: seq<string>, strptime: string -> Option<DateTime>): (pairs: seq<Pair>)
    ensures |pairs| <= Replies(ParseAll(lines, strptime))
    ensures forall p :: p in pairs ==>
              && p.user.role == User && p.assistant.role == Assistant
              && (exists i :: 0 <= i < |lines| && Parse(lines[i], strptime) == Some(p.user))
              && (exists j :: 0 <= j < |lines| && Parse(lines[j], strptime) == Some(p.assistant))
  {
    var parsed := ParseAll(lines, strptime);
    EmittedFromInput(Empty, parsed);
    Run(Empty, parsed).1
  }

  /** Running over two pieces in turn is running over their concatenation. */
  lemma {:induction false} RunAppend(x: Exchange, a: seq<Option<Entry>>, b: seq<Option<Entry>>)
    ensures Run(x, a + b) == (Run(Run(x, a).0, b).0, Run(x, a).1 + Run(Run(x, a).0, b).1)
    decreases |a|
  {
    if a == [] {
      assert a + b == b;
      assert Run(x, a) == (x, []);
      assert [] + Run(x, b).1 == Run(x, b).1;
    } else {
      var first := Step(x, a[0]);
      assert (a + b)[0] == a[0];
      assert (a + b)[1..] == a[1..] + b;
      RunAppend(first.0, a[1..], b);
      var mid := Run(first.0, a[1..]).0;
      assert Run(x, a).0 == mid;
      assert ToSeq(first.1) + (Run(first.0, a[1..]).1 + Run(mid, b).1)
          == (ToSeq(first.1) + Run(first.0, a[1..]).1) + Run(mid, b).1;
    }
  }

  /** One more line: the step the loop takes after everything before it. */
  lemma RunSnoc(x: Exchange, parsed: seq<Option<Entry>>, p: Option<Entry>)
    ensures var (y, out) := Run(x, parsed);
            Run(x, parsed + [p]) == (Step(y, p).0, out + ToSeq(Step(y, p).1))
  {
    RunAppend(x, parsed, [p]);
    var y := Run(x, parsed).0;
    assert Run(y, [p]) == (Step(y, p).0, ToSeq(Step(y, p).1) + []);
    assert ToSeq(Step(y, p).1) + [] == ToSeq(Step(y, p).1);
  }

  /**
    A reference with one slot only: idle, or holding the latest user message.
    It shows the assistant slot never decides what is handed on.
   */
  function Idle(parsed: seq<Option<Entry>>): seq<Pair>
    decreases |parsed|, 0
  {
    if parsed == [] then []
    else match parsed[0]
      case Some(e) => if e.role == User then Holding(e, parsed[1..]) else Idle(parsed[1..])
      case None => Idle(parsed[1..])
  }

  function Holding(u: Entry, parsed: seq<Option<Entry>>): seq<Pair>
    decreases |parsed|, 1
  {
    if parsed == [] then []
    else match parsed[0]
      case Some(e) => if e.role == User then Holding(e, parsed[1..]) else [Pair(u, e)] + Idle(parsed[1..])
      case None => Holding(u, parsed[1..])
  }

  /** The two-slot loop hands on exactly the exchanges of the one-slot reference, whatever the assistant slot holds. */
  lemma {:induction false} RunMatchesReference(x: Exchange, parsed: seq<Option<Entry>>)
    ensures Run(x, parsed).1 == if x.user.Some? then Holding(x.user.value, parsed) else Idle(parsed)
    decreases |parsed|
  {
    if parsed != [] {
      RunMatchesReference(Step(x, parsed[0]).0, parsed[1..]);
    }
  }

  /** What is handed on is made of input lines: a user line paired with an assistant line. */
  lemma {:induction false} EmittedFromInput(x: Exchange, parsed: seq<Option<Entry>>)
    requires x.user.Some? ==> x.user.value.role == User
    ensures forall p :: p in Run(x, parsed).1 ==>
              && p.user.role == User && p.assistant.role == Assistant
              && (Some(p.user) in parsed || Some(p.user) == x.user)
              && Some(p.assistant) in parsed
    decreases |parsed|
  {
    if parsed != [] {
      EmittedFromInput(Step(x, parsed[0]).0, parsed[1..]);
      assert forall o :: o in parsed[1..] ==> o in parsed;
    }
  }

  /** The number of assistant lines among the parsed lines. */
  function Replies(parsed: seq<Option<Entry>>): nat {
    if parsed == [] then 0
    else (if parsed[0].Some? && parsed[0].value.role == Assistant then 1 else 0) + Replies(parsed[1..])
  }

  /** The loop's first step, unfolded. */
  lemma RunCons(x: Exchange, p: Option<Entry>, rest: seq<Option<Entry>>)
    ensures var first := Step(x, p);
            Run(x, [p] + rest) == (Run(first.0, rest).0, ToSeq(first.1) + Run(first.0, rest).1)
  {
    assert ([p] + rest)[0] == p;
    assert ([p] + rest)[1..] == rest;
  }

  /**
    An assistant line with no user message held hands nothing on; a later user
    line followed by an assistant line hands on that newer pair, the earlier
    reply being overwritten.
   */
  lemma OrphanReplyOverwritten(a1: Entry, u: Entry, a2: Entry)
    requires a1.role == Assistant && u.role == User && a2.role == Assistant
    ensures Run(Empty, [Some(a1)]) == (Exchange(None, Some(a1)), [])
    ensures Run(Empty, [Some(a1), Some(u), Some(a2)]) == (Empty, [Pair(u, a2)])
  {
    var held := Exchange(None, Some(a1));
    var both := Exchange(Some(u), Some(a1));
    RunCons(Empty, Some(a1), []);
    assert [Some(a1)] + [] == [Some(a1)];
    assert ToSeq<Pair>(None) + Run(held, []).1 == [];
    RunCons(both, Some(a2), []);
    assert [Some(a2)] + [] == [Some(a2)];
    assert ToSeq(Some(Pair(u, a2))) + Run(Empty, []).1 == [Pair(u, a2)];
    RunCons(held, Some(u), [Some(a2)]);
    assert ToSeq<Pair>(None) + Run(both, [Some(a2)]).1 == [Pair(u, a2)];
    RunCons(Empty, Some(a1), [Some(u), Some(a2)]);
    assert ToSeq<Pair>(None) + Run(held, [Some(u), Some(a2)]).1 == [Pair(u, a2)];
    assert [Some(a1)] + [Some(u), Some(a2)] == [Some(a1), Some(u), Some(a2)];
  }

  /** A second user line before any reply replaces the first, which is never handed on. */
  lemma LatestUserWins(u1: Entry, u2: Entry, a: Entry)
    requires u1.role == User && u2.role == User && a.role == Assistant
    ensures Run(Empty, [Some(u1), Some(u2), Some(a)]) == (Empty, [Pair(u2, a)])
  {
    var first := Exchange(Some(u1), None);
    var held := Exchange(Some(u2), None);
    RunCons(held, Some(a), []);
    assert [Some(a)] + [] == [Some(a)];
    assert ToSeq(Some(Pair(u2, a))) + Run(Empty, []).1 == [Pair(u2, a)];
    RunCons(first, Some(u2), [Some(a)]);
    assert ToSeq<Pair>(None) + Run(held, [Some(a)]).1 == [Pair(u2, a)];
    RunCons(Empty, Some(u1), [Some(u2), Some(a)]);
    assert ToSeq<Pair>(None) + Run(first, [Some(u2), Some(a)]).1 == [Pair(u2, a)];
    assert [Some(u1)] + [Some(u2), Some(a)] == [Some(u1), Some(u2), Some(a)];
  }
}
