/** Choosing the reply text from the agent's response stream. */
module Reply {
  import opened Wrappers
  import opened Strings

  /** One event of the agent's response stream: whether it is final, and what
      reading the text of its first content part gives — the text, or the
      message of the error raised when the event has no content, no parts,
      or a first part without text. */
  datatype ResponseEvent = ResponseEvent(isFinal: bool, firstText: Result<string, string>)

  /** How the stream ends after its events: normally, or by raising. */
  datatype Ending = Completed | Raised(message: string)

  /** A finite response stream. A run that fails after `n` events is the
      stream of those `n` events ending in `Raised`. */
  datatype Stream = Stream(events: seq<ResponseEvent>, ending: Ending)

  /** The reply decided on: an answer, the no-response sentinel, or an error
      report. */
  datatype ReplyOutcome = Answer(text: string) | NoResponse | AgentError(message: string)

  const NoResponseText := "(no response)"
  const AgentErrorPrefix := "Error from Agent: "

  /** Index of the first final event, or `|events|` if there is none. */
  function FirstFinal(events: seq<ResponseEvent>): (k: nat)
    ensures k <= |events|
    ensures forall i :: 0 <= i < k ==> !events[i].isFinal
    ensures k < |events| ==> events[k].isFinal
  {
    if events == [] || events[0].isFinal then 0 else 1 + FirstFinal(events[1..])
  }

  /** The reply a final event gives. */
  function FromFinal(ev: ResponseEvent): (o: ReplyOutcome)
    ensures o.Answer? ==> ev.firstText.Success? && o.text == Strip(ev.firstText.value)
    ensures o.Answer? ==> o.text != [] && Strip(o.text) == o.text
    ensures o.AgentError? ==> ev.firstText.Failure? && o.message == ev.firstText.error
    ensures o.AgentError? <==> ev.firstText.Failure?
    ensures o.NoResponse? <==> ev.firstText.Success? && Strip(ev.firstText.value) == []
  {
    match ev.firstText
    case Failure(msg) => AgentError(msg)
    case Success(t) =>
      var s := Strip(t);
      StripIdempotent(t);
      if s == [] then NoResponse else Answer(s)
  }

  /** Consume the stream one event at a time, stopping at the first final
      event. */
  function SelectReply(s: Stream): (o: ReplyOutcome)
    decreases |s.events|
    ensures var k := FirstFinal(s.events);
      && (k < |s.events| ==> o == FromFinal(s.events[k]))
      && (k == |s.events| && s.ending.Completed? ==> o == NoResponse)
      && (k == |s.events| && s.ending.Raised? ==> o == AgentError(s.ending.message))
  {
    if s.events == [] then
      match s.ending
      case Completed => NoResponse
      case Raised(msg) => AgentError(msg)
    else if s.events[0].isFinal then FromFinal(s.events[0])
    else SelectReply(Stream(s.events[1..], s.ending))
  }

  /** The text posted for a reply outcome. */
  function ReplyText(o: ReplyOutcome): (r: string)
    ensures o.Answer? ==> r == o.text
    ensures o.NoResponse? ==> r == NoResponseText
    ensures o.AgentError? ==> HasPrefix(r, AgentErrorPrefix) && r[|AgentErrorPrefix|..] == o.message
  {
    match o
    case Answer(t) => t
    case NoResponse => NoResponseText
    case AgentError(msg) => AgentErrorPrefix + msg
  }

  /** The reply is never empty: an answer is non-empty by construction and
      the two other texts are fixed non-empty strings. */
  lemma ReplyTextNonEmpty(s: Stream)
    ensures ReplyText(SelectReply(s)) != []
  {
  }

  /** The loop of `handle_mention` over the response stream, as written:
      keep the stripped text of the first final event and stop; after the
      loop, fall back to the sentinel; an error raised by the stream or by
      reading the final event's text replaces the reply with an error report.
      `consumed` counts the events read from the stream. */
  method ConsumeStream(s: Stream) returns (reply: string, consumed: nat)
    ensures reply == ReplyText(SelectReply(s))
    ensures consumed == if FirstFinal(s.events) < |s.events| then FirstFinal(s.events) + 1 else |s.events|
  {
    reply := "";
    var raised: Option<string> := None;
    var i := 0;
    consumed := 0;
    while i < |s.events|
      invariant 0 <= i <= |s.events|
      invariant consumed == i
      invariant forall j :: 0 <= j < i ==> !s.events[j].isFinal
      invariant reply == [] && raised.None?
    {
      consumed := consumed + 1;
      if s.events[i].isFinal {
        match s.events[i].firstText {
          case Failure(msg) =>
            raised := Some(msg);
          case Success(t) =>
            reply := Strip(t);
        }
        break;
      }
      i := i + 1;
    }
    ghost var k := FirstFinal(s.events);
    assert k == i;
    if i == |s.events| {
      if s.ending.Raised? {
        raised := Some(s.ending.message);
      }
    }
    match raised
    case Some(msg) =>
      reply := AgentErrorPrefix + msg;
    case None =>
      if reply == [] {
        reply := NoResponseText;
      }
  }

  /** Events after the first final one are never looked at: neither they nor
      the way the stream would have ended change the reply. */
  lemma {:induction false} LaterEventsIgnored(events: seq<ResponseEvent>, later: seq<ResponseEvent>,
                                              e1: Ending, e2: Ending)
    requires FirstFinal(events) < |events|
    ensures SelectReply(Stream(events + later, e1)) == SelectReply(Stream(events, e2))
    decreases |events|
  {
    assert (events + later)[0] == events[0];
    if !events[0].isFinal {
      assert (events + later)[1..] == events[1..] + later;
      LaterEventsIgnored(events[1..], later, e1, e2);
    }
  }

  /** Events that are not final make no difference to the reply. */
  lemma {:induction false} IntermediateEventsIgnored(pre: seq<ResponseEvent>, s: Stream)
    requires forall i :: 0 <= i < |pre| ==> !pre[i].isFinal
    ensures SelectReply(Stream(pre + s.events, s.ending)) == SelectReply(s)
    decreases |pre|
  {
    if pre != [] {
      assert (pre + s.events)[0] == pre[0];
      assert (pre + s.events)[1..] == pre[1..] + s.events;
      IntermediateEventsIgnored(pre[1..], s);
    } else {
      assert pre + s.events == s.events;
    }
  }

  /** Two intermediate events and then a final one carrying "Here you go"
      give exactly that reply. */
  lemma FinalAfterIntermediates(a: ResponseEvent, b: ResponseEvent, t: string, e: Ending)
    requires !a.isFinal && !b.isFinal
    requires t == "Here you go"
    ensures ReplyText(SelectReply(Stream([a, b, ResponseEvent(true, Success(t))], e))) == t
  {
    var fin := ResponseEvent(true, Success(t));
    IntermediateEventsIgnored([a, b], Stream([fin], e));
    assert [a, b] + [fin] == [a, b, fin];
    assert t[0] == 'H' && t[|t| - 1] == 'o';
    StripKeepsTrimmed(t);
  }

  /** A run that raises before any final event is reported with the error's
      message behind the fixed prefix. */
  lemma FailureIsReported(events: seq<ResponseEvent>, msg: string)
    requires forall i :: 0 <= i < |events| ==> !events[i].isFinal
    ensures ReplyText(SelectReply(Stream(events, Raised(msg)))) == AgentErrorPrefix + msg
  {
  }
}
