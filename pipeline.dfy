/**
 * The per-message body shared by the three drivers (`main`, and the two
 * `processEmails`): extract, classify, send a reply only on "YES", then mark
 * the message read; anything that throws abandons the rest of that message
 * only. The body is stated over its stages (a `Stages` record), which
 * `Wiring.Wire` binds to the extractor, the classifier, the template and
 * `sendReply` of this model.
 */
module Pipeline {
  import opened Wrappers
  import opened Extractor
  import opened Reply

  /** The stages of the loop body. `extract` is `extractInfo`; `classify` is `classifyIssue`
      on the extracted fields; `reply` is the send request `sendReply` builds for the
      generated letter (`None` when building it throws); `send` answers the new message's
      id or `None` when it throws; `gmailModify` answers whether `users.messages.modify`
      succeeded. */
  datatype Stages = Stages(
    extract: Email -> Result<Ticket, ExtractError>,
    classify: Ticket -> string,
    reply: Ticket -> Option<SendRequest>,
    send: SendRequest -> Option<string>,
    gmailModify: ModifyRequest -> bool)

  /** What happens to a message, in order: its classification, the send call and its
      answer, the mark-read call and whether it succeeded, and `Abandoned` when a step
      threw and the loop went on to the next message. */
  datatype Event =
    | Classified(id: string, verdict: string)
    | SendCalled(id: string, request: SendRequest, replyId: Option<string>)
    | MarkReadCalled(id: string, modifyRequest: ModifyRequest, ok: bool)
    | Abandoned(id: string)

  /** The events of one message, whether a reply went out, and whether it was marked read. */
  datatype Outcome = Outcome(events: seq<Event>, replied: bool, markedRead: bool)

  /** The mark-read step, after the events `before`. */
  function MarkStep(id: string, s: Stages, before: seq<Event>, replied: bool): Outcome {
    var request := MarkReadRequest(id);
    if s.gmailModify(request) then Outcome(before + [MarkReadCalled(id, request, true)], replied, true)
    else Outcome(before + [MarkReadCalled(id, request, false), Abandoned(id)], replied, false)
  }

  /** One pass of the loop body, as a specification. */
  function Process(m: Email, s: Stages): Outcome {
    match s.extract(m)
    case Err(_) => Outcome([Abandoned(m.id)], false, false)
    case Ok(t) =>
      var verdict := s.classify(t);
      if verdict != "YES" then MarkStep(m.id, s, [Classified(m.id, verdict)], false)
      else match s.reply(t)
        case None => Outcome([Classified(m.id, verdict), Abandoned(m.id)], false, false)
        case Some(request) =>
          match s.send(request)
          case None => Outcome([Classified(m.id, verdict), SendCalled(m.id, request, None), Abandoned(m.id)], false, false)
          case Some(replyId) => MarkStep(m.id, s, [Classified(m.id, verdict), SendCalled(m.id, request, Some(replyId))], true)
  }

  /** The `try` block of the loop: each step runs only when the previous one returned. */
  method ProcessMessage(m: Email, s: Stages) returns (o: Outcome)
    ensures o == Process(m, s)
  {
    var extracted := s.extract(m);
    if extracted.Err? {
      return Outcome([Abandoned(m.id)], false, false);
    }
    var t := extracted.value;
    var events: seq<Event> := [];
    var verdict := s.classify(t);
    events := events + [Classified(m.id, verdict)];
    var replied := false;
    if verdict == "YES" {
      var request := s.reply(t);
      if request.None? {
        events := events + [Abandoned(m.id)];
        return Outcome(events, false, false);
      }
      var replyId := s.send(request.value);
      events := events + [SendCalled(m.id, request.value, replyId)];
      if replyId.None? {
        events := events + [Abandoned(m.id)];
        return Outcome(events, false, false);
      }
      replied := true;
    }
    var marked := MarkAsRead(m.id, s.gmailModify);
    events := events + [MarkReadCalled(m.id, MarkReadRequest(m.id), marked.Ok?)];
    if marked.Err? {
      events := events + [Abandoned(m.id)];
      return Outcome(events, replied, false);
    }
    o := Outcome(events, replied, true);
  }

  /** The events of a batch: each message's events, in list order. */
  function BatchEvents(ms: seq<Email>, s: Stages): seq<Event>
    decreases |ms|
  {
    if ms == [] then [] else BatchEvents(ms[..|ms| - 1], s) + Process(ms[|ms| - 1], s).events
  }

  /** The number of messages of the batch that were marked read. */
  function Processed(ms: seq<Email>, s: Stages): nat
    decreases |ms|
  {
    if ms == [] then 0
    else Processed(ms[..|ms| - 1], s) + (if Process(ms[|ms| - 1], s).markedRead then 1 else 0)
  }

  /** The number of messages of the batch that were replied to. */
  function Replied(ms: seq<Email>, s: Stages): nat
    decreases |ms|
  {
    if ms == [] then 0
    else Replied(ms[..|ms| - 1], s) + (if Process(ms[|ms| - 1], s).replied then 1 else 0)
  }

  // ---------------------------------------------------------------- properties

  /** The order of the steps of a message. */
  function Rank(e: Event): nat {
    match e
    case Classified(_, _) => 0
    case SendCalled(_, _, _) => 1
    case MarkReadCalled(_, _, _) => 2
    case Abandoned(_) => 3
  }

  function EventId(e: Event): string {
    match e
    case Classified(id, _) => id
    case SendCalled(id, _, _) => id
    case MarkReadCalled(id, _, _) => id
    case Abandoned(id) => id
  }

  /** A message's events are about that message, come in the order classify, send,
      mark read, abandon, with each step at most once, and end the moment one throws. */
  lemma StepOrder(m: Email, s: Stages)
    ensures var es := Process(m, s).events;
      es != []
      && (forall i :: 0 <= i < |es| ==> EventId(es[i]) == m.id)
      && (forall i, j :: 0 <= i < j < |es| ==> Rank(es[i]) < Rank(es[j]))
      && (Abandoned(m.id) in es <==> !Process(m, s).markedRead)
      && (Abandoned(m.id) in es ==> es[|es| - 1] == Abandoned(m.id))
  {
  }

  /** A message the extractor throws on is neither classified, replied to, nor marked read. */
  lemma ExtractFailureStops(m: Email, s: Stages)
    requires s.extract(m).Err?
    ensures Process(m, s) == Outcome([Abandoned(m.id)], false, false)
  {
  }

  /** An extracted message is classified first; a send is called exactly when the verdict
      is "YES" and the request could be built, and then with that request. */
  lemma SendOnlyOnYes(m: Email, s: Stages)
    requires s.extract(m).Ok?
    ensures var t := s.extract(m).value;
      var es := Process(m, s).events;
      es[0] == Classified(m.id, s.classify(t))
      && ((exists i :: 0 <= i < |es| && es[i].SendCalled?) <==> s.classify(t) == "YES" && s.reply(t).Some?)
      && (forall i :: 0 <= i < |es| && es[i].SendCalled? ==> Some(es[i].request) == s.reply(t))
  {
    var t := s.extract(m).value;
    var es := Process(m, s).events;
    if s.classify(t) == "YES" && s.reply(t).Some? {
      assert es[1].SendCalled?;
    }
  }

  /** When the send throws, `markAsRead` is not called and the message stays unread. */
  lemma SendFailureLeavesUnread(m: Email, s: Stages)
    requires s.extract(m).Ok?
    requires var t := s.extract(m).value;
      s.classify(t) == "YES" && s.reply(t).Some? && s.send(s.reply(t).value).None?
    ensures !Process(m, s).markedRead && !Process(m, s).replied
    ensures forall e :: e in Process(m, s).events ==> !e.MarkReadCalled?
  {
  }

  /** Unless the reply step threw, an extracted message gets its `markAsRead` call whatever
      the verdict, and is marked read exactly when that call succeeds. */
  lemma MarkReadRegardless(m: Email, s: Stages)
    requires s.extract(m).Ok?
    requires var t := s.extract(m).value;
      s.classify(t) == "YES" ==> s.reply(t).Some? && s.send(s.reply(t).value).Some?
    ensures var request := MarkReadRequest(m.id);
      MarkReadCalled(m.id, request, s.gmailModify(request)) in Process(m, s).events
      && (Process(m, s).markedRead <==> s.gmailModify(request))
      && (Process(m, s).replied <==> s.classify(s.extract(m).value) == "YES")
  {
  }

  /** A reply counts as sent as soon as the send returns, even when `markAsRead` then throws. */
  lemma RepliedButUnread(m: Email, s: Stages)
    requires s.extract(m).Ok?
    requires var t := s.extract(m).value;
      s.classify(t) == "YES" && s.reply(t).Some? && s.send(s.reply(t).value).Some?
      && !s.gmailModify(MarkReadRequest(m.id))
    ensures Process(m, s).replied && !Process(m, s).markedRead
  {
  }

  /** The events of a batch split at any point, so a message's failure changes nothing for
      the others. */
  lemma {:induction false} BatchEventsAppend(xs: seq<Email>, ys: seq<Email>, s: Stages)
    ensures BatchEvents(xs + ys, s) == BatchEvents(xs, s) + BatchEvents(ys, s)
    decreases |ys|
  {
    if ys == [] {
      assert xs + ys == xs;
    } else {
      var init := ys[..|ys| - 1];
      assert (xs + ys)[..|xs + ys| - 1] == xs + init;
      BatchEventsAppend(xs, init, s);
    }
  }

  /** Message `i`'s events sit, unchanged, between those of the messages before it and
      those of the messages after it. */
  lemma EventsInOrder(ms: seq<Email>, i: nat, s: Stages)
    requires i < |ms|
    ensures BatchEvents(ms, s)
      == BatchEvents(ms[..i], s) + Process(ms[i], s).events + BatchEvents(ms[i + 1..], s)
  {
    assert ms == ms[..i] + ([ms[i]] + ms[i + 1..]);
    BatchEventsAppend(ms[..i], [ms[i]] + ms[i + 1..], s);
    BatchEventsAppend([ms[i]], ms[i + 1..], s);
    assert BatchEvents([ms[i]], s) == Process(ms[i], s).events;
  }

  /** Neither counter exceeds the batch size. */
  lemma {:induction false} CountersBounded(ms: seq<Email>, s: Stages)
    ensures Processed(ms, s) <= |ms| && Replied(ms, s) <= |ms|
    decreases |ms|
  {
    if ms != [] {
      CountersBounded(ms[..|ms| - 1], s);
    }
  }
}
