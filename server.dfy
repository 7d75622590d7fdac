/**
 * `processEmails` of the web-service variant: the per-message body over the
 * batch with a `processed` and a `replied` counter, and a summary record; a
 * failure to authorise or read is caught and reported in the record.
 */
module Server {
  import opened Wrappers
  import opened Extractor
  import opened Reply
  import opened Pipeline

  /** `{processed, replied}`, with `error` set to the message of a batch-level failure. */
  datatype Summary = Summary(processed: nat, replied: nat, error: Option<string>)

  /** `processEmails`; `inbox` is the result of authorising and reading the unread messages. */
  method ProcessEmails(inbox: Result<seq<Email>, string>, st: Stages) returns (summary: Summary, events: seq<Event>)
    ensures inbox.Err? ==> summary == Summary(0, 0, Some(inbox.error)) && events == []
    ensures inbox.Ok? ==> summary == Summary(Processed(inbox.value, st), Replied(inbox.value, st), None)
    ensures inbox.Ok? ==> events == BatchEvents(inbox.value, st)
    ensures inbox.Ok? ==> summary.processed <= |inbox.value| && summary.replied <= |inbox.value|
  {
    if inbox.Err? {
      return Summary(0, 0, Some(inbox.error)), [];
    }
    var messages := inbox.value;
    if |messages| == 0 {
      return Summary(0, 0, None), [];
    }
    var processed: nat := 0;
    var replied: nat := 0;
    events := [];
    for i := 0 to |messages|
      invariant events == BatchEvents(messages[..i], st)
      invariant processed == Processed(messages[..i], st)
      invariant replied == Replied(messages[..i], st)
    {
      var outcome := ProcessMessage(messages[i], st);
      assert messages[..i + 1][..i] == messages[..i];
      events := events + outcome.events;
      if outcome.replied {
        replied := replied + 1;
      }
      if outcome.markedRead {
        processed := processed + 1;
      }
    }
    assert messages[..|messages|] == messages;
    CountersBounded(messages, st);
    summary := Summary(processed, replied, None);
  }

  /** `replied` can exceed `processed`: a message whose reply went out but whose
      `markAsRead` threw is counted as replied and not as processed. */
  lemma RepliedCanExceedProcessed(m: Email, reply: SendRequest)
    ensures var st := Stages(
        (e: Email) => Ok(Ticket("Candidate", "", "", "", "", "", e.id, None)),
        (t: Ticket) => "YES",
        (t: Ticket) => Some(reply),
        (r: SendRequest) => Some("sent"),
        (r: ModifyRequest) => false);
      Replied([m], st) == 1 && Processed([m], st) == 0
  {
    var st := Stages(
        (e: Email) => Ok(Ticket("Candidate", "", "", "", "", "", e.id, None)),
        (t: Ticket) => "YES",
        (t: Ticket) => Some(reply),
        (r: SendRequest) => Some("sent"),
        (r: ModifyRequest) => false);
    RepliedButUnread(m, st);
    assert [m][..0] == [];
  }
}
