/**
 * `processEmails` of the scheduled variant: the per-message body over the
 * batch; a failure to authorise or read is logged and swallowed, so a run
 * never throws.
 */
module Continuous {
  import opened Wrappers
  import opened Extractor
  import opened Pipeline

  /** `processEmails`; `inbox` is the result of authorising and reading the unread messages. */
  method ProcessEmails(inbox: Result<seq<Email>, string>, st: Stages) returns (events: seq<Event>)
    ensures inbox.Err? ==> events == []
    ensures inbox.Ok? ==> events == BatchEvents(inbox.value, st)
  {
    if inbox.Err? {
      return [];
    }
    var messages := inbox.value;
    if |messages| == 0 {
      return [];
    }
    events := [];
    for i := 0 to |messages|
      invariant events == BatchEvents(messages[..i], st)
    {
      var outcome := ProcessMessage(messages[i], st);
      assert messages[..i + 1][..i] == messages[..i];
      events := events + outcome.events;
    }
    assert messages[..|messages|] == messages;
  }
}
