/**
 * `main` of the one-shot run: authorise and read the unread messages (either
 * may throw, which is fatal), return early on an empty batch, then run the
 * per-message body over the batch in order, each message inside its own
 * `try`/`catch`/`continue`.
 */
module Automation {
  import opened Wrappers
  import opened Extractor
  import opened Pipeline

  /** How `main` ends: an empty batch, the batch processed, or the fatal exit with the
      message of what `authorize` or `readUnreadMessages` threw. */
  datatype RunResult = NothingToDo | Completed | Fatal(message: string)

  /** `main`; `inbox` is the result of authorising and reading the unread messages. */
  method Run(inbox: Result<seq<Email>, string>, st: Stages) returns (result: RunResult, events: seq<Event>)
    ensures inbox.Err? ==> result == Fatal(inbox.error) && events == []
    ensures inbox.Ok? && inbox.value == [] ==> result == NothingToDo && events == []
    ensures inbox.Ok? && inbox.value != [] ==> result == Completed && events == BatchEvents(inbox.value, st)
  {
    if inbox.Err? {
      return Fatal(inbox.error), [];
    }
    var messages := inbox.value;
    if |messages| == 0 {
      return NothingToDo, [];
    }
    events := [];
    for i := 0 to |messages|
      invariant events == BatchEvents(messages[..i], st)
    {
      var outcome := ProcessMessage(messages[i], st);
      assert messages[..i + 1][..i] == messages[..i];
      events := events + outcome.events;
    }
    assert messages[..|messages|] == messages;
    result := Completed;
  }
}
