/**
 * The stages the three drivers actually run: `extractInfo` on the message,
 * `classifyIssue` on its subject, issue and body, and `sendReply` of
 * `generateStartButtonIssueResponse(candidateName)` to `candidateEmail`, with
 * the two support addresses in `Cc` and the message's thread.
 */
module Wiring {
  import opened Wrappers
  import opened Text
  import opened Extractor
  import opened Classifier
  import opened Templates
  import opened Base64
  import opened Reply
  import opened Pipeline

  /** The outside world of one run: the body decoder, the environment, the language-model
      oracle, the logo `getLogo()` returns, what `Date.now()` and `Math.random()` give the
      boundary of a message's reply, and the two Gmail calls. */
  datatype Services = Services(
    decode: string -> string,
    env: Env,
    oracle: OracleRequest -> OracleReply,
    logo: string,
    boundaryStamp: string -> string,
    send: SendRequest -> Option<string>,
    gmailModify: ModifyRequest -> bool)

  /** Both support addresses, copied on every reply. */
  const SupportCc := CcList(["candidatesupport@otomeyt.ai", "hello@otomeyt.ai"])

  /** The send request of the reply to an extracted message. */
  function ReplyTo(t: Ticket, svc: Services): Option<SendRequest> {
    var reply := Generate(t.candidateName, svc.logo);
    ReplyRequest(t.candidateEmail, Subject, Rich(reply.plainText, reply.html), t.threadId,
                 SupportCc, svc.boundaryStamp(t.messageId))
  }

  /** The stages of the drivers. */
  function Wire(svc: Services): Stages {
    Stages(
      (m: Email) => Extract(m, svc.decode),
      (t: Ticket) => Classify(t.subject, t.issue, t.body, svc.env, svc.oracle),
      (t: Ticket) => ReplyTo(t, svc),
      svc.send,
      svc.gmailModify)
  }

  /** The reply step of the drivers as they write it: generate the letter and hand it to
      `sendReply` with the subject, the thread and the support `Cc`. It sends exactly the
      `reply` stage's request and answers what the `send` stage answers. */
  method ReplyStep(t: Ticket, svc: Services) returns (r: Result<string, SendError>, sent: Option<SendRequest>)
    ensures sent == Wire(svc).reply(t)
    ensures sent.Some? ==> r == (match svc.send(sent.value) case None => Err(RequestFailed) case Some(id) => Ok(id))
  {
    var replyBody := Generate(t.candidateName, svc.logo);
    var replySubject := Subject;
    r, sent := SendReply(t.candidateEmail, replySubject, Rich(replyBody.plainText, replyBody.html),
                         t.threadId, SupportCc, svc.boundaryStamp(t.messageId), svc.send);
  }

  // ---------------------------------------------------------------- properties

  /** A generated letter always has both forms, so the reply is always multipart and
      building its request never throws. */
  lemma ReplyIsMultipart(t: Ticket, svc: Services)
    ensures var reply := Generate(t.candidateName, svc.logo);
      IsMultipart(Rich(reply.plainText, reply.html))
    ensures ReplyTo(t, svc).Some?
  {
    var name := CleanName(t.candidateName);
    var r := Generate(t.candidateName, svc.logo);
    assert |"Hi " + name + ","| > 0;
    ContainsNonEmpty(r.html, Greeting(name));
  }

  lemma ContainsNonEmpty(text: string, x: string)
    requires x != [] && Contains(text, x)
    ensures text != []
  {
  }

  /** The reply to a ticket is the request for its generated letter (`ReplyTo`), and any
      letter with both forms goes to the given address, copies both support addresses,
      stays in the message's thread when there is one, and its `raw` decodes to the
      composed multipart message. */
  lemma ReplyAddressing(to: string, threadId: Option<string>, plain: string, html: string, stamp: string)
    requires plain != "" && html != ""
    ensures var request := ReplyRequest(to, Subject, Rich(plain, html), threadId, SupportCc, stamp);
      request.Some?
      && request.value.userId == "me"
      && (request.value.threadId.Some? <==> threadId.Some? && threadId.value != "")
      && (request.value.threadId.Some? ==> request.value.threadId == threadId)
      && DecodeDigits(FromUrl(request.value.raw))
         == Utf8(MultipartMessage(SupportLines(to), BoundaryPrefix + stamp, plain, html))
  {
    MultipartRequest(to, Subject, plain, html, threadId, SupportCc, stamp);
    SupportAddressLines(to);
    RequestEncoding(MultipartMessage(SupportLines(to), BoundaryPrefix + stamp, plain, html), threadId);
  }

  /** The addressing lines of every reply. */
  function SupportLines(to: string): seq<string> {
    ["To: " + to, "Subject: " + Subject, "Cc: " + "candidatesupport@otomeyt.ai" + ", " + "hello@otomeyt.ai"]
  }

  lemma SupportAddressLines(to: string)
    ensures AddressLines(to, Subject, SupportCc) == SupportLines(to)
  {
    var addresses := ["candidatesupport@otomeyt.ai", "hello@otomeyt.ai"];
    assert addresses[1..] == ["hello@otomeyt.ai"];
    assert Join(addresses, ", ") == "candidatesupport@otomeyt.ai" + ", " + "hello@otomeyt.ai";
    var a, b := "candidatesupport@otomeyt.ai", "hello@otomeyt.ai";
    assert "Cc: " + (a + ", " + b) == "Cc: " + a + ", " + b;
    assert CcLine(SupportCc) == Some("Cc: " + Join(addresses, ", "));
  }

  /** With the modelled stages, a message is abandoned before classification exactly when
      it has no payload, and its verdict is "YES" or "NO". */
  lemma WiredExtraction(m: Email, svc: Services)
    ensures Wire(svc).extract(m).Err? <==> m.payload.None?
    ensures m.payload.None? ==> Process(m, Wire(svc)) == Outcome([Abandoned(m.id)], false, false)
    ensures m.payload.Some? ==> var t := Wire(svc).extract(m).value;
      Wire(svc).classify(t) == "YES" || Wire(svc).classify(t) == "NO"
  {
    ExtractTotal(m, svc.decode);
  }

  /** With the modelled stages the reply request can always be built, so every message
      classified "YES" gets its send call (`Pipeline.SendOnlyOnYes`). */
  lemma WiredReplyAlwaysBuilt(svc: Services)
    ensures forall t :: Wire(svc).reply(t).Some?
  {
    forall t: Ticket
      ensures Wire(svc).reply(t).Some?
    {
      ReplyIsMultipart(t, svc);
    }
  }
}
