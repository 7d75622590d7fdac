/**
 * Outgoing messages (`sendReply`, `markAsRead`): the header lines, the framing
 * of the body as plain text or as `multipart/alternative` (section 5.1 of
 * RFC 2046, with `\n` line ends), the base64url encoding of the whole message
 * and the send request with its optional thread. The Gmail calls are
 * parameters that either succeed or throw; the boundary's time and random
 * part is a parameter too.
 */
module Reply {
  import opened Wrappers
  import opened Text
  import opened Base64

  /** `body`: a string, or an object with `plainText` and `html`. */
  datatype ReplyBody = Text(text: string) | Rich(plainText: string, html: string)

  /** `cc`: absent (or `null`), an array of addresses, or a string. */
  datatype Cc = NoCc | CcList(addresses: seq<string>) | CcText(text: string)

  /** `{userId, requestBody: {raw, threadId?}}` of `users.messages.send`. */
  datatype SendRequest = SendRequest(userId: string, raw: string, threadId: Option<string>)

  /** `{userId, id, requestBody: {removeLabelIds}}` of `users.messages.modify`. */
  datatype ModifyRequest = ModifyRequest(userId: string, id: string, removeLabelIds: seq<string>)

  /** `.trim()` called on an object that is not a string, or a failed Gmail call. */
  datatype SendError = BodyNotText | RequestFailed

  const BoundaryPrefix := "----=_Part_"

  const PlainPartType := "Content-Type: text/plain; charset=utf-8"
  const HtmlPartType := "Content-Type: text/html; charset=utf-8"
  const SevenBit := "Content-Transfer-Encoding: 7bit"

  /** `typeof body === 'object' && body.plainText && body.html`. */
  predicate IsMultipart(body: ReplyBody) {
    body.Rich? && body.plainText != "" && body.html != ""
  }

  /** The `Cc:` line, present exactly when `cc` is truthy (an array always is). */
  function CcLine(cc: Cc): (r: Option<string>)
    ensures r.Some? <==> cc.CcList? || (cc.CcText? && cc.text != "")
  {
    match cc
    case NoCc => None
    case CcList(addresses) => Some("Cc: " + Join(addresses, ", "))
    case CcText(text) => if text == "" then None else Some("Cc: " + text)
  }

  /** The addressing lines: `To`, `Subject`, then `Cc` when there is one. */
  function AddressLines(to: string, subject: string, cc: Cc): seq<string> {
    ["To: " + to, "Subject: " + subject] + (if CcLine(cc).Some? then [CcLine(cc).value] else [])
  }

  function MultipartTypeLine(boundary: string): string {
    "Content-Type: multipart/alternative; boundary=\"" + boundary + "\""
  }

  /** The `multipart/alternative` body: the plain part, then the HTML part, then the close delimiter. */
  function MultipartBody(boundary: string, plain: string, html: string): string {
    Join(["--" + boundary, PlainPartType, SevenBit, "", plain, "",
          "--" + boundary, HtmlPartType, SevenBit, "", html, "",
          "--" + boundary + "--"], "\n")
  }

  /** The header lines `sendReply` adds for a multipart body, ending with the empty line. */
  function MultipartHeaders(boundary: string): seq<string> {
    ["MIME-Version: 1.0", MultipartTypeLine(boundary), ""]
  }

  /** The message for a body with both a plain-text and an HTML form. */
  function MultipartMessage(lines: seq<string>, boundary: string, plain: string, html: string): string {
    Join(lines + MultipartHeaders(boundary), "\n") + "\n" + MultipartBody(boundary, plain, html)
  }

  /** The message for a string body. */
  function PlainMessage(lines: seq<string>, text: string): string {
    Join(lines + [PlainPartType, ""], "\n") + "\n" + (Trim(text) + "\n")
  }

  /** The whole message text, or the error `sendReply` throws while building it. */
  function Compose(to: string, subject: string, body: ReplyBody, cc: Cc, stamp: string): (r: Result<string, SendError>)
    ensures r.Err? <==> body.Rich? && !IsMultipart(body)
  {
    if IsMultipart(body) then
      Ok(MultipartMessage(AddressLines(to, subject, cc), BoundaryPrefix + stamp, body.plainText, body.html))
    else if body.Rich? then Err(BodyNotText)
    else Ok(PlainMessage(AddressLines(to, subject, cc), body.text))
  }

  /** The send request: the encoded message, and the thread when `threadId` is truthy. */
  function Request(raw: string, threadId: Option<string>): (r: SendRequest)
    ensures r.userId == "me" && r.raw == raw
    ensures r.threadId.Some? <==> threadId.Some? && threadId.value != ""
    ensures r.threadId.Some? ==> r.threadId == threadId
  {
    SendRequest("me", raw, if threadId.Some? && threadId.value != "" then threadId else None)
  }

  /** What `sendReply` hands to the Gmail client, if it gets that far. */
  function ReplyRequest(to: string, subject: string, body: ReplyBody, threadId: Option<string>,
                        cc: Cc, stamp: string): (r: Option<SendRequest>)
    ensures r.None? <==> body.Rich? && !IsMultipart(body)
    ensures r.Some? ==> r.value.userId == "me"
  {
    match Compose(to, subject, body, cc, stamp)
    case Err(_) => None
    case Ok(message) => Some(Request(Base64Url(message), threadId))
  }

  /** `sendReply`: builds the message, encodes it and sends it. `send` answers with the
      new message's id, or `None` when the call throws. */
  method SendReply(to: string, subject: string, body: ReplyBody, threadId: Option<string>, cc: Cc,
                   stamp: string, send: SendRequest -> Option<string>)
    returns (r: Result<string, SendError>, sent: Option<SendRequest>)
    ensures sent == ReplyRequest(to, subject, body, threadId, cc, stamp)
    ensures sent.None? ==> r == Err(BodyNotText)
    ensures sent.Some? ==> r == (match send(sent.value) case None => Err(RequestFailed) case Some(id) => Ok(id))
    ensures r.Err? && r.error == BodyNotText <==> body.Rich? && !IsMultipart(body)
  {
    var message := BuildMessage(to, subject, body, cc, stamp);
    if message.Err? {
      r, sent := Err(BodyNotText), None;
      return;
    }
    var request := Request(Base64Url(message.value), threadId);
    sent := Some(request);
    var id := send(request);
    if id.None? {
      r := Err(RequestFailed);
    } else {
      r := Ok(id.value);
    }
  }

  /** The header pushes and the body of `sendReply`, joined into the message text. */
  method BuildMessage(to: string, subject: string, body: ReplyBody, cc: Cc, stamp: string)
    returns (r: Result<string, SendError>)
    ensures r == Compose(to, subject, body, cc, stamp)
  {
    var headers := AddressHeaders(to, subject, cc);
    ghost var lines := headers;
    var message: string;
    if IsMultipart(body) {
      var boundary := BoundaryPrefix + stamp;
      headers := headers + ["MIME-Version: 1.0"];
      headers := headers + [MultipartTypeLine(boundary)];
      headers := headers + [""];
      assert headers == lines + MultipartHeaders(boundary);
      var messageBody := MultipartBody(boundary, body.plainText, body.html);
      message := Join(headers, "\n") + "\n" + messageBody;
    } else if body.Rich? {
      return Err(BodyNotText);
    } else {
      headers := headers + [PlainPartType];
      headers := headers + [""];
      assert headers == lines + [PlainPartType, ""];
      var messageBody := Trim(body.text) + "\n";
      message := Join(headers, "\n") + "\n" + messageBody;
    }
    r := Ok(message);
  }

  /** The `To`, `Subject` and optional `Cc` pushes of `sendReply`. */
  method AddressHeaders(to: string, subject: string, cc: Cc) returns (headers: seq<string>)
    ensures headers == AddressLines(to, subject, cc)
  {
    headers := ["To: " + to, "Subject: " + subject];
    match cc {
      case NoCc =>
      case CcList(addresses) =>
        headers := headers + ["Cc: " + Join(addresses, ", ")];
      case CcText(text) =>
        if text != "" {
          headers := headers + ["Cc: " + text];
        }
    }
  }

  /** The request of `markAsRead`: remove exactly the `UNREAD` label from the message. */
  function MarkReadRequest(messageId: string): (r: ModifyRequest)
    ensures r.userId == "me" && r.id == messageId && r.removeLabelIds == ["UNREAD"]
  {
    ModifyRequest("me", messageId, ["UNREAD"])
  }

  /** `markAsRead`; `gmailModify` answers whether the Gmail call succeeded, and a failure is rethrown. */
  function MarkAsRead(messageId: string, gmailModify: ModifyRequest -> bool): (r: Result<(), SendError>)
    ensures r.Ok? <==> gmailModify(MarkReadRequest(messageId))
    ensures r.Err? ==> r.error == RequestFailed
  {
    if gmailModify(MarkReadRequest(messageId)) then Ok(()) else Err(RequestFailed)
  }

  // ---------------------------------------------------------------- properties

  /** The header lines begin `To: ...`, `Subject: ...`; an array `cc` is `', '`-joined
      and a string `cc` is copied. */
  lemma AddressLinesShape(to: string, subject: string, cc: Cc)
    ensures var lines := AddressLines(to, subject, cc);
      lines[0] == "To: " + to && lines[1] == "Subject: " + subject
      && (|lines| == 3 <==> CcLine(cc).Some?) && |lines| <= 3
      && (cc.CcList? ==> lines[2] == "Cc: " + Join(cc.addresses, ", "))
      && (cc.CcText? && cc.text != "" ==> lines[2] == "Cc: " + cc.text)
  {
  }

  /** A plain message: its header lines, a `text/plain` header, an empty line, and the
      trimmed text followed by exactly one newline. */
  lemma PlainLayout(to: string, subject: string, text: string, cc: Cc, stamp: string)
    ensures Compose(to, subject, Text(text), cc, stamp)
      == Ok(Join(AddressLines(to, subject, cc) + [PlainPartType], "\n") + "\n" + "\n" + (Trim(text) + "\n"))
  {
    var lines := AddressLines(to, subject, cc);
    assert Compose(to, subject, Text(text), cc, stamp) == Ok(PlainMessage(lines, text));
    PlainMessageLayout(lines, text);
  }

  lemma PlainMessageLayout(lines: seq<string>, text: string)
    ensures PlainMessage(lines, text) == Join(lines + [PlainPartType], "\n") + "\n" + "\n" + (Trim(text) + "\n")
  {
    assert lines + [PlainPartType, ""] == (lines + [PlainPartType]) + [""];
    JoinTrailingEmpty(lines + [PlainPartType], "\n");
  }

  /** A multipart message: its header lines, the MIME version, the `Content-Type` that
      declares the boundary, an empty line, and the multipart body. */
  lemma MultipartMessageLayout(to: string, subject: string, plain: string, html: string, cc: Cc, stamp: string)
    requires plain != "" && html != ""
    ensures Compose(to, subject, Rich(plain, html), cc, stamp)
      == Ok(Join(AddressLines(to, subject, cc) + ["MIME-Version: 1.0", MultipartTypeLine(BoundaryPrefix + stamp)], "\n")
            + "\n" + "\n" + MultipartBody(BoundaryPrefix + stamp, plain, html))
  {
    var lines := AddressLines(to, subject, cc);
    var boundary := BoundaryPrefix + stamp;
    var framing := ["MIME-Version: 1.0", MultipartTypeLine(boundary)];
    assert lines + MultipartHeaders(boundary) == (lines + framing) + [""];
    JoinTrailingEmpty(lines + framing, "\n");
  }

  /** The `multipart/alternative` body spelt out: the delimiter that the `Content-Type`
      header declares opens the plain part and then the HTML part, and its close form ends the body. */
  lemma MultipartLayout(boundary: string, plain: string, html: string)
    ensures MultipartBody(boundary, plain, html)
      == Delimiter(boundary) + PartHead(PlainPartType) + plain + "\n" + "\n"
       + (Delimiter(boundary) + PartHead(HtmlPartType) + html + "\n" + "\n"
       + ("--" + boundary + "--"))
  {
    var close := ["--" + boundary + "--"];
    var second := PartLines(boundary, HtmlPartType, html) + close;
    JoinPart(boundary, HtmlPartType, html, close);
    JoinPart(boundary, PlainPartType, plain, second);
    assert PartLines(boundary, PlainPartType, plain) + second
      == ["--" + boundary, PlainPartType, SevenBit, "", plain, "",
          "--" + boundary, HtmlPartType, SevenBit, "", html, "", "--" + boundary + "--"];
  }

  /** The six lines of one part: delimiter, content type, transfer encoding, empty line,
      content, empty line. */
  function PartLines(boundary: string, contentType: string, content: string): seq<string> {
    ["--" + boundary, contentType, SevenBit, "", content, ""]
  }

  lemma JoinPart(boundary: string, contentType: string, content: string, rest: seq<string>)
    requires rest != []
    ensures Join(PartLines(boundary, contentType, content) + rest, "\n")
      == Delimiter(boundary) + PartHead(contentType) + content + "\n" + "\n" + Join(rest, "\n")
  {
    JoinSix("--" + boundary, contentType, SevenBit, content, rest, "\n");
    Regroup("--" + boundary, contentType, SevenBit, content, Join(rest, "\n"), "\n");
  }

  /** Joining a part's six lines in front of `rest`, for any separator. */
  lemma JoinSix(delimiter: string, contentType: string, encoding: string, content: string,
                rest: seq<string>, sep: string)
    requires rest != []
    ensures Join([delimiter, contentType, encoding, "", content, ""] + rest, sep)
      == delimiter + sep + (contentType + sep + (encoding + sep + ("" + sep + (content + sep + ("" + sep + Join(rest, sep))))))
  {
    var s5 := [""] + rest;
    JoinFirst("", rest, sep);
    var s4 := [content] + s5;
    JoinFirst(content, s5, sep);
    var s3 := [""] + s4;
    JoinFirst("", s4, sep);
    var s2 := [encoding] + s3;
    JoinFirst(encoding, s3, sep);
    var s1 := [contentType] + s2;
    JoinFirst(contentType, s2, sep);
    JoinFirst(delimiter, s1, sep);
    SixCons(delimiter, contentType, encoding, "", content, "", rest);
  }

  lemma SixCons<T>(a: T, b: T, c: T, d: T, e: T, f: T, rest: seq<T>)
    ensures [a, b, c, d, e, f] + rest == [a] + ([b] + ([c] + ([d] + ([e] + ([f] + rest)))))
  {
  }

  lemma Regroup(delimiter: string, contentType: string, encoding: string, content: string, tail: string, sep: string)
    ensures delimiter + sep + (contentType + sep + (encoding + sep + ("" + sep + (content + sep + ("" + sep + tail)))))
      == (delimiter + sep) + (contentType + sep + encoding + sep + sep) + content + sep + sep + tail
  {
    assert "" + sep == sep;
  }

  /** `--boundary`, and the line end after it. */
  function Delimiter(boundary: string): string {
    "--" + boundary + "\n"
  }

  /** A part's `Content-Type` and `7bit` lines and the empty line before its content. */
  function PartHead(contentType: string): string {
    contentType + "\n" + SevenBit + "\n" + "\n"
  }

  /** A body with both forms is sent as the multipart message of its two forms. */
  lemma MultipartRequest(to: string, subject: string, plain: string, html: string,
                         threadId: Option<string>, cc: Cc, stamp: string)
    requires plain != "" && html != ""
    ensures ReplyRequest(to, subject, Rich(plain, html), threadId, cc, stamp)
      == Some(Request(Base64Url(MultipartMessage(AddressLines(to, subject, cc), BoundaryPrefix + stamp, plain, html)),
                      threadId))
  {
  }

  /** The encoded message uses only `[A-Za-z0-9_-]`; adding back the padding and the
      standard alphabet gives the standard base64 of the message's UTF-8 bytes, and
      decoding it gives those bytes back. */
  lemma RequestEncoding(message: string, threadId: Option<string>)
    ensures var raw := Request(Base64Url(message), threadId).raw;
      (forall i :: 0 <= i < |raw| ==> IsUrlDigit(raw[i]))
      && FromUrl(raw) + Padding(|raw|) == Encode(Utf8(message))
      && DecodeDigits(FromUrl(raw)) == Utf8(message)
  {
    Base64UrlIsDigits(message);
    Base64UrlRoundTrip(message);
  }

}
