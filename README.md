# Candidate support automation, modelled in Dafny

The system reads unread Gmail messages from a candidate support inbox. For each
message it pulls out a ticket: the sender, the candidate's name and address, the
body, and the issue the candidate describes. It then decides whether that issue is
about an online assessment that would not start. When the answer is "YES", it
sends the candidate a fixed reply with both a plain-text and an HTML form, copying
the two support addresses. Either way it then marks the message read.

This project models that core:

- `Patterns` and `Text`: the regular expressions and string operations the core
  uses, written as string functions.
- `Extractor`: the ticket extraction (`extractInfo`). This covers the header
  parsing, the body choice over a recursive payload tree, the HTML normalisation,
  the labelled body fields and the name/address fallback chain.
- `Classifier`: the classification (`classifyIssue`). This covers the keyword
  prefilter, the keyword-only verdict, the normalisation of the language model's
  answer (the model is an oracle parameter) and the regular expression used when
  the model call throws.
- `Templates`: the reply letter and its subject.
- `Reply` and `Base64`: the outgoing message (`sendReply`). This covers the header
  lines, the plain or `multipart/alternative` framing (section 5.1 of RFC 2046,
  with `\n` line ends), unpadded base64url (section 5 of RFC 4648, padding
  dropped as section 3.2 allows) over UTF-8 (RFC 3629), and the send request.
  It also covers the request of `markAsRead`.
- `Pipeline`: the loop body the three drivers share. It is stated over a record
  of stages, so the ordering and isolation facts hold for any extractor,
  classifier and Gmail behaviour.
- `Wiring`: binds those stages to the model's own extractor, classifier and
  reply.
- `Automation`, `Server` and `Continuous`: the three drivers (`main`, and the two
  `processEmails`). Each loop is written as a method whose events are proved
  equal to the pipeline's batch function.

A thrown exception is modelled as an `Err`/`None` result, and the catch-and-continue
of the loops as an `Abandoned` event. The Gmail calls, the language model, the body
decoder, the logo and the boundary's time/random part are all parameters.

Some behaviour of the code worth knowing:

- The candidate's address can be empty. It falls back to the sender's address,
  which is `''` when the `From` header holds no address
  (`Extractor.CandidateEmailMayBeEmpty`).
- The issue pattern `Issue[:\s]+(.+?)(?=\s*(?:Thank\s+you|$))` has no `m` flag,
  so its group must end where only whitespace and then `Thank you` or the very
  end of the body follow. The separator after the label may cross a line end,
  so `Issue:\nab` gives `ab` (`Extractor.IssueOnNextLine`). The group cannot,
  so `Issue: a\nRegards` gives `''` (`Extractor.IssueNeedsItsLineToEnd`).
- Missing headers do not throw: they read as `''`. For a message of the shape
  the Gmail API returns, only a missing payload makes `extractInfo` throw.
- When the send succeeds but `markAsRead` then throws, `server.js` counts the
  message as replied but not as processed (`Server.RepliedCanExceedProcessed`).

## Model

| member | source | states |
|---|---|---|
| Text.Trim | extractor.js:85 | `trim()`: the result has no leading or trailing whitespace and is a contiguous slice of the input with only whitespace cut from both ends |
| Text.TrimIdempotent | extractor.js:85 | trimming twice is trimming once |
| Text.LowerStr | classifier.js:41 | `toLowerCase()` restricted to ASCII letters: each character is mapped on its own and the length is kept; `A`-`Z` shift by 32, everything else is unchanged |
| Text.UpperStr | classifier.js:124 | `toUpperCase()` restricted to ASCII letters: each character is mapped on its own and the length is kept; `a`-`z` shift by 32, everything else is unchanged |
| Text.ContainsIff | classifier.js:51 | `includes` holds exactly when the pattern occurs at some position |
| Text.LowerContains | classifier.js:41-51 | a case-insensitive occurrence of a lower-case literal is a substring of the lower-cased text |
| Patterns.RunEnd | extractor.js:24 | a greedy character-class run ends at the first character outside the class |
| Patterns.LazyEnd | extractor.js:18 | a lazy `.+?` that succeeds ends after its start, inside the text, at a position where its lookahead holds |
| Patterns.LazyEndMinimal | extractor.js:18 | a lazy `.+?` stops at the first such position: its lookahead holds at no position between its start and its end |
| Patterns.LazyEndOneLine | extractor.js:18 | a lazy `.+?` never crosses a line terminator |
| Patterns.FirstWordAt | templates.js:10 | finds the first listed label at a position, case-insensitively: it occurs there and no earlier-listed label does; or reports that none of them occurs there |
| Patterns.LastDot | extractor.js:18 | the backtracking domain of an address: a dot in range followed by a valid top-level part with no such dot after it, or none when the range holds no such dot |
| Patterns.MatchAt | extractor.js:18-118 | every pattern of the core gives a well-formed match that starts at the given position, with its group inside the matched range |
| Patterns.Search | extractor.js:18 | `match` without `g`: the leftmost matching position, with no match at any earlier position, or no match anywhere |
| Patterns.SearchFinds | extractor.js:97 | the first position where a pattern matches is the match `match` returns |
| Extractor.IssueFieldShape | extractor.js:115 | a match of the issue pattern starts with `Issue`; its group holds no line end and ends at the first point after its start where only whitespace and then `Thank you` or the end follow |
| Patterns.LazyEndFirst | extractor.js:107 | a lazy group ends exactly at the first position where its lookahead holds |
| Extractor.FindHeader | extractor.js:9-11 | `find` on the headers: the first header whose lower-cased name matches, or none if no header matches |
| Extractor.BeforeAt | extractor.js:29 | `split('@')[0]`: the longest prefix without `@`, ending just before the first `@` |
| Extractor.RemoveQuotes | extractor.js:26 | the result holds exactly the input's characters other than the two quote characters |
| Extractor.RemoveQuotesChar | extractor.js:26 | one character is dropped exactly when it is `"` or `'`, and kept otherwise |
| Extractor.RemoveQuotesAppend | extractor.js:26 | removing quotes from a concatenation is removing them from each piece, so the kept characters stay in order and keep their multiplicity |
| Extractor.CleanHtml | extractor.js:49-58 | HTML cleaning leaves a trimmed text with no two adjacent whitespace characters and no `<` followed later by `>` |
| Extractor.CleanHtmlOfText | extractor.js:49-58 | a text with no `<` is only whitespace-collapsed and trimmed: none of the tag patterns changes it |
| Extractor.CleanHtmlDropsScript | extractor.js:49 | `<script>x</script>`, where `x` holds no `</script>` in any letter case, cleans to `''`: the element goes with its content |
| Extractor.CleanHtmlDropsStyle | extractor.js:49-50 | `<style>x</style>`, where `x` holds no tag, cleans to `''`: the script pass leaves it alone and the style pass removes the element with its content |
| Patterns.MatchNeedsLt | extractor.js:49-56 | the script, style, line-break, closing `div`/`p` and tag patterns match only at a `<` |
| Patterns.ReplaceWithoutMatch | extractor.js:49-58 | where a pattern matches at no position, a global replace returns the text unchanged |
| Patterns.ReplaceWithoutLt | extractor.js:49-56 | where the text has no `<`, replacing any of those patterns leaves it unchanged |
| Patterns.ElementSpans | extractor.js:49-50 | an opening tag, its `>`, content without the closing tag, then the closing tag form one element match from start to end |
| Patterns.FindCIFirst | extractor.js:49-50 | the lazy `[\s\S]*?` before the closing tag stops at the first occurrence of that tag |
| Patterns.ReplaceAll | extractor.js:49-58 | `replace` with the `g` flag: scanning from the start, every leftmost match is replaced and the scan resumes after it; `ReplaceFromChars`, `ReplaceWithoutLt` and `ReplaceWholeMatch` state its properties |
| Patterns.ReplaceWholeMatch | extractor.js:49 | a match that covers the whole text is replaced as a whole |
| Extractor.StripTags | extractor.js:56-58 | replacing tags and collapsing whitespace leaves a trimmed, tag-free text with single spaces |
| Extractor.AnyTagLeavesNoTag | extractor.js:56 | after `<[^>]*>` is replaced everywhere, no `<` is followed by a `>` |
| Extractor.CollapseKeepsTagFree | extractor.js:58 | collapsing whitespace runs keeps a tag-free text tag-free |
| Extractor.CollapseLeavesSingleSpaces | extractor.js:58 | after `\s+` becomes one space, no two whitespace characters are adjacent |
| Extractor.FirstEmailLabel | extractor.js:90-102 | the index of the first of the three address patterns, tried in order, that matches the body: it matches and no earlier one does; or none when no pattern matches |
| Extractor.FirstMatchingLabelUnique | extractor.js:96-101 | a pattern that matches after every earlier one failed is the one `FirstEmailLabel` picks |
| Extractor.NoLabelMatches | extractor.js:96-102 | when every pattern fails, `FirstEmailLabel` finds none |
| Extractor.Extract | extractor.js:6-134 | the ticket `extractInfo` returns, or the failure for a message without a payload; its properties are stated by `ExtractInfo`, `ExtractTotal` and `CandidateEmailMayBeEmpty` |
| Extractor.HeaderValue | extractor.js:9-11 | the value of the first header whose lower-cased name matches, or `''`; `FindHeader` states the search |
| Extractor.SenderEmail | extractor.js:17-21 | the group of `<(.+?)>`, else the whole match of the bare address pattern, else `''`; `SenderFromAngleBrackets` and `SenderWithoutAddress` state its cases |
| Extractor.HeaderName | extractor.js:23-30 | the trimmed, unquoted display name before `<`, else the part of the sender address before `@`, else `Candidate`; `NameFromDisplayName` states the first case |
| Extractor.SelectBody | extractor.js:35-83 | the decoded direct body when it has data, else `TopBody` of the parts; `ScanBody` proves the loops compute it |
| Extractor.TopBody | extractor.js:38-83 | the first top-level plain or HTML part with data decides (HTML cleaned); a part with children is searched by `NestedBody` and decides when that gives a non-empty body; `FirstTextPartDecides` states the choice |
| Extractor.NestedBody | extractor.js:61-81 | the first nested plain part wins, else the first nested HTML part that gives a non-empty body; `NestedPlainWins` and `NestedHtmlKeepsFirst` state this |
| Extractor.BodyEmail | extractor.js:87-102 | the trimmed group of the pattern `FirstEmailLabel` picks, or `''`; `ScanEmailPatterns` proves the loop computes it |
| Extractor.BodyName | extractor.js:104-110 | the trimmed group of the full-name pattern, if it matches; `NameFieldExtent` states what that group is |
| Extractor.NameFieldShape | extractor.js:107 | a match of the full-name pattern starts with `Candidate Full Name`; its group holds no line end and ends at the first point after its start where optional whitespace and one of the five field labels follow, or at the very end of the text |
| Extractor.NameFieldExtent | extractor.js:104-110 | no full-name pattern matches and there is no name from the body; or the name is the trimmed group of the leftmost match, which starts with the label, has no earlier matching position, holds no line end and stops at the next field label or the end of the text |
| Extractor.IssueText | extractor.js:112-118 | the trimmed group of the issue pattern, or `''`; `IssueExtent` states what that group is |
| Extractor.ChooseName | extractor.js:121 | the first non-empty of the body's name, the header's name and `Candidate`: never empty; a non-empty name from the body wins, else a non-empty name from the header |
| Extractor.ExtractInfo | extractor.js:6-134 | `extractInfo` computed step by step equals `Extract`. It fails exactly when there is no payload; otherwise the name is non-empty, the body is trimmed and the ids are copied from the message |
| Extractor.ScanBody | extractor.js:35-83 | the body-selection loops choose the specified body: a direct body first, then the first top-level text part, then the nested parts |
| Extractor.ScanNested | extractor.js:61-81 | the inner loop over nested parts computes `NestedBody` |
| Extractor.ScanEmailPatterns | extractor.js:88-102 | the loop over the three address patterns with `break` yields the trimmed group of the first pattern that matches, or `''` |
| Extractor.SenderFromAngleBrackets | extractor.js:18-21 | for `Name <address>` the sender is the address between the first `<` and the next `>` |
| Extractor.SenderWithoutAddress | extractor.js:18-21 | a `From` header with neither `<` nor `@` gives the empty sender address |
| Extractor.NameFromDisplayName | extractor.js:24-26 | for `Name <...>` the header name is the display name, trimmed, with its quotes removed |
| Extractor.FirstTextPartDecides | extractor.js:40-60 | among top-level parts, the first plain or HTML part with data decides the body, with no preference between the two kinds |
| Extractor.NestedPlainWins | extractor.js:63-67 | among nested parts, the first plain-text part wins over any earlier HTML part |
| Extractor.NestedHtmlKeepsFirst | extractor.js:67-78 | once a nested HTML part has given a non-empty body, later HTML parts are ignored |
| Extractor.IssueWithoutLabel | extractor.js:114-118 | without an `Issue` label in any letter case, the issue is empty |
| Extractor.IssueExtent | extractor.js:114-118 | no issue pattern matches, and the issue is `''`; or the issue is the trimmed group of the leftmost match. That match starts with `Issue`, in any letter case, and no earlier position matches. Its group holds no line end, though the separator before it may. It ends at the first point where only whitespace and then `Thank you` or the end of the text follow |
| Extractor.IssueOnNextLine | extractor.js:115 | the separator `[:\s]+` crosses a line end: `Issue:\nab` gives the issue `ab` |
| Extractor.IssueNeedsItsLineToEnd | extractor.js:115 | a label whose line is followed by a line that does not start with `Thank you` gives no match: `Issue: a\nRegards` gives `''` |
| Extractor.ExtractTotal | extractor.js:120-133 | extraction fails exactly without a payload. A successful extraction has a non-empty name, a trimmed body, the issue of that body and the sender address of the `From` header. Its candidate address is the body's address when that is non-empty, and the sender address otherwise |
| Extractor.CandidateEmailMayBeEmpty | extractor.js:120-122 | a message with no `From` header and an empty body yields the name `Candidate` and an empty candidate address |
| Classifier.SearchText | classifier.js:41 | the searched text is the lower-cased issue, a space, the lower-cased subject, a space and the lower-cased body, character by character |
| Classifier.SomeIncludedIff | classifier.js:51 | `keys.some(k => text.includes(k))` holds exactly when some keyword is a substring |
| Classifier.ApiKey | classifier.js:59-65 | the key is empty exactly when neither environment key is set |
| Classifier.Excerpt | classifier.js:79 | `substring(0, 500)`: a prefix of the body of at most 500 characters; it is the whole body when the body is shorter |
| Classifier.Normalise | classifier.js:124 | the normalised answer is non-empty; it is the trimmed, upper-cased answer when that is non-empty |
| Classifier.Classify | classifier.js:38-141 | every tier answers exactly `"YES"` or `"NO"` |
| Classifier.NoKeywordNoOracle | classifier.js:51-56 | without a keyword hit the verdict is `"NO"`, whatever the oracle would answer |
| Classifier.StartPassesPrefilter | classifier.js:41-51 | `start` in any letter case anywhere in the text (as in "Restarted") passes the prefilter |
| Classifier.NoKeyMeansYes | classifier.js:59-65 | with a keyword hit and no key, the verdict is `"YES"` |
| Classifier.OracleDecides | classifier.js:108-133 | with a keyword hit and a key, the verdict is `"YES"` exactly when the trimmed, upper-cased answer contains `YES`; a missing answer gives `"NO"` |
| Classifier.FallbackImpliesPrefilter | classifier.js:44-49 | a `"YES"` from the error-path expression implies the prefilter hit |
| Classifier.FallbackHitIsKeywordHit | classifier.js:134-140 | every alternative of the error-path expression is a prefilter keyword |
| Classifier.AlternationWitness | classifier.js:138 | a successful `.test` of an alternation of literals has a position and an alternative that matches there |
| Classifier.KeywordOf | classifier.js:44-49 | each alternative of the error-path expression occurs among the prefilter keywords |
| Classifier.AlternativeIsLower | classifier.js:138 | each alternative of the error-path expression is already lower case |
| Templates.SubjectIsFixedLine | templates.js:70-72 | the reply subject (`Templates.Subject`) is always the constant `Regarding Your Assessment Start Issue`, a single line of printable ASCII |
| Templates.Cut | templates.js:10 | the split point is the first stop label, or the end of the name when none occurs |
| Templates.CleanName | templates.js:10 | the cleaned name is trimmed |
| Templates.CleanNameWithoutLabel | templates.js:10 | a name with no stop label is only trimmed |
| Templates.CleanNameIsPrefixSlice | templates.js:10 | the cleaned name is a slice of the input with no stop label starting before its end |
| Templates.CleanNameIdempotent | templates.js:10 | cleaning a cleaned name changes nothing |
| Templates.LogoBlock | templates.js:54-56 | the image block is empty exactly when the logo is empty; otherwise it holds `<img src="logo"` |
| Templates.Generate | templates.js:8-64 | the plain text starts with `Hi <clean name>,`; the HTML contains `<p>Hi <clean name>,</p>`, has no image block without a logo, and shows the logo when one is given |
| Reply.CcLine | reply.js:29-35 | a `Cc:` line exists exactly when `cc` is truthy: an array always is, a string when it is non-empty |
| Reply.AddressLinesShape | reply.js:23-35 | the headers begin `To: ...`, `Subject: ...`; an array `cc` is `', '`-joined and a string is copied |
| Reply.Compose | reply.js:17-69 | the message text, or the error for an object body lacking a plain or an HTML form; it fails exactly in that case |
| Reply.ReplyRequest | reply.js:17-92 | the send request `sendReply` builds: none exactly when the body is an object lacking a form, and otherwise a request for `me` |
| Reply.Request | reply.js:82-92 | the request is for `me` with the encoded message; it has a thread exactly when `threadId` is truthy, and then that thread |
| Reply.SendReply | reply.js:13-101 | sends exactly the request of the composed message and answers the send's id, or throws the send's failure. It throws without sending exactly when the body is an object lacking a plain or an HTML form |
| Reply.BuildMessage | reply.js:23-69 | the header pushes and the body join build the specified message, or the error for an object body without both forms |
| Reply.AddressHeaders | reply.js:23-35 | the `To`/`Subject`/`Cc` pushes build the specified header lines |
| Reply.PlainLayout | reply.js:62-69 | a plain message is its headers, a `text/plain` header, an empty line, then the trimmed text and exactly one newline |
| Reply.MultipartMessageLayout | reply.js:39-45 | a multipart message is its headers, `MIME-Version`, the `Content-Type` declaring the boundary, an empty line, then the multipart body |
| Reply.MultipartLayout | reply.js:47-61 | the multipart body opens the plain part and then the HTML part with the declared boundary, and ends with `--boundary--` |
| Reply.JoinPart | reply.js:47-61 | the six lines of one part join to delimiter, part header, content and two line ends |
| Reply.MultipartRequest | reply.js:39-96 | a body with both forms is sent as the encoded multipart message of those forms, with the boundary made from the stamp |
| Reply.RequestEncoding | reply.js:76-80 | `raw` uses only `[A-Za-z0-9_-]`; re-adding the padding and the standard alphabet gives the standard base64 of the message's UTF-8, which decodes back to those bytes |
| Reply.MarkReadRequest | reply.js:112-118 | the mark-read request removes exactly the `UNREAD` label from the given message |
| Reply.MarkAsRead | reply.js:108-125 | `markAsRead` succeeds exactly when the Gmail call does; otherwise it rethrows the failure |
| Base64.Utf8 | reply.js:76 | `Buffer.from(message)`: the UTF-8 bytes of the text, character by character, at least one byte per character |
| Base64.Encode | reply.js:77 | `toString('base64')`: the standard digits of the bytes followed by their padding; `DecodeDigitsOfDigits` proves the digits decode back |
| Base64.Base64Url | reply.js:76-80 | the message's UTF-8, base64-encoded, made URL-safe and stripped of padding; `Base64UrlIsDigits` and `Base64UrlRoundTrip` state its properties |
| Base64.Utf8Char | reply.js:77 | one character encodes as 1 to 4 bytes, and as one byte with its own code exactly when it is ASCII |
| Base64.Utf8OfAscii | reply.js:77 | an ASCII text encodes one byte per character |
| Base64.DecodeDigitsOfDigits | reply.js:77 | decoding the base64 digits of a byte sequence gives the sequence back |
| Base64.StripPadding | reply.js:80 | `replace(/=+$/, '')` is the longest prefix not ending in `=`, and only `=` is removed |
| Base64.ReplaceChar | reply.js:78-79 | a single-character `replace` with `g` replaces exactly that character everywhere and keeps the length |
| Base64.Base64UrlIsDigits | reply.js:76-80 | the encoded message is the URL-safe digits alone, with no padding |
| Base64.Base64UrlRoundTrip | reply.js:76-80 | re-adding the padding and the standard alphabet restores the standard encoding, which decodes to the message's UTF-8 |
| Pipeline.Process | main.js:36-97 | one message's events: abandoned when extraction throws; otherwise classified, replied to on `"YES"`, and marked read unless building or sending the reply threw; `StepOrder` and the lemmas below state its properties |
| Pipeline.BatchEvents | main.js:35-98 | the events of a batch: each message's events in turn, in batch order; `BatchEventsAppend` and `EventsInOrder` state this |
| Pipeline.Processed | server.js:47-83 | the number of messages of the batch that were marked read; `CountersBounded` bounds it |
| Pipeline.Replied | server.js:47-83 | the number of messages of the batch whose send returned; `CountersBounded` bounds it |
| Pipeline.ProcessMessage | main.js:36-97 | the `try` block of a message, step by step, equals the specification `Process` |
| Pipeline.StepOrder | main.js:35-97 | a message's events are about that message and come in the order classify, send, mark-read, abandon, each at most once; the message is abandoned exactly when it is not marked read, and then that is its last event |
| Pipeline.ExtractFailureStops | main.js:40 | a message the extractor throws on is not classified, replied to or marked read |
| Pipeline.SendOnlyOnYes | main.js:58-86 | classification comes first; a send happens exactly on `"YES"` with a buildable request, and with that request |
| Pipeline.SendFailureLeavesUnread | main.js:75-97 | when the send throws, `markAsRead` is not called and the message stays unread |
| Pipeline.MarkReadRegardless | main.js:88-90 | unless the reply step threw, `markAsRead` is called whatever the verdict; the message is marked read exactly when it succeeds, and replied exactly on `"YES"` |
| Pipeline.RepliedButUnread | server.js:67-88 | a reply counts as sent once the send returns, even when `markAsRead` then throws |
| Pipeline.BatchEventsAppend | main.js:35-98 | the events of a batch split at any point, so one message's failure changes nothing for the others |
| Pipeline.EventsInOrder | main.js:35-98 | message `i`'s events sit unchanged between those of the earlier and the later messages |
| Pipeline.CountersBounded | server.js:47-83 | neither counter exceeds the batch size |
| Wiring.ReplyTo | main.js:60-82 | the send request for a ticket: the generated letter to the candidate's address, the fixed subject, the ticket's thread and both support addresses in `Cc`; `ReplyAddressing` states this |
| Wiring.Wire | main.js:40-90 | the stages bound to this model's extractor, classifier, reply and the Gmail calls; `WiredExtraction` and `WiredReplyAlwaysBuilt` state what they give |
| Wiring.ReplyStep | main.js:60-86 | the drivers' reply step sends exactly the wired reply request and answers what the send answers |
| Wiring.ReplyIsMultipart | main.js:75-82 | a generated letter always has both forms, so the reply is multipart and building it never throws |
| Wiring.ReplyAddressing | main.js:75-82 | a reply goes to the candidate's address with both support addresses in `Cc`, stays in the thread when there is one, and its `raw` decodes to the multipart message |
| Wiring.SupportAddressLines | main.js:75-82 | the header lines of every reply are `To`, the fixed subject, and the two support addresses joined by `', '` |
| Wiring.WiredExtraction | main.js:40-58 | with the modelled stages a message is abandoned before classification exactly without a payload, and its verdict is `"YES"` or `"NO"` |
| Wiring.WiredReplyAlwaysBuilt | main.js:60-86 | with the modelled stages every `"YES"` message gets its send call |
| Automation.Run | main.js:15-107 | a failing authorise or read is fatal with its message; an empty batch does nothing; otherwise the events are the batch's, message by message in order |
| Server.ProcessEmails | server.js:33-97 | a batch-level failure gives `{0, 0, error}`; otherwise the events are the batch's and the counters count the messages marked read and replied to, both at most the batch size |
| Server.RepliedCanExceedProcessed | server.js:67-88 | one message whose send succeeds and whose `markAsRead` throws gives `replied` 1 and `processed` 0 |
| Continuous.ProcessEmails | main-continuous.js:17-82 | a batch-level failure is swallowed with no per-message steps; otherwise the events are the batch's, message by message in order |

## Left out

- Templates.Generate: "the image tag appears exactly when a logo is given" is stated as `LogoBlock` being empty exactly when the logo is. A name could itself contain `<img src="`, so the HTML as a whole cannot promise the converse.
- Text.LowerStr, Text.UpperStr: `toLowerCase`/`toUpperCase` are modelled on ASCII letters only, one character at a time. The Unicode case mappings, some of which change the length (`'İ'.toLowerCase()` has two code units), are not modelled.
- Classifier.Excerpt: `substring(0, 500)` counts UTF-16 code units, while the model's strings count Unicode scalar values. Bodies with characters outside the Basic Multilingual Plane are cut at a different place.
- The language-model call (classifier.js:67-122) is an oracle parameter that answers a content string, a missing content, or a failure. The prompt text, the model name, the temperature and the token settings are not modelled.
- `decodeBase64` (extractor.js:141-148) is an abstract total `decode` parameter. Base64 and charset decoding of incoming bodies is library behaviour.
- The boundary's `Date.now()` and `Math.random()` part (reply.js:41) is a `stamp` parameter. Nothing guarantees that the boundary does not occur in the body, and neither does the code.
- The Gmail `send` and `modify` calls are pure function parameters: the same request gets the same answer. Timing and retries are not modelled.
- gmailAuth.js and gmailReader.js are not part of this model. The drivers take the result of authorising and reading as an input: the batch, or the message of the failure.
- logoUtils.js is not part of this model; the logo is a parameter.
- Console logging, including the warning branch at main.js:49-53, is not modelled because it affects no result.
- The `process.exit(1)` at main.js:103-106 is modelled as the `Fatal` result.
- The Express endpoints, the `setInterval` schedule and the SIGINT handling (server.js:18-30, 99-118; main-continuous.js:84-96; main.js:109-113) are not modelled.
- `Buffer.from` on a JavaScript string with lone surrogates is not modelled. The model's characters are Unicode scalar values, each encoded by RFC 3629.
- The drivers are stated over a `Stages` record, so their facts hold for any stage behaviour. `Wiring.Wire` binds the stages to this model's extractor, classifier and reply.
- Message objects that do not have the shape the Gmail API returns are not modelled: `Email` always has headers with a name and a value, so the `TypeError` that `h.name.toLowerCase()` (extractor.js:10) throws for a header without a name cannot occur.
- A `body` of `null`, or of a type other than a string or an object, is not modelled. `ReplyBody` holds only the two forms the callers pass.
- Regular expressions are modelled pattern by pattern, as string functions. There is no general regular-expression engine.
