/**
 * Ticket extraction from one Gmail message (`extractInfo`): the sender's
 * address and name from the `From` header, the body chosen from the payload
 * tree (with HTML reduced to text), the labelled fields of the body, and the
 * fallback chain that fills the candidate's name and address.
 */
module Extractor {
  import opened Wrappers
  import opened Text
  import opened Patterns

  datatype Header = Header(name: string, value: string)

  /** A node of the payload tree: the payload itself and every element of `parts`.
      `data` is `body.data`, with "" for a missing or empty one; `parts` is empty
      when the node has none (a missing and an empty `parts` behave alike). */
  datatype Part = Part(mimeType: string, headers: seq<Header>, data: string, parts: seq<Part>)

  datatype Email = Email(id: string, threadId: Option<string>, payload: Option<Part>)

  datatype Ticket = Ticket(
    candidateName: string,
    candidateEmail: string,
    senderEmail: string,
    subject: string,
    body: string,
    issue: string,
    messageId: string,
    threadId: Option<string>)

  /** Reading `email.payload.headers` of a message without a payload throws. */
  datatype ExtractError = MissingPayload

  // ---------------------------------------------------------------- headers

  /** The index of the first header whose lower-cased name is `name`. */
  function FindHeader(headers: seq<Header>, name: string): (r: Option<nat>)
    ensures r.Some? ==> r.value < |headers| && LowerStr(headers[r.value].name) == name
    ensures r.Some? ==> forall j :: 0 <= j < r.value ==> LowerStr(headers[j].name) != name
    ensures r.None? ==> forall j :: 0 <= j < |headers| ==> LowerStr(headers[j].name) != name
    decreases |headers|
  {
    if headers == [] then None
    else if LowerStr(headers[0].name) == name then Some(0)
    else match FindHeader(headers[1..], name)
      case None => None
      case Some(k) => Some(k + 1)
  }

  /** `headers.find(h => h.name.toLowerCase() === name)?.value || ''`. */
  function HeaderValue(headers: seq<Header>, name: string): string {
    match FindHeader(headers, name)
    case None => ""
    case Some(k) => headers[k].value
  }

  /** The sender's address: the group of the first `<(.+?)>`, else the first bare address, else "". */
  function SenderEmail(from: string): string {
    match Search(AngleAddress, from, 0)
    case Some(m) => Group(from, m)
    case None =>
      match Search(BareAddress, from, 0)
      case Some(m) => Group(from, m)
      case None => ""
  }

  /** `s.split('@')[0]`: the text before the first `@`, or all of `s`. */
  function BeforeAt(s: string): (r: string)
    ensures '@' !in r && |r| <= |s| && r == s[..|r|]
    ensures |r| < |s| ==> s[|r|] == '@'
  {
    if s == [] || s[0] == '@' then "" else [s[0]] + BeforeAt(s[1..])
  }

  /** `s.replace(/['"]/g, '')`. */
  function RemoveQuotes(s: string): (r: string)
    ensures forall c :: c in r <==> c in s && c != '"' && c != '\''
  {
    if s == [] then ""
    else if s[0] == '"' || s[0] == '\'' then RemoveQuotes(s[1..])
    else [s[0]] + RemoveQuotes(s[1..])
  }

  /** Quote removal works character by character: a quote is dropped, any other
      character is kept, and the pieces of a concatenation are handled in order.
      With `RemoveQuotesAppend` this fixes the result as the input's non-quote
      characters, in order and with their multiplicity. */
  lemma RemoveQuotesChar(c: char)
    ensures RemoveQuotes([c]) == if c == '"' || c == '\'' then "" else [c]
  {
  }

  lemma {:induction false} RemoveQuotesAppend(a: string, b: string)
    ensures RemoveQuotes(a + b) == RemoveQuotes(a) + RemoveQuotes(b)
    decreases |a|
  {
    if a != [] {
      assert (a + b)[0] == a[0];
      assert (a + b)[1..] == a[1..] + b;
      RemoveQuotesAppend(a[1..], b);
    } else {
      assert a + b == b;
    }
  }

  /** The name derived from the `From` header, before any body field is consulted. */
  function HeaderName(from: string, sender: string): string {
    match Search(DisplayName, from, 0)
    case Some(m) => RemoveQuotes(Trim(Group(from, m)))
    case None =>
      var local := BeforeAt(sender);
      if local != "" then local else "Candidate"
  }

  // ---------------------------------------------------------------- body

  predicate IsPlain(p: Part) { p.mimeType == "text/plain" && p.data != "" }

  predicate IsHtml(p: Part) { p.mimeType == "text/html" && p.data != "" }

  /** The HTML normalisation chain: drop script and style elements, turn line
      breaks and closing `div`/`p` tags into newlines, every other tag into a
      space, then collapse whitespace and trim. */
  function CleanHtml(html: string): (r: string)
    ensures Trimmed(r) && NoDoubleSpace(r) && TagFree(r)
  {
    var c1 := ReplaceAll(html, ScriptElement, "");
    var c2 := ReplaceAll(c1, StyleElement, "");
    var c3 := ReplaceAll(c2, LineBreak, "\n");
    var c4 := ReplaceAll(c3, DivClose, "\n");
    var c5 := ReplaceAll(c4, ParaClose, "\n");
    StripTags(c5)
  }

  /** The last three steps: every remaining tag becomes a space, `\s+` becomes one space, then `trim`. */
  function StripTags(s: string): (r: string)
    ensures Trimmed(r) && NoDoubleSpace(r) && TagFree(r)
  {
    var c6 := ReplaceAll(s, AnyTag, " ");
    var c7 := ReplaceAll(c6, SpaceRun, " ");
    AnyTagLeavesNoTag(s, 0);
    CollapseKeepsTagFree(c6, 0);
    CollapseLeavesSingleSpaces(c6, 0);
    TrimKeepsShape(c7);
    Trim(c7)
  }

  /** Text without any `<` is only whitespace-collapsed and trimmed: no tag pattern applies. */
  lemma CleanHtmlOfText(t: string)
    requires '<' !in t
    ensures CleanHtml(t) == Trim(ReplaceAll(t, SpaceRun, " "))
  {
    assert t[0..] == t;
    ReplaceWithoutLt(t, ScriptElement, "", 0);
    ReplaceWithoutLt(t, StyleElement, "", 0);
    ReplaceWithoutLt(t, LineBreak, "\n", 0);
    ReplaceWithoutLt(t, DivClose, "\n", 0);
    ReplaceWithoutLt(t, ParaClose, "\n", 0);
    ReplaceWithoutLt(t, AnyTag, " ", 0);
  }

  /** A script element is dropped with everything inside it, up to the first closing tag. */
  lemma CleanHtmlDropsScript(x: string)
    requires forall j :: 0 <= j <= |x| ==> !MatchesCI(x, j, ScriptClose)
    ensures CleanHtml("<script>" + x + ScriptClose) == ""
  {
    var s := "<script>" + x + ScriptClose;
    ScriptBlockIsElement(s, x);
    ScriptElementReplaced(s);
    CleanHtmlAfterScripts(s);
  }

  lemma ScriptBlockIsElement(s: string, x: string)
    requires s == "<script>" + x + ScriptClose
    requires forall j :: 0 <= j <= |x| ==> !MatchesCI(x, j, ScriptClose)
    ensures ElementAt(s, 0, "<script", ScriptClose) == Some(|s|)
  {
    forall j | 8 <= j < 8 + |x| ensures !MatchesCI(s, j, ScriptClose) {
      ScriptCloseNotInside(s, x, j);
    }
    assert "<script>" == "<script" + ">";
    assert s == "<script" + ">" + x + ScriptClose;
    ElementSpans(s, "<script", x, ScriptClose);
  }

  lemma CleanHtmlAfterScripts(h: string)
    requires ReplaceAll(h, ScriptElement, "") == ""
    ensures CleanHtml(h) == ""
  {
    assert ReplaceAll("", StyleElement, "") == "";
    assert ReplaceAll("", LineBreak, "\n") == "";
    assert ReplaceAll("", DivClose, "\n") == "";
    assert ReplaceAll("", ParaClose, "\n") == "";
    assert ReplaceAll("", AnyTag, " ") == "";
    assert ReplaceAll("", SpaceRun, " ") == "";
  }

  lemma ScriptElementReplaced(s: string)
    requires ElementAt(s, 0, "<script", ScriptClose) == Some(|s|)
    ensures ReplaceAll(s, ScriptElement, "") == ""
  {
    MatchAtDispatch(ScriptElement, s, 0);
    ReplaceWholeMatch(s, ScriptElement, "");
  }

  /** A style element whose content has no tag is dropped with its content: the script pass
      leaves it alone and the style pass removes it whole. */
  lemma CleanHtmlDropsStyle(x: string)
    requires '<' !in x
    ensures CleanHtml("<style>" + x + StyleClose) == ""
  {
    var s := "<style>" + x + StyleClose;
    forall j | 0 <= j < |s| ensures MatchAt(ScriptElement, s, j).None? {
      NoScriptInStyleBlock(s, x, j);
    }
    ReplaceWithoutMatch(s, ScriptElement, "", 0);
    assert s[0..] == s;
    StyleBlockIsElement(s, x);
    MatchAtDispatch(StyleElement, s, 0);
    ReplaceWholeMatch(s, StyleElement, "");
    CleanHtmlAfterStyles(s);
  }

  const StyleClose: string := "</style>"

  lemma CleanHtmlAfterStyles(h: string)
    requires ReplaceAll(h, ScriptElement, "") == h && ReplaceAll(h, StyleElement, "") == ""
    ensures CleanHtml(h) == ""
  {
    assert ReplaceAll("", LineBreak, "\n") == "";
    assert ReplaceAll("", DivClose, "\n") == "";
    assert ReplaceAll("", ParaClose, "\n") == "";
    assert ReplaceAll("", AnyTag, " ") == "";
    assert ReplaceAll("", SpaceRun, " ") == "";
  }

  /** The only `<` of such a block open `<style` and `</style>`, and neither is `<script`. */
  lemma NoScriptInStyleBlock(s: string, x: string, j: nat)
    requires s == "<style>" + x + StyleClose && '<' !in x && j < |s|
    ensures MatchAt(ScriptElement, s, j).None?
  {
    if MatchAt(ScriptElement, s, j).Some? {
      MatchNeedsLt(ScriptElement, s, j);
      MatchAtDispatch(ScriptElement, s, j);
      assert MatchesCI(s, j, "<script");
      MatchesCIBounds(s, j, "<script");
      StyleBlockLt(s, x, j);
      assert false;
    }
  }

  /** In such a block a `<` sits only at the start and at the closing tag. */
  lemma StyleBlockLt(s: string, x: string, j: nat)
    requires s == "<style>" + x + StyleClose && '<' !in x && j < |s| && s[j] == '<'
    ensures j == 0 || (j == 7 + |x| && s[j + 1] == '/')
    ensures j == 0 ==> s[2] == 't'
  {
  }

  lemma StyleBlockIsElement(s: string, x: string)
    requires s == "<style>" + x + StyleClose && '<' !in x
    ensures ElementAt(s, 0, "<style", StyleClose) == Some(|s|)
  {
    forall j | 7 <= j < 7 + |x| ensures !MatchesCI(s, j, StyleClose) {
      assert s[j] == x[j - 7];
      if MatchesCI(s, j, StyleClose) {
        MatchesCIBounds(s, j, StyleClose);
        assert Lower(s[j + 0]) == Lower(StyleClose[0]);
        LowerIsLt(s[j]);
        assert false;
      }
    }
    assert "<style>" == "<style" + ">";
    assert s == "<style" + ">" + x + StyleClose;
    ElementSpans(s, "<style", x, StyleClose);
  }

  const ScriptClose: string := "</script>"

  /** A closing tag found after the opening tag's `>` cannot start inside `x`. */
  lemma ScriptCloseNotInside(s: string, x: string, p: nat)
    requires s == "<script>" + x + ScriptClose
    requires 8 <= p < 8 + |x|
    requires forall i :: 0 <= i <= |x| ==> !MatchesCI(x, i, ScriptClose)
    ensures !MatchesCI(s, p, ScriptClose)
  {
    var j := p - 8;
    if MatchesCI(s, p, ScriptClose) {
      MatchesCIBounds(s, 8 + j, ScriptClose);
      if j + 9 <= |x| {
        ScriptCloseWithin(s, x, j);
        assert false;
      } else {
        ScriptCloseCrossing(s, x, j);
        assert false;
      }
    }
  }

  /** A closing tag wholly inside `x` would be one of `x`'s own. */
  lemma ScriptCloseWithin(s: string, x: string, j: nat)
    requires s == "<script>" + x + ScriptClose
    requires j + 9 <= |x| && MatchesCI(s, 8 + j, ScriptClose)
    ensures MatchesCI(x, j, ScriptClose)
  {
    assert s[8 + j..8 + j + 9] == x[j..j + 9];
    MatchesCIExtend(s, 8 + j, x, j, ScriptClose);
  }

  /** Only the first character of the closing tag is a `<`. */
  lemma ScriptCloseCrossing(s: string, x: string, j: nat)
    requires s == "<script>" + x + ScriptClose
    requires j < |x| < j + 9
    ensures Lower(s[8 + |x|]) != Lower(ScriptClose[|x| - j])
  {
    assert s[8 + |x|] == '<';
    var k := |x| - j;
    assert ScriptClose[k] in "/script>";
  }

  lemma TrimKeepsShape(s: string)
    ensures TagFree(s) ==> TagFree(Trim(s))
    ensures NoDoubleSpace(s) ==> NoDoubleSpace(Trim(s))
  {
    var a: nat :| TrimmedSlice(s, Trim(s), a);
    TrimmedSliceKeepsShape(s, Trim(s), a);
  }

  lemma TrimmedSliceKeepsShape(s: string, r: string, a: nat)
    requires TrimmedSlice(s, r, a)
    ensures TagFree(s) ==> TagFree(r)
    ensures NoDoubleSpace(s) ==> NoDoubleSpace(r)
  {
    SliceKeepsShape(s, a, a + |r|);
  }

  /** The text a node contributes when it is chosen as the body. */
  function PartText(p: Part, decode: string -> string): string {
    if IsPlain(p) then decode(p.data) else CleanHtml(decode(p.data))
  }

  /** The inner loop over `part.parts`, entered with the body `acc`: a plain-text
      part ends the loop, an HTML part is taken only while the body is still empty. */
  function NestedBody(ps: seq<Part>, acc: string, decode: string -> string): string
    decreases |ps|
  {
    if ps == [] then acc
    else if IsPlain(ps[0]) then decode(ps[0].data)
    else if IsHtml(ps[0]) && acc == "" then NestedBody(ps[1..], CleanHtml(decode(ps[0].data)), decode)
    else NestedBody(ps[1..], acc, decode)
  }

  /** The outer loop over `payload.parts`: the first plain-text or HTML part
      decides; otherwise a part's nested parts decide if they give a non-empty body. */
  function TopBody(ps: seq<Part>, decode: string -> string): string
    decreases |ps|
  {
    if ps == [] then ""
    else if IsPlain(ps[0]) || IsHtml(ps[0]) then PartText(ps[0], decode)
    else
      var b := NestedBody(ps[0].parts, "", decode);
      if b != "" then b else TopBody(ps[1..], decode)
  }

  /** The body before trimming: a direct `payload.body.data` wins over the parts. */
  function SelectBody(payload: Part, decode: string -> string): string {
    if payload.data != "" then decode(payload.data) else TopBody(payload.parts, decode)
  }

  // ---------------------------------------------------------------- body fields

  const EmailLabels: seq<EmailLabel> := [CandidateEmailId, CandidateEmail, EmailId]

  /** The pattern of label `k` matches `body`, and the patterns of the labels before it do not. */
  predicate FirstMatchingLabel(body: string, labels: seq<EmailLabel>, k: nat) {
    k < |labels| && Search(EmailField(labels[k]), body, 0).Some?
    && forall j :: 0 <= j < k ==> Search(EmailField(labels[j]), body, 0).None?
  }

  /** The index of the first of the address patterns, in order, that matches `body`. */
  function FirstEmailLabel(body: string, labels: seq<EmailLabel>): (r: Option<nat>)
    ensures r.Some? ==> FirstMatchingLabel(body, labels, r.value)
    ensures r.None? ==> forall k :: 0 <= k < |labels| ==> Search(EmailField(labels[k]), body, 0).None?
    decreases |labels|
  {
    if labels == [] then None
    else if Search(EmailField(labels[0]), body, 0).Some? then Some(0)
    else match FirstEmailLabel(body, labels[1..])
      case None => None
      case Some(k) => FirstMatchingLabelShift(body, labels, k); Some(k + 1)
  }

  lemma FirstMatchingLabelShift(body: string, labels: seq<EmailLabel>, k: nat)
    requires labels != [] && Search(EmailField(labels[0]), body, 0).None?
    requires FirstMatchingLabel(body, labels[1..], k)
    ensures FirstMatchingLabel(body, labels, k + 1)
  {
    forall j | 0 <= j < k + 1 ensures Search(EmailField(labels[j]), body, 0).None? {
      if j > 0 { assert labels[j] == labels[1..][j - 1]; }
    }
    assert labels[k + 1] == labels[1..][k];
  }

  /** A label satisfying `FirstMatchingLabel` is what `FirstEmailLabel` finds. */
  lemma {:induction false} FirstMatchingLabelUnique(body: string, labels: seq<EmailLabel>, k: nat)
    requires FirstMatchingLabel(body, labels, k)
    ensures FirstEmailLabel(body, labels) == Some(k)
    decreases k
  {
    if k > 0 {
      assert Search(EmailField(labels[0]), body, 0).None?;
      FirstMatchingLabelTail(body, labels, k);
      FirstMatchingLabelUnique(body, labels[1..], k - 1);
    }
  }

  lemma FirstMatchingLabelTail(body: string, labels: seq<EmailLabel>, k: nat)
    requires 0 < k && FirstMatchingLabel(body, labels, k)
    ensures FirstMatchingLabel(body, labels[1..], k - 1)
  {
    var rest := labels[1..];
    assert rest[k - 1] == labels[k];
    forall j | 0 <= j < k - 1 ensures Search(EmailField(rest[j]), body, 0).None? {
      assert rest[j] == labels[j + 1];
    }
  }

  /** The candidate's address from the body: the trimmed group of the first address
      pattern that matches, or "" when none does. */
  function BodyEmail(body: string): string {
    match FirstEmailLabel(body, EmailLabels)
    case None => ""
    case Some(k) => Trim(Group(body, Search(EmailField(EmailLabels[k]), body, 0).value))
  }

  /** The trimmed capture of `Candidate Full Name`, if the pattern matches. */
  function BodyName(body: string): Option<string> {
    match Search(FullNameField, body, 0)
    case None => None
    case Some(m) => Some(Trim(Group(body, m)))
  }

  /** The trimmed capture after `Issue`, or "". */
  function IssueText(body: string): string {
    match Search(IssueField, body, 0)
    case None => ""
    case Some(m) => Trim(Group(body, m))
  }

  /** `extractedCandidateName || candidateName || 'Candidate'`. */
  function ChooseName(fromBody: Option<string>, fromHeader: string): (r: string)
    ensures r != ""
    ensures fromBody.Some? && fromBody.value != "" ==> r == fromBody.value
    ensures (fromBody.None? || fromBody.value == "") && fromHeader != "" ==> r == fromHeader
  {
    var extracted := if fromBody.Some? then fromBody.value else fromHeader;
    if extracted != "" then extracted else if fromHeader != "" then fromHeader else "Candidate"
  }

  /** The whole of `extractInfo`. */
  function Extract(email: Email, decode: string -> string): Result<Ticket, ExtractError> {
    if email.payload.None? then Err(MissingPayload)
    else
      var payload := email.payload.value;
      var from := HeaderValue(payload.headers, "from");
      var sender := SenderEmail(from);
      var body := Trim(SelectBody(payload, decode));
      var bodyEmail := BodyEmail(body);
      Ok(Ticket(
        ChooseName(BodyName(body), HeaderName(from, sender)),
        if bodyEmail != "" then bodyEmail else sender,
        sender,
        HeaderValue(payload.headers, "subject"),
        body,
        IssueText(body),
        email.id,
        email.threadId))
  }

  /** `extractInfo`, step by step as the source computes it. */
  method ExtractInfo(email: Email, decode: string -> string) returns (r: Result<Ticket, ExtractError>)
    ensures r == Extract(email, decode)
    ensures r.Err? <==> email.payload.None?
    ensures r.Ok? ==> r.value.candidateName != "" && Trimmed(r.value.body)
    ensures r.Ok? ==> r.value.messageId == email.id && r.value.threadId == email.threadId
  {
    if email.payload.None? {
      return Err(MissingPayload);
    }
    var payload := email.payload.value;
    var from := HeaderValue(payload.headers, "from");
    var subject := HeaderValue(payload.headers, "subject");
    var senderEmail := SenderEmail(from);
    var candidateName := HeaderName(from, senderEmail);

    var body := ScanBody(payload, decode);
    body := Trim(body);

    var candidateEmail := ScanEmailPatterns(body);

    var extractedCandidateName := candidateName;
    var nameMatch := Search(FullNameField, body, 0);
    if nameMatch.Some? {
      extractedCandidateName := Trim(Group(body, nameMatch.value));
    }

    var issueDescription := "";
    var issueMatch := Search(IssueField, body, 0);
    if issueMatch.Some? {
      issueDescription := Trim(Group(body, issueMatch.value));
    }

    var name := if extractedCandidateName != "" then extractedCandidateName
                else if candidateName != "" then candidateName else "Candidate";
    r := Ok(Ticket(
      name,
      if candidateEmail != "" then candidateEmail else senderEmail,
      senderEmail,
      subject,
      body,
      issueDescription,
      email.id,
      email.threadId));
  }

  /** The body-selection loops of `extractInfo`: over `payload.parts`, and over
      the nested `parts` of a part that is neither plain text nor HTML. */
  method ScanBody(payload: Part, decode: string -> string) returns (body: string)
    ensures body == SelectBody(payload, decode)
  {
    body := "";
    if payload.data != "" {
      body := decode(payload.data);
      return;
    }
    var ps := payload.parts;
    var i := 0;
    while i < |ps|
      invariant 0 <= i <= |ps|
      invariant body == ""
      invariant TopBody(ps, decode) == TopBody(ps[i..], decode)
    {
      var part := ps[i];
      assert ps[i..][1..] == ps[i + 1..];
      if IsPlain(part) {
        body := decode(part.data);
        break;
      } else if IsHtml(part) {
        body := CleanHtml(decode(part.data));
        break;
      } else {
        body := ScanNested(part.parts, decode);
        if body != "" {
          break;
        }
      }
      i := i + 1;
    }
  }

  /** The inner loop of `extractInfo` over the nested parts of a part, entered with an empty body. */
  method ScanNested(nested: seq<Part>, decode: string -> string) returns (body: string)
    ensures body == NestedBody(nested, "", decode)
  {
    body := "";
    var j := 0;
    while j < |nested|
      invariant 0 <= j <= |nested|
      invariant NestedBody(nested, "", decode) == NestedBody(nested[j..], body, decode)
    {
      var np := nested[j];
      assert nested[j..][1..] == nested[j + 1..];
      if IsPlain(np) {
        body := decode(np.data);
        break;
      } else if IsHtml(np) && body == "" {
        body := CleanHtml(decode(np.data));
      }
      j := j + 1;
    }
  }

  /** The loop over the three address patterns, stopping at the first that matches. */
  method ScanEmailPatterns(body: string) returns (candidateEmail: string)
    ensures candidateEmail == BodyEmail(body)
  {
    candidateEmail := "";
    var k := 0;
    while k < |EmailLabels|
      invariant 0 <= k <= |EmailLabels|
      invariant candidateEmail == ""
      invariant forall j :: 0 <= j < k ==> Search(EmailField(EmailLabels[j]), body, 0).None?
    {
      var found := Search(EmailField(EmailLabels[k]), body, 0);
      if found.Some? {
        FirstMatchingLabelUnique(body, EmailLabels, k);
        candidateEmail := Trim(Group(body, found.value));
        return;
      }
      k := k + 1;
    }
    NoLabelMatches(body, EmailLabels);
  }

  lemma {:induction false} NoLabelMatches(body: string, labels: seq<EmailLabel>)
    requires forall j :: 0 <= j < |labels| ==> Search(EmailField(labels[j]), body, 0).None?
    ensures FirstEmailLabel(body, labels).None?
    decreases |labels|
  {
    if labels != [] {
      assert Search(EmailField(labels[0]), body, 0).None?;
      var rest := labels[1..];
      forall j | 0 <= j < |rest| ensures Search(EmailField(rest[j]), body, 0).None? {
        assert rest[j] == labels[j + 1];
      }
      NoLabelMatches(body, rest);
    }
  }

  // ---------------------------------------------------------------- properties of the extraction

  /** `Name <address>`: the sender's address is the text between the first `<`
      and the next `>` after it. */
  lemma SenderFromAngleBrackets(n: string, a: string, rest: string)
    requires '<' !in n
    requires a != [] && '>' !in a
    requires forall c :: c in a ==> !IsLineTerminator(c)
    ensures SenderEmail(n + "<" + a + ">" + rest) == a
  {
    var s := n + "<" + a + ">" + rest;
    var p := |n|;
    var j := p + 1 + |a|;
    forall q | 0 <= q < p ensures MatchAt(AngleAddress, s, q).None? {
      assert s[q] == n[q];
    }
    forall k | p + 1 <= k < j ensures !IsLineTerminator(s[k]) && s[k] != '>' {
      assert s[k] == a[k - p - 1];
    }
    assert s[j] == '>';
    LazyEndFirst(s, p + 1, CloseAngle, j);
    SearchFinds(AngleAddress, s, 0, p);
    assert s[p + 1..j] == a;
  }

  /** `Name <address>`: the name is the display name before the `<` (and the
      whitespace in front of it), trimmed and with its quotes removed. */
  lemma NameFromDisplayName(n: string, sp: string, rest: string, sender: string)
    requires n != [] && !IsWs(n[|n| - 1])
    requires '<' !in n
    requires forall c :: c in n ==> !IsLineTerminator(c)
    requires forall c :: c in sp ==> IsWs(c)
    ensures HeaderName(n + sp + "<" + rest, sender) == RemoveQuotes(Trim(n))
  {
    var s := n + sp + "<" + rest;
    DisplayNameGroup(n, sp, rest);
    SearchFinds(DisplayName, s, 0, 0);
    assert s[0..|n|] == n;
  }

  lemma DisplayNameGroup(n: string, sp: string, rest: string)
    requires n != [] && !IsWs(n[|n| - 1])
    requires '<' !in n
    requires forall c :: c in n ==> !IsLineTerminator(c)
    requires forall c :: c in sp ==> IsWs(c)
    ensures var s := n + sp + "<" + rest;
      MatchAt(DisplayName, s, 0).Some? && MatchAt(DisplayName, s, 0).value.groupStart == 0
      && MatchAt(DisplayName, s, 0).value.groupEnd == |n|
  {
    var s := n + sp + "<" + rest;
    var x := |n|;
    forall j | x <= j < x + |sp| ensures InClass(Space, s[j]) {
      assert s[j] == sp[j - x];
    }
    RunEndAt(s, x, Space, x + |sp|);
    forall k | 0 < k < x ensures !StopHolds(SpaceThenOpenAngle, s, k) {
      var w := RunEnd(s, k, Space);
      assert s[x - 1] == n[x - 1];
      assert w < x;
      assert s[w] == n[w];
    }
    forall k | 0 <= k < x ensures !IsLineTerminator(s[k]) {
      assert s[k] == n[k];
    }
    LazyEndFirst(s, 0, SpaceThenOpenAngle, x);
  }

  /** An earlier part with a nested body of its own, or a later text part, cannot take the
      place of the first plain-text or HTML part among the top-level parts. */
  lemma {:induction false} FirstTextPartDecides(ps: seq<Part>, i: nat, decode: string -> string)
    requires i < |ps|
    requires IsPlain(ps[i]) || IsHtml(ps[i])
    requires forall j :: 0 <= j < i ==> !IsPlain(ps[j]) && !IsHtml(ps[j]) && NestedBody(ps[j].parts, "", decode) == ""
    ensures TopBody(ps, decode) == PartText(ps[i], decode)
    decreases i
  {
    if i > 0 {
      FirstTextPartDecides(ps[1..], i - 1, decode);
    }
  }

  /** Among nested parts a plain-text part wins over any HTML part before it. */
  lemma {:induction false} NestedPlainWins(ps: seq<Part>, i: nat, acc: string, decode: string -> string)
    requires i < |ps| && IsPlain(ps[i])
    requires forall j :: 0 <= j < i ==> !IsPlain(ps[j])
    ensures NestedBody(ps, acc, decode) == decode(ps[i].data)
    decreases i
  {
    if i > 0 {
      var rest := ps[1..];
      assert rest[i - 1] == ps[i];
      assert forall j :: 0 <= j < i - 1 ==> rest[j] == ps[j + 1];
      assert !IsPlain(ps[0]);
      if IsHtml(ps[0]) && acc == "" {
        NestedPlainWins(rest, i - 1, CleanHtml(decode(ps[0].data)), decode);
      } else {
        NestedPlainWins(rest, i - 1, acc, decode);
      }
    }
  }

  /** Once a nested HTML part has given a non-empty body, later HTML parts are ignored. */
  lemma {:induction false} NestedHtmlKeepsFirst(ps: seq<Part>, acc: string, decode: string -> string)
    requires acc != ""
    requires forall j :: 0 <= j < |ps| ==> !IsPlain(ps[j])
    ensures NestedBody(ps, acc, decode) == acc
    decreases |ps|
  {
    if ps != [] {
      NestedHtmlKeepsFirst(ps[1..], acc, decode);
    }
  }

  /** A `From` header with neither `<` nor `@` gives no sender address. */
  lemma SenderWithoutAddress(from: string)
    requires '<' !in from && '@' !in from
    ensures SenderEmail(from) == ""
  {
    forall p | 0 <= p <= |from|
      ensures MatchAt(AngleAddress, from, p).None? && MatchAt(BareAddress, from, p).None?
    {
      if p < |from| {
        assert from[p] in from;
      }
      var a := RunEnd(from, p, Address);
      if a < |from| {
        assert from[a] in from;
      }
    }
  }

  /** Without an `Issue` label, in any letter case, the issue is empty. */
  lemma IssueWithoutLabel(body: string)
    requires forall p :: 0 <= p <= |body| ==> !MatchesCI(body, p, "issue")
    ensures IssueText(body) == ""
  {
    forall p | 0 <= p <= |body|
      ensures MatchAt(IssueField, body, p).None?
    {
      IssueFieldShape(body, p);
    }
  }

  /** A match of the issue pattern starts with the label `Issue`; its group holds no line
      end and stops at the first place after its start where only whitespace and then
      `Thank you` or the end of the text follow. */
  lemma IssueFieldShape(s: string, p: nat)
    requires p <= |s|
    ensures var r := MatchAt(IssueField, s, p);
      r.Some? ==>
        (MatchesCI(s, p, "issue")
        && StopHolds(IssueFieldEnd, s, r.value.groupEnd)
        && (forall k :: r.value.groupStart <= k < r.value.groupEnd ==> !IsLineTerminator(s[k]))
        && (forall k :: r.value.groupStart < k < r.value.groupEnd ==> !StopHolds(IssueFieldEnd, s, k)))
  {
    MatchAtDispatch(IssueField, s, p);
    LabelledTextShape(s, p, IssueLabel, IssueFieldEnd);
  }

  /** The issue is the trimmed group of the first `Issue` label (in any letter case) that
      matches. The separator `[:\s]+` after the label may cross line ends, but the group
      itself lies within one line and ends where `Thank you` or the end of the text first
      follows after nothing but whitespace; a label with no such place on its group's line
      does not match (`IssueOnNextLine`, `IssueNeedsItsLineToEnd`). */
  lemma IssueExtent(body: string)
    ensures match Search(IssueField, body, 0)
      case None => IssueText(body) == ""
      case Some(m) =>
        IssueText(body) == Trim(body[m.groupStart..m.groupEnd])
        && MatchesCI(body, m.start, "issue")
        && (forall p :: 0 <= p < m.start ==> MatchAt(IssueField, body, p).None?)
        && StopHolds(IssueFieldEnd, body, m.groupEnd)
        && (forall k :: m.groupStart <= k < m.groupEnd ==> !IsLineTerminator(body[k]))
        && (forall k :: m.groupStart < k < m.groupEnd ==> !StopHolds(IssueFieldEnd, body, k))
  {
    match Search(IssueField, body, 0)
    case None =>
    case Some(m) => IssueFieldShape(body, m.start);
  }

  /** A match of the full-name pattern starts with `Candidate Full Name` (words apart by
      whitespace, in any letter case); its group holds no line end and stops at the first
      place after its start from which optional whitespace and then one of the five field labels
      follow, or which is the very end of the text (this `$` has no `\s*` before it). */
  lemma NameFieldShape(s: string, p: nat)
    requires p <= |s|
    ensures var r := MatchAt(FullNameField, s, p);
      r.Some? ==>
        (WordsAt(s, p, FullNameLabel).Some?
        && StopHolds(NameFieldEnd, s, r.value.groupEnd)
        && (forall k :: r.value.groupStart <= k < r.value.groupEnd ==> !IsLineTerminator(s[k]))
        && (forall k :: r.value.groupStart < k < r.value.groupEnd ==> !StopHolds(NameFieldEnd, s, k)))
  {
    MatchAtDispatch(FullNameField, s, p);
    LabelledTextShape(s, p, FullNameLabel, NameFieldEnd);
  }

  /** The name from the body is the trimmed group of the first `Candidate Full Name` label
      that matches, stopping at the next field label: it ends at the first place where optional
      whitespace and then `Candidate Email ID`, `Candidate Phone`, `Candidate Assessment Key`,
      `Subject` or `Issue` follow, or at the end of the text. */
  lemma NameFieldExtent(body: string)
    ensures match Search(FullNameField, body, 0)
      case None => BodyName(body).None?
      case Some(m) =>
        BodyName(body) == Some(Trim(body[m.groupStart..m.groupEnd]))
        && WordsAt(body, m.start, FullNameLabel).Some?
        && (forall p :: 0 <= p < m.start ==> MatchAt(FullNameField, body, p).None?)
        && StopHolds(NameFieldEnd, body, m.groupEnd)
        && (forall k :: m.groupStart <= k < m.groupEnd ==> !IsLineTerminator(body[k]))
        && (forall k :: m.groupStart < k < m.groupEnd ==> !StopHolds(NameFieldEnd, body, k))
  {
    match Search(FullNameField, body, 0)
    case None =>
    case Some(m) => NameFieldShape(body, m.start);
  }

  /** Every successful extraction yields a non-empty name and a trimmed body; only a
      message without a payload fails. */
  lemma ExtractTotal(email: Email, decode: string -> string)
    ensures Extract(email, decode).Err? <==> email.payload.None?
    ensures Extract(email, decode).Ok? ==> Extract(email, decode).value.candidateName != ""
    ensures Extract(email, decode).Ok? ==> Trimmed(Extract(email, decode).value.body)
    ensures Extract(email, decode).Ok? ==>
      var t := Extract(email, decode).value;
      t.senderEmail == SenderEmail(HeaderValue(email.payload.value.headers, "from"))
      && t.candidateEmail == (if BodyEmail(t.body) != "" then BodyEmail(t.body) else t.senderEmail)
      && t.issue == IssueText(t.body)
  {
  }

  /** The separator after `Issue` may cross a line end: the issue is then the next line. */
  lemma IssueOnNextLine()
    ensures IssueText("Issue:\nab") == "ab"
  {
    var s := "Issue:\nab";
    IssueLabelAtStart(s);
    assert InClass(ColonOrSpace, s[5]) && InClass(ColonOrSpace, s[6]) && !InClass(ColonOrSpace, s[7]);
    RunEndAt(s, 5, ColonOrSpace, 7);
    assert !MatchesCI(s, 8, "thank");
    RunEndAt(s, 8, Space, 8);
    assert !StopHolds(IssueFieldEnd, s, 8);
    RunEndAt(s, 9, Space, 9);
    assert StopHolds(IssueFieldEnd, s, 9);
    assert LazyEnd(s, 8, IssueFieldEnd) == Some(9);
    assert LazyEnd(s, 7, IssueFieldEnd) == Some(9);
    assert SepThenLazy(s, 6, 7, IssueFieldEnd) == Some((7, 9));
    MatchAtDispatch(IssueField, s, 0);
    assert MatchAt(IssueField, s, 0) == Some(Match(0, 9, 7, 9));
    assert s[7..9] == "ab";
    assert Trim("ab") == "ab" by { TrimOfTrimmed("ab"); }
  }

  /** A label whose line is followed by a line not starting with `Thank you` gives no issue. */
  lemma IssueNeedsItsLineToEnd()
    ensures IssueText("Issue: a\nRegards") == ""
  {
    var s := "Issue: a\nRegards";
    IssueLabelWithoutEnd(s);
    MatchAtDispatch(IssueField, s, 0);
    forall p | 1 <= p <= |s| ensures MatchAt(IssueField, s, p).None? {
      IssueFieldShape(s, p);
      NoIssueLabelAfterStart(s, p);
    }
  }

  lemma NoIssueLabelAfterStart(s: string, p: nat)
    requires s == "Issue: a\nRegards" && 1 <= p <= |s|
    ensures !MatchesCI(s, p, "issue")
  {
    if p < |s| {
      assert s[p] == s[1..][p - 1];
      assert s[p] in "ssue: a\nRegards";
    }
  }

  lemma IssueLabelWithoutEnd(s: string)
    requires s == "Issue: a\nRegards"
    ensures IssueFieldAt(s, 0).None?
  {
    IssueLabelAtStart(s);
    assert InClass(ColonOrSpace, s[5]) && InClass(ColonOrSpace, s[6]) && !InClass(ColonOrSpace, s[7]);
    RunEndAt(s, 5, ColonOrSpace, 7);
    FirstLineDoesNotEnd(s);
    assert SepThenLazy(s, 6, 7, IssueFieldEnd).None?;
  }

  /** From the separator of `Issue: a\nRegards`, no lazy group ends on the first line. */
  lemma FirstLineDoesNotEnd(s: string)
    requires s == "Issue: a\nRegards"
    ensures LazyEnd(s, 6, IssueFieldEnd).None? && LazyEnd(s, 7, IssueFieldEnd).None?
  {
    RunEndAt(s, 7, Space, 7);
    assert !MatchesCI(s, 7, "thank");
    assert !StopHolds(IssueFieldEnd, s, 7);
    RunEndAt(s, 8, Space, 9);
    assert !MatchesCI(s, 9, "thank");
    assert !StopHolds(IssueFieldEnd, s, 8);
    assert LazyEnd(s, 8, IssueFieldEnd).None?;
  }

  /** A text starting with `Issue` has the label at its start. */
  lemma IssueLabelAtStart(s: string)
    requires |s| >= 5 && s[..5] == "Issue"
    ensures WordsAt(s, 0, IssueLabel) == Some(5)
  {
    MatchesCIByChars(s, 0, "issue");
  }

  /** The candidate's address falls back to the sender's address, and that can be empty:
      a message without a `From` header and without a body yields a ticket with no address. */
  lemma CandidateEmailMayBeEmpty(decode: string -> string)
    ensures var r := Extract(Email("m1", None, Some(Part("text/plain", [], "", []))), decode);
      r.Ok? && r.value.candidateEmail == "" && r.value.candidateName == "Candidate"
  {
    var payload := Part("text/plain", [], "", []);
    assert HeaderValue(payload.headers, "from") == "";
    assert SelectBody(payload, decode) == "";
    assert Trim("") == "";
    EmptyFromFields();
    EmptyBodyFields();
  }

  lemma EmptyFromFields()
    ensures SenderEmail("") == "" && HeaderName("", "") == "Candidate"
  {
    SearchEmpty(AngleAddress);
    SearchEmpty(BareAddress);
    SearchEmpty(DisplayName);
    assert BeforeAt("") == "";
  }

  lemma EmptyBodyFields()
    ensures BodyEmail("") == "" && BodyName("") == None && IssueText("") == ""
  {
    SearchEmpty(FullNameField);
    SearchEmpty(IssueField);
    NoEmailFieldInEmpty(EmailLabels);
  }

  lemma NoEmailFieldInEmpty(labels: seq<EmailLabel>)
    ensures FirstEmailLabel("", labels).None?
  {
    forall j | 0 <= j < |labels| ensures Search(EmailField(labels[j]), "", 0).None? {
      SearchEmpty(EmailField(labels[j]));
    }
    NoLabelMatches("", labels);
  }

  // ---------------------------------------------------------------- HTML normalisation facts

  /** No two adjacent whitespace characters. */
  predicate NoDoubleSpace(s: string) {
    forall k :: 0 < k < |s| ==> !(IsWs(s[k - 1]) && IsWs(s[k]))
  }

  /** No `<` is followed, anywhere later, by a `>`: nothing is left that a tag pattern could match. */
  predicate TagFree(s: string) {
    forall i, j :: 0 <= i < j < |s| ==> !(s[i] == '<' && s[j] == '>')
  }

  lemma TagFreeCons(c: char, r: string)
    requires TagFree(r)
    requires c == '<' ==> '>' !in r
    ensures TagFree([c] + r)
  {
    var t := [c] + r;
    forall i, j | 0 <= i < j < |t| ensures !(t[i] == '<' && t[j] == '>') {
      if i == 0 && c == '<' { assert t[j] == r[j - 1]; }
      else if i > 0 { assert t[i] == r[i - 1] && t[j] == r[j - 1]; }
    }
  }

  lemma SliceKeepsShape(s: string, a: nat, b: nat)
    requires a <= b <= |s|
    ensures TagFree(s) ==> TagFree(s[a..b])
    ensures NoDoubleSpace(s) ==> NoDoubleSpace(s[a..b])
  {
    if NoDoubleSpace(s) {
      forall k | 0 < k < b - a ensures !(IsWs(s[a..b][k - 1]) && IsWs(s[a..b][k])) {
        assert s[a..b][k - 1] == s[a + k - 1] && s[a..b][k] == s[a + k];
      }
    }
  }

  /** After `<[^>]*>` is replaced everywhere, no `<` is followed by a `>`. */
  lemma {:induction false} AnyTagLeavesNoTag(s: string, i: nat)
    requires i <= |s|
    ensures TagFree(ReplaceFrom(s, AnyTag, " ", i))
    decreases |s| - i
  {
    if i < |s| {
      match MatchAt(AnyTag, s, i)
      case Some(m) =>
        AnyTagLeavesNoTag(s, m.end);
        TagFreeCons(' ', ReplaceFrom(s, AnyTag, " ", m.end));
      case None =>
        var rest := ReplaceFrom(s, AnyTag, " ", i + 1);
        AnyTagLeavesNoTag(s, i + 1);
        if s[i] == '<' {
          assert RunEnd(s, i + 1, NotGt) == |s|;
          if '>' in rest {
            ReplaceFromChars(s, AnyTag, " ", i + 1, '>');
          }
        }
        TagFreeCons(s[i], rest);
    }
  }

  /** Collapsing whitespace runs keeps a tag-free text tag-free. */
  lemma {:induction false} CollapseKeepsTagFree(s: string, i: nat)
    requires i <= |s|
    requires TagFree(s)
    ensures TagFree(ReplaceFrom(s, SpaceRun, " ", i))
    decreases |s| - i
  {
    if i < |s| {
      match MatchAt(SpaceRun, s, i)
      case Some(m) =>
        CollapseKeepsTagFree(s, m.end);
        TagFreeCons(' ', ReplaceFrom(s, SpaceRun, " ", m.end));
      case None =>
        var rest := ReplaceFrom(s, SpaceRun, " ", i + 1);
        CollapseKeepsTagFree(s, i + 1);
        if s[i] == '<' && '>' in rest {
          ReplaceFromChars(s, SpaceRun, " ", i + 1, '>');
        }
        TagFreeCons(s[i], rest);
    }
  }

  /** After `\s+` is replaced by one space everywhere, no two whitespace characters are adjacent,
      and the text scanned from `i` starts with whitespace exactly when `s[i]` is whitespace. */
  lemma {:induction false} CollapseLeavesSingleSpaces(s: string, i: nat)
    requires i <= |s|
    ensures var r := ReplaceFrom(s, SpaceRun, " ", i);
      NoDoubleSpace(r) && (i < |s| ==> r != [] && (IsWs(r[0]) <==> IsWs(s[i])))
    decreases |s| - i
  {
    if i < |s| {
      var r := ReplaceFrom(s, SpaceRun, " ", i);
      match MatchAt(SpaceRun, s, i)
      case Some(m) =>
        var rest := ReplaceFrom(s, SpaceRun, " ", m.end);
        CollapseLeavesSingleSpaces(s, m.end);
        assert r == [' '] + rest;
        forall k | 0 < k < |r| ensures !(IsWs(r[k - 1]) && IsWs(r[k])) {
          if k == 1 { assert r[1] == rest[0]; } else { assert r[k - 1] == rest[k - 2] && r[k] == rest[k - 1]; }
        }
      case None =>
        var rest := ReplaceFrom(s, SpaceRun, " ", i + 1);
        CollapseLeavesSingleSpaces(s, i + 1);
        assert r == [s[i]] + rest;
        forall k | 0 < k < |r| ensures !(IsWs(r[k - 1]) && IsWs(r[k])) {
          if k == 1 { assert r[0] == s[i] && r[1] == rest[0]; }
          else { assert r[k - 1] == rest[k - 2] && r[k] == rest[k - 1]; }
        }
    }
  }
}
