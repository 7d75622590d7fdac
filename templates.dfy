/**
 * The reply to a start-button issue (`generateStartButtonIssueResponse`,
 * `getStartButtonIssueSubject`): the candidate's name is cut at the first
 * field label that was captured along with it, then put into a fixed
 * plain-text and HTML letter; the HTML carries an image block only when a
 * logo is given.
 */
module Templates {
  import opened Wrappers
  import opened Text
  import opened Patterns

  /** `getStartButtonIssueSubject()`. */
  const Subject := "Regarding Your Assessment Start Issue"

  /** The subject is the same fixed text for every reply, and it fits on one
      header line: printable ASCII only, so no line break can end the header early. */
  lemma SubjectIsFixedLine()
    ensures Subject == "Regarding Your Assessment Start Issue"
    ensures |Subject| > 0
    ensures forall i :: 0 <= i < |Subject| ==> ' ' <= Subject[i] <= '~'
  {
  }

  /** Where `split` cuts `name`: the start of the first stop label, or the end of `name`. */
  function Cut(name: string): (q: nat)
    ensures q <= |name|
    ensures forall p :: 0 <= p < q ==> NameStopAt(name, p).None?
    ensures q < |name| ==> NameStopAt(name, q).Some?
  {
    NameStopDispatch(name);
    match Search(NameStop, name, 0)
    case None => |name|
    case Some(m) => m.start
  }

  /** `name.split(/\s+(?:Candidate|Email|Phone|Assessment|Subject|Issue)/i)[0].trim()`:
      the text before the first match, trimmed. */
  function CleanName(name: string): (r: string)
    ensures Trimmed(r)
  {
    Trim(name[..Cut(name)])
  }

  /** The plain-text letter for a cleaned name. */
  function PlainText(name: string): string {
    "Hi " + name + "," + PlainBody
  }

  const PlainBody :=
    "\n\nPlease ensure you enabled the camera and microphone permissions for the Google Chrome browser"
    + " to be able to click on the Start button.\n\nIf you encounter any issues, kindly enable all"
    + " necessary permissions and reload the page.\n\nIf the issue persists, try the following steps:\n"
    + "- Take the test in incognito mode, or\n- Switch to a different device.\n\nRegards,\n"
    + "Otomeyt Support Team\nwww.otomeyt.ai"

  const HtmlHead :=
    "\n<!DOCTYPE html>\n<html>\n<head>\n  <meta charset=\"UTF-8\">\n</head>\n"
    + "<body style=\"font-family: Arial, sans-serif; line-height: 1.6; color: #333;\">\n  "

  const HtmlMiddle :=
    "\n  \n  <p>Please ensure you enabled the camera and microphone permissions for the Google"
    + " Chrome browser to be able to click on the Start button.</p>\n  \n  <p>If you encounter any"
    + " issues, kindly enable all necessary permissions and reload the page.</p>\n  \n  <p>If the"
    + " issue persists, try the following steps:</p>\n  <ul>\n    <li>Take the test in incognito mode,"
    + " or</li>\n    <li>Switch to a different device.</li>\n  </ul>\n  \n  <p>Regards,<br>\n"
    + "  Otomeyt Support Team<br>\n  <a href=\"https://www.otomeyt.ai\" style=\"color: #0066cc;\">"
    + "www.otomeyt.ai</a></p>\n  \n  "

  const HtmlTail := "\n</body>\n</html>"

  const ImageOpen := "<img src=\""

  /** `logo ? <div with the image> : ''`. */
  function LogoBlock(logo: string): (r: string)
    ensures r == "" <==> logo == ""
    ensures logo != "" ==> Contains(r, ImageOpen + logo + "\"")
  {
    if logo == "" then ""
    else
      var r := DivOpen + (ImageOpen + logo + "\"") + ImageClose;
      Infix(DivOpen, ImageOpen + logo + "\"", ImageClose);
      r
  }

  const DivOpen := "<div style=\"margin-top: 20px;\">\n    "

  const ImageClose := " alt=\"Otomeyt AI\" style=\"max-width: 200px; height: auto;\" />\n  </div>"

  /** The HTML letter for a cleaned name and a logo (a data URI or a URL, or "" for none). */
  function Html(name: string, logo: string): string {
    HtmlHead + Greeting(name) + HtmlMiddle + LogoBlock(logo) + HtmlTail
  }

  function Greeting(name: string): string {
    "<p>Hi " + name + ",</p>"
  }

  datatype Response = Response(plainText: string, html: string)

  /** `generateStartButtonIssueResponse`, with the logo that `getLogo()` would return as a parameter. */
  function Generate(candidateName: string, logo: string): (r: Response)
    ensures StartsWith(r.plainText, "Hi " + CleanName(candidateName) + ",")
    ensures Contains(r.html, Greeting(CleanName(candidateName)))
    ensures logo == "" ==> r.html == Html(CleanName(candidateName), "")
    ensures logo != "" ==> Contains(r.html, ImageOpen + logo + "\"")
  {
    var name := CleanName(candidateName);
    GreetingInHtml(name, logo);
    PlainGreeting(name);
    LogoInHtml(name, logo);
    Response(PlainText(name), Html(name, logo))
  }

  lemma PlainGreeting(name: string)
    ensures StartsWith(PlainText(name), "Hi " + name + ",")
  {
    Prefix("Hi " + name + ",", PlainBody);
  }

  lemma GreetingInHtml(name: string, logo: string)
    ensures Contains(Html(name, logo), Greeting(name))
  {
    Suffix(HtmlHead, Greeting(name));
    ContainsExtend(HtmlHead + Greeting(name), HtmlMiddle, Greeting(name));
    ContainsExtend(HtmlHead + Greeting(name) + HtmlMiddle, LogoBlock(logo), Greeting(name));
    ContainsExtend(HtmlHead + Greeting(name) + HtmlMiddle + LogoBlock(logo), HtmlTail, Greeting(name));
  }

  lemma LogoInHtml(name: string, logo: string)
    ensures logo != "" ==> Contains(Html(name, logo), ImageOpen + logo + "\"")
  {
    if logo != "" {
      var before := HtmlHead + Greeting(name) + HtmlMiddle;
      Infix(before, LogoBlock(logo), HtmlTail);
      ContainsTransitive(Html(name, logo), LogoBlock(logo), ImageOpen + logo + "\"");
    }
  }

  // ---------------------------------------------------------------- properties

  /** A name without any of the stop labels is only trimmed. */
  lemma CleanNameWithoutLabel(name: string)
    requires forall p :: 0 <= p < |name| ==> NameStopAt(name, p).None?
    ensures CleanName(name) == Trim(name)
  {
    assert Cut(name) == |name|;
    assert name[..|name|] == name;
  }

  /** The cleaned name is the trimmed text in front of the first stop label: a slice of
      the input with no stop label starting anywhere before its end. */
  lemma CleanNameIsPrefixSlice(name: string) returns (a: nat)
    ensures CutBefore(name, CleanName(name), a)
  {
    var q := Cut(name);
    var c := Trim(name[..q]);
    a :| TrimmedSlice(name[..q], c, a);
    PrefixSliceCutBefore(name, q, c, a);
  }

  lemma PrefixSliceCutBefore(name: string, q: nat, c: string, a: nat)
    requires q <= |name| && TrimmedSlice(name[..q], c, a)
    requires forall p :: 0 <= p < q ==> NameStopAt(name, p).None?
    ensures CutBefore(name, c, a)
  {
    assert name[..q][a..a + |c|] == name[a..a + |c|];
  }

  /** `c` is `name[a..a + |c|]`, and no stop label starts before its end. */
  predicate CutBefore(name: string, c: string, a: nat) {
    a + |c| <= |name| && c == name[a..a + |c|]
    && forall p :: 0 <= p < a + |c| ==> NameStopAt(name, p).None?
  }

  /** Cleaning an already cleaned name changes nothing. */
  lemma CleanNameIdempotent(name: string)
    ensures CleanName(CleanName(name)) == CleanName(name)
  {
    var c := CleanName(name);
    var a := CleanNameIsPrefixSlice(name);
    NoStopInCut(name, c, a);
    CleanNameWithoutLabel(c);
    TrimOfTrimmed(c);
  }

  /** A trimmed slice that no stop label starts before the end of has no stop label of its own. */
  lemma NoStopInCut(name: string, c: string, a: nat)
    requires CutBefore(name, c, a) && Trimmed(c)
    ensures forall p :: 0 <= p < |c| ==> NameStopAt(c, p).None?
  {
    forall p | 0 <= p < |c| ensures NameStopAt(c, p).None? {
      if NameStopAt(c, p).Some? {
        StopTransfers(c, name, a, p);
      }
    }
  }

  /** A stop label found in a slice of `s` that does not end in whitespace is a stop
      label of `s` at the same place. */
  lemma StopTransfers(c: string, s: string, off: nat, p: nat)
    requires off + |c| <= |s| && c == s[off..off + |c|]
    requires c == [] || !IsWs(c[|c| - 1])
    requires p <= |c| && NameStopAt(c, p).Some?
    ensures NameStopAt(s, off + p).Some?
  {
    forall j | 0 <= j < |c| ensures s[off + j] == c[j] {
      assert c[j] == s[off..off + |c|][j];
    }
    WordStopTransfers(c, s, off, p, NameStopWords);
  }

  lemma WordStopTransfers(c: string, s: string, off: nat, p: nat, words: seq<string>)
    requires off + |c| <= |s|
    requires forall j :: 0 <= j < |c| ==> s[off + j] == c[j]
    requires c == [] || !IsWs(c[|c| - 1])
    requires p <= |c| && SpaceThenWordAt(c, p, words).Some?
    ensures SpaceThenWordAt(s, off + p, words).Some?
  {
    var w := RunEnd(c, p, Space);
    var k := FirstWordAt(c, w, words).value;
    var word := words[k];
    RunStopsBeforeEnd(c, p);
    SpaceRunTransfers(c, s, off, p, w);
    SliceTransfers(c, s, off, w, |word|);
    MatchesCIExtend(c, w, s, off + w, word);
    assert s[off + p] == c[p];
  }

  lemma SliceTransfers(c: string, s: string, off: nat, w: nat, n: nat)
    requires off + |c| <= |s| && w + n <= |c|
    requires forall j :: 0 <= j < |c| ==> s[off + j] == c[j]
    ensures c[w..w + n] == s[off + w..off + w + n]
  {
    var a, b := c[w..w + n], s[off + w..off + w + n];
    forall j | 0 <= j < n ensures a[j] == b[j] {
      assert s[off + (w + j)] == c[w + j];
    }
  }

  /** A whitespace run cannot reach past a last character that is not whitespace. */
  lemma RunStopsBeforeEnd(c: string, p: nat)
    requires p < |c| && !IsWs(c[|c| - 1])
    ensures RunEnd(c, p, Space) < |c|
  {
    var w := RunEnd(c, p, Space);
    assert w != |c| || InClass(Space, c[|c| - 1]);
  }

  /** A whitespace run inside the slice `c` of `s` ends at the same place in `s`. */
  lemma SpaceRunTransfers(c: string, s: string, off: nat, p: nat, w: nat)
    requires off + |c| <= |s|
    requires forall j :: 0 <= j < |c| ==> s[off + j] == c[j]
    requires p <= w < |c| && w == RunEnd(c, p, Space)
    ensures RunEnd(s, off + p, Space) == off + w
  {
    forall j | off + p <= j < off + w ensures InClass(Space, s[j]) {
      assert s[off + (j - off)] == c[j - off];
    }
    assert s[off + w] == c[w];
    RunEndAt(s, off + p, Space, off + w);
  }

}
