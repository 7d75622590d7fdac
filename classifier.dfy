/**
 * Issue classification (`classifyIssue`): a keyword prefilter on the
 * lower-cased text, a keyword-only verdict when no API key is configured, the
 * normalisation of a language model's free-text answer, and the reduced
 * regular expression used when the model call fails. The model call itself
 * is an oracle parameter.
 */
module Classifier {
  import opened Wrappers
  import opened Text

  /** The keywords of the prefilter, in the order the source lists them. */
  const QuickKeywords: seq<string> := [
    "start", "not starting", "not start", "unable to start", "can't start", "cannot start",
    "start button", "start test", "start exam", "start assessment", "start icon", "start option",
    "button disable", "button not working", "not clickable", "not enable", "not open",
    "test not", "assessment not", "exam not", "session not", "page not open"]

  /** The alternatives of the regular expression tested when classification throws. */
  const FallbackAlternatives: seq<string> := [
    "start", "not starting", "not start", "unable to start", "can't start", "cannot start",
    "button disable", "not clickable", "not open"]

  /** The lower-cased `${issue} ${subject} ${body}` every tier looks at. */
  function SearchText(subject: string, issue: string, body: string): (r: string)
    ensures |r| == |issue| + 1 + |subject| + 1 + |body|
    ensures LowerStr(r) == r
    ensures forall i :: 0 <= i < |issue| ==> r[i] == Lower(issue[i])
    ensures r[|issue|] == ' '
    ensures forall i :: 0 <= i < |subject| ==> r[|issue| + 1 + i] == Lower(subject[i])
    ensures r[|issue| + 1 + |subject|] == ' '
    ensures forall i :: 0 <= i < |body| ==> r[|issue| + 1 + |subject| + 1 + i] == Lower(body[i])
  {
    var t := issue + " " + subject + " " + body;
    var r := LowerStr(t);
    LowerIdempotent(t);
    SearchTextPieces(issue, subject, body, t);
    r
  }

  lemma SearchTextPieces(issue: string, subject: string, body: string, t: string)
    requires t == issue + " " + subject + " " + body
    ensures forall i :: 0 <= i < |issue| ==> t[i] == issue[i]
    ensures t[|issue|] == ' '
    ensures forall i :: 0 <= i < |subject| ==> t[|issue| + 1 + i] == subject[i]
    ensures t[|issue| + 1 + |subject|] == ' '
    ensures forall i :: 0 <= i < |body| ==> t[|issue| + 1 + |subject| + 1 + i] == body[i]
  {
  }

  lemma LowerIdempotent(s: string)
    ensures LowerStr(LowerStr(s)) == LowerStr(s)
  {
    assert forall i :: 0 <= i < |s| ==> Lower(Lower(s[i])) == Lower(s[i]);
  }

  /** `keys.some(k => text.includes(k))`. */
  predicate SomeIncluded(text: string, keys: seq<string>)
    decreases |keys|
  {
    keys != [] && (Contains(text, keys[0]) || SomeIncluded(text, keys[1..]))
  }

  lemma {:induction false} SomeIncludedIff(text: string, keys: seq<string>)
    ensures SomeIncluded(text, keys) <==> exists k :: 0 <= k < |keys| && Contains(text, keys[k])
    decreases |keys|
  {
    if keys != [] {
      SomeIncludedIff(text, keys[1..]);
      if exists k :: 0 <= k < |keys| && Contains(text, keys[k]) {
        var k :| 0 <= k < |keys| && Contains(text, keys[k]);
        if k > 0 { assert keys[1..][k - 1] == keys[k]; }
      }
      if SomeIncluded(text, keys[1..]) {
        var k :| 0 <= k < |keys[1..]| && Contains(text, keys[1..][k]);
        assert keys[k + 1] == keys[1..][k];
      }
    }
  }

  /** `.test` of an alternation of literals with the `i` flag, as the error path uses it
      on `FallbackAlternatives`: some alternative matches case-insensitively at some
      position from `p` on. */
  predicate AlternationFrom(text: string, p: nat, alts: seq<string>)
    requires p <= |text|
    decreases |text| - p
  {
    AlternativeAt(text, p, alts) || (p < |text| && AlternationFrom(text, p + 1, alts))
  }

  predicate AlternativeAt(text: string, p: nat, alts: seq<string>)
    decreases |alts|
  {
    alts != [] && (MatchesCI(text, p, alts[0]) || AlternativeAt(text, p, alts[1..]))
  }

  /** `OPENAI_API_KEY || CURSOR_API_KEY`. */
  datatype Env = Env(openaiKey: string, cursorKey: string)

  function ApiKey(env: Env): (r: string)
    ensures r == "" <==> env.openaiKey == "" && env.cursorKey == ""
  {
    if env.openaiKey != "" then env.openaiKey else env.cursorKey
  }

  /** What the oracle is told: the key it is called with and the message fields. */
  datatype OracleRequest = OracleRequest(apiKey: string, subject: string, issue: string, bodyExcerpt: string)

  /** The model returned a response (whose first choice may lack content), or the call threw. */
  datatype OracleReply = Answered(content: Option<string>) | Failed

  /** `emailBody.substring(0, 500)`. */
  function Excerpt(body: string): (r: string)
    ensures |r| <= 500 && |r| <= |body| && r == body[..|r|]
    ensures |r| == 500 || r == body
  {
    if |body| <= 500 then body else body[..500]
  }

  /** `content?.trim().toUpperCase() || 'NO'`. */
  function Normalise(content: Option<string>): (r: string)
    ensures r != ""
    ensures content.Some? && Trim(content.value) != "" ==> r == UpperStr(Trim(content.value))
  {
    if content.None? then "NO"
    else
      var u := UpperStr(Trim(content.value));
      if u == "" then "NO" else u
  }

  /** `classifyIssue`. */
  function Classify(subject: string, issue: string, body: string, env: Env,
                    oracle: OracleRequest -> OracleReply): (r: string)
    ensures r == "YES" || r == "NO"
  {
    var text := SearchText(subject, issue, body);
    if !SomeIncluded(text, QuickKeywords) then "NO"
    else if ApiKey(env) == "" then "YES"
    else match oracle(OracleRequest(ApiKey(env), subject, issue, Excerpt(body)))
      case Failed => if AlternationFrom(text, 0, FallbackAlternatives) then "YES" else "NO"
      case Answered(content) => if Contains(Normalise(content), "YES") then "YES" else "NO"
  }

  // ---------------------------------------------------------------- properties

  /** Without a keyword hit the answer is "NO", whatever the oracle would have said. */
  lemma NoKeywordNoOracle(subject: string, issue: string, body: string, env: Env,
                          o1: OracleRequest -> OracleReply, o2: OracleRequest -> OracleReply)
    requires forall k :: 0 <= k < |QuickKeywords| ==> !Contains(SearchText(subject, issue, body), QuickKeywords[k])
    ensures Classify(subject, issue, body, env, o1) == "NO"
    ensures Classify(subject, issue, body, env, o1) == Classify(subject, issue, body, env, o2)
  {
    SomeIncludedIff(SearchText(subject, issue, body), QuickKeywords);
  }

  /** "start" in any letter case anywhere in the text (say in "Restarted") passes the prefilter. */
  lemma StartPassesPrefilter(subject: string, issue: string, body: string, p: nat)
    requires p <= |issue + " " + subject + " " + body|
    requires MatchesCI(issue + " " + subject + " " + body, p, "start")
    ensures SomeIncluded(SearchText(subject, issue, body), QuickKeywords)
  {
    LowerContains(issue + " " + subject + " " + body, p, "start");
    SomeIncludedAt(SearchText(subject, issue, body), QuickKeywords, 0);
  }

  /** With a keyword hit and neither key set, the keyword hit decides: "YES". */
  lemma NoKeyMeansYes(subject: string, issue: string, body: string, env: Env,
                      oracle: OracleRequest -> OracleReply)
    requires SomeIncluded(SearchText(subject, issue, body), QuickKeywords)
    requires env.openaiKey == "" && env.cursorKey == ""
    ensures Classify(subject, issue, body, env, oracle) == "YES"
  {
  }

  /** With a keyword hit and a key, the answer is "YES" exactly when the trimmed,
      upper-cased model answer contains "YES"; a missing answer gives "NO". The
      model sees the key, the subject, the issue and at most 500 characters of the body. */
  lemma OracleDecides(subject: string, issue: string, body: string, env: Env,
                      oracle: OracleRequest -> OracleReply, content: Option<string>)
    requires SomeIncluded(SearchText(subject, issue, body), QuickKeywords)
    requires ApiKey(env) != ""
    requires oracle(OracleRequest(ApiKey(env), subject, issue, Excerpt(body))) == Answered(content)
    ensures Classify(subject, issue, body, env, oracle) == "YES"
        <==> content.Some? && Contains(UpperStr(Trim(content.value)), "YES")
  {
    assert !Contains("NO", "YES");
    assert !Contains("", "YES");
    assert Classify(subject, issue, body, env, oracle)
      == if Contains(Normalise(content), "YES") then "YES" else "NO";
  }

  /** Every alternative of the error-path expression is a prefilter keyword, so a
      "YES" from the error path implies the prefilter hit. */
  lemma FallbackImpliesPrefilter(subject: string, issue: string, body: string)
    requires AlternationFrom(SearchText(subject, issue, body), 0, FallbackAlternatives)
    ensures SomeIncluded(SearchText(subject, issue, body), QuickKeywords)
  {
    FallbackHitIsKeywordHit(SearchText(subject, issue, body));
  }

  lemma FallbackHitIsKeywordHit(text: string)
    requires LowerStr(text) == text
    requires AlternationFrom(text, 0, FallbackAlternatives)
    ensures SomeIncluded(text, QuickKeywords)
  {
    var p, a := AlternationWitness(text, 0, FallbackAlternatives);
    var alt := FallbackAlternatives[a];
    var k := KeywordOf(a);
    AlternativeIsLower(a);
    LowerContains(text, p, alt);
    SomeIncludedAt(text, QuickKeywords, k);
  }

  lemma {:induction false} SomeIncludedAt(text: string, keys: seq<string>, k: nat)
    requires k < |keys| && Contains(text, keys[k])
    ensures SomeIncluded(text, keys)
    decreases k
  {
    if k > 0 {
      SomeIncludedAt(text, keys[1..], k - 1);
    }
  }

  /** The index of an error-path alternative among the prefilter keywords. */
  lemma KeywordOf(a: nat) returns (k: nat)
    requires a < |FallbackAlternatives|
    ensures k < |QuickKeywords| && QuickKeywords[k] == FallbackAlternatives[a]
  {
    k := if a < 6 then a else if a == 6 then 12 else if a == 7 then 14 else 16;
  }

  /** The error-path alternatives are already lower case. */
  lemma AlternativeIsLower(a: nat)
    requires a < |FallbackAlternatives|
    ensures LowerStr(FallbackAlternatives[a]) == FallbackAlternatives[a]
  {
    LowerOfLower(FallbackAlternatives[a]);
  }

  /** The position and the alternative at which a successful `.test` of an alternation matches. */
  lemma {:induction false} AlternationWitness(text: string, from: nat, alts: seq<string>) returns (p: nat, a: nat)
    requires from <= |text|
    requires AlternationFrom(text, from, alts)
    ensures from <= p <= |text| && a < |alts| && MatchesCI(text, p, alts[a])
    decreases |text| - from
  {
    if AlternativeAt(text, from, alts) {
      p := from;
      a := AlternativeWitness(text, from, alts);
    } else {
      p, a := AlternationWitness(text, from + 1, alts);
    }
  }

  lemma {:induction false} AlternativeWitness(text: string, p: nat, alts: seq<string>) returns (a: nat)
    requires AlternativeAt(text, p, alts)
    ensures a < |alts| && MatchesCI(text, p, alts[a])
    decreases |alts|
  {
    if MatchesCI(text, p, alts[0]) {
      a := 0;
    } else {
      var b := AlternativeWitness(text, p, alts[1..]);
      a := b + 1;
    }
  }
}
