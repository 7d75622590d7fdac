/**
 * The specific regular expressions of the extractor and of the reply
 * template, each written out as a string function with the semantics of the
 * JavaScript engine: leftmost start position, greedy quantifiers that give
 * characters back when what follows fails, lazy quantifiers that take as few
 * characters as they can, and ASCII case-insensitivity for the `i` flag.
 */
module Patterns {
  import opened Wrappers
  import opened Text

  predicate IsWord(c: char) {
    ('a' <= c <= 'z') || ('A' <= c <= 'Z') || ('0' <= c <= '9') || c == '_'
  }

  predicate IsLetter(c: char) {
    ('a' <= c <= 'z') || ('A' <= c <= 'Z')
  }

  /** The character classes the patterns use. */
  datatype CharClass =
    | Space         // \s
    | Word          // \w
    | Address       // [\w.-], which is also [a-zA-Z0-9._-]
    | Letter        // [a-zA-Z]
    | ColonOrSpace  // [:\s]
    | NotGt         // [^>]

  predicate InClass(k: CharClass, c: char) {
    match k
    case Space => IsWs(c)
    case Word => IsWord(c)
    case Address => IsWord(c) || c == '.' || c == '-'
    case Letter => IsLetter(c)
    case ColonOrSpace => c == ':' || IsWs(c)
    case NotGt => c != '>'
  }

  /** The end of the longest run of `k` characters starting at `i`: a greedy `k*`. */
  function RunEnd(s: string, i: nat, k: CharClass): (e: nat)
    requires i <= |s|
    ensures i <= e <= |s|
    ensures forall j :: i <= j < e ==> InClass(k, s[j])
    ensures e == |s| || !InClass(k, s[e])
    decreases |s| - i
  {
    if i < |s| && InClass(k, s[i]) then RunEnd(s, i + 1, k) else i
  }

  /** `w0\s+w1\s+...` at `p`, case-insensitively: the position after the last word. */
  function WordsAt(s: string, p: nat, words: seq<string>): (r: Option<nat>)
    requires p <= |s| && words != []
    ensures r.Some? ==> p + |words[0]| <= r.value <= |s| && MatchesCI(s, p, words[0])
    decreases |words|
  {
    if !MatchesCI(s, p, words[0]) then None
    else
      MatchesCIBounds(s, p, words[0]);
      var q := p + |words[0]|;
      if |words| == 1 then Some(q)
      else
        var w := RunEnd(s, q, Space);
        if w == q then None else WordsAt(s, w, words[1..])
  }

  /** The field labels that end a captured candidate name:
      `Candidate\s+(?:Email\s+ID|Phone|Assessment\s+Key)|Subject|Issue`. */
  const FieldLabels: seq<seq<string>> :=
    [["candidate", "email", "id"], ["candidate", "phone"], ["candidate", "assessment", "key"],
     ["subject"], ["issue"]]

  /** `Thank\s+you`. */
  const ThankYou: seq<string> := ["thank", "you"]

  /** One of the labels occurs at `w`. */
  predicate AnyWordsAt(s: string, w: nat, labels: seq<seq<string>>)
    requires w <= |s|
    decreases |labels|
  {
    labels != [] && ((labels[0] != [] && WordsAt(s, w, labels[0]).Some?) || AnyWordsAt(s, w, labels[1..]))
  }

  /** What must hold where a lazy `.+?` stops. */
  datatype Stop =
    | CloseAngle          // >
    | SpaceThenOpenAngle  // \s*<
    | NameFieldEnd        // (?=\s*(?:<next field label>)|$)
    | IssueFieldEnd       // (?=\s*(?:Thank\s+you|$))

  predicate StopHolds(st: Stop, s: string, x: nat)
    requires x <= |s|
  {
    match st
    case CloseAngle => x < |s| && s[x] == '>'
    case SpaceThenOpenAngle =>
      var w := RunEnd(s, x, Space);
      w < |s| && s[w] == '<'
    case NameFieldEnd => AnyWordsAt(s, RunEnd(s, x, Space), FieldLabels) || x == |s|
    case IssueFieldEnd =>
      var w := RunEnd(s, x, Space);
      WordsAt(s, w, ThankYou).Some? || w == |s|
  }

  /** A lazy `.+?` starting at `i` followed by `st`: the smallest end `x > i`
      such that `s[i..x]` has no line terminator and `st` holds at `x`. */
  function LazyEnd(s: string, i: nat, st: Stop): (r: Option<nat>)
    requires i <= |s|
    ensures r.Some? ==> i < r.value <= |s| && StopHolds(st, s, r.value)
    decreases |s| - i
  {
    if i == |s| || IsLineTerminator(s[i]) then None
    else if StopHolds(st, s, i + 1) then Some(i + 1)
    else
      LazyEnd(s, i + 1, st)
  }

  /** A greedy `[:\s]+` that may end anywhere in `lo..r`, longest first, followed by
      a lazy `.+?` up to `st`: the bounds of the lazy group. */
  function SepThenLazy(s: string, lo: nat, r: nat, st: Stop): (res: Option<(nat, nat)>)
    requires lo <= r <= |s|
    ensures res.Some? ==> lo <= res.value.0 <= r && res.value.0 < res.value.1 <= |s|
    ensures res.Some? ==> LazyEnd(s, res.value.0, st) == Some(res.value.1)
    decreases r
  {
    match LazyEnd(s, r, st)
    case Some(x) => Some((r, x))
    case None => if r == lo then None else SepThenLazy(s, lo, r - 1, st)
  }

  /** The top-level domain part of an address pattern. */
  datatype Tld =
    | AnyWord     // \w+
    | TwoLetters  // [a-zA-Z]{2,}

  function TldClass(t: Tld): CharClass {
    match t
    case AnyWord => Word
    case TwoLetters => Letter
  }

  predicate TldAt(s: string, i: nat, t: Tld) {
    match t
    case AnyWord => i < |s| && IsWord(s[i])
    case TwoLetters => i + 1 < |s| && IsLetter(s[i]) && IsLetter(s[i + 1])
  }

  /** The largest `d` in `lo..hi-1` with a `.` at `d` and a top-level domain after it:
      where a greedy `[\w.-]+` gives back characters until `\.tld` matches. */
  function LastDot(s: string, lo: nat, hi: nat, t: Tld): (r: Option<nat>)
    requires hi <= |s|
    ensures r.Some? ==> lo <= r.value < hi && s[r.value] == '.' && TldAt(s, r.value + 1, t)
    ensures r.Some? ==> forall d :: r.value < d < hi ==> !(s[d] == '.' && TldAt(s, d + 1, t))
    ensures r.None? ==> forall d :: lo <= d < hi ==> !(s[d] == '.' && TldAt(s, d + 1, t))
    decreases hi
  {
    if hi <= lo then None
    else if s[hi - 1] == '.' && TldAt(s, hi, t) then Some(hi - 1)
    else LastDot(s, lo, hi - 1, t)
  }

  /** `[\w.-]+@[\w.-]+\.tld` anchored at `p`: the end of the match. */
  function AddressAt(s: string, p: nat, t: Tld): (r: Option<nat>)
    requires p <= |s|
    ensures r.Some? ==> p < r.value <= |s|
  {
    var a := RunEnd(s, p, Address);
    if a == p || a == |s| || s[a] != '@' then None
    else
      var b := RunEnd(s, a + 1, Address);
      match LastDot(s, a + 2, b, t)
      case None => None
      case Some(d) => Some(RunEnd(s, d + 1, TldClass(t)))
  }

  /** The first `k >= i` where `lit` occurs case-insensitively. */
  function FindCI(s: string, i: nat, lit: string): (r: Option<nat>)
    requires i <= |s|
    ensures r.Some? ==> i <= r.value && r.value + |lit| <= |s| && MatchesCI(s, r.value, lit)
    decreases |s| - i
  {
    if MatchesCI(s, i, lit) then MatchesCIBounds(s, i, lit); Some(i)
    else if i == |s| then None
    else FindCI(s, i + 1, lit)
  }

  /** `FindCI` returns the first position from `i` on where the literal occurs. */
  lemma {:induction false} FindCIFirst(s: string, i: nat, lit: string, k: nat)
    requires i <= k <= |s| && MatchesCI(s, k, lit)
    requires forall j :: i <= j < k ==> !MatchesCI(s, j, lit)
    ensures FindCI(s, i, lit) == Some(k)
    decreases k - i
  {
    if i < k {
      FindCIFirst(s, i + 1, lit, k);
    }
  }

  /** `<tag[^>]*>[\s\S]*?</tag>`, case-insensitively: a whole element with its content. */
  function ElementAt(s: string, p: nat, open: string, close: string): (r: Option<nat>)
    requires p <= |s|
    requires open != []
    ensures r.Some? ==> p < r.value <= |s|
  {
    if !MatchesCI(s, p, open) then None
    else
      MatchesCIBounds(s, p, open);
      var g := RunEnd(s, p + |open|, NotGt);
      if g == |s| then None
      else
        match FindCI(s, g + 1, close)
        case None => None
        case Some(k) => Some(k + |close|)
  }

  /** `open>x close`, where `close` does not occur in `x`, is one element from start to end. */
  lemma ElementSpans(s: string, open: string, x: string, close: string)
    requires open != [] && s == open + ">" + x + close
    requires forall j :: |open| + 1 <= j < |open| + 1 + |x| ==> !MatchesCI(s, j, close)
    ensures ElementAt(s, 0, open, close) == Some(|s|)
  {
    MatchesCIAfter("", open, ">" + x + close);
    assert "" + open + (">" + x + close) == s;
    assert s[|open|] == '>';
    RunEndAt(s, |open|, NotGt, |open|);
    MatchesCIAfter(open + ">" + x, close, "");
    assert open + ">" + x + close + "" == s;
    FindCIFirst(s, |open| + 1, close, |open| + 1 + |x|);
  }

  /** The label words of the three body patterns for the candidate's address. */
  datatype EmailLabel = CandidateEmailId | CandidateEmail | EmailId

  function LabelWords(l: EmailLabel): (r: seq<string>)
    ensures r != []
  {
    match l
    case CandidateEmailId => ["candidate", "email", "id"]
    case CandidateEmail => ["candidate", "email"]
    case EmailId => ["email", "id"]
  }

  /** The label of the issue field. */
  const IssueLabel: seq<string> := ["issue"]

  /** The words a split of the candidate name stops at. */
  const NameStopWords: seq<string> := ["candidate", "email", "phone", "assessment", "subject", "issue"]

  /** The first of `words` that occurs case-insensitively at `w`. */
  function FirstWordAt(s: string, w: nat, words: seq<string>): (r: Option<nat>)
    requires w <= |s|
    ensures r.Some? ==> r.value < |words| && MatchesCI(s, w, words[r.value]) && w + |words[r.value]| <= |s|
    ensures r.Some? ==> forall k :: 0 <= k < r.value ==> !MatchesCI(s, w, words[k])
    ensures r.None? ==> forall k :: 0 <= k < |words| ==> !MatchesCI(s, w, words[k])
    decreases |words|
  {
    if words == [] then None
    else if MatchesCI(s, w, words[0]) then MatchesCIBounds(s, w, words[0]); Some(0)
    else match FirstWordAt(s, w, words[1..])
      case None => None
      case Some(k) => Some(k + 1)
  }

  /** The regular expressions of the core, by what they match. */
  datatype Regex =
    | AngleAddress           // <(.+?)>
    | BareAddress            // ([\w\.-]+@[\w\.-]+\.\w+)
    | DisplayName            // ^(.+?)\s*<
    | EmailField(field: EmailLabel)  // label[:\s]+([a-zA-Z0-9._-]+@[a-zA-Z0-9._-]+\.[a-zA-Z]{2,}) with i
    | FullNameField          // Candidate\s+Full\s+Name[:\s]+(.+?)(?=\s*(?:<next field label>)|$) with i
    | IssueField             // Issue[:\s]+(.+?)(?=\s*(?:Thank\s+you|$)) with i
    | ScriptElement          // <script[^>]*>[\s\S]*?<\/script> with i
    | StyleElement           // <style[^>]*>[\s\S]*?<\/style> with i
    | LineBreak              // <br\s*\/?> with i
    | DivClose               // <\/div> with i
    | ParaClose              // <\/p> with i
    | AnyTag                 // <[^>]*>
    | SpaceRun               // \s+
    | NameStop               // \s+(?:Candidate|Email|Phone|Assessment|Subject|Issue) with i

  /** A match: the matched text is `s[start..end]`, the first group `s[groupStart..groupEnd]`. */
  datatype Match = Match(start: nat, end: nat, groupStart: nat, groupEnd: nat)

  predicate WellFormed(m: Match, s: string, p: nat) {
    m.start == p && p < m.end <= |s| && p <= m.groupStart <= m.groupEnd <= m.end
  }

  /** The match of `re` that starts exactly at `p`, if there is one. */
  function MatchAt(re: Regex, s: string, p: nat): (r: Option<Match>)
    requires p <= |s|
    ensures r.Some? ==> WellFormed(r.value, s, p)
  {
    match re
    case AngleAddress => AngleAddressAt(s, p)
    case BareAddress => BareAddressAt(s, p)
    case DisplayName => DisplayNameAt(s, p)
    case EmailField(field) => EmailFieldAt(s, p, field)
    case FullNameField => FullNameFieldAt(s, p)
    case IssueField => IssueFieldAt(s, p)
    case ScriptElement => ElementMatch(s, p, "<script", "</script>")
    case StyleElement => ElementMatch(s, p, "<style", "</style>")
    case LineBreak => LineBreakAt(s, p)
    case DivClose => LiteralAt(s, p, "</div>")
    case ParaClose => LiteralAt(s, p, "</p>")
    case AnyTag => AnyTagAt(s, p)
    case SpaceRun => SpaceRunAt(s, p)
    case NameStop => NameStopAt(s, p)
  }

  /** Each pattern's match, case by case. */
  lemma MatchAtDispatch(re: Regex, s: string, p: nat)
    requires p <= |s|
    ensures re.AngleAddress? ==> MatchAt(re, s, p) == AngleAddressAt(s, p)
    ensures re.BareAddress? ==> MatchAt(re, s, p) == BareAddressAt(s, p)
    ensures re.DisplayName? ==> MatchAt(re, s, p) == DisplayNameAt(s, p)
    ensures re.EmailField? ==> MatchAt(re, s, p) == EmailFieldAt(s, p, re.field)
    ensures re.FullNameField? ==> MatchAt(re, s, p) == FullNameFieldAt(s, p)
    ensures re.IssueField? ==> MatchAt(re, s, p) == IssueFieldAt(s, p)
    ensures re.ScriptElement? ==> MatchAt(re, s, p) == ElementMatch(s, p, "<script", "</script>")
    ensures re.StyleElement? ==> MatchAt(re, s, p) == ElementMatch(s, p, "<style", "</style>")
    ensures re.LineBreak? ==> MatchAt(re, s, p) == LineBreakAt(s, p)
    ensures re.DivClose? ==> MatchAt(re, s, p) == LiteralAt(s, p, "</div>")
    ensures re.ParaClose? ==> MatchAt(re, s, p) == LiteralAt(s, p, "</p>")
    ensures re.AnyTag? ==> MatchAt(re, s, p) == AnyTagAt(s, p)
    ensures re.SpaceRun? ==> MatchAt(re, s, p) == SpaceRunAt(s, p)
    ensures re.NameStop? ==> MatchAt(re, s, p) == NameStopAt(s, p)
  {
  }

  lemma NameStopDispatch(s: string)
    ensures forall p :: 0 <= p <= |s| ==> MatchAt(NameStop, s, p) == NameStopAt(s, p)
  {
    forall p | 0 <= p <= |s|
      ensures MatchAt(NameStop, s, p) == NameStopAt(s, p)
    {
      MatchAtDispatch(NameStop, s, p);
    }
  }

  /** The label of the full-name field. */
  const FullNameLabel: seq<string> := ["candidate", "full", "name"]

  /** `Candidate\s+Full\s+Name[:\s]+(.+?)` up to the next field label, at `p`. */
  function FullNameFieldAt(s: string, p: nat): (r: Option<Match>)
    requires p <= |s|
    ensures r.Some? ==> WellFormed(r.value, s, p)
  {
    LabelledText(s, p, FullNameLabel, NameFieldEnd)
  }

  /** `Issue[:\s]+(.+?)` up to `Thank you` or the end, at `p`. */
  function IssueFieldAt(s: string, p: nat): (r: Option<Match>)
    requires p <= |s|
    ensures r.Some? ==> WellFormed(r.value, s, p)
  {
    LabelledText(s, p, IssueLabel, IssueFieldEnd)
  }

  /** `<(.+?)>` at `p`. */
  function AngleAddressAt(s: string, p: nat): (r: Option<Match>)
    requires p <= |s|
    ensures r.Some? ==> WellFormed(r.value, s, p)
  {
    if p == |s| || s[p] != '<' then None
    else (match LazyEnd(s, p + 1, CloseAngle)
          case None => None
          case Some(x) => Some(Match(p, x + 1, p + 1, x)))
  }

  /** `([\w\.-]+@[\w\.-]+\.\w+)` at `p`. */
  function BareAddressAt(s: string, p: nat): (r: Option<Match>)
    requires p <= |s|
    ensures r.Some? ==> WellFormed(r.value, s, p)
  {
    match AddressAt(s, p, AnyWord)
    case None => None
    case Some(e) => Some(Match(p, e, p, e))
  }

  /** `^(.+?)\s*<` at `p`. */
  function DisplayNameAt(s: string, p: nat): (r: Option<Match>)
    requires p <= |s|
    ensures r.Some? ==> WellFormed(r.value, s, p)
  {
    if p != 0 then None
    else (match LazyEnd(s, 0, SpaceThenOpenAngle)
          case None => None
          case Some(x) => Some(Match(0, RunEnd(s, x, Space) + 1, 0, x)))
  }

  /** `label[:\s]+(address)` at `p`, case-insensitively. */
  function EmailFieldAt(s: string, p: nat, field: EmailLabel): (r: Option<Match>)
    requires p <= |s|
    ensures r.Some? ==> WellFormed(r.value, s, p)
  {
    match WordsAt(s, p, LabelWords(field))
    case None => None
    case Some(q) =>
      var r := RunEnd(s, q, ColonOrSpace);
      if r == q then None
      else (match AddressAt(s, r, TwoLetters)
            case None => None
            case Some(e) => Some(Match(p, e, r, e)))
  }

  /** A `<tag ...>...</tag>` element at `p`, case-insensitively. */
  function ElementMatch(s: string, p: nat, open: string, close: string): (r: Option<Match>)
    requires p <= |s| && open != []
    ensures r.Some? ==> WellFormed(r.value, s, p)
  {
    match ElementAt(s, p, open, close)
    case None => None
    case Some(e) => Some(Match(p, e, p, e))
  }

  /** `<br\s*\/?>` at `p`, case-insensitively. */
  function LineBreakAt(s: string, p: nat): (r: Option<Match>)
    requires p <= |s|
    ensures r.Some? ==> WellFormed(r.value, s, p)
  {
    if !MatchesCI(s, p, "<br") then None
    else
      MatchesCIBounds(s, p, "<br");
      var w := RunEnd(s, p + 3, Space);
      if w + 1 < |s| && s[w] == '/' && s[w + 1] == '>' then Some(Match(p, w + 2, p, w + 2))
      else if w < |s| && s[w] == '>' then Some(Match(p, w + 1, p, w + 1))
      else None
  }

  /** `<[^>]*>` at `p`. */
  function AnyTagAt(s: string, p: nat): (r: Option<Match>)
    requires p <= |s|
    ensures r.Some? ==> WellFormed(r.value, s, p)
  {
    if p == |s| || s[p] != '<' then None
    else
      var g := RunEnd(s, p + 1, NotGt);
      if g == |s| then None else Some(Match(p, g + 1, p, g + 1))
  }

  /** `\s+` at `p`. */
  function SpaceRunAt(s: string, p: nat): (r: Option<Match>)
    requires p <= |s|
    ensures r.Some? ==> WellFormed(r.value, s, p)
  {
    if p == |s| || !IsWs(s[p]) then None
    else
      var e := RunEnd(s, p, Space);
      Some(Match(p, e, p, e))
  }

  /** `\s+(?:Candidate|Email|Phone|Assessment|Subject|Issue)` at `p`, case-insensitively. */
  function NameStopAt(s: string, p: nat): (r: Option<Match>)
    requires p <= |s|
    ensures r.Some? ==> WellFormed(r.value, s, p)
  {
    SpaceThenWordAt(s, p, NameStopWords)
  }

  /** `\s+` followed by the first of `words` that occurs there, case-insensitively. */
  function SpaceThenWordAt(s: string, p: nat, words: seq<string>): (r: Option<Match>)
    requires p <= |s|
    ensures r.Some? ==> WellFormed(r.value, s, p)
  {
    if p == |s| || !IsWs(s[p]) then None
    else
      var w := RunEnd(s, p, Space);
      match FirstWordAt(s, w, words)
      case None => None
      case Some(k) => Some(Match(p, w + |words[k]|, p, w + |words[k]|))
  }

  function LiteralAt(s: string, p: nat, lit: string): (r: Option<Match>)
    requires p <= |s| && lit != []
    ensures r.Some? ==> WellFormed(r.value, s, p)
  {
    if MatchesCI(s, p, lit) then MatchesCIBounds(s, p, lit); Some(Match(p, p + |lit|, p, p + |lit|))
    else None
  }

  /** `label[:\s]+(.+?)` followed by the lookahead `st`. */
  function LabelledText(s: string, p: nat, words: seq<string>, st: Stop): (r: Option<Match>)
    requires p <= |s| && words != []
    ensures r.Some? ==> WellFormed(r.value, s, p)
  {
    match WordsAt(s, p, words)
    case None => None
    case Some(q) =>
      var r := RunEnd(s, q, ColonOrSpace);
      if r == q then None
      else (match SepThenLazy(s, q + 1, r, st)
            case None => None
            case Some(g) => Some(Match(p, g.1, g.0, g.1)))
  }

  /** `String.prototype.match` without the `g` flag: the leftmost match at or after `from`. */
  function Search(re: Regex, s: string, from: nat): (r: Option<Match>)
    requires from <= |s|
    ensures r.Some? ==> from <= r.value.start < r.value.end <= |s| && MatchAt(re, s, r.value.start) == r
    ensures r.Some? ==> forall p :: from <= p < r.value.start ==> MatchAt(re, s, p).None?
    ensures r.None? ==> forall p :: from <= p <= |s| ==> MatchAt(re, s, p).None?
    decreases |s| - from, 1
  {
    match MatchAt(re, s, from)
    case Some(m) => Some(m)
    case None =>
      if from == |s| then None
      else
        SearchOn(re, s, from);
        Search(re, s, from + 1)
  }

  /** When nothing matches at `from`, what the search from `from + 1` finds holds from `from`. */
  lemma SearchOn(re: Regex, s: string, from: nat)
    requires from < |s| && MatchAt(re, s, from).None?
    ensures var r := Search(re, s, from + 1);
      (r.Some? ==> forall p :: from <= p < r.value.start ==> MatchAt(re, s, p).None?)
      && (r.None? ==> forall p :: from <= p <= |s| ==> MatchAt(re, s, p).None?)
    decreases |s| - from, 0
  {
  }

  /** A labelled field starts with its label, and its group is the lazy `.+?` up to `st`. */
  lemma LabelledTextShape(s: string, p: nat, words: seq<string>, st: Stop)
    requires p <= |s| && words != []
    ensures var r := LabelledText(s, p, words, st);
      r.Some? ==>
        (MatchesCI(s, p, words[0]) && WordsAt(s, p, words).Some?
        && StopHolds(st, s, r.value.groupEnd)
        && (forall k :: r.value.groupStart <= k < r.value.groupEnd ==> !IsLineTerminator(s[k]))
        && (forall k :: r.value.groupStart < k < r.value.groupEnd ==> !StopHolds(st, s, k)))
  {
    var r := LabelledText(s, p, words, st);
    if r.Some? {
      var m := r.value;
      assert LazyEnd(s, m.groupStart, st) == Some(m.groupEnd);
      LazyEndShape(s, m.groupStart, st, m.groupEnd);
    }
  }

  lemma LazyEndShape(s: string, i: nat, st: Stop, x: nat)
    requires i <= |s| && LazyEnd(s, i, st) == Some(x)
    ensures x <= |s| && StopHolds(st, s, x)
    ensures forall k :: i <= k < x ==> !IsLineTerminator(s[k])
    ensures forall k :: i < k < x ==> !StopHolds(st, s, k)
  {
    forall k | i < k < x
      ensures !StopHolds(st, s, k)
    {
      LazyEndMinimal(s, i, st, k);
    }
    forall k | i <= k < x
      ensures !IsLineTerminator(s[k])
    {
      LazyEndOneLine(s, i, st, k);
    }
  }

  /** A lazy `.+?` from `i` ends at the first position after `i` where its lookahead holds. */
  lemma {:induction false} LazyEndMinimal(s: string, i: nat, st: Stop, k: nat)
    requires i <= |s| && LazyEnd(s, i, st).Some? && i < k < LazyEnd(s, i, st).value
    ensures !StopHolds(st, s, k)
    decreases k - i
  {
    LazyEndStep(s, i, st);
    if k > i + 1 {
      LazyEndMinimal(s, i + 1, st, k);
    }
  }

  /** A lazy `.+?` never crosses a line terminator. */
  lemma {:induction false} LazyEndOneLine(s: string, i: nat, st: Stop, k: nat)
    requires i <= |s| && LazyEnd(s, i, st).Some? && i <= k < LazyEnd(s, i, st).value
    ensures !IsLineTerminator(s[k])
    decreases k - i
  {
    LazyEndStart(s, i, st);
    if k > i {
      LazyEndStep(s, i, st);
      LazyEndOneLine(s, i + 1, st, k);
    }
  }

  lemma LazyEndStart(s: string, i: nat, st: Stop)
    requires i <= |s| && LazyEnd(s, i, st).Some?
    ensures i < |s| && !IsLineTerminator(s[i])
  {
  }

  /** A lazy group that ends beyond `i + 1` goes on past `i + 1`, where its lookahead fails. */
  lemma LazyEndStep(s: string, i: nat, st: Stop)
    requires i <= |s| && LazyEnd(s, i, st).Some? && i + 1 < LazyEnd(s, i, st).value
    ensures i < |s| && !StopHolds(st, s, i + 1) && LazyEnd(s, i + 1, st) == LazyEnd(s, i, st)
  {
  }

  /** The first group of a match. */
  function Group(s: string, m: Match): string
    requires m.groupStart <= m.groupEnd <= |s|
  {
    s[m.groupStart..m.groupEnd]
  }

  /** `s.replace(re, rep)` with the `g` flag, from position `i` on: every leftmost
      match is replaced by `rep` and the scan resumes after it. */
  function ReplaceFrom(s: string, re: Regex, rep: string, i: nat): string
    requires i <= |s|
    decreases |s| - i
  {
    if i == |s| then ""
    else match MatchAt(re, s, i)
      case Some(m) => rep + ReplaceFrom(s, re, rep, m.end)
      case None => [s[i]] + ReplaceFrom(s, re, rep, i + 1)
  }

  function ReplaceAll(s: string, re: Regex, rep: string): string {
    ReplaceFrom(s, re, rep, 0)
  }

  /** A match that covers the whole text is replaced as a whole. */
  lemma ReplaceWholeMatch(s: string, re: Regex, rep: string)
    requires 0 < |s| && MatchAt(re, s, 0).Some? && MatchAt(re, s, 0).value.end == |s|
    ensures ReplaceAll(s, re, rep) == rep
  {
    assert ReplaceFrom(s, re, rep, |s|) == "";
  }

  /** The patterns that can only match where the text has a `<`. */
  predicate OpensWithLt(re: Regex) {
    re.ScriptElement? || re.StyleElement? || re.LineBreak? || re.DivClose? || re.ParaClose? || re.AnyTag?
  }

  lemma LowerIsLt(c: char)
    requires Lower(c) == '<'
    ensures c == '<'
  {
  }

  /** A pattern that opens with `<` matches only at a `<`. */
  lemma MatchNeedsLt(re: Regex, s: string, p: nat)
    requires p <= |s| && OpensWithLt(re)
    requires MatchAt(re, s, p).Some?
    ensures p < |s| && s[p] == '<'
  {
    MatchAtDispatch(re, s, p);
    var lit := match re
      case ScriptElement => "<script"
      case StyleElement => "<style"
      case LineBreak => "<br"
      case DivClose => "</div>"
      case ParaClose => "</p>"
      case _ => "<";
    if !re.AnyTag? {
      assert MatchesCI(s, p, lit);
      MatchesCIBounds(s, p, lit);
      assert Lower(s[p + 0]) == Lower(lit[0]);
      LowerIsLt(s[p]);
    }
  }

  /** Where a pattern matches nowhere from `i` on, replacing it changes nothing. */
  lemma {:induction false} ReplaceWithoutMatch(s: string, re: Regex, rep: string, i: nat)
    requires i <= |s|
    requires forall j :: i <= j < |s| ==> MatchAt(re, s, j).None?
    ensures ReplaceFrom(s, re, rep, i) == s[i..]
    decreases |s| - i
  {
    if i < |s| {
      ReplaceWithoutMatch(s, re, rep, i + 1);
      assert s[i..] == [s[i]] + s[i + 1..];
    }
  }

  /** Where the scanned text has no `<`, such a pattern replaces nothing. */
  lemma ReplaceWithoutLt(s: string, re: Regex, rep: string, i: nat)
    requires i <= |s| && OpensWithLt(re)
    requires forall j :: i <= j < |s| ==> s[j] != '<'
    ensures ReplaceFrom(s, re, rep, i) == s[i..]
  {
    forall j | i <= j < |s| ensures MatchAt(re, s, j).None? {
      if MatchAt(re, s, j).Some? {
        MatchNeedsLt(re, s, j);
      }
    }
    ReplaceWithoutMatch(s, re, rep, i);
  }

  /** Every character of a replacement comes from `rep` or from the scanned text. */
  lemma {:induction false} ReplaceFromChars(s: string, re: Regex, rep: string, i: nat, c: char)
    requires i <= |s|
    requires c in ReplaceFrom(s, re, rep, i)
    ensures c in rep || c in s[i..]
    decreases |s| - i
  {
    if i < |s| {
      match MatchAt(re, s, i)
      case Some(m) =>
        if c !in rep {
          ReplaceFromChars(s, re, rep, m.end, c);
          assert s[m.end..] == s[i..][m.end - i..];
        }
      case None =>
        if c != s[i] {
          ReplaceFromChars(s, re, rep, i + 1, c);
          assert s[i + 1..] == s[i..][1..];
        }
    }
  }

  /** A greedy run ends at the first character outside the class. */
  lemma RunEndAt(s: string, i: nat, k: CharClass, e: nat)
    requires i <= e <= |s|
    requires forall j :: i <= j < e ==> InClass(k, s[j])
    requires e == |s| || !InClass(k, s[e])
    ensures RunEnd(s, i, k) == e
  {
  }

  /** A lazy `.+?` from `i` stops at the first position after `i` where its lookahead holds. */
  lemma {:induction false} LazyEndFirst(s: string, i: nat, st: Stop, x: nat)
    requires i < x <= |s|
    requires StopHolds(st, s, x)
    requires forall k :: i < k < x ==> !StopHolds(st, s, k)
    requires forall k :: i <= k < x ==> !IsLineTerminator(s[k])
    ensures LazyEnd(s, i, st) == Some(x)
    decreases x - i
  {
    if x > i + 1 {
      LazyEndFirst(s, i + 1, st, x);
      LazyEndSkip(s, i, st);
    } else {
      LazyEndHit(s, i, st);
    }
  }

  lemma LazyEndSkip(s: string, i: nat, st: Stop)
    requires i < |s| && !IsLineTerminator(s[i]) && !StopHolds(st, s, i + 1)
    ensures LazyEnd(s, i, st) == LazyEnd(s, i + 1, st)
  {
  }

  lemma LazyEndHit(s: string, i: nat, st: Stop)
    requires i < |s| && !IsLineTerminator(s[i]) && StopHolds(st, s, i + 1)
    ensures LazyEnd(s, i, st) == Some(i + 1)
  {
  }

  /** `match` returns the match at the first position where the pattern matches. */
  lemma SearchFinds(re: Regex, s: string, from: nat, p: nat)
    requires from <= p <= |s|
    requires MatchAt(re, s, p).Some?
    requires forall q :: from <= q < p ==> MatchAt(re, s, q).None?
    ensures Search(re, s, from) == MatchAt(re, s, p)
  {
    SearchFindsStart(re, s, from, p);
  }

  lemma SearchFindsStart(re: Regex, s: string, from: nat, p: nat)
    requires from <= p <= |s|
    requires MatchAt(re, s, p).Some?
    requires forall q :: from <= q < p ==> MatchAt(re, s, q).None?
    ensures Search(re, s, from).Some? && Search(re, s, from).value.start == p
  {
  }

  /** No pattern matches the empty text. */
  lemma SearchEmpty(re: Regex)
    ensures Search(re, "", 0).None?
  {
  }
}
