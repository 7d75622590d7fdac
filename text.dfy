/**
 * String primitives of the JavaScript runtime that the pipeline relies on:
 * the `\s` character class (which is also what `String.prototype.trim`
 * strips), `trim`, ASCII case folding, `includes` and `Array.prototype.join`.
 */
module Text {

  /** JavaScript's `\s`: WhiteSpace and LineTerminator code points. */
  predicate IsWs(c: char) {
    c == ' ' || c == '\t' || c == '\n' || c == '\r' || c == '\U{000B}' || c == '\U{000C}'
    || c == '\U{00A0}' || c == '\U{1680}' || ('\U{2000}' <= c <= '\U{200A}')
    || c == '\U{2028}' || c == '\U{2029}' || c == '\U{202F}' || c == '\U{205F}'
    || c == '\U{3000}' || c == '\U{FEFF}'
  }

  /** The characters that `.` in a regular expression does not match. */
  predicate IsLineTerminator(c: char) {
    c == '\n' || c == '\r' || c == '\U{2028}' || c == '\U{2029}'
  }

  /** Neither end of `s` is whitespace. */
  predicate Trimmed(s: string) {
    s == [] || (!IsWs(s[0]) && !IsWs(s[|s| - 1]))
  }

  function TrimStart(s: string): (r: string)
    ensures |r| <= |s| && r == s[|s| - |r|..]
    ensures r == [] || !IsWs(r[0])
    ensures forall i :: 0 <= i < |s| - |r| ==> IsWs(s[i])
  {
    if s != [] && IsWs(s[0]) then
      var r := TrimStart(s[1..]);
      TrimStartStep(s, s[1..], r);
      r
    else s
  }

  lemma TrimStartStep(s: string, t: string, r: string)
    requires s != [] && IsWs(s[0]) && t == s[1..]
    requires |r| <= |t| && r == t[|t| - |r|..]
    requires forall i :: 0 <= i < |t| - |r| ==> IsWs(t[i])
    ensures r == s[|s| - |r|..]
    ensures forall i :: 0 <= i < |s| - |r| ==> IsWs(s[i])
  {
    assert t[|t| - |r|..] == s[|s| - |r|..];
    forall i | 0 < i < |s| - |r| ensures IsWs(s[i]) {
      assert s[i] == t[i - 1];
    }
  }

  function TrimEnd(s: string): (r: string)
    ensures |r| <= |s| && r == s[..|r|]
    ensures r == [] || !IsWs(r[|r| - 1])
    ensures forall i :: |r| <= i < |s| ==> IsWs(s[i])
  {
    if s != [] && IsWs(s[|s| - 1]) then
      var r := TrimEnd(s[..|s| - 1]);
      TrimEndStep(s, s[..|s| - 1], r);
      r
    else s
  }

  lemma TrimEndStep(s: string, t: string, r: string)
    requires s != [] && IsWs(s[|s| - 1]) && t == s[..|s| - 1]
    requires |r| <= |t| && r == t[..|r|]
    requires forall i :: |r| <= i < |t| ==> IsWs(t[i])
    ensures r == s[..|r|]
    ensures forall i :: |r| <= i < |s| ==> IsWs(s[i])
  {
    assert t[..|r|] == s[..|r|];
    forall i | |r| <= i < |s| - 1 ensures IsWs(s[i]) {
      assert s[i] == t[i];
    }
  }

  /** `String.prototype.trim`: the slice of `s` left after removing whitespace at both ends. */
  function Trim(s: string): (r: string)
    ensures Trimmed(r)
    ensures exists a: nat :: TrimmedSlice(s, r, a)
  {
    var t := TrimStart(s);
    var r := TrimEnd(t);
    TrimmedEnds(t, r);
    TrimBothEnds(s, t, r);
    r
  }

  lemma TrimmedEnds(t: string, r: string)
    requires t == [] || !IsWs(t[0])
    requires |r| <= |t| && r == t[..|r|]
    requires r == [] || !IsWs(r[|r| - 1])
    ensures Trimmed(r)
  {
    if r != [] {
      assert r[0] == t[0];
    }
  }

  /** Trimming the start and then the end leaves a slice with only whitespace outside it. */
  lemma TrimBothEnds(s: string, t: string, r: string)
    requires |t| <= |s| && t == s[|s| - |t|..]
    requires forall i :: 0 <= i < |s| - |t| ==> IsWs(s[i])
    requires |r| <= |t| && r == t[..|r|]
    requires forall i :: |r| <= i < |t| ==> IsWs(t[i])
    ensures TrimmedSlice(s, r, |s| - |t|)
  {
    var a := |s| - |t|;
    forall i | a + |r| <= i < |s| ensures IsWs(s[i]) {
      assert s[i] == t[i - a];
    }
    assert s[a..a + |r|] == t[..|r|];
  }

  /** `r` is `s[a..a + |r|]` and everything of `s` outside that slice is whitespace. */
  predicate TrimmedSlice(s: string, r: string, a: nat) {
    a + |r| <= |s| && r == s[a..a + |r|]
    && (forall i :: 0 <= i < a ==> IsWs(s[i]))
    && (forall i :: a + |r| <= i < |s| ==> IsWs(s[i]))
  }

  lemma TrimStartOfTrimmed(s: string)
    requires s == [] || !IsWs(s[0])
    ensures TrimStart(s) == s
  {
  }

  lemma TrimEndOfTrimmed(s: string)
    requires s == [] || !IsWs(s[|s| - 1])
    ensures TrimEnd(s) == s
  {
  }

  /** Trimming a string that has no whitespace at either end changes nothing. */
  lemma TrimOfTrimmed(s: string)
    requires Trimmed(s)
    ensures Trim(s) == s
  {
    TrimStartOfTrimmed(s);
    TrimEndOfTrimmed(s);
  }

  /** `trim` is idempotent. */
  lemma TrimIdempotent(s: string)
    ensures Trim(Trim(s)) == Trim(s)
  {
    TrimOfTrimmed(Trim(s));
  }

  /** ASCII lower-casing of one character. */
  function Lower(c: char): (r: char)
    ensures 'A' <= c <= 'Z' ==> r as int == c as int + 32
    ensures !('A' <= c <= 'Z') ==> r == c
  {
    if 'A' <= c <= 'Z' then (c as int + 32) as char else c
  }

  /** ASCII upper-casing of one character. */
  function Upper(c: char): (r: char)
    ensures 'a' <= c <= 'z' ==> r as int == c as int - 32
    ensures !('a' <= c <= 'z') ==> r == c
  {
    if 'a' <= c <= 'z' then (c as int - 32) as char else c
  }

  function LowerStr(s: string): (r: string)
    ensures |r| == |s| && forall i :: 0 <= i < |s| ==> r[i] == Lower(s[i])
  {
    seq(|s|, i requires 0 <= i < |s| => Lower(s[i]))
  }

  function UpperStr(s: string): (r: string)
    ensures |r| == |s| && forall i :: 0 <= i < |s| ==> r[i] == Upper(s[i])
  {
    seq(|s|, i requires 0 <= i < |s| => Upper(s[i]))
  }

  /** `s` holds `lit` at position `i`, comparing letters ASCII case-insensitively (the `i` flag). */
  predicate MatchesCI(s: string, i: nat, lit: string)
    decreases |lit|
  {
    lit == [] || (i < |s| && Lower(s[i]) == Lower(lit[0]) && MatchesCI(s, i + 1, lit[1..]))
  }

  lemma {:induction false} MatchesCIBounds(s: string, i: nat, lit: string)
    requires i <= |s|
    requires MatchesCI(s, i, lit)
    ensures i + |lit| <= |s|
    ensures forall k :: 0 <= k < |lit| ==> Lower(s[i + k]) == Lower(lit[k])
    decreases |lit|
  {
    if lit != [] {
      MatchesCIBounds(s, i + 1, lit[1..]);
      forall k | 0 <= k < |lit| ensures Lower(s[i + k]) == Lower(lit[k]) {
        if k > 0 { assert lit[k] == lit[1..][k - 1]; }
      }
    }
  }

  /** A case-insensitive match only looks at the characters it covers. */
  lemma {:induction false} MatchesCIExtend(s: string, i: nat, t: string, j: nat, lit: string)
    requires MatchesCI(s, i, lit)
    requires i + |lit| <= |s| && j + |lit| <= |t|
    requires s[i..i + |lit|] == t[j..j + |lit|]
    ensures MatchesCI(t, j, lit)
    decreases |lit|
  {
    if lit != [] {
      assert s[i] == s[i..i + |lit|][0] == t[j];
      assert s[i + 1..i + 1 + |lit[1..]|] == s[i..i + |lit|][1..];
      assert t[j + 1..j + 1 + |lit[1..]|] == t[j..j + |lit|][1..];
      MatchesCIExtend(s, i + 1, t, j + 1, lit[1..]);
    }
  }

  /** A text matches a literal where its characters agree with the literal's up to letter case. */
  lemma {:induction false} MatchesCIByChars(s: string, i: nat, lit: string)
    requires i + |lit| <= |s|
    requires forall k :: 0 <= k < |lit| ==> Lower(s[i + k]) == Lower(lit[k])
    ensures MatchesCI(s, i, lit)
    decreases |lit|
  {
    if lit != [] {
      assert Lower(s[i + 0]) == Lower(lit[0]);
      forall k | 0 <= k < |lit[1..]| ensures Lower(s[i + 1 + k]) == Lower(lit[1..][k]) {
        assert Lower(s[i + (k + 1)]) == Lower(lit[k + 1]);
      }
      MatchesCIByChars(s, i + 1, lit[1..]);
    }
  }

  /** A literal placed right after `a` matches there. */
  lemma MatchesCIAfter(a: string, lit: string, b: string)
    ensures MatchesCI(a + lit + b, |a|, lit)
  {
    var s := a + lit + b;
    forall k | 0 <= k < |lit| ensures Lower(s[|a| + k]) == Lower(lit[k]) {
      assert s[|a| + k] == lit[k];
    }
    MatchesCIByChars(s, |a|, lit);
  }

  predicate StartsWith(s: string, prefix: string) {
    |prefix| <= |s| && s[..|prefix|] == prefix
  }

  /** `String.prototype.includes`, scanning the start positions left to right. */
  predicate Contains(text: string, pat: string)
    decreases |text|
  {
    StartsWith(text, pat) || (text != [] && Contains(text[1..], pat))
  }

  predicate OccursAt(text: string, pat: string, i: nat) {
    i + |pat| <= |text| && text[i..i + |pat|] == pat
  }

  /** `Contains` holds exactly when `pat` occurs in `text` at some position. */
  lemma {:induction false} ContainsIff(text: string, pat: string)
    ensures Contains(text, pat) <==> exists i: nat :: OccursAt(text, pat, i)
    decreases |text|
  {
    if StartsWith(text, pat) {
      assert OccursAt(text, pat, 0);
    } else if text != [] {
      ContainsIff(text[1..], pat);
      if Contains(text[1..], pat) {
        var i: nat :| OccursAt(text[1..], pat, i);
        assert text[1..][i..i + |pat|] == text[i + 1..i + 1 + |pat|];
        assert OccursAt(text, pat, i + 1);
      }
      if exists i: nat :: OccursAt(text, pat, i) {
        var i: nat :| OccursAt(text, pat, i);
        assert i > 0;
        assert text[1..][i - 1..i - 1 + |pat|] == text[i..i + |pat|];
        assert OccursAt(text[1..], pat, i - 1);
      }
    }
  }

  /** An occurrence at a known position is found by `Contains`. */
  lemma ContainsAt(text: string, pat: string, i: nat)
    requires OccursAt(text, pat, i)
    ensures Contains(text, pat)
  {
    ContainsIff(text, pat);
  }

  /** Lower-casing leaves a string without ASCII capitals as it is. */
  lemma LowerOfLower(s: string)
    requires forall i :: 0 <= i < |s| ==> !('A' <= s[i] <= 'Z')
    ensures LowerStr(s) == s
  {
  }

  /** A case-insensitive occurrence in `s` is a plain occurrence in the lower-cased `s`. */
  lemma LowerContains(s: string, i: nat, lit: string)
    requires i <= |s|
    requires MatchesCI(s, i, lit)
    requires LowerStr(lit) == lit
    ensures Contains(LowerStr(s), lit)
  {
    MatchesCIBounds(s, i, lit);
    var l := LowerStr(s);
    assert l[i..i + |lit|] == lit by {
      forall k | 0 <= k < |lit| ensures l[i..i + |lit|][k] == lit[k] {
        assert Lower(lit[k]) == LowerStr(lit)[k];
      }
    }
    ContainsAt(l, lit, i);
  }

  /** `Array.prototype.join(sep)` on strings. */
  function Join(parts: seq<string>, sep: string): string
    decreases |parts|
  {
    if parts == [] then ""
    else if |parts| == 1 then parts[0]
    else parts[0] + sep + Join(parts[1..], sep)
  }

  /** Joining with a trailing empty element ends the text with one more separator. */
  lemma {:induction false} JoinTrailingEmpty(parts: seq<string>, sep: string)
    requires parts != []
    ensures Join(parts + [""], sep) == Join(parts, sep) + sep
    decreases |parts|
  {
    if |parts| == 1 {
      assert parts + [""] == [parts[0], ""];
      assert Join([""], sep) == "";
    } else {
      assert (parts + [""])[1..] == parts[1..] + [""];
      JoinTrailingEmpty(parts[1..], sep);
    }
  }

  /** Joining a non-empty list puts its first element first. */
  lemma JoinFirst(first: string, rest: seq<string>, sep: string)
    requires rest != []
    ensures Join([first] + rest, sep) == first + sep + Join(rest, sep)
  {
    assert ([first] + rest)[1..] == rest;
  }

  /** A text put between two others occurs in the result. */
  lemma Infix(a: string, x: string, b: string)
    ensures Contains(a + x + b, x)
  {
    assert (a + x + b)[|a|..|a| + |x|] == x;
    ContainsAt(a + x + b, x, |a|);
  }

  /** A text starts with its prefix; a text contains its suffix; containment survives appending. */
  lemma Prefix(a: string, b: string)
    ensures StartsWith(a + b, a)
  {
    assert (a + b)[..|a|] == a;
  }

  lemma Suffix(a: string, x: string)
    ensures Contains(a + x, x)
  {
    assert (a + x)[|a|..|a| + |x|] == x;
    ContainsAt(a + x, x, |a|);
  }

  lemma ContainsExtend(a: string, b: string, x: string)
    requires Contains(a, x)
    ensures Contains(a + b, x)
  {
    ContainsIff(a, x);
    var i: nat :| OccursAt(a, x, i);
    assert (a + b)[i..i + |x|] == a[i..i + |x|];
    ContainsAt(a + b, x, i);
  }

  /** An occurrence inside an occurrence is an occurrence. */
  lemma ContainsTransitive(a: string, b: string, c: string)
    requires Contains(a, b) && Contains(b, c)
    ensures Contains(a, c)
  {
    ContainsIff(a, b);
    ContainsIff(b, c);
    var i: nat :| OccursAt(a, b, i);
    var j: nat :| OccursAt(b, c, j);
    forall k | 0 <= k < |c| ensures a[i + j + k] == c[k] {
      assert a[i + j + k] == a[i..i + |b|][j + k] == b[j + k] == b[j..j + |c|][k];
    }
    assert a[i + j..i + j + |c|] == c;
    ContainsAt(a, c, i + j);
  }
}
