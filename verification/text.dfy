/** The handful of Python string operations the scrapers rely on:
    `str.strip()`, `str.lower()`, `sub in s` and `str(n)`. Characters are
    handled in their ASCII range (see README). */
module Text {

  /** Python's `str.isspace()` on the ASCII range: space, the controls
      \t \n \x0b \x0c \r, and the separators \x1c to \x1f. */
  predicate IsWhitespace(c: char) {
    || c == ' ' || c == '\t' || c == '\n' || c == '\r' || c == '\U{0B}' || c == '\U{0C}'
    || c == '\U{1C}' || c == '\U{1D}' || c == '\U{1E}' || c == '\U{1F}'
  }

  predicate AllWhitespace(s: string) {
    forall k :: 0 <= k < |s| ==> IsWhitespace(s[k])
  }

  function LowerChar(c: char): char {
    if 'A' <= c <= 'Z' then (c as int + 32) as char else c
  }

  /** `s.lower()` */
  function Lower(s: string): (r: string)
    ensures |r| == |s|
    ensures forall i :: 0 <= i < |s| ==> r[i] == LowerChar(s[i])
  {
    seq(|s|, i requires 0 <= i < |s| => LowerChar(s[i]))
  }

  /** `pat` occurs in `s` at index `i`. */
  predicate OccursAt(s: string, pat: string, i: int) {
    0 <= i && i + |pat| <= |s| && s[i..i + |pat|] == pat
  }

  /** Python's `pat in s`. */
  predicate Contains(s: string, pat: string) {
    exists i | 0 <= i <= |s| - |pat| :: OccursAt(s, pat, i)
  }

  /** `pat` occurs in `s` at index `i` once the characters of `s` are
      lower-cased. */
  predicate OccursFoldedAt(s: string, pat: string, i: int) {
    0 <= i && i + |pat| <= |s| && forall k :: 0 <= k < |pat| ==> LowerChar(s[i + k]) == pat[k]
  }

  /** `pat in s.lower()` holds exactly when `pat` occurs in `s` with the
      characters of `s` compared lower-cased. */
  lemma ContainsLowerIff(s: string, pat: string)
    ensures Contains(Lower(s), pat) <==> exists i :: OccursFoldedAt(s, pat, i)
  {
    var l := Lower(s);
    forall i | 0 <= i && i + |pat| <= |s|
      ensures OccursAt(l, pat, i) <==> OccursFoldedAt(s, pat, i)
    {
      if OccursAt(l, pat, i) {
        forall k | 0 <= k < |pat|
          ensures LowerChar(s[i + k]) == pat[k]
        {
          assert l[i..i + |pat|][k] == l[i + k];
        }
      }
      if OccursFoldedAt(s, pat, i) {
        assert l[i..i + |pat|] == pat;
      }
    }
    if exists i :: OccursFoldedAt(s, pat, i) {
      var i :| OccursFoldedAt(s, pat, i);
      assert OccursAt(l, pat, i);
    }
  }

  /** The number of leading characters of `s` that satisfy `p`. */
  function PrefixRun(s: string, p: char -> bool): (n: nat)
    ensures n <= |s|
    ensures forall k :: 0 <= k < n ==> p(s[k])
    ensures n < |s| ==> !p(s[n])
  {
    if |s| > 0 && p(s[0]) then 1 + PrefixRun(s[1..], p) else 0
  }

  /** The number of trailing whitespace characters of `s`. */
  function TrailingWhitespace(s: string): (n: nat)
    ensures n <= |s|
    ensures forall k :: |s| - n <= k < |s| ==> IsWhitespace(s[k])
    ensures n < |s| ==> !IsWhitespace(s[|s| - 1 - n])
  {
    if |s| > 0 && IsWhitespace(s[|s| - 1]) then 1 + TrailingWhitespace(s[..|s| - 1]) else 0
  }

  /** `s.strip()`: the longest infix of `s` that neither starts nor ends
      with whitespace, obtained by removing only whitespace. */
  function Strip(s: string): (r: string)
    ensures r == "" <==> AllWhitespace(s)
    ensures r != "" ==> !IsWhitespace(r[0]) && !IsWhitespace(r[|r| - 1])
    ensures exists i :: OccursAt(s, r, i) && AllWhitespace(s[..i]) && AllWhitespace(s[i + |r|..])
  {
    var a := PrefixRun(s, IsWhitespace);
    if a == |s| then
      assert OccursAt(s, "", 0);
      ""
    else
      var b := |s| - TrailingWhitespace(s);
      assert a < b;
      var r := s[a..b];
      assert OccursAt(s, r, a);
      r
  }

  /** Stripping is idempotent. */
  lemma StripIdempotent(s: string)
    ensures Strip(Strip(s)) == Strip(s)
  {
    var r := Strip(s);
    if r != "" {
      assert PrefixRun(r, IsWhitespace) == 0;
      assert TrailingWhitespace(r) == 0;
    }
  }

  /** A string that neither starts nor ends with whitespace is its own strip. */
  lemma StripOfTrimmed(s: string)
    requires s != "" && !IsWhitespace(s[0]) && !IsWhitespace(s[|s| - 1])
    ensures Strip(s) == s
  {
    assert PrefixRun(s, IsWhitespace) == 0;
    assert TrailingWhitespace(s) == 0;
  }

  /** `str(n)` for a natural number. */
  function DecimalString(n: nat): (r: string)
    ensures |r| >= 1
    ensures forall i :: 0 <= i < |r| ==> '0' <= r[i] <= '9'
  {
    var d := ['0' + (n % 10) as char];
    if n < 10 then d else DecimalString(n / 10) + d
  }
}
