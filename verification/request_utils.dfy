/** HTTP request utilities (utils/request_utils.py): the bounded retry policy
    of `make_request`, `safe_extract_text`, and the price parser
    `clean_price` built on the pattern `\$[\d,]+\.?\d*`. */
module RequestUtils {
  import opened Wrappers
  import opened Text

  const NA := "N/A"

  // ---------------------------------------------------------------------
  // The price pattern  \$[\d,]+\.?\d*
  // ---------------------------------------------------------------------

  predicate IsDigit(c: char) { '0' <= c <= '9' }

  /** A character of the `[\d,]` class. */
  predicate IsAmountChar(c: char) { IsDigit(c) || c == ',' }

  /** The end of the maximal run of `p`-characters of `s` that begins at
      index `i` (a greedy `[...]*`). */
  function RunEnd(s: string, i: nat, p: char -> bool): (j: nat)
    requires i <= |s|
    ensures i <= j <= |s|
    ensures forall k :: i <= k < j ==> p(s[k])
    ensures j < |s| ==> !p(s[j])
    decreases |s| - i
  {
    if i < |s| && p(s[i]) then RunEnd(s, i + 1, p) else i
  }

  /** `t` splits at `k` into `$`, a non-empty `[\d,]+` part t[1..k], and a
      `\.?\d*` tail t[k..]: digits, or a dot followed by digits. */
  predicate SplitsAsPrice(t: string, k: int) {
    && 2 <= k <= |t|
    && t[0] == '$'
    && (forall q :: 1 <= q < k ==> IsAmountChar(t[q]))
    && ((forall q :: k <= q < |t| ==> IsDigit(t[q]))
        || (k < |t| && t[k] == '.' && forall q :: k < q < |t| ==> IsDigit(t[q])))
  }

  /** `t` belongs to the language of `\$[\d,]+\.?\d*`. */
  ghost predicate IsPriceToken(t: string) {
    exists k :: SplitsAsPrice(t, k)
  }

  /** A match of the pattern can begin at index `i` of `s`: a `$` followed by
      a digit or a comma. */
  predicate PriceStartsAt(s: string, i: int) {
    0 <= i < |s| - 1 && s[i] == '$' && IsAmountChar(s[i + 1])
  }

  /** No token of the pattern found at index `i` of `s` is longer than `m`:
      the greedy quantifiers take as much as the pattern allows. */
  ghost predicate IsLongestPriceAt(s: string, m: string, i: int) {
    forall t :: IsPriceToken(t) && OccursAt(s, t, i) ==> |t| <= |m|
  }

  /** `m` is what `re.search` returns for the pattern on `s`: the longest
      token of the pattern found at the leftmost index where a match can
      begin. */
  ghost predicate IsLeftmostPrice(s: string, m: string) {
    exists i :: IsLeftmostPriceAt(s, m, i)
  }

  /** `m` is the longest token of the pattern at index `i` of `s`, and no
      match can begin before `i`. */
  ghost predicate IsLeftmostPriceAt(s: string, m: string, i: int) {
    && PriceStartsAt(s, i) && OccursAt(s, m, i) && IsPriceToken(m)
    && (forall j :: 0 <= j < i ==> !PriceStartsAt(s, j))
    && IsLongestPriceAt(s, m, i)
  }

  /** Where the greedy anchored match on `s` ends. */
  function MatchEnd(s: string): (e: nat)
    requires PriceStartsAt(s, 0)
    ensures 2 <= e <= |s|
    ensures SplitsAsPrice(s[..e], RunEnd(s, 1, IsAmountChar))
  {
    var a := RunEnd(s, 1, IsAmountChar);
    var e := if a < |s| && s[a] == '.' then RunEnd(s, a + 1, IsDigit) else a;
    assert forall q :: 0 <= q < e ==> s[..e][q] == s[q];
    e
  }

  /** The greedy match of the pattern anchored at the start of `s`. Every
      part after `[\d,]+` may match empty, so the first greedy attempt is
      the one Python's backtracking matcher returns. */
  function PriceMatchAt(s: string): (r: Option<string>)
    ensures r.Some? <==> PriceStartsAt(s, 0)
    ensures r.Some? ==> OccursAt(s, r.value, 0) && IsPriceToken(r.value)
  {
    if PriceStartsAt(s, 0) then
      var m := s[..MatchEnd(s)];
      assert SplitsAsPrice(m, RunEnd(s, 1, IsAmountChar));
      assert OccursAt(s, m, 0);
      Some(m)
    else None
  }

  /** No token of the pattern at the start of `u` is longer than the greedy
      match: its `[\d,]+` part cannot run past the greedy run, and a dot
      can follow only where that run stops. */
  lemma AnchoredMatchIsLongest(u: string)
    requires PriceStartsAt(u, 0)
    ensures IsLongestPriceAt(u, PriceMatchAt(u).value, 0)
  {
    var a := RunEnd(u, 1, IsAmountChar);
    var e := MatchEnd(u);
    assert |PriceMatchAt(u).value| == e;
    forall t | IsPriceToken(t) && OccursAt(u, t, 0)
      ensures |t| <= e
    {
      var k :| SplitsAsPrice(t, k);
      assert forall q :: 0 <= q < |t| ==> t[q] == u[q];
      assert k <= a;
      if forall q :: k <= q < |t| ==> IsDigit(t[q]) {
        assert |t| <= a;
      } else {
        assert k == a && u[a] == '.';
        assert |t| <= e;
      }
    }
  }

  /** A leftmost longest match in `s[1..]` is one in `s` when no match can
      begin at index 0. */
  lemma LeftmostPriceOfTail(s: string, m: string)
    requires |s| > 0 && !PriceStartsAt(s, 0) && IsLeftmostPrice(s[1..], m)
    ensures IsLeftmostPrice(s, m)
  {
    var t := s[1..];
    var i :| IsLeftmostPriceAt(t, m, i);
    assert PriceStartsAt(s, i + 1) by { assert s[i + 1] == t[i] && s[i + 2] == t[i + 1]; }
    assert OccursAt(s, m, i + 1) by {
      assert forall q :: i + 1 <= q < i + 1 + |m| ==> s[q] == t[q - 1];
    }
    forall j | 0 <= j < i + 1
      ensures !PriceStartsAt(s, j)
    {
      if j > 0 {
        assert !PriceStartsAt(t, j - 1);
      }
    }
    LongestPriceOfTail(s, m, i);
    assert IsLeftmostPriceAt(s, m, i + 1);
  }

  lemma LongestPriceOfTail(s: string, m: string, i: int)
    requires |s| > 0 && 0 <= i && IsLongestPriceAt(s[1..], m, i)
    ensures IsLongestPriceAt(s, m, i + 1)
  {
    forall tok | IsPriceToken(tok) && OccursAt(s, tok, i + 1)
      ensures |tok| <= |m|
    {
      assert OccursAt(s[1..], tok, i) by {
        assert forall q :: i + 1 <= q < i + 1 + |tok| ==> s[q] == s[1..][q - 1];
      }
    }
  }

  /** `re.search(r'\$[\d,]+\.?\d*', s)`: the first position where the
      anchored match succeeds. */
  function PriceSearch(s: string): (r: Option<string>)
    ensures r.Some? <==> exists i :: PriceStartsAt(s, i)
    ensures r.Some? ==> IsLeftmostPrice(s, r.value)
    decreases |s|
  {
    if |s| == 0 then None
    else
      var here := PriceMatchAt(s);
      if here.Some? then
        assert IsLeftmostPrice(s, here.value) by {
          AnchoredMatchIsLongest(s);
          assert IsLeftmostPriceAt(s, here.value, 0);
        }
        here
      else
        var t := s[1..];
        var r := PriceSearch(t);
        assert forall i :: PriceStartsAt(t, i) <==> PriceStartsAt(s, i + 1);
        assert r.Some? <==> exists i :: PriceStartsAt(s, i) by {
          if r.Some? {
            var i :| PriceStartsAt(t, i);
            assert PriceStartsAt(s, i + 1);
          }
          if exists i :: PriceStartsAt(s, i) {
            var i :| PriceStartsAt(s, i);
            assert i != 0;
            assert PriceStartsAt(t, i - 1);
          }
        }
        if r.Some? then
          var m := r.value;
          LeftmostPriceOfTail(s, m);
          r
        else r
  }

  /** Some match of the price pattern occurs in `s`. */
  ghost predicate HasPrice(s: string) {
    exists i :: PriceStartsAt(s, i)
  }

  /** `clean_price(price_text)` for a text argument: "N/A" for an empty or
      "N/A" argument; otherwise the leftmost price match in the stripped
      text, or the stripped text itself when there is no match. */
  function CleanPrice(text: string): (r: string)
    ensures text == "" || text == NA ==> r == NA
    ensures text != "" && text != NA && HasPrice(Strip(text)) ==> IsLeftmostPrice(Strip(text), r)
    ensures text != "" && text != NA && !HasPrice(Strip(text)) ==> r == Strip(text)
  {
    if text == "" || text == NA then NA
    else
      var stripped := Strip(text);
      match PriceSearch(stripped)
      case Some(m) => m
      case None => stripped
  }

  /** The three shapes a `clean_price` result can take: "N/A", a token of
      the price pattern, or stripped text in which no price occurs. */
  ghost predicate IsCleanedPrice(p: string) {
    p == NA || IsPriceToken(p) || (!HasPrice(p) && Strip(p) == p)
  }

  lemma CleanPriceShape(text: string)
    ensures IsCleanedPrice(CleanPrice(text))
  {
    if text != "" && text != NA && !HasPrice(Strip(text)) {
      StripIdempotent(text);
    }
  }

  /** Whitespace-only text is not mapped to "N/A": it comes back empty. */
  lemma CleanPriceOfWhitespace(text: string)
    requires text != "" && AllWhitespace(text)
    ensures CleanPrice(text) == ""
  {
    assert !HasPrice(Strip(text));
  }

  /** A maximal run of `p` in `u` stays maximal in a prefix `v` of `u` that
      contains the whole run. */
  lemma {:induction false} RunEndOfPrefix(u: string, v: string, i: nat, p: char -> bool)
    requires i <= |v| <= |u| && v == u[..|v|]
    requires RunEnd(u, i, p) <= |v|
    ensures RunEnd(v, i, p) == RunEnd(u, i, p)
    decreases |v| - i
  {
    if i < |v| {
      assert v[i] == u[i];
      if p(v[i]) {
        RunEndOfPrefix(u, v, i + 1, p);
      }
    }
  }

  /** Matching the pattern again on its own match returns all of it: the
      greedy runs stop exactly where the match ends. */
  lemma AnchoredMatchIsFixedPoint(u: string)
    requires PriceStartsAt(u, 0)
    ensures PriceMatchAt(PriceMatchAt(u).value) == PriceMatchAt(u)
  {
    var e := MatchEnd(u);
    var m := u[..e];
    var a := RunEnd(u, 1, IsAmountChar);
    assert PriceStartsAt(m, 0);
    RunEndOfPrefix(u, m, 1, IsAmountChar);
    if a < |u| && u[a] == '.' {
      assert m[a] == '.';
      RunEndOfPrefix(u, m, a + 1, IsDigit);
    }
    assert MatchEnd(m) == e;
    assert m[..e] == m;
  }

  /** A price match starts with `$` and ends with a digit, a comma or a dot,
      so stripping leaves it alone. */
  lemma AnchoredMatchIsTrimmed(u: string)
    requires PriceStartsAt(u, 0)
    ensures var m := PriceMatchAt(u).value; |m| >= 2 && m[0] == '$' && Strip(m) == m
  {
    var e := MatchEnd(u);
    var m := u[..e];
    var a := RunEnd(u, 1, IsAmountChar);
    assert IsAmountChar(m[a - 1]);
    if e > a + 1 {
      assert IsDigit(m[e - 1]);
    } else if e == a + 1 {
      assert m[e - 1] == '.';
    }
    StripOfTrimmed(m);
  }

  /** A price match is cleaned to itself: it is not "N/A", stripping
      leaves it alone, and the pattern matches all of it. */
  lemma CleanPriceOfMatch(text: string)
    requires text != "" && text != NA && HasPrice(Strip(text))
    ensures CleanPrice(CleanPrice(text)) == CleanPrice(text)
  {
    var st := Strip(text);
    var m := CleanPrice(text);
    assert m == PriceSearch(st).value;
    var i :| IsLeftmostPriceAt(st, m, i);
    LeftmostMatchIsAnchored(st, i);
    var u := st[i..];
    assert PriceStartsAt(u, 0);
    AnchoredMatchIsTrimmed(u);
    AnchoredMatchIsFixedPoint(u);
    assert m != NA;
  }

  /** Text without a price is cleaned to its strip, which cleans to itself. */
  lemma CleanPriceOfUnmatched(text: string)
    requires Strip(text) != "" && text != NA && !HasPrice(Strip(text))
    ensures CleanPrice(CleanPrice(text)) == CleanPrice(text)
  {
    var st := Strip(text);
    StripIdempotent(text);
    assert CleanPrice(text) == st;
  }

  /** `clean_price` is idempotent on every text whose strip is non-empty:
      cleaning a cleaned price changes nothing. (On whitespace-only text the
      first call gives "" and the second "N/A".) */
  lemma CleanPriceIdempotent(text: string)
    requires Strip(text) != ""
    ensures CleanPrice(CleanPrice(text)) == CleanPrice(text)
  {
    if text == NA {
      assert CleanPrice(text) == NA;
    } else if HasPrice(Strip(text)) {
      CleanPriceOfMatch(text);
    } else {
      CleanPriceOfUnmatched(text);
    }
  }

  /** `PriceSearch` returns the anchored match at the leftmost start index. */
  lemma {:induction false} LeftmostMatchIsAnchored(s: string, i: int)
    requires PriceStartsAt(s, i)
    requires forall j :: 0 <= j < i ==> !PriceStartsAt(s, j)
    ensures PriceSearch(s) == PriceMatchAt(s[i..])
    decreases i
  {
    if i == 0 {
      assert s[0..] == s;
    } else {
      assert !PriceStartsAt(s, 0);
      assert PriceMatchAt(s).None?;
      var t := s[1..];
      assert PriceStartsAt(t, i - 1);
      forall j | 0 <= j < i - 1 ensures !PriceStartsAt(t, j) {
        assert !PriceStartsAt(s, j + 1);
      }
      LeftmostMatchIsAnchored(t, i - 1);
      assert t[i - 1..] == s[i..];
    }
  }

  // ---------------------------------------------------------------------
  // safe_extract_text
  // ---------------------------------------------------------------------

  /** A located page element: readable text, or one whose `.text` raises. */
  datatype Element = Element(text: string) | Unreadable

  /** `safe_extract_text(element, default)`: the stripped text of a present,
      readable element, and `default` otherwise. */
  function SafeExtractText(e: Option<Element>, default: string): (r: string)
    ensures e.None? || e.value.Unreadable? ==> r == default
    ensures e.Some? && e.value.Element? ==>
              r == Strip(e.value.text) && (r == "" || (!IsWhitespace(r[0]) && !IsWhitespace(r[|r| - 1])))
  {
    match e
    case Some(Element(t)) => Strip(t)
    case _ => default
  }

  // ---------------------------------------------------------------------
  // make_request
  // ---------------------------------------------------------------------

  /** What one `requests.get` attempt produced: a response with a status code
      and a body, or an exception (timeout, connection error, other). */
  datatype Attempt<P> = Reply(status: int, body: P) | Raised

  /** 200 and 404 end the loop; everything else goes round again. */
  predicate IsFinal<P>(a: Attempt<P>) {
    a.Reply? && (a.status == 200 || a.status == 404)
  }

  predicate IsOk<P>(a: Attempt<P>) {
    a.Reply? && a.status == 200
  }

  predicate IsRateLimited<P>(a: Attempt<P>) {
    a.Reply? && a.status == 429
  }

  /** The sleeps that followed one attempt: the rate-limit wait in seconds
      (0 when there was none) and whether the random 2-4 s back-off ran. */
  datatype Step = Step(rateLimitWait: nat, backoff: bool)

  /** The response `make_request` returned (None for its `return None`) and
      one `Step` per GET attempt it made. */
  datatype Fetched<P> = Fetched(response: Option<P>, steps: seq<Step>)

  /** Attempts `k`, `k + 1`, ... of the `for attempt in range(maxRetries)` loop. */
  function RetryFrom<P>(outcomes: Feed<Attempt<P>>, maxRetries: int, k: nat): Fetched<P>
    decreases maxRetries - k
  {
    if k >= maxRetries then Fetched(None, [])
    else
      var o := outcomes.At(k);
      if IsOk(o) then Fetched(Some(o.body), [Step(0, false)])
      else if IsFinal(o) then Fetched(None, [Step(0, false)])
      else
        var step := Step(if IsRateLimited(o) then (k + 1) * 5 else 0, k < maxRetries - 1);
        var rest := RetryFrom(outcomes, maxRetries, k + 1);
        Fetched(rest.response, [step] + rest.steps)
  }

  /** What the attempts from `k` on do, stated attempt by attempt: the loop
      stops early only at a 200 or a 404, returns a body only for a 200,
      sleeps (a+1)*5 s after a 429 on attempt a, and backs off after every
      non-final attempt but the last. */
  lemma {:induction false} RetryFromSpec<P>(outcomes: Feed<Attempt<P>>, maxRetries: int, k: nat)
    ensures var r := RetryFrom(outcomes, maxRetries, k);
      && (k >= maxRetries ==> r == Fetched(None, []))
      && (k < maxRetries ==> 1 <= |r.steps| <= maxRetries - k)
      && (forall a: nat :: k <= a < k + |r.steps| - 1 ==> !IsFinal(outcomes.At(a)))
      && (0 < |r.steps| < maxRetries - k ==> IsFinal(outcomes.At(k + |r.steps| - 1)))
      && (r.response.Some? <==> |r.steps| > 0 && IsOk(outcomes.At(k + |r.steps| - 1)))
      && (r.response.Some? ==> r.response.value == outcomes.At(k + |r.steps| - 1).body)
      && (forall j :: 0 <= j < |r.steps| ==>
            r.steps[j].rateLimitWait == (if IsRateLimited(outcomes.At(k + j)) then (k + j + 1) * 5 else 0))
      && (forall j :: 0 <= j < |r.steps| ==>
            (r.steps[j].backoff <==> k + j < maxRetries - 1 && !IsFinal(outcomes.At(k + j))))
    decreases maxRetries - k
  {
    if k < maxRetries && !IsFinal(outcomes.At(k)) {
      RetryFromSpec(outcomes, maxRetries, k + 1);
      var r := RetryFrom(outcomes, maxRetries, k);
      var rest := RetryFrom(outcomes, maxRetries, k + 1);
      assert r.steps == [r.steps[0]] + rest.steps;
      assert forall j :: 1 <= j < |r.steps| ==> r.steps[j] == rest.steps[j - 1];
    }
  }

  /** `make_request(url, max_retries)` with the outcome of each GET attempt
      read from `outcomes`. At most `maxRetries` attempts (none when it is
      0 or less); the first 200 returns its body, a 404 returns None at
      once, a 429 on attempt k sleeps (k+1)*5 s, and the random back-off
      follows every non-final attempt except the last. */
  function MakeRequest<P>(outcomes: Feed<Attempt<P>>, maxRetries: int): (r: Fetched<P>)
    ensures maxRetries <= 0 ==> r == Fetched(None, [])
    ensures maxRetries > 0 ==> 1 <= |r.steps| <= maxRetries
    ensures forall j: nat :: j < |r.steps| - 1 ==> !IsFinal(outcomes.At(j))
    ensures 0 < |r.steps| < maxRetries ==> IsFinal(outcomes.At(|r.steps| - 1))
    ensures r.response.Some? <==> |r.steps| > 0 && IsOk(outcomes.At(|r.steps| - 1))
    ensures r.response.Some? ==> r.response.value == outcomes.At(|r.steps| - 1).body
    ensures forall j :: 0 <= j < |r.steps| ==>
              r.steps[j].rateLimitWait == (if IsRateLimited(outcomes.At(j)) then (j + 1) * 5 else 0)
    ensures forall j :: 0 <= j < |r.steps| ==>
              (r.steps[j].backoff <==> j < maxRetries - 1 && !IsFinal(outcomes.At(j)))
  {
    RetryFromSpec(outcomes, maxRetries, 0);
    RetryFrom(outcomes, maxRetries, 0)
  }

  /** The response is returned iff some attempt within the budget answered 200
      and no earlier attempt answered 200 or 404. */
  lemma MakeRequestSucceedsIff<P>(outcomes: Feed<Attempt<P>>, maxRetries: int)
    ensures MakeRequest(outcomes, maxRetries).response.Some? <==>
              exists k: nat :: k < maxRetries && IsOk(outcomes.At(k))
                               && forall j: nat :: j < k ==> !IsFinal(outcomes.At(j))
  {
    var r := MakeRequest(outcomes, maxRetries);
    var n := |r.steps|;
    if r.response.Some? {
      assert IsOk(outcomes.At(n - 1));
    }
    if exists k: nat :: k < maxRetries && IsOk(outcomes.At(k))
                        && forall j: nat :: j < k ==> !IsFinal(outcomes.At(j)) {
      var k: nat :| k < maxRetries && IsOk(outcomes.At(k))
                    && forall j: nat :: j < k ==> !IsFinal(outcomes.At(j));
      assert n - 1 == k;
    }
  }

  /** The loop of the source, statement by statement: the same response and
      the same sleeps as `MakeRequest`. */
  method MakeRequestLoop<P>(outcomes: Feed<Attempt<P>>, maxRetries: int) returns (response: Option<P>, steps: seq<Step>)
    ensures Fetched(response, steps) == MakeRequest(outcomes, maxRetries)
  {
    steps := [];
    var attempt: nat := 0;
    while attempt < maxRetries
      invariant RetryFrom(outcomes, maxRetries, 0).response == RetryFrom(outcomes, maxRetries, attempt).response
      invariant RetryFrom(outcomes, maxRetries, 0).steps == steps + RetryFrom(outcomes, maxRetries, attempt).steps
      decreases maxRetries - attempt
    {
      var o := outcomes.At(attempt);
      if o.Reply? && o.status == 200 {
        response := Some(o.body);
        steps := steps + [Step(0, false)];
        return;
      } else if o.Reply? && o.status == 404 {
        response := None;
        steps := steps + [Step(0, false)];
        return;
      }
      var wait := if o.Reply? && o.status == 429 then (attempt + 1) * 5 else 0;
      var backoff := attempt < maxRetries - 1;
      steps := steps + [Step(wait, backoff)];
      attempt := attempt + 1;
    }
    response := None;
  }
}
