/** Small value types shared by every other module: optional values, results,
    feeds of environment observations, and a few sequence helpers. */
module Wrappers {

  /** Python's `None`-or-value, as used for "element found / not found". */
  datatype Option<+T> = None | Some(value: T)

  /** A value or the error the source would raise instead. */
  datatype Result<+R, +E> = Success(value: R) | Failure(error: E)

  /** An infinite series of observations that is eventually constant: the listed
      `prefix` first, then `rest` forever. Retry loops and polling loops read
      their i-th observation from a feed, so a loop of any length is defined. */
  datatype Feed<T> = Feed(prefix: seq<T>, rest: T) {
    function At(k: nat): T {
      if k < |prefix| then prefix[k] else rest
    }
  }

  /** The first element of `xs` satisfying `p`, the way a Python `for` loop
      with `break` or `soup.find` picks it. */
  function FirstWhere<T(==)>(xs: seq<T>, p: T -> bool): (r: Option<T>)
    ensures r.None? <==> forall i :: 0 <= i < |xs| ==> !p(xs[i])
    ensures r.Some? ==> exists i :: 0 <= i < |xs| && xs[i] == r.value && p(xs[i])
                                    && forall j :: 0 <= j < i ==> !p(xs[j])
  {
    if |xs| == 0 then None
    else if p(xs[0]) then Some(xs[0])
    else
      var r := FirstWhere(xs[1..], p);
      assert forall i :: 1 <= i < |xs| ==> xs[i] == xs[1..][i - 1];
      if r.Some? then
        var i :| 0 <= i < |xs[1..]| && xs[1..][i] == r.value && p(xs[1..][i])
                 && forall j :: 0 <= j < i ==> !p(xs[1..][j]);
        assert xs[i + 1] == r.value;
        r
      else r
  }

  /** Searching a concatenation searches the left part first. */
  lemma {:induction false} FirstWhereAppend<T>(xs: seq<T>, ys: seq<T>, p: T -> bool)
    ensures FirstWhere(xs + ys, p) == if FirstWhere(xs, p).Some? then FirstWhere(xs, p) else FirstWhere(ys, p)
  {
    if |xs| > 0 {
      assert (xs + ys)[0] == xs[0];
      assert (xs + ys)[1..] == xs[1..] + ys;
      FirstWhereAppend(xs[1..], ys, p);
    } else {
      assert xs + ys == ys;
    }
  }

  /** Concatenation of a list of lists, in order (Python's repeated `extend`). */
  function Flatten<T>(xss: seq<seq<T>>): (r: seq<T>)
  {
    if |xss| == 0 then [] else xss[0] + Flatten(xss[1..])
  }

  /** The number of elements of `xs` satisfying `p`. */
  function CountWhere<T>(xs: seq<T>, p: T -> bool): nat
  {
    if |xs| == 0 then 0 else (if p(xs[0]) then 1 else 0) + CountWhere(xs[1..], p)
  }

  lemma {:induction false} CountWhereAtMostLength<T>(xs: seq<T>, p: T -> bool)
    ensures CountWhere(xs, p) <= |xs|
  {
    if |xs| > 0 {
      CountWhereAtMostLength(xs[1..], p);
    }
  }

  /** No element occurs twice. */
  predicate NoDuplicates<T(==)>(xs: seq<T>) {
    forall i, j :: 0 <= i < j < |xs| ==> xs[i] != xs[j]
  }
}
