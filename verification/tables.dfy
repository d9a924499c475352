/**
 * The two query shapes the booking store uses: `findMany` with a `where`
 * filter (Filter, keeping table order) and `findFirst` with a `where`
 * filter (FirstWhere), over a table held as a sequence of rows.
 */
module Tables {
  import opened Outcomes

  /** The rows of `xs` that satisfy `p`, in table order. */
  function Filter<T>(xs: seq<T>, p: T -> bool): (r: seq<T>)
    ensures |r| <= |xs|
    ensures forall i | 0 <= i < |r| :: r[i] in xs && p(r[i])
    ensures forall i | 0 <= i < |xs| && p(xs[i]) :: xs[i] in r
  {
    if xs == [] then []
    else
      var init := xs[..|xs| - 1];
      var last := xs[|xs| - 1];
      assert xs == init + [last];
      Filter(init, p) + (if p(last) then [last] else [])
  }

  /** The positions of the rows of `xs` that satisfy `p`. */
  ghost function Matching<T>(xs: seq<T>, p: T -> bool): (positions: set<nat>)
  {
    set i: nat | i < |xs| && p(xs[i])
  }

  /** Filter keeps one row per matching position: its length is the number of matches. */
  lemma {:induction false} FilterCountsMatches<T>(xs: seq<T>, p: T -> bool)
    ensures |Filter(xs, p)| == |Matching(xs, p)|
  {
    if xs != [] {
      var n := |xs| - 1;
      var init := xs[..n];
      FilterCountsMatches(init, p);
      if p(xs[n]) {
        assert Matching(xs, p) == Matching(init, p) + {n};
        assert n !in Matching(init, p);
      } else {
        assert Matching(xs, p) == Matching(init, p);
      }
    }
  }

  /** Appending a row adds one to the count exactly when the row matches. */
  lemma FilterAppend<T>(xs: seq<T>, x: T, p: T -> bool)
    ensures |Filter(xs + [x], p)| == |Filter(xs, p)| + (if p(x) then 1 else 0)
  {
    assert (xs + [x])[..|xs|] == xs;
  }

  /**
   * Replacing the row at position k changes the count by at most the old
   * row leaving and the new row arriving.
   */
  lemma {:induction false} FilterReplace<T>(xs: seq<T>, k: nat, x: T, p: T -> bool)
    requires k < |xs|
    ensures |Filter(xs[k := x], p)| + (if p(xs[k]) then 1 else 0)
         == |Filter(xs, p)| + (if p(x) then 1 else 0)
  {
    var n := |xs| - 1;
    var ys := xs[k := x];
    assert ys[..n] == if k == n then xs[..n] else xs[..n][k := x];
    if k < n {
      FilterReplace(xs[..n], k, x, p);
    }
  }

  /** The first row of `xs` that satisfies `p`, or None when no row does. */
  function FirstWhere<T>(xs: seq<T>, p: T -> bool): (r: Option<T>)
    ensures r.None? <==> forall i | 0 <= i < |xs| :: !p(xs[i])
    ensures r.Some? ==> exists i | 0 <= i < |xs| :: xs[i] == r.value && p(xs[i]) && forall j | 0 <= j < i :: !p(xs[j])
  {
    if xs == [] then None
    else if p(xs[0]) then Some(xs[0])
    else
      var r := FirstWhere(xs[1..], p);
      assert forall i | 0 < i < |xs| :: xs[i] == xs[1..][i - 1];
      r
  }
}
