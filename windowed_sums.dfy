/** The running sums a frequency table keeps, as explicit sums over the
    samples pushed so far. A table of S reference values is read
    periodically: sample j is paired with table[j mod S]. */
module WindowedSums {

  /** First sample index still inside a window of width w after k pushes;
      a width of 0 or less means the window never evicts. */
  function WindowStart(k: nat, w: int): nat
  {
    if w > 0 && k > w then k - w else 0
  }

  /** Sum over j in [lo, hi) of table[j mod |table|] * xs[j]. */
  function WindowedSum(table: seq<real>, xs: seq<real>, lo: nat, hi: nat): real
    requires |table| > 0 && lo <= hi <= |xs|
    decreases hi - lo
  {
    if lo == hi then 0.0
    else WindowedSum(table, xs, lo, hi - 1) + table[(hi - 1) % |table|] * xs[hi - 1]
  }

  /** Sum over j in [lo, hi) of table[j mod |table|] squared: the norm the
      correlation is divided by. */
  function WindowedNorm(table: seq<real>, lo: nat, hi: nat): (r: real)
    requires |table| > 0 && lo <= hi
    ensures r >= 0.0
    decreases hi - lo
  {
    if lo == hi then 0.0
    else WindowedNorm(table, lo, hi - 1) + table[(hi - 1) % |table|] * table[(hi - 1) % |table|]
  }

  /** Pushing more samples does not change a sum over earlier ones. */
  lemma {:induction false} WindowedSumPrefix(table: seq<real>, xs: seq<real>, ys: seq<real>, lo: nat, hi: nat)
    requires |table| > 0 && lo <= hi <= |xs|
    ensures WindowedSum(table, xs + ys, lo, hi) == WindowedSum(table, xs, lo, hi)
    decreases hi - lo
  {
    if lo < hi {
      WindowedSumPrefix(table, xs, ys, lo, hi - 1);
      assert (xs + ys)[hi - 1] == xs[hi - 1];
    }
  }

  /** Splitting off the oldest term of a windowed sum. */
  lemma {:induction false} WindowedSumDropFirst(table: seq<real>, xs: seq<real>, lo: nat, hi: nat)
    requires |table| > 0 && lo < hi <= |xs|
    ensures WindowedSum(table, xs, lo, hi)
         == table[lo % |table|] * xs[lo] + WindowedSum(table, xs, lo + 1, hi)
    decreases hi - lo
  {
    if lo + 1 < hi {
      WindowedSumDropFirst(table, xs, lo, hi - 1);
    }
  }

  /** Splitting off the oldest term of a windowed norm. */
  lemma {:induction false} WindowedNormDropFirst(table: seq<real>, lo: nat, hi: nat)
    requires |table| > 0 && lo < hi
    ensures WindowedNorm(table, lo, hi)
         == table[lo % |table|] * table[lo % |table|] + WindowedNorm(table, lo + 1, hi)
    decreases hi - lo
  {
    if lo + 1 < hi {
      WindowedNormDropFirst(table, lo, hi - 1);
    }
  }

  /** A full window: the newest sample enters, sample k - w leaves. */
  lemma SlideEvicting(table: seq<real>, xs: seq<real>, x: real, w: int)
    requires |table| > 0 && w > 0 && |xs| >= w
    ensures var k := |xs|;
      WindowedSum(table, xs + [x], WindowStart(k + 1, w), k + 1)
        == WindowedSum(table, xs, WindowStart(k, w), k) + table[k % |table|] * x
           - table[(k - w) % |table|] * xs[k - w]
  {
    var k := |xs|;
    AppendTerm(table, xs, x, WindowStart(k + 1, w));
    WindowedSumDropFirst(table, xs, k - w, k);
  }

  /** A window still filling up (or unbounded): the newest sample enters. */
  lemma SlideFilling(table: seq<real>, xs: seq<real>, x: real, w: int)
    requires |table| > 0 && !(w > 0 && |xs| >= w)
    ensures var k := |xs|;
      WindowedSum(table, xs + [x], WindowStart(k + 1, w), k + 1)
        == WindowedSum(table, xs, WindowStart(k, w), k) + table[k % |table|] * x
  {
    AppendTerm(table, xs, x, WindowStart(|xs| + 1, w));
  }

  /** The sum up to a newly pushed sample gains that sample's term. */
  lemma AppendTerm(table: seq<real>, xs: seq<real>, x: real, lo: nat)
    requires |table| > 0 && lo <= |xs|
    ensures WindowedSum(table, xs + [x], lo, |xs| + 1)
         == WindowedSum(table, xs, lo, |xs|) + table[|xs| % |table|] * x
  {
    assert (xs + [x])[|xs|] == x;
    WindowedSumPrefix(table, xs, [x], lo, |xs|);
  }

  /** The norm slides the same way as the correlation. */
  lemma SlideWindowedNorm(table: seq<real>, k: nat, w: int)
    requires |table| > 0
    ensures WindowedNorm(table, WindowStart(k + 1, w), k + 1)
         == WindowedNorm(table, WindowStart(k, w), k) + table[k % |table|] * table[k % |table|]
            - (if w > 0 && k >= w then table[(k - w) % |table|] * table[(k - w) % |table|] else 0.0)
  {
    if w > 0 && k >= w {
      WindowedNormDropFirst(table, k - w, k);
    }
  }
}
