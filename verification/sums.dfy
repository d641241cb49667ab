/** Finite sums of reals, accumulated left to right the way the matrix
    product loop accumulates `sum += left[i, k] * right[k, j]`. */
module Sums {

  function Total(s: seq<real>): real
  {
    if |s| == 0 then 0.0 else Total(s[..|s| - 1]) + s[|s| - 1]
  }

  /** Summing a point-wise sum is summing each part. */
  lemma {:induction false} TotalAdd(a: seq<real>, b: seq<real>, c: seq<real>)
    requires |a| == |b| == |c|
    requires forall k :: 0 <= k < |c| ==> c[k] == a[k] + b[k]
    ensures Total(c) == Total(a) + Total(b)
  {
    if |c| > 0 {
      var n := |c| - 1;
      TotalAdd(a[..n], b[..n], c[..n]);
    }
  }

  /** A common factor can be taken out of a sum. */
  lemma {:induction false} TotalScale(a: seq<real>, x: real, c: seq<real>)
    requires |a| == |c|
    requires forall k :: 0 <= k < |c| ==> c[k] == x * a[k]
    ensures Total(c) == x * Total(a)
  {
    if |c| > 0 {
      var n := |c| - 1;
      TotalScale(a[..n], x, c[..n]);
    }
  }

  /** A sum whose terms are all zero except the one at `p` is that term. */
  lemma {:induction false} TotalSingle(s: seq<real>, p: nat)
    requires p < |s|
    requires forall k :: 0 <= k < |s| && k != p ==> s[k] == 0.0
    ensures Total(s) == s[p]
  {
    var n := |s| - 1;
    if p < n {
      TotalSingle(s[..n], p);
    } else {
      TotalZero(s[..n]);
    }
  }

  lemma {:induction false} TotalZero(s: seq<real>)
    requires forall k :: 0 <= k < |s| ==> s[k] == 0.0
    ensures Total(s) == 0.0
  {
    if |s| > 0 {
      TotalZero(s[..|s| - 1]);
    }
  }

  function RowTotals(g: seq<seq<real>>): (r: seq<real>)
    ensures |r| == |g|
  {
    seq(|g|, i requires 0 <= i < |g| => Total(g[i]))
  }

  /** Entry `j` of every row of a table whose rows all have more than `j` entries. */
  function ColumnOf(g: seq<seq<real>>, j: nat): (c: seq<real>)
    requires forall i :: 0 <= i < |g| ==> j < |g[i]|
    ensures |c| == |g| && forall i :: 0 <= i < |g| ==> c[i] == g[i][j]
  {
    seq(|g|, i requires 0 <= i < |g| => g[i][j])
  }

  function ColumnTotals(g: seq<seq<real>>, m: nat): (r: seq<real>)
    requires forall i :: 0 <= i < |g| ==> |g[i]| == m
    ensures |r| == m
  {
    seq(m, j requires 0 <= j < m => Total(ColumnOf(g, j)))
  }

  /** Summing a rectangular table row by row or column by column gives the
      same total: the exchange of summation order behind associativity. */
  lemma {:induction false} TotalSwap(g: seq<seq<real>>, m: nat)
    requires forall i :: 0 <= i < |g| ==> |g[i]| == m
    ensures Total(RowTotals(g)) == Total(ColumnTotals(g, m))
  {
    if |g| == 0 {
      TotalZero(ColumnTotals(g, m));
    } else {
      var n := |g| - 1;
      var front := g[..n];
      TotalSwap(front, m);
      assert RowTotals(g)[..n] == RowTotals(front);
      var cf := ColumnTotals(front, m);
      var cg := ColumnTotals(g, m);
      forall j | 0 <= j < m
        ensures cg[j] == cf[j] + g[n][j]
      {
        assert ColumnOf(g, j)[..n] == ColumnOf(front, j);
      }
      TotalAdd(cf, g[n], cg);
    }
  }

}
