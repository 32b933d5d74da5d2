/**
 * The table fill of `nussinov_algorithm` (flask-server/nussinov_algorithm.py): an n x n
 * table of zeros filled bottom-up, sub-sequence length in the outer loop and start index
 * in the inner loop, each cell the largest of the four candidates.
 */
module TableFill {
  import opened Recurrence

  /** The table as the list of rows the algorithm returns. */
  type Table = seq<seq<int>>

  /** n rows of n cells each. */
  predicate IsSquare(t: Table, n: int)
  {
    |t| == n && forall r :: 0 <= r < n ==> |t[r]| == n
  }

  /** The rows of an n x n array: `dp` as a list of lists. */
  function Rows(dp: array2<int>): (t: Table)
    reads dp
    requires dp.Length0 == dp.Length1
    ensures IsSquare(t, dp.Length0)
    ensures forall i, j :: 0 <= i < dp.Length0 && 0 <= j < dp.Length1 ==> t[i][j] == dp[i, j]
  {
    seq(dp.Length0, i requires 0 <= i < dp.Length0 reads dp =>
      seq(dp.Length1, j requires 0 <= j < dp.Length1 reads dp => dp[i, j]))
  }

  /** t is the n x n table of s and every cell holds the recurrence's value (0 on and
      below the diagonal, which the fill never writes). */
  ghost predicate Filled(t: Table, s: string)
  {
    IsSquare(t, |s|) &&
    forall i, j :: 0 <= i < |s| && 0 <= j < |s| ==> t[i][j] == Opt(s, i, j)
  }

  /** The bifurcation generator read off the table: the largest dp[i][k] + dp[k + 1][j]
      over the split points i <= k < m. */
  function TableBifurcation(dp: array2<int>, i: int, j: int, m: int): (r: int)
    reads dp
    requires dp.Length0 == dp.Length1
    requires 0 <= i < m <= j < dp.Length0
    ensures forall k :: i <= k < m ==> dp[i, k] + dp[k + 1, j] <= r
    ensures exists k :: i <= k < m && r == dp[i, k] + dp[k + 1, j]
    decreases m
  {
    var here := dp[i, m - 1] + dp[m, j];
    if m == i + 1 then here else Max(TableBifurcation(dp, i, j, m - 1), here)
  }

  /** Once every shorter range of the table holds its optimum, the table's bifurcation
      candidate is the recurrence's. */
  lemma {:induction false} TableBifurcationAgrees(dp: array2<int>, s: string, i: int, j: int, m: int)
    requires dp.Length0 == |s| && dp.Length1 == |s|
    requires 0 <= i < m <= j < |s|
    requires forall a, b :: 0 <= a < |s| && 0 <= b < |s| && b - a < j - i ==> dp[a, b] == Opt(s, a, b)
    ensures TableBifurcation(dp, i, j, m) == Bifurcation(s, i, j, m)
    decreases m
  {
    if m > i + 1 {
      TableBifurcationAgrees(dp, s, i, j, m - 1);
    }
  }

  /** The shape every filled table has: zero on and below the diagonal and on every range
      too short for a hairpin, never negative, and monotone along rows and columns. */
  lemma FilledTableShape(t: Table, s: string)
    requires Filled(t, s)
    ensures forall i, j :: 0 <= j <= i < |s| ==> t[i][j] == 0
    ensures forall i, j :: 0 <= i < |s| && 0 <= j < |s| ==> t[i][j] >= 0
    ensures forall i, j, i', j' :: 0 <= i <= i' < |s| && 0 <= j' <= j < |s| ==> t[i'][j'] <= t[i][j]
    ensures forall i, j :: 0 <= i <= j < |s| && j - i <= MinLoopLength ==> t[i][j] == 0
  {
    forall i, j, i', j' | 0 <= i <= i' < |s| && 0 <= j' <= j < |s|
      ensures t[i'][j'] <= t[i][j]
    {
      OptMonotone(s, i, j, i', j');
    }
    forall i, j | 0 <= i <= j < |s| && j - i <= MinLoopLength
      ensures t[i][j] == 0
    {
      ShortRangeIsZero(s, i, j);
    }
  }

  /** The value the fill writes into dp[i][j] once every shorter range holds its optimum. */
  lemma CellIsOptimal(dp: array2<int>, s: string, i: int, j: int)
    requires dp.Length0 == |s| && dp.Length1 == |s|
    requires 0 <= i < j < |s|
    requires forall a, b :: 0 <= a < |s| && 0 <= b < |s| && b - a < j - i ==> dp[a, b] == Opt(s, a, b)
    ensures Max4(dp[i + 1, j], dp[i, j - 1], dp[i + 1, j - 1] + PairBonus(s, i, j),
                 TableBifurcation(dp, i, j, j)) == Opt(s, i, j)
  {
    TableBifurcationAgrees(dp, s, i, j, j);
  }

  /** The fill: every cell ends up holding the recurrence's optimum for its range. */
  method Fill(s: string) returns (dp: array2<int>)
    ensures fresh(dp)
    ensures dp.Length0 == |s| && dp.Length1 == |s|
    ensures forall i, j :: 0 <= i < |s| && 0 <= j < |s| ==> dp[i, j] == Opt(s, i, j)
  {
    var n := |s|;
    dp := new int[n, n]((_, _) => 0);
    var length := 1;
    while length < n
      invariant dp.Length0 == n && dp.Length1 == n
      invariant 1 <= length
      invariant forall a, b :: 0 <= a < n && 0 <= b < n ==>
        dp[a, b] == if b - a < length then Opt(s, a, b) else 0
    {
      var i := 0;
      while i < n - length
        invariant 0 <= i <= n - length
        invariant forall a, b :: 0 <= a < n && 0 <= b < n ==>
          dp[a, b] == if b - a < length || (b - a == length && a < i) then Opt(s, a, b) else 0
      {
        var j := i + length;
        var unpairedI := dp[i + 1, j];
        var unpairedJ := dp[i, j - 1];
        var pairIJ := dp[i + 1, j - 1] + PairBonus(s, i, j);
        var bifurcation := TableBifurcation(dp, i, j, j);
        CellIsOptimal(dp, s, i, j);
        dp[i, j] := Max4(unpairedI, unpairedJ, pairIJ, bifurcation);
        i := i + 1;
      }
      length := length + 1;
    }
  }
}
