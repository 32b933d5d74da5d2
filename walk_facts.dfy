/**
 * What the backtrace of flask-server/nussinov_algorithm.py produces, stated about its
 * recursive specification Traverse: the shape of the dot-bracket text and of the pairs on
 * any square table, and, on the table the fill leaves, that the walk never gives up and
 * records exactly dp[i][j] base pairs, every one of them a Watson-Crick pair around a
 * loop longer than MinLoopLength.
 */
module WalkFacts {
  import opened Recurrence
  import opened TableFill
  import opened DotBracket
  import opened Traceback

  /** The walk of a range whose first position is left unpaired. */
  lemma {:induction false} SkipIWalk(dp: Table, s: string, i: int, j: int)
    requires IsSquare(dp, |s|)
    requires 0 <= i < j < |s| && Decide(dp, s, i, j).SkipI?
    ensures var v := Traverse(dp, s, i + 1, j);
      Traverse(dp, s, i, j) == Walk([(i, j)] + v.visited, v.pairs, "." + v.brackets)
  {
  }

  /** The walk of a range whose last position is left unpaired. */
  lemma {:induction false} SkipJWalk(dp: Table, s: string, i: int, j: int)
    requires IsSquare(dp, |s|)
    requires 0 <= i < j < |s| && Decide(dp, s, i, j).SkipJ?
    ensures var v := Traverse(dp, s, i, j - 1);
      Traverse(dp, s, i, j) == Walk([(i, j)] + v.visited, v.pairs, v.brackets + ".")
  {
  }

  /** The walk of a range whose ends pair with each other. */
  lemma {:induction false} PairWalk(dp: Table, s: string, i: int, j: int)
    requires IsSquare(dp, |s|)
    requires 0 <= i < j < |s| && Decide(dp, s, i, j).PairEnds?
    ensures var v := Traverse(dp, s, i + 1, j - 1);
      Traverse(dp, s, i, j) == Walk([(i, j)] + v.visited, [(i, j)] + v.pairs, "(" + v.brackets + ")")
  {
  }

  /** The walk of a range split after k. */
  lemma {:induction false} SplitWalk(dp: Table, s: string, i: int, j: int, k: int)
    requires IsSquare(dp, |s|)
    requires 0 <= i < j < |s| && Decide(dp, s, i, j) == Split(k)
    ensures i < k < j
    ensures var l, r := Traverse(dp, s, i, k), Traverse(dp, s, k + 1, j);
      Traverse(dp, s, i, j) == Walk([(i, j)] + l.visited + r.visited, l.pairs + r.pairs, l.brackets + r.brackets)
  {
  }

  /** The walk of a range for which no split point is found: only the range itself. */
  lemma {:induction false} NoSplitWalk(dp: Table, s: string, i: int, j: int)
    requires IsSquare(dp, |s|)
    requires 0 <= i < j < |s| && Decide(dp, s, i, j).NoSplit?
    ensures Traverse(dp, s, i, j) == Walk([(i, j)], [], Dots(j - i + 1))
  {
  }

  /** Every range of ps lies inside i..j, its first position before its second. */
  ghost predicate Within(ps: seq<Range>, i: int, j: int)
  {
    forall p :: p in ps ==> i <= p.0 < p.1 <= j
  }

  /** The dot-bracket text is balanced and holds one '(' and one ')' per recorded pair. */
  ghost predicate WellBracketed(w: Walk)
  {
    Balanced(w.brackets) && Opens(w.brackets) == |w.pairs| && Closes(w.brackets) == |w.pairs|
  }

  /** What the walk of i..j looks like on any table: one character per position, a balanced
      text with one bracket of each kind per recorded pair, and expanded ranges and recorded
      pairs that lie inside i..j, the pairs never crossing each other. */
  ghost predicate Shaped(w: Walk, i: int, j: int)
  {
    |w.brackets| == j - i + 1 && WellBracketed(w) &&
    Within(w.visited, i, j) && Within(w.pairs, i, j) && NonCrossing(w.pairs)
  }

  /** Every walk has that shape. */
  lemma {:induction false} WalkShaped(dp: Table, s: string, i: int, j: int)
    requires IsSquare(dp, |s|)
    requires 0 <= i <= j + 1 <= |s|
    ensures Shaped(Traverse(dp, s, i, j), i, j)
    decreases j - i + 1, 1
  {
    if i >= j {
      EmptyWalk(dp, s, i, j);
      DotsShaped(Traverse(dp, s, i, j), i, j);
    } else {
      var step := Decide(dp, s, i, j);
      if step.SkipI? {
        SkipIShaped(dp, s, i, j);
      } else if step.SkipJ? {
        SkipJShaped(dp, s, i, j);
      } else if step.PairEnds? {
        PairShaped(dp, s, i, j);
      } else if step.Split? {
        var k := step.k;
        SplitWalk(dp, s, i, j, k);
        WalkShaped(dp, s, i, k);
        WalkShaped(dp, s, k + 1, j);
        ShapeBeside(Traverse(dp, s, i, j), Traverse(dp, s, i, k), Traverse(dp, s, k + 1, j), i, k, j);
      } else {
        NoSplitWalk(dp, s, i, j);
        DotsShaped(Traverse(dp, s, i, j), i, j);
      }
    }
  }

  lemma {:induction false} SkipIShaped(dp: Table, s: string, i: int, j: int)
    requires IsSquare(dp, |s|)
    requires 0 <= i < j < |s| && Decide(dp, s, i, j).SkipI?
    ensures Shaped(Traverse(dp, s, i, j), i, j)
    decreases j - i + 1, 0
  {
    SkipIWalk(dp, s, i, j);
    WalkShaped(dp, s, i + 1, j);
    ShapeDotBefore(Traverse(dp, s, i, j), Traverse(dp, s, i + 1, j), i, j);
  }

  lemma {:induction false} SkipJShaped(dp: Table, s: string, i: int, j: int)
    requires IsSquare(dp, |s|)
    requires 0 <= i < j < |s| && Decide(dp, s, i, j).SkipJ?
    ensures Shaped(Traverse(dp, s, i, j), i, j)
    decreases j - i + 1, 0
  {
    SkipJWalk(dp, s, i, j);
    WalkShaped(dp, s, i, j - 1);
    ShapeDotAfter(Traverse(dp, s, i, j), Traverse(dp, s, i, j - 1), i, j);
  }

  lemma {:induction false} PairShaped(dp: Table, s: string, i: int, j: int)
    requires IsSquare(dp, |s|)
    requires 0 <= i < j < |s| && Decide(dp, s, i, j).PairEnds?
    ensures Shaped(Traverse(dp, s, i, j), i, j)
    decreases j - i + 1, 0
  {
    PairWalk(dp, s, i, j);
    WalkShaped(dp, s, i + 1, j - 1);
    ShapeEnclosed(Traverse(dp, s, i, j), Traverse(dp, s, i + 1, j - 1), i, j);
  }

  lemma {:induction false} DotsShaped(w: Walk, i: int, j: int)
    requires i <= j + 1
    requires w.brackets == Dots(j - i + 1) && w.pairs == []
    requires w.visited == [] || (i < j && w.visited == [(i, j)])
    ensures Shaped(w, i, j)
  {
    BalancedDots(j - i + 1);
  }

  lemma {:induction false} ShapeDotBefore(w: Walk, v: Walk, i: int, j: int)
    requires i < j && Shaped(v, i + 1, j)
    requires w == Walk([(i, j)] + v.visited, v.pairs, "." + v.brackets)
    ensures Shaped(w, i, j)
  {
    BalancedAppend(".", v.brackets);
  }

  lemma {:induction false} ShapeDotAfter(w: Walk, v: Walk, i: int, j: int)
    requires i < j && Shaped(v, i, j - 1)
    requires w == Walk([(i, j)] + v.visited, v.pairs, v.brackets + ".")
    ensures Shaped(w, i, j)
  {
    BalancedAppend(v.brackets, ".");
  }

  lemma {:induction false} ShapeEnclosed(w: Walk, v: Walk, i: int, j: int)
    requires i < j && Shaped(v, i + 1, j - 1)
    requires w == Walk([(i, j)] + v.visited, [(i, j)] + v.pairs, "(" + v.brackets + ")")
    ensures Shaped(w, i, j)
  {
    BalancedEnclose(v.brackets);
    NonCrossingEnclose((i, j), v.pairs);
  }

  lemma {:induction false} ShapeBeside(w: Walk, l: Walk, r: Walk, i: int, k: int, j: int)
    requires i < k < j && Shaped(l, i, k) && Shaped(r, k + 1, j)
    requires w == Walk([(i, j)] + l.visited + r.visited, l.pairs + r.pairs, l.brackets + r.brackets)
    ensures Shaped(w, i, j)
  {
    BalancedAppend(l.brackets, r.brackets);
    NonCrossingAppend(l.pairs, r.pairs, k);
  }

  /** The walk of (i, j) expands nothing when i >= j, and (i, j) first otherwise. */
  lemma {:induction false} WalkStart(dp: Table, s: string, i: int, j: int)
    requires IsSquare(dp, |s|)
    requires 0 <= i <= j + 1 <= |s|
    ensures Traverse(dp, s, i, j).visited == [] <==> i >= j
    ensures i < j ==> Traverse(dp, s, i, j).visited[0] == (i, j)
  {
  }

  /** A split point k in lo..j-1 whose halves add up to dp[i][j] bounds the first one found. */
  lemma {:induction false} FirstSplitFinds(dp: Table, i: int, j: int, lo: int, k: int)
    requires IsSquare(dp, |dp|)
    requires 0 <= i < lo <= k < j < |dp|
    requires dp[i][k] + dp[k + 1][j] == dp[i][j]
    ensures FirstSplit(dp, i, j, lo) <= k
    decreases j - lo
  {
    if lo < k && dp[i][lo] + dp[lo + 1][j] != dp[i][j] {
      FirstSplitFinds(dp, i, j, lo + 1, k);
    }
  }

  /** On the filled table the walk never reaches the branch that finds no split point:
      whenever dp[i][j] is neither dp[i + 1][j], dp[i][j - 1] nor the pair (i, j) on top of
      dp[i + 1][j - 1], some k with i < k < j splits it. */
  lemma {:induction false} NeverNoSplit(dp: Table, s: string, i: int, j: int)
    requires Filled(dp, s)
    requires 0 <= i < j < |s|
    ensures !Decide(dp, s, i, j).NoSplit?
  {
    if dp[i + 1][j] != dp[i][j] && dp[i][j - 1] != dp[i][j] &&
       !(dp[i + 1][j - 1] + 1 == dp[i][j] && Complement(s[i]) == Some(s[j])) {
      var k := OptAttained(s, i, j);
      OptMonotone(s, i, j, i + 1, j);
      OptMonotone(s, i + 1, j, i + 1, j - 1);
      assert dp[i][j] == Opt(s, i, j) && dp[i + 1][j] == Opt(s, i + 1, j);
      assert dp[i][j - 1] == Opt(s, i, j - 1) && dp[i + 1][j - 1] == Opt(s, i + 1, j - 1);
      assert dp[i][k] == Opt(s, i, k) && dp[k + 1][j] == Opt(s, k + 1, j);
      assert Opt(s, i, i) == 0;
      FirstSplitFinds(dp, i, j, i + 1, k);
    }
  }

  /** Every pair of ps is a Watson-Crick pair of s around a loop longer than MinLoopLength. */
  ghost predicate Eligible(ps: seq<Range>, s: string)
  {
    forall p :: p in ps ==> 0 <= p.0 < p.1 < |s| && PairBonus(s, p.0, p.1) == 1
  }

  /** What the walk needs of the table to record exactly dp[i][j] eligible pairs: no negative
      cell, zeros on and just below the diagonal and on every range too short for a hairpin,
      and a branch taken for every range i < j. */
  ghost predicate Traceable(dp: Table, s: string)
  {
    IsSquare(dp, |s|) &&
    (forall i, j :: 0 <= i < |s| && 0 <= j < |s| ==> dp[i][j] >= 0) &&
    (forall i, j :: 0 <= j <= i < |s| ==> dp[i][j] == 0) &&
    (forall i, j :: 0 <= i <= j < |s| && j - i <= MinLoopLength ==> dp[i][j] == 0) &&
    (forall i, j :: 0 <= i < j < |s| ==> !Decide(dp, s, i, j).NoSplit?)
  }

  /** The table the fill leaves is traceable. */
  lemma FilledIsTraceable(dp: Table, s: string)
    requires Filled(dp, s)
    ensures Traceable(dp, s)
  {
    FilledTableShape(dp, s);
    forall i, j | 0 <= i < j < |s|
      ensures !Decide(dp, s, i, j).NoSplit?
    {
      NeverNoSplit(dp, s, i, j);
    }
  }

  /** w records exactly c pairs, every one of them eligible. */
  ghost predicate Records(w: Walk, s: string, c: int)
  {
    |w.pairs| == c && Eligible(w.pairs, s)
  }

  /** dp[i][j] for a range, and 0 for the empty range (i, i - 1). */
  function Cell(dp: Table, i: int, j: int): int
    requires IsSquare(dp, |dp|) && 0 <= i <= j + 1 <= |dp|
  {
    if i <= j then dp[i][j] else 0
  }

  /** On a traceable table the walk of i..j records dp[i][j] pairs, all of them eligible. */
  lemma {:induction false} WalkRecords(dp: Table, s: string, i: int, j: int)
    requires Traceable(dp, s)
    requires 0 <= i <= j + 1 <= |s|
    ensures Records(Traverse(dp, s, i, j), s, Cell(dp, i, j))
    decreases j - i + 1, 1
  {
    if i >= j {
      EmptyWalk(dp, s, i, j);
    } else {
      var step := Decide(dp, s, i, j);
      if step.SkipI? {
        SkipIRecords(dp, s, i, j);
      } else if step.SkipJ? {
        SkipJRecords(dp, s, i, j);
      } else if step.PairEnds? {
        PairRecords(dp, s, i, j);
      } else {
        SplitRecords(dp, s, i, j, step.k);
      }
    }
  }

  lemma {:induction false} SkipIRecords(dp: Table, s: string, i: int, j: int)
    requires Traceable(dp, s)
    requires 0 <= i < j < |s| && Decide(dp, s, i, j).SkipI?
    ensures Records(Traverse(dp, s, i, j), s, Cell(dp, i, j))
    decreases j - i + 1, 0
  {
    SkipIWalk(dp, s, i, j);
    WalkRecords(dp, s, i + 1, j);
  }

  lemma {:induction false} SkipJRecords(dp: Table, s: string, i: int, j: int)
    requires Traceable(dp, s)
    requires 0 <= i < j < |s| && Decide(dp, s, i, j).SkipJ?
    ensures Records(Traverse(dp, s, i, j), s, Cell(dp, i, j))
    decreases j - i + 1, 0
  {
    SkipJWalk(dp, s, i, j);
    WalkRecords(dp, s, i, j - 1);
  }

  lemma {:induction false} PairRecords(dp: Table, s: string, i: int, j: int)
    requires Traceable(dp, s)
    requires 0 <= i < j < |s| && Decide(dp, s, i, j).PairEnds?
    ensures Records(Traverse(dp, s, i, j), s, Cell(dp, i, j))
    decreases j - i + 1, 0
  {
    PairWalk(dp, s, i, j);
    WalkRecords(dp, s, i + 1, j - 1);
    PairIsEligible(dp, s, i, j);
    RecordsEnclosed(s, Traverse(dp, s, i, j), Traverse(dp, s, i + 1, j - 1), i, j, Cell(dp, i + 1, j - 1));
  }

  /** The pairing branch never pairs across a loop of MinLoopLength or fewer positions on a
      traceable table, although it does not check the length itself: such a range holds 0
      pairs, so dp[i + 1][j - 1] + 1 cannot equal dp[i][j]. */
  lemma {:induction false} PairIsEligible(dp: Table, s: string, i: int, j: int)
    requires Traceable(dp, s)
    requires 0 <= i < j < |s| && Decide(dp, s, i, j).PairEnds?
    ensures PairBonus(s, i, j) == 1
    ensures Cell(dp, i, j) == Cell(dp, i + 1, j - 1) + 1
  {
    assert dp[i + 1][j - 1] + 1 == dp[i][j] && Complement(s[i]) == Some(s[j]);
    assert dp[i + 1][j - 1] >= 0;
  }

  lemma {:induction false} RecordsEnclosed(s: string, w: Walk, v: Walk, i: int, j: int, c: int)
    requires 0 <= i < j < |s| && PairBonus(s, i, j) == 1 && Records(v, s, c)
    requires w == Walk([(i, j)] + v.visited, [(i, j)] + v.pairs, "(" + v.brackets + ")")
    ensures Records(w, s, c + 1)
  {
  }

  lemma {:induction false} SplitRecords(dp: Table, s: string, i: int, j: int, k: int)
    requires Traceable(dp, s)
    requires 0 <= i < j < |s| && Decide(dp, s, i, j) == Split(k)
    ensures Records(Traverse(dp, s, i, j), s, Cell(dp, i, j))
    decreases j - i + 1, 0
  {
    SplitWalk(dp, s, i, j, k);
    WalkRecords(dp, s, i, k);
    WalkRecords(dp, s, k + 1, j);
    RecordsBeside(s, Traverse(dp, s, i, j), Traverse(dp, s, i, k), Traverse(dp, s, k + 1, j), i, j, Cell(dp, i, k), Cell(dp, k + 1, j));
  }

  lemma {:induction false} RecordsBeside(s: string, w: Walk, l: Walk, r: Walk, i: int, j: int, cl: int, cr: int)
    requires Records(l, s, cl) && Records(r, s, cr)
    requires w == Walk([(i, j)] + l.visited + r.visited, l.pairs + r.pairs, l.brackets + r.brackets)
    ensures Records(w, s, cl + cr)
  {
  }
}
