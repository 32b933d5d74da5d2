/**
 * `nussinov_algorithm` (flask-server/nussinov_algorithm.py): fill the table, trace one
 * structure back from its top-right cell, and return the table, the dot-bracket string
 * and the ranges the backtrace expanded; and what those three results are.
 */
module Nussinov {
  import opened Recurrence
  import opened TableFill
  import opened DotBracket
  import opened Traceback
  import opened WalkFacts
  import opened Optimality

  /** The whole algorithm: the table as a list of rows, the joined structure and the
      expanded ranges. */
  method NussinovAlgorithm(s: string) returns (dp: Table, structure: string, visited: seq<Range>)
    ensures Filled(dp, s)
    ensures structure == Structure(dp, s)
    ensures visited == Traverse(dp, s, 0, |s| - 1).visited
  {
    var table := Fill(s);
    dp := Rows(table);
    structure, visited := StackBasedBacktrace(dp, s);
  }

  /** The joined structure the backtrace returns for s over dp: one character per base. */
  ghost function Structure(dp: Table, s: string): (t: string)
    requires IsSquare(dp, |s|)
    ensures |t| == |s|
  {
    WalkShaped(dp, s, 0, |s| - 1);
    Traverse(dp, s, 0, |s| - 1).brackets
  }

  /** The structure has one character per base, is balanced, and holds as many '(' as ')'
      as recorded pairs: the optimum of the whole sequence, which is dp[0][n - 1]. */
  lemma StructureCounts(dp: Table, s: string)
    requires Filled(dp, s)
    ensures var w := Traverse(dp, s, 0, |s| - 1);
      |w.brackets| == |s| && Balanced(w.brackets) &&
      Opens(w.brackets) == |w.pairs| && Closes(w.brackets) == |w.pairs| &&
      |w.pairs| == Opt(s, 0, |s| - 1) &&
      (|s| > 0 ==> |w.pairs| == dp[0][|s| - 1])
  {
    WalkShaped(dp, s, 0, |s| - 1);
    FilledIsTraceable(dp, s);
    WalkRecords(dp, s, 0, |s| - 1);
  }

  /** The recorded pairs are Watson-Crick pairs of upper-case bases around loops longer
      than MinLoopLength, no two of them cross, and no position is written twice. */
  lemma StructurePairs(dp: Table, s: string)
    requires Filled(dp, s)
    ensures var ps := Traverse(dp, s, 0, |s| - 1).pairs;
      NonCrossing(ps) && DistinctEnds(ps, |s|) &&
      forall p :: p in ps ==>
        0 <= p.0 && p.0 + MinLoopLength < p.1 < |s| && Complement(s[p.0]) == Some(s[p.1])
  {
    var ps := Traverse(dp, s, 0, |s| - 1).pairs;
    WalkShaped(dp, s, 0, |s| - 1);
    FilledIsTraceable(dp, s);
    WalkRecords(dp, s, 0, |s| - 1);
    NonCrossingEndsDistinct(ps, |s|);
    forall p | p in ps
      ensures 0 <= p.0 && p.0 + MinLoopLength < p.1 < |s| && Complement(s[p.0]) == Some(s[p.1])
    {
      assert PairBonus(s, p.0, p.1) == 1;
    }
  }

  /** On any square table, the structure shows '(' exactly at the opening position of a
      recorded pair, ')' exactly at a closing one and '.' everywhere else. */
  lemma StructureDrawsPairs(dp: Table, s: string, x: int)
    requires IsSquare(dp, |s|)
    requires 0 <= x < |s|
    ensures var ps := Traverse(dp, s, 0, |s| - 1).pairs;
      Structure(dp, s)[x] == if OpensAt(ps, x) then '(' else if ClosesAt(ps, x) then ')' else '.'
  {
    var w := Traverse(dp, s, 0, |s| - 1);
    RenderTraverse(dp, s, Dots(|s|), 0, |s| - 1, |s|);
    WholeCanvas(Dots(|s|), w.brackets);
    WalkShaped(dp, s, 0, |s| - 1);
    NonCrossingEndsDistinct(w.pairs, |s|);
    RenderOntoAt(Dots(|s|), w.pairs, x);
  }

  /** Every '(' at x is matched by a ')' further right, more than MinLoopLength positions
      away, at a base complementary to the one at x. */
  lemma OpeningIsMatched(dp: Table, s: string, x: int) returns (y: int)
    requires Filled(dp, s)
    requires 0 <= x < |s| && Structure(dp, s)[x] == '('
    ensures x + MinLoopLength < y < |s|
    ensures (x, y) in Traverse(dp, s, 0, |s| - 1).pairs
    ensures Structure(dp, s)[y] == ')'
    ensures Complement(s[x]) == Some(s[y])
  {
    var ps := Traverse(dp, s, 0, |s| - 1).pairs;
    StructureDrawsPairs(dp, s, x);
    StructurePairs(dp, s);
    var p :| p in ps && p.0 == x;
    y := p.1;
    StructureDrawsPairs(dp, s, y);
  }

  /** The expanded ranges all have i < j and lie in the sequence; there are none for fewer
      than two bases, and the first is the whole sequence otherwise. */
  lemma VisitedRanges(dp: Table, s: string)
    requires IsSquare(dp, |s|)
    ensures var v := Traverse(dp, s, 0, |s| - 1).visited;
      (forall r :: r in v ==> 0 <= r.0 < r.1 < |s|) &&
      (v == [] <==> |s| < 2) &&
      (|s| >= 2 ==> v[0] == (0, |s| - 1))
  {
    WalkShaped(dp, s, 0, |s| - 1);
    WalkStart(dp, s, 0, |s| - 1);
  }

  /** The recorded pairs, taken as a set, are a secondary structure of s with as many pairs. */
  lemma StructureIsPairing(dp: Table, s: string)
    requires Filled(dp, s)
    ensures var ps := Traverse(dp, s, 0, |s| - 1).pairs;
      Pairing(PairSet(ps), s, 0, |s| - 1) && |PairSet(ps)| == |ps|
  {
    WalkShaped(dp, s, 0, |s| - 1);
    FilledIsTraceable(dp, s);
    WalkRecords(dp, s, 0, |s| - 1);
    SequencePairing(Traverse(dp, s, 0, |s| - 1).pairs, s, 0, |s| - 1);
  }

  /** No secondary structure of s has more pairs than the one the backtrace returns. */
  lemma StructureIsMaximum(dp: Table, s: string, P: set<Range>)
    requires Filled(dp, s)
    requires Pairing(P, s, 0, |s| - 1)
    ensures |P| <= |Traverse(dp, s, 0, |s| - 1).pairs|
  {
    StructureCounts(dp, s);
    PairingBound(P, s, 0, |s| - 1);
  }
}
