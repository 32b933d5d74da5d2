/**
 * The Nussinov maximum-base-pairing recurrence of flask-server/nussinov_algorithm.py,
 * stated as pure functions over the input sequence, with the properties of the table
 * that the fill and the backtrace rely on.
 */
module Recurrence {

  datatype Option<T> = None | Some(value: T)

  /** Positions i < j may pair only when j - i > MinLoopLength (MIN_LOOP_LENGTH). */
  const MinLoopLength: int := 4

  /** `pairs.get(c)`: the Watson-Crick partner of an upper-case base; lower-case and
      any other character have none. */
  function Complement(c: char): (r: Option<char>)
    ensures r.Some? <==> c in "AUCG"
    ensures r.Some? ==> r.value in "AUCG" && r.value != c
  {
    match c
    case 'A' => Some('U')
    case 'U' => Some('A')
    case 'C' => Some('G')
    case 'G' => Some('C')
    case _ => None
  }

  /** The `+1` of the paired candidate: s[i] pairs with s[j] and the loop is long enough. */
  function PairBonus(s: string, i: int, j: int): int
    requires 0 <= i <= j < |s|
  {
    if Complement(s[i]) == Some(s[j]) && j - i > MinLoopLength then 1 else 0
  }

  /** The bonus is 0 or 1, and it is 1 exactly for the four Watson-Crick pairs of
      upper-case bases enclosing a loop longer than MinLoopLength. */
  lemma PairBonusRule(s: string, i: int, j: int)
    requires 0 <= i <= j < |s|
    ensures PairBonus(s, i, j) == 0 || PairBonus(s, i, j) == 1
    ensures PairBonus(s, i, j) == 1 <==>
      i + MinLoopLength < j && (s[i], s[j]) in {('A', 'U'), ('U', 'A'), ('C', 'G'), ('G', 'C')}
  {
  }

  function Max(a: int, b: int): int
  {
    if a < b then b else a
  }

  /** Python's `max(a, b, c, d)` on integers. */
  function Max4(a: int, b: int, c: int, d: int): int
  {
    Max(Max(a, b), Max(c, d))
  }

  /** Max4 is at least each argument and equal to one of them. */
  lemma Max4IsMax(a: int, b: int, c: int, d: int)
    ensures a <= Max4(a, b, c, d) && b <= Max4(a, b, c, d)
    ensures c <= Max4(a, b, c, d) && d <= Max4(a, b, c, d)
    ensures Max4(a, b, c, d) in {a, b, c, d}
  {
  }

  /**
   * The value the fill stores in dp[i][j]: 0 when i >= j (cells never written), otherwise
   * the largest of "i unpaired", "j unpaired", "i-j paired (or the inner value)" and the
   * bifurcation over every split point i <= k < j.
   */
  function Opt(s: string, i: int, j: int): (r: int)
    requires 0 <= i && j < |s|
    ensures r >= 0
    decreases j - i + 1, 1
  {
    if i >= j then 0
    else
      Max4(Opt(s, i + 1, j), Opt(s, i, j - 1),
           Opt(s, i + 1, j - 1) + PairBonus(s, i, j),
           Bifurcation(s, i, j, j))
  }

  /** The bifurcation candidate restricted to split points i <= k < m; with m == j it is
      `max(dp[i][k] + dp[k + 1][j] for k in range(i, j))`, whose range is never empty. */
  function Bifurcation(s: string, i: int, j: int, m: int): int
    requires 0 <= i < m <= j < |s|
    decreases j - i + 1, 0, m - i
  {
    var here := Opt(s, i, m - 1) + Opt(s, m, j);
    if m == i + 1 then here else Max(Bifurcation(s, i, j, m - 1), here)
  }

  /** The bifurcation candidate bounds the value of every split point below m. */
  lemma {:induction false} BifurcationBoundsSplits(s: string, i: int, j: int, m: int, k: int)
    requires 0 <= i <= k < m <= j < |s|
    ensures Opt(s, i, k) + Opt(s, k + 1, j) <= Bifurcation(s, i, j, m)
    decreases m
  {
    if k < m - 1 {
      BifurcationBoundsSplits(s, i, j, m - 1, k);
    }
  }

  /** Some split point below m attains the bifurcation candidate; `best` is one. */
  lemma {:induction false} BifurcationAttained(s: string, i: int, j: int, m: int) returns (best: int)
    requires 0 <= i < m <= j < |s|
    ensures i <= best < m && Opt(s, i, best) + Opt(s, best + 1, j) == Bifurcation(s, i, j, m)
    decreases m
  {
    var here := Opt(s, i, m - 1) + Opt(s, m, j);
    if m == i + 1 {
      best := i;
    } else {
      best := BifurcationAttained(s, i, j, m - 1);
      if Bifurcation(s, i, j, m - 1) < here {
        best := m - 1;
      }
    }
  }

  /** The optimum of a range i < j is attained by one of its candidates; k is the split
      point whose halves attain the bifurcation candidate. */
  lemma {:induction false} OptAttained(s: string, i: int, j: int) returns (k: int)
    requires 0 <= i < j < |s|
    ensures i <= k < j
    ensures Opt(s, i, j) == Opt(s, i + 1, j) || Opt(s, i, j) == Opt(s, i, j - 1) ||
            Opt(s, i, j) == Opt(s, i + 1, j - 1) + PairBonus(s, i, j) ||
            Opt(s, i, j) == Opt(s, i, k) + Opt(s, k + 1, j)
  {
    k := BifurcationAttained(s, i, j, j);
  }

  /** Monotone under sub-interval inclusion: a range never holds fewer pairs than a range inside it. */
  lemma {:induction false} OptMonotone(s: string, i: int, j: int, i': int, j': int)
    requires 0 <= i <= i' && j' <= j < |s|
    ensures Opt(s, i', j') <= Opt(s, i, j)
    decreases j - i
  {
    if i' >= j' {
    } else if i < i' {
      OptMonotone(s, i + 1, j, i', j');
    } else if j' < j {
      OptMonotone(s, i, j - 1, i', j');
    }
  }

  /** A range containing no pair the recurrence may count holds no pair at all. */
  lemma {:induction false} NoEligiblePairIsZero(s: string, i: int, j: int)
    requires 0 <= i && j < |s|
    requires forall a, b :: i <= a < b <= j ==> PairBonus(s, a, b) == 0
    ensures Opt(s, i, j) == 0
    decreases j - i + 1
  {
    if i < j {
      var k := OptAttained(s, i, j);
      if Opt(s, i, j) == Opt(s, i + 1, j) {
        NoEligiblePairIsZero(s, i + 1, j);
      } else if Opt(s, i, j) == Opt(s, i, j - 1) {
        NoEligiblePairIsZero(s, i, j - 1);
      } else {
        // pairing i with j is not eligible, so the optimum is a bifurcation
        NoEligiblePairIsZero(s, i, k);
        NoEligiblePairIsZero(s, k + 1, j);
      }
    }
  }

  /** Every range of span j - i <= MinLoopLength is 0: it is too short for a hairpin. */
  lemma ShortRangeIsZero(s: string, i: int, j: int)
    requires 0 <= i && j < |s| && j - i <= MinLoopLength
    ensures Opt(s, i, j) == 0
  {
    NoEligiblePairIsZero(s, i, j);
  }

  /** A sequence with no upper-case A, U, C or G (lower-case input, say) has an all-zero table. */
  lemma UnpairableIsZero(s: string, i: int, j: int)
    requires 0 <= i && j < |s|
    requires forall x :: 0 <= x < |s| ==> s[x] !in "AUCG"
    ensures Opt(s, i, j) == 0
  {
    NoEligiblePairIsZero(s, i, j);
  }

  /** A range of j - i + 1 bases holds at most half as many pairs. */
  lemma {:induction false} OptAtMostHalf(s: string, i: int, j: int)
    requires 0 <= i <= j + 1 && j < |s|
    ensures 2 * Opt(s, i, j) <= j - i + 1
    decreases j - i + 1
  {
    if i < j {
      var k := OptAttained(s, i, j);
      if Opt(s, i, j) == Opt(s, i + 1, j) {
        OptAtMostHalf(s, i + 1, j);
      } else if Opt(s, i, j) == Opt(s, i, j - 1) {
        OptAtMostHalf(s, i, j - 1);
      } else if Opt(s, i, j) == Opt(s, i + 1, j - 1) + PairBonus(s, i, j) {
        OptAtMostHalf(s, i + 1, j - 1);
      } else {
        OptAtMostHalf(s, i, k);
        OptAtMostHalf(s, k + 1, j);
      }
    }
  }

}
