/**
 * What the recurrence's value means: Opt(s, i, j) bounds the size of every secondary
 * structure on positions i..j, that is, of every set of pairs the recurrence may count
 * (Watson-Crick, loop longer than MinLoopLength) no two of which share a position or cross.
 */
module Optimality {
  import opened Recurrence
  import opened DotBracket

  /** A pseudoknot-free secondary structure on i..j made of pairs the recurrence counts. */
  ghost predicate Pairing(P: set<Range>, s: string, i: int, j: int)
  {
    (forall p :: p in P ==> i <= p.0 < p.1 <= j && 0 <= p.0 && p.1 < |s| && PairBonus(s, p.0, p.1) == 1) &&
    (forall p, q :: p in P && q in P && p != q ==> Compatible(p, q))
  }

  /** No secondary structure on i..j has more pairs than Opt(s, i, j). */
  lemma {:induction false} PairingBound(P: set<Range>, s: string, i: int, j: int)
    requires 0 <= i && j < |s| && Pairing(P, s, i, j)
    ensures |P| <= Opt(s, i, j)
    decreases j - i + 1, 1
  {
    if i >= j {
      EmptyPairing(P, s, i, j);
    } else if p :| p in P && p.0 == i {
      if p.1 == j {
        BoundEnclosed(P, s, i, j);
      } else {
        BoundSplit(P, s, i, j, p.1);
      }
    } else {
      BoundSkip(P, s, i, j);
    }
  }

  lemma {:induction false} EmptyPairing(P: set<Range>, s: string, i: int, j: int)
    requires i >= j && Pairing(P, s, i, j)
    ensures P == {}
  {
  }

  /** Nothing pairs at i: the structure lies on i + 1..j. */
  lemma {:induction false} BoundSkip(P: set<Range>, s: string, i: int, j: int)
    requires 0 <= i < j < |s| && Pairing(P, s, i, j)
    requires forall p :: p in P ==> p.0 != i
    ensures |P| <= Opt(s, i, j)
    decreases j - i + 1, 0
  {
    assert Pairing(P, s, i + 1, j);
    PairingBound(P, s, i + 1, j);
  }

  /** i pairs with j: the other pairs lie on i + 1..j - 1. */
  lemma {:induction false} BoundEnclosed(P: set<Range>, s: string, i: int, j: int)
    requires 0 <= i < j < |s| && Pairing(P, s, i, j) && (i, j) in P
    ensures |P| <= Opt(s, i, j)
    decreases j - i + 1, 0
  {
    var inner := P - {(i, j)};
    forall q | q in inner
      ensures i + 1 <= q.0 && q.1 <= j - 1
    {
      assert Compatible((i, j), q);
    }
    assert Pairing(inner, s, i + 1, j - 1);
    PairingBound(inner, s, i + 1, j - 1);
    assert |P| == |inner| + 1;
  }

  /** i pairs with k < j: the structure falls into one on i..k and one on k + 1..j. */
  lemma {:induction false} BoundSplit(P: set<Range>, s: string, i: int, j: int, k: int)
    requires 0 <= i < k < j < |s| && Pairing(P, s, i, j) && (i, k) in P
    ensures |P| <= Opt(s, i, j)
    decreases j - i + 1, 0
  {
    var left, right := Before(P, k), After(P, k);
    SplitPartition(P, s, i, j, k);
    SubPairing(P, left, s, i, j, i, k);
    SubPairing(P, right, s, i, j, k + 1, j);
    PairingBound(left, s, i, k);
    PairingBound(right, s, k + 1, j);
    BifurcationBoundsSplits(s, i, j, j, k);
  }

  /** The pairs of P closing at or before k. */
  ghost function Before(P: set<Range>, k: int): set<Range>
  {
    set q | q in P && q.1 <= k
  }

  /** The pairs of P opening after k. */
  ghost function After(P: set<Range>, k: int): set<Range>
  {
    set q | q in P && k < q.0
  }

  /** When i pairs with k, every other pair lies wholly before or wholly after k. */
  lemma {:induction false} SplitPartition(P: set<Range>, s: string, i: int, j: int, k: int)
    requires 0 <= i < k < j < |s| && Pairing(P, s, i, j) && (i, k) in P
    ensures |P| == |Before(P, k)| + |After(P, k)|
  {
    forall q | q in P
      ensures q in Before(P, k) || q in After(P, k)
    {
      if q != (i, k) {
        assert Compatible((i, k), q);
      }
    }
    DisjointUnion(P, Before(P, k), After(P, k));
  }

  lemma {:induction false} DisjointUnion(P: set<Range>, A: set<Range>, B: set<Range>)
    requires P == A + B && A * B == {}
    ensures |P| == |A| + |B|
  {
  }

  /** The pairs of a structure on i..j that lie inside i'..j' form a structure there. */
  lemma {:induction false} SubPairing(P: set<Range>, Q: set<Range>, s: string, i: int, j: int, i': int, j': int)
    requires Pairing(P, s, i, j) && Q <= P
    requires forall q :: q in Q ==> i' <= q.0 && q.1 <= j'
    ensures Pairing(Q, s, i', j')
  {
  }

  /** The pairs of a sequence, as a set. */
  ghost function PairSet(ps: seq<Range>): set<Range>
  {
    set p | p in ps
  }

  /** The pairs of a sequence that is a structure, taken as a set, keep their number. */
  lemma {:induction false} DistinctPairs(ps: seq<Range>)
    requires NonCrossing(ps) && forall p :: p in ps ==> p.0 < p.1
    ensures |PairSet(ps)| == |ps|
    decreases |ps|
  {
    if ps != [] {
      var rest := ps[1..];
      assert NonCrossing(rest) by {
        forall a, b | 0 <= a < b < |rest|
          ensures Compatible(rest[a], rest[b])
        {
          assert rest[a] == ps[a + 1] && rest[b] == ps[b + 1];
        }
      }
      DistinctPairs(rest);
      assert ps[0] !in rest by {
        forall b | 0 <= b < |rest|
          ensures rest[b] != ps[0]
        {
          assert rest[b] == ps[b + 1] && Compatible(ps[0], ps[b + 1]);
        }
      }
      assert PairSet(ps) == {ps[0]} + PairSet(rest);
    }
  }

  /** A sequence of pairwise compatible pairs, each one the recurrence counts, is a
      secondary structure with as many pairs. */
  lemma {:induction false} SequencePairing(ps: seq<Range>, s: string, i: int, j: int)
    requires NonCrossing(ps)
    requires forall p :: p in ps ==> i <= p.0 < p.1 <= j && 0 <= p.0 && p.1 < |s| && PairBonus(s, p.0, p.1) == 1
    ensures Pairing(PairSet(ps), s, i, j) && |PairSet(ps)| == |ps|
  {
    DistinctPairs(ps);
    forall p, q | p in ps && q in ps && p != q
      ensures Compatible(p, q)
    {
      var a :| 0 <= a < |ps| && ps[a] == p;
      var b :| 0 <= b < |ps| && ps[b] == q;
      if a < b {
        assert Compatible(ps[a], ps[b]);
      } else {
        assert Compatible(ps[b], ps[a]);
      }
    }
  }
}
