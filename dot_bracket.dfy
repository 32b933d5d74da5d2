/**
 * Dot-bracket notation: the `structure` list of the backtrace, the writes that put
 * brackets into it, and what a well-formed pairing and a balanced bracket string are.
 */
module DotBracket {

  /** A pair of sequence positions (i, j); a range i..j inclusive, or the two ends of a base pair. */
  type Range = (int, int)

  /** `["." for _ in range(m)]`: m unpaired positions. */
  function Dots(m: nat): (d: string)
    ensures |d| == m
  {
    seq(m, _ => '.')
  }

  function Opens(t: string): nat
  {
    multiset(t)['(']
  }

  function Closes(t: string): nat
  {
    multiset(t)[')']
  }

  /** As many closing as opening brackets, and no prefix closes more than it opened. */
  ghost predicate Balanced(t: string)
  {
    Opens(t) == Closes(t) &&
    forall m :: 0 <= m <= |t| ==> Closes(t[..m]) <= Opens(t[..m])
  }

  /** Two base pairs share no position and do not interleave: one lies beside or inside the other. */
  predicate Compatible(p: Range, q: Range)
  {
    p.1 < q.0 || q.1 < p.0 || (p.0 < q.0 && q.1 < p.1) || (q.0 < p.0 && p.1 < q.1)
  }

  /** A pseudoknot-free pairing: every two of its pairs are compatible. */
  ghost predicate NonCrossing(ps: seq<Range>)
  {
    forall a, b :: 0 <= a < b < |ps| ==> Compatible(ps[a], ps[b])
  }

  /** Pairs lying in two disjoint blocks, the first ending at or before k and the second
      starting after it, never cross each other. */
  lemma {:induction false} NonCrossingAppend(a: seq<Range>, b: seq<Range>, k: int)
    requires NonCrossing(a) && NonCrossing(b)
    requires forall p :: p in a ==> p.1 <= k
    requires forall q :: q in b ==> k < q.0
    ensures NonCrossing(a + b)
  {
    var ab := a + b;
    forall x, y | 0 <= x < y < |ab|
      ensures Compatible(ab[x], ab[y])
    {
      if y < |a| {
        assert ab[x] == a[x] && ab[y] == a[y];
      } else if x < |a| {
        assert ab[x] == a[x] && a[x] in a;
        assert ab[y] == b[y - |a|] && b[y - |a|] in b;
      } else {
        assert ab[x] == b[x - |a|] && ab[y] == b[y - |a|];
      }
    }
  }

  /** A pair enclosing every pair of a non-crossing pairing strictly keeps it non-crossing. */
  lemma {:induction false} NonCrossingEnclose(p: Range, inner: seq<Range>)
    requires NonCrossing(inner)
    requires forall q :: q in inner ==> p.0 < q.0 && q.1 < p.1
    ensures NonCrossing([p] + inner)
  {
    var all := [p] + inner;
    forall x, y | 0 <= x < y < |all|
      ensures Compatible(all[x], all[y])
    {
      assert all[y] == inner[y - 1] && inner[y - 1] in inner;
      if x > 0 {
        assert all[x] == inner[x - 1];
      }
    }
  }

  /** `structure[i], structure[j] = "(", ")"` on the canvas c. */
  function Mark(c: string, p: Range): string
  {
    if 0 <= p.0 < |c| && 0 <= p.1 < |c| then c[p.0 := '('][p.1 := ')'] else c
  }

  /** Marking p inside the canvas writes ')' at p.1, '(' at p.0 unless the two coincide,
      and leaves every other position and the length alone. */
  lemma MarkWrites(c: string, p: Range)
    requires 0 <= p.0 < |c| && 0 <= p.1 < |c|
    ensures |Mark(c, p)| == |c|
    ensures Mark(c, p)[p.1] == ')' && (p.0 != p.1 ==> Mark(c, p)[p.0] == '(')
    ensures forall x :: 0 <= x < |c| && x != p.0 && x != p.1 ==> Mark(c, p)[x] == c[x]
  {
  }

  /** The canvas c after marking the pairs ps, first to last. */
  function RenderOnto(c: string, ps: seq<Range>): (r: string)
    ensures |r| == |c|
    decreases |ps|
  {
    if ps == [] then c else RenderOnto(Mark(c, ps[0]), ps[1..])
  }

  /** Marking p followed by ps is marking ps on the canvas p has been marked on. */
  lemma RenderOntoCons(c: string, p: Range, ps: seq<Range>)
    ensures RenderOnto(c, [p] + ps) == RenderOnto(Mark(c, p), ps)
  {
    assert ([p] + ps)[0] == p && ([p] + ps)[1..] == ps;
  }

  /** Marking a + b is marking a, then b. */
  lemma {:induction false} RenderOntoAppend(c: string, a: seq<Range>, b: seq<Range>)
    ensures RenderOnto(c, a + b) == RenderOnto(RenderOnto(c, a), b)
    decreases |a|
  {
    if a == [] {
      assert a + b == b;
    } else {
      assert (a + b)[0] == a[0];
      assert (a + b)[1..] == a[1..] + b;
      RenderOntoAppend(Mark(c, a[0]), a[1..], b);
    }
  }

  /** Whether x is the opening (left) position of some pair of ps. */
  ghost predicate OpensAt(ps: seq<Range>, x: int)
  {
    exists p :: p in ps && p.0 == x
  }

  /** Whether x is the closing (right) position of some pair of ps. */
  ghost predicate ClosesAt(ps: seq<Range>, x: int)
  {
    exists p :: p in ps && p.1 == x
  }

  /** Pairs inside the canvas whose ends are all distinct from each other. */
  ghost predicate DistinctEnds(ps: seq<Range>, n: int)
  {
    (forall p :: p in ps ==> 0 <= p.0 < p.1 < n) &&
    forall a, b :: 0 <= a < b < |ps| ==>
      ps[a].0 != ps[b].0 && ps[a].0 != ps[b].1 && ps[a].1 != ps[b].0 && ps[a].1 != ps[b].1
  }

  /** A non-crossing pairing inside the canvas writes every position at most once. */
  lemma NonCrossingEndsDistinct(ps: seq<Range>, n: int)
    requires forall p :: p in ps ==> 0 <= p.0 < p.1 < n
    requires NonCrossing(ps)
    ensures DistinctEnds(ps, n)
  {
  }

  /** When no position is written twice, the result shows '(' exactly at the opening
      positions, ')' exactly at the closing ones and the canvas everywhere else. */
  lemma {:induction false} RenderOntoAt(c: string, ps: seq<Range>, x: int)
    requires DistinctEnds(ps, |c|)
    requires 0 <= x < |c|
    ensures RenderOnto(c, ps)[x] ==
      if OpensAt(ps, x) then '(' else if ClosesAt(ps, x) then ')' else c[x]
    decreases |ps|
  {
    if ps != [] {
      var p, rest := ps[0], ps[1..];
      assert DistinctEnds(rest, |c|) by {
        forall a, b | 0 <= a < b < |rest|
          ensures rest[a].0 != rest[b].0 && rest[a].0 != rest[b].1
          ensures rest[a].1 != rest[b].0 && rest[a].1 != rest[b].1
        {
          assert rest[a] == ps[a + 1] && rest[b] == ps[b + 1];
        }
      }
      RenderOntoAt(Mark(c, p), rest, x);
      assert forall q :: q in ps <==> q == p || q in rest by {
        assert ps == [p] + rest;
      }
      forall q | q in rest
        ensures q.0 != p.0 && q.0 != p.1 && q.1 != p.0 && q.1 != p.1
      {
        var b :| 0 <= b < |rest| && rest[b] == q;
        assert ps[b + 1] == q && ps[0] == p;
      }
    }
  }

  /** Concatenating balanced strings keeps them balanced. */
  lemma BalancedAppend(a: string, b: string)
    requires Balanced(a) && Balanced(b)
    ensures Balanced(a + b)
  {
    forall m | 0 <= m <= |a + b|
      ensures Closes((a + b)[..m]) <= Opens((a + b)[..m])
    {
      if m <= |a| {
        assert (a + b)[..m] == a[..m];
      } else {
        assert (a + b)[..m] == a + b[..m - |a|];
        assert a[..|a|] == a;
      }
    }
    assert (a + b)[..|a + b|] == a + b;
  }

  /** Enclosing a balanced string in a matching pair keeps it balanced. */
  lemma BalancedEnclose(a: string)
    requires Balanced(a)
    ensures Balanced("(" + a + ")")
  {
    var t := "(" + a + ")";
    forall m | 0 <= m <= |t|
      ensures Closes(t[..m]) <= Opens(t[..m])
    {
      if m == 0 {
        assert t[..m] == [];
      } else if m <= |a| + 1 {
        assert t[..m] == "(" + a[..m - 1];
      } else {
        assert t[..m] == t;
        assert a[..|a|] == a;
      }
    }
  }

  /** A string of dots is balanced. */
  lemma BalancedDots(m: nat)
    ensures Balanced(Dots(m))
  {
    forall k | 0 <= k <= m
      ensures Opens(Dots(m)[..k]) == 0 && Closes(Dots(m)[..k]) == 0
    {
      assert '(' !in Dots(m)[..k] && ')' !in Dots(m)[..k];
    }
    assert Dots(m)[..m] == Dots(m);
  }
}
