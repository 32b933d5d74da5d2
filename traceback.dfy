/**
 * `stack_based_backtrace` (flask-server/nussinov_algorithm.py): the walk over a filled
 * table with an explicit stack of ranges, writing brackets into the structure and
 * recording every range it expands.
 *
 * The stack walk is specified by Traverse, the same walk written recursively: a range
 * is expanded, then the whole walk of its first pushed-last sub-range, then the other.
 */
module Traceback {
  import opened Recurrence
  import opened TableFill
  import opened DotBracket

  /** What the loop body does with a popped range i < j, branch by branch. */
  datatype Step = SkipI | SkipJ | PairEnds | Split(k: int) | NoSplit

  /** The first k with lo <= k < j and dp[i][k] + dp[k + 1][j] == dp[i][j], or j when
      there is none (the `for k in range(i + 1, j)` loop with its `break`). */
  function FirstSplit(dp: Table, i: int, j: int, lo: int): (k: int)
    requires IsSquare(dp, |dp|)
    requires 0 <= i < lo <= j < |dp|
    ensures lo <= k <= j
    ensures k < j ==> dp[i][k] + dp[k + 1][j] == dp[i][j]
    decreases j - lo
  {
    if lo == j then j
    else if dp[i][lo] + dp[lo + 1][j] == dp[i][j] then lo
    else FirstSplit(dp, i, j, lo + 1)
  }

  /** FirstSplit is the first such k: every split point before it misses. */
  lemma {:induction false} FirstSplitIsFirst(dp: Table, i: int, j: int, lo: int, k': int)
    requires IsSquare(dp, |dp|)
    requires 0 <= i < lo <= j < |dp|
    requires lo <= k' < FirstSplit(dp, i, j, lo)
    ensures dp[i][k'] + dp[k' + 1][j] != dp[i][j]
    decreases j - lo
  {
    if lo < k' {
      FirstSplitIsFirst(dp, i, j, lo + 1, k');
    }
  }

  /** The branch the loop body takes for the popped range (i, j), i < j. */
  function Decide(dp: Table, s: string, i: int, j: int): (step: Step)
    requires IsSquare(dp, |s|)
    requires 0 <= i < j < |s|
    ensures step.Split? ==> i < step.k < j && dp[i][step.k] + dp[step.k + 1][j] == dp[i][j]
  {
    if dp[i + 1][j] == dp[i][j] then SkipI
    else if dp[i][j - 1] == dp[i][j] then SkipJ
    else if dp[i + 1][j - 1] + 1 == dp[i][j] && Complement(s[i]) == Some(s[j]) then PairEnds
    else
      var k := FirstSplit(dp, i, j, i + 1);
      if k < j then Split(k) else NoSplit
  }

  /** What the walk of one range produces: the ranges it expands (in order), the pairs it
      records (in order) and the dot-bracket text it leaves on positions i..j. */
  datatype Walk = Walk(visited: seq<Range>, pairs: seq<Range>, brackets: string)

  /** The backtrace of the range (i, j), written recursively: the range is expanded, then
      the whole walk of the sub-range pushed last, then that of the one pushed first. */
  ghost function Traverse(dp: Table, s: string, i: int, j: int): Walk
    requires IsSquare(dp, |s|)
    requires 0 <= i <= j + 1 <= |s|
    decreases j - i + 1
  {
    if i >= j then Walk([], [], Dots(j - i + 1))
    else
      match Decide(dp, s, i, j)
      case SkipI =>
        var w := Traverse(dp, s, i + 1, j);
        Walk([(i, j)] + w.visited, w.pairs, "." + w.brackets)
      case SkipJ =>
        var w := Traverse(dp, s, i, j - 1);
        Walk([(i, j)] + w.visited, w.pairs, w.brackets + ".")
      case PairEnds =>
        var w := Traverse(dp, s, i + 1, j - 1);
        Walk([(i, j)] + w.visited, [(i, j)] + w.pairs, "(" + w.brackets + ")")
      case Split(k) =>
        var l := Traverse(dp, s, i, k);
        var r := Traverse(dp, s, k + 1, j);
        Walk([(i, j)] + l.visited + r.visited, l.pairs + r.pairs, l.brackets + r.brackets)
      case NoSplit =>
        Walk([(i, j)], [], Dots(j - i + 1))
  }

  /** The walk of an empty range or of a single base records nothing. */
  lemma {:induction false} EmptyWalk(dp: Table, s: string, i: int, j: int)
    requires IsSquare(dp, |s|)
    requires 0 <= i <= j + 1 <= |s| && i >= j
    ensures Traverse(dp, s, i, j).visited == [] && Traverse(dp, s, i, j).pairs == []
  {
  }

  /** The ranges a stack of walks will still expand, top of the stack (last) first. */
  function Visits(ws: seq<Walk>): seq<Range>
    decreases |ws|
  {
    if ws == [] then [] else ws[|ws| - 1].visited + Visits(ws[..|ws| - 1])
  }

  /** The pairs a stack of walks will still record, top of the stack (last) first. */
  function Pairs(ws: seq<Walk>): seq<Range>
    decreases |ws|
  {
    if ws == [] then [] else ws[|ws| - 1].pairs + Pairs(ws[..|ws| - 1])
  }

  /** ws holds the walk of every range of the stack, and every range is inside the sequence. */
  ghost predicate WalksOf(dp: Table, s: string, stack: seq<Range>, ws: seq<Walk>)
    requires IsSquare(dp, |s|)
  {
    |ws| == |stack| &&
    forall q :: 0 <= q < |stack| ==>
      0 <= stack[q].0 <= stack[q].1 + 1 <= |s| && ws[q] == Traverse(dp, s, stack[q].0, stack[q].1)
  }

  /** A range that is expanded weighs more than everything pushed in its place. */
  function RangeWeight(r: Range): nat
  {
    if r.0 >= r.1 then 1 else 2 * (r.1 - r.0)
  }

  function StackWeight(stack: seq<Range>): nat
    decreases |stack|
  {
    if stack == [] then 0 else StackWeight(stack[..|stack| - 1]) + RangeWeight(stack[|stack| - 1])
  }

  /** Popping the top range: its walk is the top walk, whose work comes first. */
  lemma {:induction false} PopRange(dp: Table, s: string, stack: seq<Range>, ws: seq<Walk>)
    requires IsSquare(dp, |s|)
    requires WalksOf(dp, s, stack, ws) && stack != []
    ensures var top := stack[|stack| - 1];
      0 <= top.0 <= top.1 + 1 <= |s| &&
      ws[|ws| - 1] == Traverse(dp, s, top.0, top.1)
    ensures WalksOf(dp, s, stack[..|stack| - 1], ws[..|ws| - 1])
    ensures Visits(ws) == ws[|ws| - 1].visited + Visits(ws[..|ws| - 1])
    ensures Pairs(ws) == ws[|ws| - 1].pairs + Pairs(ws[..|ws| - 1])
    ensures StackWeight(stack) == StackWeight(stack[..|stack| - 1]) + RangeWeight(stack[|stack| - 1])
  {
    var m := |stack| - 1;
    forall q | 0 <= q < m
      ensures stack[..m][q] == stack[q] && ws[..m][q] == ws[q]
    {
    }
  }

  /** Pushing ranges with their walks: the pushed work comes before the pending work. */
  lemma {:induction false} PushRanges(dp: Table, s: string, stack: seq<Range>, ws: seq<Walk>,
                                      more: seq<Range>, born: seq<Walk>)
    requires IsSquare(dp, |s|)
    requires WalksOf(dp, s, stack, ws) && WalksOf(dp, s, more, born)
    ensures WalksOf(dp, s, stack + more, ws + born)
    ensures StackWeight(stack + more) == StackWeight(stack) + StackWeight(more)
    ensures Visits(ws + born) == Visits(born) + Visits(ws)
    ensures Pairs(ws + born) == Pairs(born) + Pairs(ws)
  {
    WalksOfAppend(dp, s, stack, ws, more, born);
    WeightAppend(stack, more);
    WalksAppend(ws, born);
  }

  lemma {:induction false} WalksOfAppend(dp: Table, s: string, stack: seq<Range>, ws: seq<Walk>,
                                         more: seq<Range>, born: seq<Walk>)
    requires IsSquare(dp, |s|)
    requires WalksOf(dp, s, stack, ws) && WalksOf(dp, s, more, born)
    ensures WalksOf(dp, s, stack + more, ws + born)
  {
    var all, walks := stack + more, ws + born;
    forall q | 0 <= q < |all|
      ensures 0 <= all[q].0 <= all[q].1 + 1 <= |s| && walks[q] == Traverse(dp, s, all[q].0, all[q].1)
    {
      if q < |stack| {
        assert all[q] == stack[q] && walks[q] == ws[q];
      } else {
        assert all[q] == more[q - |stack|] && walks[q] == born[q - |stack|];
      }
    }
  }

  lemma {:induction false} WeightAppend(stack: seq<Range>, more: seq<Range>)
    ensures StackWeight(stack + more) == StackWeight(stack) + StackWeight(more)
    decreases |more|
  {
    if more == [] {
      assert stack + more == stack;
    } else {
      var init := more[..|more| - 1];
      assert (stack + more)[..|stack + more| - 1] == stack + init;
      assert (stack + more)[|stack + more| - 1] == more[|more| - 1];
      WeightAppend(stack, init);
    }
  }

  lemma {:induction false} WalksAppend(ws: seq<Walk>, born: seq<Walk>)
    ensures Visits(ws + born) == Visits(born) + Visits(ws)
    ensures Pairs(ws + born) == Pairs(born) + Pairs(ws)
    decreases |born|
  {
    if born == [] {
      assert ws + born == ws;
      Unit(Visits(ws));
      Unit(Pairs(ws));
    } else {
      var init, last := born[..|born| - 1], born[|born| - 1];
      assert (ws + born)[..|ws + born| - 1] == ws + init;
      assert (ws + born)[|ws + born| - 1] == last;
      WalksAppend(ws, init);
      Regroup(last.visited, Visits(init), Visits(ws));
      Regroup(last.pairs, Pairs(init), Pairs(ws));
    }
  }

  /** The ranges the loop body pushes for the popped range (i, j), i < j, in push order. */
  function Children(dp: Table, s: string, i: int, j: int): (pushed: seq<Range>)
    requires IsSquare(dp, |s|)
    requires 0 <= i < j < |s|
    ensures |pushed| <= 2
    ensures forall r :: r in pushed ==> i <= r.0 && r.1 <= j && r.1 - r.0 < j - i
  {
    match Decide(dp, s, i, j)
    case SkipI => [(i + 1, j)]
    case SkipJ => [(i, j - 1)]
    case PairEnds => [(i + 1, j - 1)]
    case Split(k) => [(k + 1, j), (i, k)]
    case NoSplit => []
  }

  /** One expansion of (i, j), i < j: the pushed ranges weigh less than (i, j), and (i, j)
      followed by the walks of the pushed ranges (top first) is the walk of (i, j), whose
      pairs are those of the pushed walks, after (i, j) itself when the branch pairs it. */
  lemma {:induction false} Expand(dp: Table, s: string, i: int, j: int) returns (born: seq<Walk>)
    requires IsSquare(dp, |s|)
    requires 0 <= i < j < |s|
    ensures WalksOf(dp, s, Children(dp, s, i, j), born)
    ensures StackWeight(Children(dp, s, i, j)) < RangeWeight((i, j))
    ensures [(i, j)] + Visits(born) == Traverse(dp, s, i, j).visited
    ensures Traverse(dp, s, i, j).pairs ==
      (if Decide(dp, s, i, j).PairEnds? then [(i, j)] else []) + Pairs(born)
  {
    var step := Decide(dp, s, i, j);
    if step.SkipI? {
      born := ExpandOne(dp, s, i, j, (i + 1, j));
    } else if step.SkipJ? {
      born := ExpandOne(dp, s, i, j, (i, j - 1));
    } else if step.PairEnds? {
      born := ExpandPair(dp, s, i, j);
    } else if step.Split? {
      born := ExpandSplit(dp, s, i, j);
    } else {
      born := ExpandNone(dp, s, i, j);
    }
  }

  lemma {:induction false} ExpandOne(dp: Table, s: string, i: int, j: int, r: Range) returns (born: seq<Walk>)
    requires IsSquare(dp, |s|)
    requires 0 <= i < j < |s|
    requires var step := Decide(dp, s, i, j);
      (step.SkipI? && r == (i + 1, j)) || (step.SkipJ? && r == (i, j - 1))
    ensures Children(dp, s, i, j) == [r]
    ensures WalksOf(dp, s, [r], born)
    ensures StackWeight([r]) < RangeWeight((i, j))
    ensures [(i, j)] + Visits(born) == Traverse(dp, s, i, j).visited
    ensures Traverse(dp, s, i, j).pairs == [] + Pairs(born)
  {
    UnfoldOne(dp, s, i, j, r);
    var w := Traverse(dp, s, r.0, r.1);
    born := [w];
    OneWalk(w);
    OneRange(r);
    Unit(w.pairs);
  }

  lemma {:induction false} ExpandPair(dp: Table, s: string, i: int, j: int) returns (born: seq<Walk>)
    requires IsSquare(dp, |s|)
    requires 0 <= i < j < |s| && Decide(dp, s, i, j).PairEnds?
    ensures Children(dp, s, i, j) == [(i + 1, j - 1)]
    ensures WalksOf(dp, s, [(i + 1, j - 1)], born)
    ensures StackWeight([(i + 1, j - 1)]) < RangeWeight((i, j))
    ensures [(i, j)] + Visits(born) == Traverse(dp, s, i, j).visited
    ensures Traverse(dp, s, i, j).pairs == [(i, j)] + Pairs(born)
  {
    UnfoldPair(dp, s, i, j);
    var w := Traverse(dp, s, i + 1, j - 1);
    born := [w];
    OneWalk(w);
    OneRange((i + 1, j - 1));
  }

  lemma {:induction false} ExpandSplit(dp: Table, s: string, i: int, j: int) returns (born: seq<Walk>)
    requires IsSquare(dp, |s|)
    requires 0 <= i < j < |s| && Decide(dp, s, i, j).Split?
    ensures var k := Decide(dp, s, i, j).k;
      Children(dp, s, i, j) == [(k + 1, j), (i, k)] &&
      WalksOf(dp, s, [(k + 1, j), (i, k)], born) &&
      StackWeight([(k + 1, j), (i, k)]) < RangeWeight((i, j))
    ensures [(i, j)] + Visits(born) == Traverse(dp, s, i, j).visited
    ensures Traverse(dp, s, i, j).pairs == [] + Pairs(born)
  {
    var k := Decide(dp, s, i, j).k;
    UnfoldSplit(dp, s, i, j);
    var l, r := Traverse(dp, s, i, k), Traverse(dp, s, k + 1, j);
    born := [r, l];
    TwoWalks(r, l);
    TwoRanges((k + 1, j), (i, k));
    Regroup([(i, j)], l.visited, r.visited);
    Unit(Pairs(born));
  }

  lemma {:induction false} ExpandNone(dp: Table, s: string, i: int, j: int) returns (born: seq<Walk>)
    requires IsSquare(dp, |s|)
    requires 0 <= i < j < |s| && Decide(dp, s, i, j).NoSplit?
    ensures Children(dp, s, i, j) == []
    ensures WalksOf(dp, s, [], born)
    ensures [(i, j)] + Visits(born) == Traverse(dp, s, i, j).visited
    ensures Traverse(dp, s, i, j).pairs == [] + Pairs(born)
  {
    born := [];
    assert Traverse(dp, s, i, j).visited == [(i, j)];
    assert Traverse(dp, s, i, j).pairs == [];
  }

  /** The walk of a skipping branch: (i, j), then the walk of the one range it pushes. */
  lemma {:induction false} UnfoldOne(dp: Table, s: string, i: int, j: int, r: Range)
    requires IsSquare(dp, |s|)
    requires 0 <= i < j < |s|
    requires var step := Decide(dp, s, i, j);
      (step.SkipI? && r == (i + 1, j)) || (step.SkipJ? && r == (i, j - 1))
    ensures Children(dp, s, i, j) == [r]
    ensures 0 <= r.0 <= r.1 + 1 <= |s| && RangeWeight(r) < RangeWeight((i, j))
    ensures Traverse(dp, s, i, j).visited == [(i, j)] + Traverse(dp, s, r.0, r.1).visited
    ensures Traverse(dp, s, i, j).pairs == Traverse(dp, s, r.0, r.1).pairs
  {
  }

  /** The walk of the pairing branch: (i, j) visited and paired, then the inner range's walk. */
  lemma {:induction false} UnfoldPair(dp: Table, s: string, i: int, j: int)
    requires IsSquare(dp, |s|)
    requires 0 <= i < j < |s| && Decide(dp, s, i, j).PairEnds?
    ensures Children(dp, s, i, j) == [(i + 1, j - 1)]
    ensures 0 <= i + 1 <= j - 1 + 1 <= |s| && RangeWeight((i + 1, j - 1)) < RangeWeight((i, j))
    ensures Traverse(dp, s, i, j).visited == [(i, j)] + Traverse(dp, s, i + 1, j - 1).visited
    ensures Traverse(dp, s, i, j).pairs == [(i, j)] + Traverse(dp, s, i + 1, j - 1).pairs
  {
  }

  /** The walk of a bifurcation: (i, j), then the left part's walk, then the right part's. */
  lemma {:induction false} UnfoldSplit(dp: Table, s: string, i: int, j: int)
    requires IsSquare(dp, |s|)
    requires 0 <= i < j < |s| && Decide(dp, s, i, j).Split?
    ensures var k := Decide(dp, s, i, j).k;
      Children(dp, s, i, j) == [(k + 1, j), (i, k)] &&
      0 <= i <= k < j < |s| &&
      RangeWeight((k + 1, j)) + RangeWeight((i, k)) < RangeWeight((i, j)) &&
      Traverse(dp, s, i, j).visited == [(i, j)] + Traverse(dp, s, i, k).visited + Traverse(dp, s, k + 1, j).visited &&
      Traverse(dp, s, i, j).pairs == Traverse(dp, s, i, k).pairs + Traverse(dp, s, k + 1, j).pairs &&
      Traverse(dp, s, i, j).brackets == Traverse(dp, s, i, k).brackets + Traverse(dp, s, k + 1, j).brackets
  {
  }

  lemma {:induction false} OneWalk(w: Walk)
    ensures Visits([w]) == w.visited && Pairs([w]) == w.pairs
  {
    assert [w][..0] == [];
    Unit(w.visited);
    Unit(w.pairs);
  }

  lemma {:induction false} TwoWalks(a: Walk, b: Walk)
    ensures Visits([a, b]) == b.visited + a.visited && Pairs([a, b]) == b.pairs + a.pairs
  {
    assert [a, b][..1] == [a];
    OneWalk(a);
  }

  lemma {:induction false} OneRange(r: Range)
    ensures StackWeight([r]) == RangeWeight(r)
  {
    assert [r][..0] == [];
  }

  lemma {:induction false} TwoRanges(a: Range, b: Range)
    ensures StackWeight([a, b]) == RangeWeight(a) + RangeWeight(b)
  {
    assert [a, b][..1] == [a];
    OneRange(a);
  }

  /** Recording (i, j) and replacing its walk by the walks it pushes keeps the visits in order. */
  lemma {:induction false} VisitStep<T>(done: seq<T>, x: T, bornv: seq<T>, tv: seq<T>, rest: seq<T>)
    requires [x] + bornv == tv
    ensures (done + [x]) + (bornv + rest) == done + (tv + rest)
  {
    Regroup([x], bornv, rest);
    Regroup(done, [x], bornv + rest);
  }

  /** Marking (i, j) now, when the branch pairs it, leaves the same picture to draw. */
  lemma {:induction false} MarkStep(c: string, p: Range, paired: bool, tp: seq<Range>, bp: seq<Range>, rest: seq<Range>)
    requires tp == (if paired then [p] else []) + bp
    ensures RenderOnto(if paired then Mark(c, p) else c, bp + rest) == RenderOnto(c, tp + rest)
  {
    if paired {
      Regroup([p], bp, rest);
      RenderOntoCons(c, p, bp + rest);
    } else {
      Unit(bp);
    }
  }

  lemma {:induction false} WholeCanvas(c: string, b: string)
    requires |b| == |c|
    ensures c[..0] + b + c[|c|..] == b
  {
  }

  lemma {:induction false} Unit<T>(a: seq<T>)
    ensures a + [] == a && [] + a == a
  {
  }

  lemma {:induction false} Regroup<T>(a: seq<T>, b: seq<T>, c: seq<T>)
    ensures a + (b + c) == (a + b) + c
  {
  }

  /** The `for k in range(i + 1, j)` search with its `break`: the first split point whose
      halves add up to dp[i][j], or j when there is none. */
  method FindSplit(dp: Table, i: int, j: int) returns (k: int)
    requires IsSquare(dp, |dp|)
    requires 0 <= i < j < |dp|
    ensures k == FirstSplit(dp, i, j, i + 1)
  {
    k := i + 1;
    while k < j
      invariant i + 1 <= k <= j
      invariant FirstSplit(dp, i, j, k) == FirstSplit(dp, i, j, i + 1)
    {
      if dp[i][k] + dp[k + 1][j] == dp[i][j] {
        return;
      }
      k := k + 1;
    }
  }

  /** The loop body for a popped range i < j: the branch the table selects, the ranges it
      pushes and the structure after it (with i and j marked when it pairs them). */
  method ExpandRange(dp: Table, s: string, i: int, j: int, structure: string)
    returns (pushed: seq<Range>, marked: string)
    requires IsSquare(dp, |s|) && |structure| == |s|
    requires 0 <= i < j < |s|
    ensures pushed == Children(dp, s, i, j)
    ensures marked == if Decide(dp, s, i, j).PairEnds? then Mark(structure, (i, j)) else structure
  {
    marked := structure;
    if dp[i + 1][j] == dp[i][j] {
      pushed := [(i + 1, j)];
    } else if dp[i][j - 1] == dp[i][j] {
      pushed := [(i, j - 1)];
    } else if dp[i + 1][j - 1] + 1 == dp[i][j] && Complement(s[i]) == Some(s[j]) {
      marked := structure[i := '('][j := ')'];
      pushed := [(i + 1, j - 1)];
    } else {
      var k := FindSplit(dp, i, j);
      if k < j {
        pushed := [(k + 1, j), (i, k)];
      } else {
        pushed := [];
      }
    }
  }

  /** The walk's stack of ranges: pops a range, skips it when it is empty or a single base,
      records it otherwise and pushes the sub-ranges of the branch the table selects. */
  method StackBasedBacktrace(dp: Table, s: string) returns (structure: string, visited: seq<Range>)
    requires IsSquare(dp, |s|)
    ensures structure == Traverse(dp, s, 0, |s| - 1).brackets
    ensures visited == Traverse(dp, s, 0, |s| - 1).visited
  {
    var n := |s|;
    structure := Dots(n);
    var stack := [(0, n - 1)];
    visited := [];
    ghost var whole := Traverse(dp, s, 0, n - 1);
    ghost var walks := [whole];
    OneWalk(whole);
    Unit(whole.visited);
    while stack != []
      invariant WalksOf(dp, s, stack, walks)
      invariant |structure| == n
      invariant visited + Visits(walks) == whole.visited
      invariant RenderOnto(structure, Pairs(walks)) == RenderOnto(Dots(n), whole.pairs)
      decreases StackWeight(stack)
    {
      var top := stack[|stack| - 1];
      var i, j := top.0, top.1;
      PopRange(dp, s, stack, walks);
      stack := stack[..|stack| - 1];
      walks := walks[..|walks| - 1];
      if i >= j {
        EmptyWalk(dp, s, i, j);
        Unit(Visits(walks));
        Unit(Pairs(walks));
        continue;
      }
      ghost var born := Expand(dp, s, i, j);
      PushRanges(dp, s, stack, walks, Children(dp, s, i, j), born);
      VisitStep(visited, (i, j), Visits(born), Traverse(dp, s, i, j).visited, Visits(walks));
      MarkStep(structure, (i, j), Decide(dp, s, i, j).PairEnds?, Traverse(dp, s, i, j).pairs,
               Pairs(born), Pairs(walks));
      visited := visited + [(i, j)];
      var pushed;
      pushed, structure := ExpandRange(dp, s, i, j, structure);
      stack := stack + pushed;
      walks := walks + born;
    }
    RenderTraverse(dp, s, Dots(n), 0, n - 1, n);
    WholeCanvas(Dots(n), whole.brackets);
    Unit(visited);
    Unit(whole.pairs);
  }

  /** Marking the walk's pairs on a canvas whose positions i..j are dots writes the walk's
      dot-bracket text there and leaves every other position alone (e is j + 1). */
  lemma {:induction false} RenderTraverse(dp: Table, s: string, c: string, i: int, j: int, e: int)
    requires IsSquare(dp, |s|) && |c| == |s|
    requires 0 <= i <= j + 1 <= |s| && e == j + 1
    requires forall x :: i <= x <= j ==> c[x] == '.'
    ensures RenderOnto(c, Traverse(dp, s, i, j).pairs) == c[..i] + Traverse(dp, s, i, j).brackets + c[e..]
    decreases j - i + 1, 3
  {
    if i >= j || Decide(dp, s, i, j).NoSplit? {
      DotsInPlace(c, i, j);
    } else if Decide(dp, s, i, j).SkipI? {
      RenderSkipI(dp, s, c, i, j, e);
    } else if Decide(dp, s, i, j).SkipJ? {
      RenderSkipJ(dp, s, c, i, j, e);
    } else if Decide(dp, s, i, j).PairEnds? {
      RenderPair(dp, s, c, i, j, e);
    } else {
      UnfoldSplit(dp, s, i, j);
      RenderSplit(dp, s, c, i, Decide(dp, s, i, j).k, j, e);
    }
  }

  lemma {:induction false} RenderSkipI(dp: Table, s: string, c: string, i: int, j: int, e: int)
    requires IsSquare(dp, |s|) && |c| == |s|
    requires 0 <= i < j < |s| && e == j + 1 && Decide(dp, s, i, j).SkipI?
    requires forall x :: i <= x <= j ==> c[x] == '.'
    ensures RenderOnto(c, Traverse(dp, s, i, j).pairs) == c[..i] + Traverse(dp, s, i, j).brackets + c[e..]
    decreases j - i + 1, 2
  {
    var w, v := Traverse(dp, s, i, j), Traverse(dp, s, i + 1, j);
    assert w.pairs == v.pairs && w.brackets == "." + v.brackets;
    RenderTraverse(dp, s, c, i + 1, j, e);
    PrependDot(c, i, e, v.brackets);
  }

  lemma {:induction false} RenderSkipJ(dp: Table, s: string, c: string, i: int, j: int, e: int)
    requires IsSquare(dp, |s|) && |c| == |s|
    requires 0 <= i < j < |s| && e == j + 1 && Decide(dp, s, i, j).SkipJ?
    requires forall x :: i <= x <= j ==> c[x] == '.'
    ensures RenderOnto(c, Traverse(dp, s, i, j).pairs) == c[..i] + Traverse(dp, s, i, j).brackets + c[e..]
    decreases j - i + 1, 2
  {
    var w, v := Traverse(dp, s, i, j), Traverse(dp, s, i, j - 1);
    assert w.pairs == v.pairs && w.brackets == v.brackets + ".";
    RenderTraverse(dp, s, c, i, j - 1, j);
    AppendDot(c, i, j, e, v.brackets);
  }

  lemma {:induction false} RenderPair(dp: Table, s: string, c: string, i: int, j: int, e: int)
    requires IsSquare(dp, |s|) && |c| == |s|
    requires 0 <= i < j < |s| && e == j + 1 && Decide(dp, s, i, j).PairEnds?
    requires forall x :: i <= x <= j ==> c[x] == '.'
    ensures RenderOnto(c, Traverse(dp, s, i, j).pairs) == c[..i] + Traverse(dp, s, i, j).brackets + c[e..]
    decreases j - i + 1, 2
  {
    var w, v := Traverse(dp, s, i, j), Traverse(dp, s, i + 1, j - 1);
    var c' := Mark(c, (i, j));
    assert w.pairs == [(i, j)] + v.pairs && w.brackets == "(" + v.brackets + ")";
    RenderOntoCons(c, (i, j), v.pairs);
    Enclose(c, i, j, e, v.brackets);
    RenderTraverse(dp, s, c', i + 1, j - 1, j);
  }

  lemma {:induction false} RenderSplit(dp: Table, s: string, c: string, i: int, k: int, j: int, e: int)
    requires IsSquare(dp, |s|) && |c| == |s|
    requires 0 <= i <= k < j < |s| && e == j + 1
    requires Traverse(dp, s, i, j).pairs == Traverse(dp, s, i, k).pairs + Traverse(dp, s, k + 1, j).pairs
    requires Traverse(dp, s, i, j).brackets == Traverse(dp, s, i, k).brackets + Traverse(dp, s, k + 1, j).brackets
    requires forall x :: i <= x <= j ==> c[x] == '.'
    ensures RenderOnto(c, Traverse(dp, s, i, j).pairs) == c[..i] + Traverse(dp, s, i, j).brackets + c[e..]
    decreases j - i + 1, 2
  {
    RenderHalves(dp, s, c, i, k, j, e);
    SplitDrawn(c, i, e, Traverse(dp, s, i, j), Traverse(dp, s, i, k), Traverse(dp, s, k + 1, j));
  }

  lemma {:induction false} SplitDrawn(c: string, i: int, e: int, w: Walk, l: Walk, r: Walk)
    requires 0 <= i <= e <= |c|
    requires w.pairs == l.pairs + r.pairs && w.brackets == l.brackets + r.brackets
    requires RenderOnto(c, l.pairs + r.pairs) == c[..i] + (l.brackets + r.brackets) + c[e..]
    ensures RenderOnto(c, w.pairs) == c[..i] + w.brackets + c[e..]
  {
  }

  /** Two neighbouring walks drawn one after the other on a blank canvas. */
  lemma {:induction false} RenderHalves(dp: Table, s: string, c: string, i: int, k: int, j: int, e: int)
    requires IsSquare(dp, |s|) && |c| == |s|
    requires 0 <= i <= k < j < |s| && e == j + 1
    requires forall x :: i <= x <= j ==> c[x] == '.'
    ensures RenderOnto(c, Traverse(dp, s, i, k).pairs + Traverse(dp, s, k + 1, j).pairs) ==
      c[..i] + (Traverse(dp, s, i, k).brackets + Traverse(dp, s, k + 1, j).brackets) + c[e..]
    decreases j - i + 1, 1
  {
    var c1 := RenderLeft(dp, s, c, i, k, j);
    RenderRight(dp, s, c, c1, i, k, j, e);
  }

  /** The left part of a bifurcation drawn on the blank canvas; its right part stays blank. */
  lemma {:induction false} RenderLeft(dp: Table, s: string, c: string, i: int, k: int, j: int)
    returns (c1: string)
    requires IsSquare(dp, |s|) && |c| == |s|
    requires 0 <= i <= k < j < |s|
    requires forall x :: i <= x <= j ==> c[x] == '.'
    ensures |c1| == |c| && c1 == RenderOnto(c, Traverse(dp, s, i, k).pairs)
    ensures c1 == c[..i] + Traverse(dp, s, i, k).brackets + c[k + 1..]
    ensures forall x :: k + 1 <= x <= j ==> c1[x] == '.'
    decreases j - i + 1, 0
  {
    RenderTraverse(dp, s, c, i, k, k + 1);
    c1 := c[..i] + Traverse(dp, s, i, k).brackets + c[k + 1..];
    assert c1[k + 1..] == c[k + 1..];
  }

  /** The right part of a bifurcation drawn after the left one completes the picture. */
  lemma {:induction false} RenderRight(dp: Table, s: string, c: string, c1: string, i: int, k: int, j: int, e: int)
    requires IsSquare(dp, |s|) && |c| == |s|
    requires 0 <= i <= k < j < |s| && e == j + 1
    requires |c1| == |c| && c1 == RenderOnto(c, Traverse(dp, s, i, k).pairs)
    requires c1 == c[..i] + Traverse(dp, s, i, k).brackets + c[k + 1..]
    requires forall x :: k + 1 <= x <= j ==> c1[x] == '.'
    ensures RenderOnto(c, Traverse(dp, s, i, k).pairs + Traverse(dp, s, k + 1, j).pairs) ==
      c[..i] + (Traverse(dp, s, i, k).brackets + Traverse(dp, s, k + 1, j).brackets) + c[e..]
    decreases j - i + 1, 0
  {
    var l, r := Traverse(dp, s, i, k), Traverse(dp, s, k + 1, j);
    RenderTraverse(dp, s, c1, k + 1, j, e);
    Join(c, i, k, j, e, l.brackets, r.brackets, c1);
    RenderOntoAppend(c, l.pairs, r.pairs);
  }

  lemma {:induction false} DotsInPlace(c: string, i: int, j: int)
    requires 0 <= i <= j + 1 <= |c|
    requires forall x :: i <= x <= j ==> c[x] == '.'
    ensures c == c[..i] + Dots(j - i + 1) + c[j + 1..]
  {
  }

  lemma {:induction false} PrependDot(c: string, i: int, e: int, b: string)
    requires 0 <= i < e <= |c| && c[i] == '.'
    ensures c[..i + 1] + b + c[e..] == c[..i] + ("." + b) + c[e..]
  {
    assert c[..i + 1] == c[..i] + ".";
  }

  lemma {:induction false} AppendDot(c: string, i: int, j: int, e: int, b: string)
    requires 0 <= i < j < |c| && e == j + 1 && c[j] == '.'
    ensures c[..i] + b + c[j..] == c[..i] + (b + ".") + c[e..]
  {
    assert c[j..] == "." + c[e..];
  }

  lemma {:induction false} Enclose(c: string, i: int, j: int, e: int, b: string)
    requires 0 <= i < j < |c| && e == j + 1
    requires forall x :: i <= x <= j ==> c[x] == '.'
    ensures |Mark(c, (i, j))| == |c|
    ensures forall x :: i + 1 <= x <= j - 1 ==> Mark(c, (i, j))[x] == '.'
    ensures Mark(c, (i, j))[..i + 1] + b + Mark(c, (i, j))[j..] == c[..i] + ("(" + b + ")") + c[e..]
  {
    var c' := Mark(c, (i, j));
    assert c'[..i + 1] == c[..i] + "(";
    assert c'[j..] == ")" + c[e..];
  }

  lemma {:induction false} Join(c: string, i: int, k: int, j: int, e: int, lb: string, rb: string, c1: string)
    requires 0 <= i <= k < j < |c| && e == j + 1 && |lb| == k - i + 1
    requires c1 == c[..i] + lb + c[k + 1..]
    ensures c1[..k + 1] + rb + c1[e..] == c[..i] + (lb + rb) + c[e..]
  {
    assert c1[..k + 1] == c[..i] + lb;
    assert c1[e..] == c[e..];
  }
}
