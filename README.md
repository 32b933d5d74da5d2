# Nussinov RNA folding — a verified model

This project models the core of a small RNA secondary-structure predictor:

- `nussinov_algorithm` fills an n × n table bottom-up with the Nussinov maximum-base-pairing
  recurrence. `stack_based_backtrace` then walks the table with an explicit stack of ranges,
  writes `(` and `)` into a dot-bracket list and records every range it expands.
- The web form's `handleSubmit` checks the typed sequence before sending it: at most 20
  characters, and only A, U, C and G in either case.

Modules, one per part of the program:

- `Recurrence` (recurrence.dfy): the value of a cell as a pure function `Opt`, and its properties.
- `TableFill` (table_fill.dfy): the in-place fill over an `array2<int>`, proved to leave `Opt` in every cell.
- `DotBracket` (dot_bracket.dfy): the structure list, the bracket writes, and what balanced and non-crossing mean.
- `Traceback` (traceback.dfy): the stack walk as a method over a `seq` stack. It is proved equal to
  `Traverse`, the same walk written recursively, on any square table.
- `WalkFacts` (walk_facts.dfy): what every walk looks like, and, on a filled table, that it records
  exactly `dp[i][j]` eligible pairs.
- `Optimality` (optimality.dfy): `Opt` bounds every pseudoknot-free structure made of countable pairs.
- `Nussinov` (nussinov.dfy): the entry point and the facts about its three results.
- `Validation` (validation.dfy): the check at the top of `handleSubmit`.
- `Submission` (submission.dfy): how an accepted sequence reaches the engine.

## Model

| member | source | states |
|---|---|---|
| Recurrence.Complement | flask-server/nussinov_algorithm.py:38 | `pairs.get(c)` is defined exactly for the four upper-case bases, and it gives a different upper-case base; lower-case and other characters have no partner |
| Recurrence.MinLoopLength | flask-server/nussinov_algorithm.py:4 | `MIN_LOOP_LENGTH`, the constant 4 |
| Recurrence.PairBonus | flask-server/nussinov_algorithm.py:46 | the `+1` of the paired candidate: 1 when `pairs.get(s[i]) == s[j]` and `j - i > MIN_LOOP_LENGTH`, else 0 |
| Recurrence.PairBonusRule | flask-server/nussinov_algorithm.py:38-46 | the bonus is 0 or 1, and it is 1 exactly when (s[i], s[j]) is one of AU, UA, CG, GC in upper case and j - i > 4 |
| Recurrence.Max4 | flask-server/nussinov_algorithm.py:48 | `max(unpaired_i, unpaired_j, pair_ij, bifurcation)` on integers |
| Recurrence.Max4IsMax | flask-server/nussinov_algorithm.py:48 | the maximum is at least each of the four candidates and equal to one of them |
| Recurrence.Opt | flask-server/nussinov_algorithm.py:41-48 | the value of cell (i, j) as the recurrence defines it, never negative; 0 when i >= j |
| Recurrence.Bifurcation | flask-server/nussinov_algorithm.py:47 | `max(dp[i][k] + dp[k + 1][j] for k in range(i, m))` over the recurrence's values, built one split point at a time; what it bounds and attains is stated by the two lemmas below |
| Recurrence.BifurcationBoundsSplits | flask-server/nussinov_algorithm.py:47 | the bifurcation candidate is at least `dp[i][k] + dp[k+1][j]` for every k in `range(i, j)` |
| Recurrence.BifurcationAttained | flask-server/nussinov_algorithm.py:47 | some k in `range(i, j)` attains the bifurcation candidate (the range is never empty, so `default=0` is never used) |
| Recurrence.OptAttained | flask-server/nussinov_algorithm.py:48 | the optimum of a range i < j equals one of its four candidates |
| Recurrence.OptMonotone | flask-server/nussinov_algorithm.py:44-48 | a range never holds fewer pairs than any range inside it; in particular `dp[i][j] >= dp[i+1][j]` and `dp[i][j] >= dp[i][j-1]` |
| Recurrence.NoEligiblePairIsZero | flask-server/nussinov_algorithm.py:46 | a range in which no two positions may pair has value 0 |
| Recurrence.ShortRangeIsZero | flask-server/nussinov_algorithm.py:46 | every cell with `j - i <= MIN_LOOP_LENGTH` (4) is 0 |
| Recurrence.UnpairableIsZero | flask-server/nussinov_algorithm.py:38-46 | a sequence with no upper-case A, U, C or G has an all-zero table, because `pairs.get` misses |
| Recurrence.OptAtMostHalf | flask-server/nussinov_algorithm.py:41-48 | a range of m bases holds at most m / 2 pairs |
| TableFill.Rows | flask-server/nussinov_algorithm.py:53 | the returned list of rows is n × n and holds the array's cells |
| TableFill.TableBifurcation | flask-server/nussinov_algorithm.py:47 | the generator read off the array: at least `dp[i][k] + dp[k + 1][j]` for every k in `range(i, m)`, and equal to one of them |
| TableFill.TableBifurcationAgrees | flask-server/nussinov_algorithm.py:47 | once every shorter range holds its optimum, the `max(...)` generator read off the table equals the recurrence's bifurcation candidate |
| TableFill.CellIsOptimal | flask-server/nussinov_algorithm.py:44-48 | the value the fill writes into `dp[i][j]` is the optimum of (i, j) |
| TableFill.FilledTableShape | flask-server/nussinov_algorithm.py:37-48 | in the filled table, the diagonal and every cell below it stay 0, all cells are >= 0, cells grow along rows and columns, and every cell with `j - i <= 4` is 0 |
| TableFill.Fill | flask-server/nussinov_algorithm.py:36-48 | the length/start-index loops leave `Opt(s, i, j)` in every cell `dp[i, j]`, including the never-written cells, which stay 0 |
| DotBracket.Dots | flask-server/nussinov_algorithm.py:9 | the initial structure has one `.` per base |
| DotBracket.Mark | flask-server/nussinov_algorithm.py:24 | `structure[i], structure[j] = "(", ")"` on the text, for a pair inside it |
| DotBracket.MarkWrites | flask-server/nussinov_algorithm.py:24 | the write puts `)` at j, `(` at i unless i == j, and leaves the length and every other position unchanged |
| DotBracket.RenderOnto | flask-server/nussinov_algorithm.py:24 | the line-24 writes of a list of pairs, first to last; the length of the text never changes |
| DotBracket.NonCrossingAppend | flask-server/nussinov_algorithm.py:26-31 | pairings of the two halves of a split, one lying before the other, do not cross each other |
| DotBracket.NonCrossingEnclose | flask-server/nussinov_algorithm.py:23-25 | a pair enclosing a non-crossing pairing keeps it non-crossing |
| DotBracket.NonCrossingEndsDistinct | flask-server/nussinov_algorithm.py:24 | in a non-crossing pairing no position is written twice |
| DotBracket.RenderOntoAt | flask-server/nussinov_algorithm.py:24 | when no position is written twice, the structure shows `(` exactly at opening positions, `)` exactly at closing positions and the old text elsewhere |
| Traceback.FirstSplit | flask-server/nussinov_algorithm.py:27-31 | the `for k in range(i + 1, j)` search with `break` finds a k whose halves add up to `dp[i][j]`, or j when none does |
| Traceback.FirstSplitIsFirst | flask-server/nussinov_algorithm.py:27-31 | every k before the one found misses |
| Traceback.Decide | flask-server/nussinov_algorithm.py:19-31 | the branch taken for a popped range: a split point k that is found lies strictly inside (i, j) and its halves add up to `dp[i][j]` |
| Traceback.Children | flask-server/nussinov_algorithm.py:19-31 | the ranges the branch pushes, in push order: at most two, each inside (i, j) and strictly shorter, so the stack loop terminates |
| Traceback.Traverse | flask-server/nussinov_algorithm.py:13-31 | the walk of (i, j), written recursively: nothing for i >= j; otherwise (i, j) is recorded, then the branch of `Decide` is followed; a split walks (i, k), pushed last, before (k + 1, j); a pair records (i, j) before the inner walk |
| Traceback.PopRange | flask-server/nussinov_algorithm.py:14 | the popped range is the top of the stack, and its walk comes first among the pending walks |
| Traceback.PushRanges | flask-server/nussinov_algorithm.py:19-31 | the walks of pushed ranges come before the pending ones, and the stack weight adds up |
| Traceback.Expand | flask-server/nussinov_algorithm.py:17-31 | each expansion pushes ranges that weigh less than the popped one, so the loop terminates; the popped range followed by the walks of the pushed ones is the popped range's walk |
| Traceback.FindSplit | flask-server/nussinov_algorithm.py:27-31 | the search loop returns the first split point |
| Traceback.ExpandRange | flask-server/nussinov_algorithm.py:19-31 | the loop body pushes the ranges of the branch the table selects, and writes `(`/`)` at i and j only in the pairing branch |
| Traceback.StackBasedBacktrace | flask-server/nussinov_algorithm.py:6-33 | on any n × n table the stack loop returns the structure and the visited list of the recursive walk `Traverse` from (0, n - 1) |
| Traceback.RenderTraverse | flask-server/nussinov_algorithm.py:9-25 | writing a walk's pairs onto dots at i..j puts the walk's dot-bracket text there and changes nothing else |
| WalkFacts.WalkShaped | flask-server/nussinov_algorithm.py:13-31 | on any table, the walk of i..j writes j - i + 1 characters forming a balanced text with one `(` and one `)` per pair; its visited ranges and pairs lie in i..j, and its pairs never cross |
| WalkFacts.FirstSplitFinds | flask-server/nussinov_algorithm.py:27-31 | a matching split point bounds the first one found |
| WalkFacts.NeverNoSplit | flask-server/nussinov_algorithm.py:26-31 | on the filled table, the split search always finds a k, so no range is silently dropped |
| WalkFacts.FilledIsTraceable | flask-server/nussinov_algorithm.py:41-48 | the filled table is non-negative, zero on and below the diagonal and on short ranges, and never reaches the no-split case |
| WalkFacts.PairIsEligible | flask-server/nussinov_algorithm.py:23 | the pairing branch, which does not check the loop length, still only pairs complementary bases more than 4 apart |
| WalkFacts.WalkRecords | flask-server/nussinov_algorithm.py:19-31 | on a traceable table, the walk of i..j records exactly `dp[i][j]` pairs, each complementary and more than 4 apart |
| Optimality.PairingBound | flask-server/nussinov_algorithm.py:41-48 | no pseudoknot-free set of countable pairs on i..j has more pairs than the recurrence's value |
| Optimality.SequencePairing | flask-server/nussinov_algorithm.py:24 | a list of pairwise non-crossing countable pairs is such a set, with no repeated pair |
| Nussinov.NussinovAlgorithm | flask-server/nussinov_algorithm.py:35-53 | returns the filled table, and the structure and visited list of the walk from (0, n - 1) over it |
| Nussinov.Structure | flask-server/nussinov_algorithm.py:53 | the joined structure has one character per base |
| Nussinov.StructureCounts | flask-server/nussinov_algorithm.py:9-25 | the structure has length n and is balanced; its numbers of `(` and `)` both equal the pairs recorded, which is `Opt(s, 0, n - 1)` and `dp[0][n-1]` |
| Nussinov.StructurePairs | flask-server/nussinov_algorithm.py:23-25 | every recorded pair is complementary and more than 4 apart; no two pairs cross, and no position is written twice |
| Nussinov.StructureDrawsPairs | flask-server/nussinov_algorithm.py:9-24 | on any table, position x shows `(` iff a recorded pair opens at x, `)` iff one closes there, and `.` otherwise |
| Nussinov.OpeningIsMatched | flask-server/nussinov_algorithm.py:23-24 | every `(` at x is matched by a `)` at some y > x + 4 whose base is complementary to the one at x |
| Nussinov.VisitedRanges | flask-server/nussinov_algorithm.py:10-17 | `visited_cells` holds only ranges i < j inside the sequence; it is empty iff n < 2 and starts with (0, n - 1) otherwise |
| Nussinov.StructureIsPairing | flask-server/nussinov_algorithm.py:19-31 | the recorded pairs form a pseudoknot-free structure with no repeated pair |
| Nussinov.StructureIsMaximum | flask-server/nussinov_algorithm.py:35-53 | no pseudoknot-free structure of countable pairs has more pairs than the returned one |
| Validation.Utf16Length | client/src/App.js:14 | `sequence.length` counts between one and two UTF-16 units per character |
| Validation.PlaneZeroLength | client/src/App.js:14 | for characters of the Basic Multilingual Plane, `sequence.length` is the number of characters |
| Validation.IsBaseLetter | client/src/App.js:12 | the class `[AUCG]` under the `i` flag: a character matches iff its ASCII upper case is A, U, C or G, and every matching character is ASCII |
| Validation.MatchesBases | client/src/App.js:18 | `/^[AUCG]*$/i` matches iff every character is one of A, U, C, G, a, u, c, g |
| Validation.MaxLength | client/src/App.js:14 | the length bound 20 |
| Validation.LengthMessage | client/src/App.js:15 | the exact text of the length error |
| Validation.AlphabetMessage | client/src/App.js:19 | the exact text of the alphabet error |
| Validation.HandleSubmitCheck | client/src/App.js:12-21 | length above 20 gives the length message, and only then is the alphabet checked; a bad character gives the alphabet message; a sequence is accepted iff it has at most 20 characters, all of them base letters in either case |
| Validation.EmptyIsAccepted | client/src/App.js:12-21 | the empty sequence passes both checks |
| Validation.TooLongWins | client/src/App.js:14-16 | a sequence longer than 20 characters gets the length message whatever it contains |
| Submission.SentAsTyped | client/src/App.js:12-27 | for every input, the request carries the sequence exactly as typed, in any mix of cases, iff it has at most 20 characters and all are base letters; otherwise nothing is sent |
| Submission.LowercaseIsAcceptedButUnpaired | client/src/App.js:12-27 | an all-lower-case sequence of at most 20 bases is accepted and sent unchanged, yet the engine gives it an all-zero table and an all-dot structure |

## Left out

- app.py is not part of this model: the Flask route, JSON encoding and decoding, CORS, the debug output and the mapping of exceptions to HTTP 500 are request plumbing around the engine.
- The rest of `handleSubmit` and App.js is not modelled: the `fetch` call, the response handling, the React state setters, rendering, the input's `required` attribute and the styles. These are network, browser and UI behaviour. `Submission.Request` stands for the request body only.
- The commented-out test code at the end of flask-server/nussinov_algorithm.py is dead code.
- The table is a Python list of lists updated in place. `TableFill.Fill` models it as an `array2<int>`, and `TableFill.Rows` turns it into the returned rows. The structure list is modelled as a string updated in place, and `"".join` is its identity.
- Python integers are unbounded, like Dafny's `int`, so there is no overflow to model.
- Validation.Utf16Length: a JavaScript string may hold a lone surrogate, which a Dafny string cannot. For every other string the count is exact.
- Validation.IsBaseLetter: the `i` flag is modelled for the class `[AUCG]` only. No character outside ASCII case-folds onto these four letters under the non-Unicode flag, so nothing else matches.
- Behaviour the code does not have is not modelled: upper-case normalisation of the input, a configurable or zero minimum loop length (`MIN_LOOP_LENGTH` is the constant 4), a trace of the fill order, and recording of single-base ranges in `visited_cells`. The form's length limit is 20, as the code says.
- The fill's bifurcation starts at k = i and the backtrace's at k = i + 1, both as written. On a filled table the k = i split always has halves `dp[i][i] + dp[i+1][j] = dp[i+1][j]`, which the first branch already handles, so no split is missed (`WalkFacts.NeverNoSplit`).
- The tie-break order is the code's: skip i, then skip j, then pair i with j, then the lowest split point k.
