/**
 * What happens to a sequence between the form and the engine: `handleSubmit` sends the
 * sequence exactly as typed once it passes the check (client/src/App.js), and the engine
 * pairs only upper-case bases (flask-server/nussinov_algorithm.py).
 */
module Submission {
  import opened Recurrence
  import opened TableFill
  import opened DotBracket
  import opened Nussinov
  import opened Validation

  /** The body of the request `handleSubmit` sends: the sequence unchanged, or nothing
      when the check rejects it. */
  function Request(s: string): (r: Option<string>)
    ensures r.Some? <==> HandleSubmitCheck(s) == Accepted
    ensures r.Some? ==> r.value == s
  {
    if HandleSubmitCheck(s) == Accepted then Some(s) else None
  }

  /** What is sent, for every input: the sequence exactly as typed, in whatever mix of
      cases, when it has at most MaxLength characters and all of them are base letters;
      nothing otherwise. */
  lemma SentAsTyped(s: string)
    ensures Request(s) == Some(s) <==>
      |s| <= MaxLength && forall x :: 0 <= x < |s| ==> IsBaseLetter(s[x])
    ensures Request(s) != Some(s) ==> Request(s) == None
  {
  }

  /** Lower-case input passes the check, is sent without being upper-cased, and the
      engine then finds no pair at all: an all-zero table and an all-dot structure. */
  lemma LowercaseIsAcceptedButUnpaired(dp: Table, s: string)
    requires Filled(dp, s)
    requires |s| <= MaxLength && forall x :: 0 <= x < |s| ==> s[x] in "aucg"
    ensures Request(s) == Some(s)
    ensures forall i, j :: 0 <= i < |s| && 0 <= j < |s| ==> dp[i][j] == 0
    ensures Structure(dp, s) == Dots(|s|)
  {
    assert forall x :: 0 <= x < |s| ==> IsBaseLetter(s[x]);
    forall i, j | 0 <= i < |s| && 0 <= j < |s|
      ensures dp[i][j] == 0
    {
      UnpairableIsZero(s, i, j);
    }
    StructureCounts(dp, s);
    UnpairableIsZero(s, 0, |s| - 1);
    forall x | 0 <= x < |s|
      ensures Structure(dp, s)[x] == '.'
    {
      StructureDrawsPairs(dp, s, x);
    }
  }
}
