/**
 * The input check at the top of `handleSubmit` (client/src/App.js): first a bound on
 * JavaScript's `sequence.length`, then the case-insensitive regular expression
 * /^[AUCG]*$/i; the first check that fails decides the error message.
 */
module Validation {

  /** The longest sequence the form sends. */
  const MaxLength: int := 20

  const LengthMessage: string := "Please enter a valid RNA sequence (\U{2264} 20 characters)."
  const AlphabetMessage: string := "Invalid sequence! Please use only A, U, C, and G."

  /** Either the sequence goes to the server, or `setError` shows a message and nothing is sent. */
  datatype Verdict = Accepted | Rejected(message: string)

  /** `sequence.length`: UTF-16 code units, two for a character outside the Basic
      Multilingual Plane. */
  function Utf16Length(s: string): (n: nat)
    ensures |s| <= n <= 2 * |s|
  {
    if s == [] then 0
    else (if s[0] as int > 0xFFFF then 2 else 1) + Utf16Length(s[1..])
  }

  /** A string of Basic Multilingual Plane characters is as long in UTF-16 as it is. */
  lemma {:induction false} PlaneZeroLength(s: string)
    requires forall x :: 0 <= x < |s| ==> s[x] as int <= 0xFFFF
    ensures Utf16Length(s) == |s|
  {
    if s != [] {
      assert s[0] as int <= 0xFFFF;
      PlaneZeroLength(s[1..]);
    }
  }

  /** ASCII upper-casing, the case folding the `i` flag applies to letters. */
  function AsciiUpper(c: char): char
  {
    if 'a' <= c <= 'z' then (c as int - 32) as char else c
  }

  /** The character class [AUCG] under the `i` flag: a character matches when its upper
      case is one of the four letters. */
  predicate IsBaseLetter(c: char)
    ensures IsBaseLetter(c) <==> AsciiUpper(c) in "AUCG"
    ensures IsBaseLetter(c) ==> c as int < 0x80
  {
    c in "AUCGaucg"
  }

  /** /^[AUCG]*$/i.test(s), matching one character of the class at a time from the start
      until the end of the input. */
  function MatchesBases(s: string): (r: bool)
    ensures r <==> forall x :: 0 <= x < |s| ==> IsBaseLetter(s[x])
  {
    if s == [] then true
    else IsBaseLetter(s[0]) && MatchesBases(s[1..])
  }

  /** The check: the length bound first, the alphabet second. */
  function HandleSubmitCheck(s: string): (v: Verdict)
    ensures v == Rejected(LengthMessage) <==> Utf16Length(s) > MaxLength
    ensures v == Rejected(AlphabetMessage) <==>
      Utf16Length(s) <= MaxLength && exists x :: 0 <= x < |s| && !IsBaseLetter(s[x])
    ensures v == Accepted <==> |s| <= MaxLength && forall x :: 0 <= x < |s| ==> IsBaseLetter(s[x])
  {
    BaseLettersLength(s);
    if Utf16Length(s) > MaxLength then Rejected(LengthMessage)
    else if !MatchesBases(s) then Rejected(AlphabetMessage)
    else Accepted
  }

  /** A sequence of base letters is as long in UTF-16 as it is. */
  lemma BaseLettersLength(s: string)
    ensures MatchesBases(s) ==> Utf16Length(s) == |s|
  {
    if MatchesBases(s) {
      PlaneZeroLength(s);
    }
  }

  /** The empty sequence passes both checks. */
  lemma EmptyIsAccepted()
    ensures HandleSubmitCheck("") == Accepted
  {
  }

  /** A too-long sequence gets the length message whatever characters it holds. */
  lemma TooLongWins(s: string)
    requires |s| > MaxLength
    ensures HandleSubmitCheck(s) == Rejected(LengthMessage)
  {
  }
}
