/**
 * The three brace pairs of the compiler's code walker
 * (`BRACE_PAIRS`, cipcc/parser.py) and `_paired_brace`.
 */
module Braces {
  import opened Wrappers

  /** `BRACE_START_CHARS`. */
  const BraceStartChars: seq<char> := ['{', '[', '(']
  /** `BRACE_END_CHARS`, in the same order as their opening braces. */
  const BraceEndChars: seq<char> := ['}', ']', ')']

  predicate IsOpening(c: char) {
    c == '{' || c == '[' || c == '('
  }

  predicate IsClosing(c: char) {
    c == '}' || c == ']' || c == ')'
  }

  /** `list.index`: the first position of c, or nothing (`ValueError`). */
  function IndexOf(s: seq<char>, c: char): (r: Option<nat>)
    ensures r.Some? ==> r.value < |s| && s[r.value] == c && c !in s[..r.value]
    ensures r.None? <==> c !in s
  {
    if |s| == 0 then None
    else if s[0] == c then Some(0)
    else
      match IndexOf(s[1..], c)
      case None => None
      case Some(i) =>
        assert s[..i + 1] == [s[0]] + s[1..][..i];
        Some(i + 1)
  }

  /** The `ValueError` of a character that is no brace. */
  datatype NotABrace = NotABrace(c: char)

  /** `_paired_brace(char)`: the other brace of the pair. */
  function PairedBrace(c: char): (r: Result<char, NotABrace>)
    ensures r.Success? <==> IsOpening(c) || IsClosing(c)
    ensures r.Failure? ==> r.error == NotABrace(c)
    ensures IsOpening(c) ==> IsClosing(r.value)
    ensures IsClosing(c) ==> IsOpening(r.value)
  {
    match c
    case '{' => Success('}')
    case '[' => Success(']')
    case '(' => Success(')')
    case '}' => Success('{')
    case ']' => Success('[')
    case ')' => Success('(')
    case _ => Failure(NotABrace(c))
  }

  /**
   * The pairing is the source's lookup by position: an opening brace
   * gives the closing brace at its position in the lists, a closing
   * brace the opening one, and any other character `ValueError`.
   */
  lemma PairedBraceByPosition(c: char)
    ensures IndexOf(BraceStartChars, c).Some? ==>
      PairedBrace(c) == Success(BraceEndChars[IndexOf(BraceStartChars, c).value])
    ensures IndexOf(BraceStartChars, c).None? && IndexOf(BraceEndChars, c).Some? ==>
      PairedBrace(c) == Success(BraceStartChars[IndexOf(BraceEndChars, c).value])
    ensures IndexOf(BraceStartChars, c).None? && IndexOf(BraceEndChars, c).None? ==>
      PairedBrace(c) == Failure(NotABrace(c))
  {
    assert IsOpening(c) <==> c in BraceStartChars;
    assert IsClosing(c) <==> c in BraceEndChars;
  }

  /** Pairing twice gives back the brace: `_paired_brace` is an involution. */
  lemma PairedBraceInvolution(c: char)
    requires PairedBrace(c).Success?
    ensures PairedBrace(PairedBrace(c).value) == Success(c)
  {
  }
}
