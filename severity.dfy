/**
 * The severity levels shared by every exception of the library (Severity.java).
 * Lower numbers are more severe: FATAL is 1, DEBUG is 6.
 */
module Severity {
  const FATAL: int := 1
  const ERROR: int := 2
  const WARNING: int := 3
  const INFORMATIONAL: int := 4
  const SUCCESS: int := 5
  const DEBUG: int := 6

  /** One-letter tag of a severity; anything outside the six levels reads as "E". */
  function AsString(severity: int): string
  {
    if severity == FATAL then "F"
    else if severity == ERROR then "E"
    else if severity == WARNING then "W"
    else if severity == INFORMATIONAL then "I"
    else if severity == SUCCESS then "S"
    else if severity == DEBUG then "D"
    else "E"
  }

  /**
   * Upper-casing of one character, as far as the six severity letters are concerned:
   * ASCII letters, LATIN SMALL LETTER LONG S (upper case 'S') and LATIN SMALL LETTER
   * DOTLESS I (upper case 'I'). Every other character is left alone; no other character
   * upper-cases to one of F, E, W, I, S, D.
   */
  function ToUpperCase(c: char): char
  {
    if 'a' <= c <= 'z' then (c as int - 32) as char
    else if c == 'ſ' then 'S'
    else if c == 'ı' then 'I'
    else c
  }

  /** The level named by the first character of a non-empty string, ignoring case; ERROR otherwise. */
  function AsInt(severityStr: string): int
    requires |severityStr| > 0
  {
    var c := ToUpperCase(severityStr[0]);
    if c == 'F' then FATAL
    else if c == 'E' then ERROR
    else if c == 'W' then WARNING
    else if c == 'I' then INFORMATIONAL
    else if c == 'S' then SUCCESS
    else if c == 'D' then DEBUG
    else ERROR
  }

  predicate IsFailure(severity: int)
  {
    severity <= WARNING
  }

  predicate IsSuccess(severity: int)
  {
    !IsFailure(severity)
  }

  /** "At or above" in degree of seriousness, which is "at or below" numerically. */
  predicate AtOrAbove(severity: int, threshold: int)
  {
    severity <= threshold
  }

  predicate IsLevel(severity: int)
  {
    FATAL <= severity <= DEBUG
  }

  /** The letter tags are a faithful encoding of the six levels: decoding a tag gives the level back. */
  lemma AsIntInvertsAsString(severity: int)
    ensures |AsString(severity)| == 1
    ensures IsLevel(severity) ==> AsInt(AsString(severity)) == severity
    ensures !IsLevel(severity) ==> AsInt(AsString(severity)) == ERROR
  {
  }

  /** Decoding followed by encoding gives the upper-cased first letter when it names a level, "E" otherwise. */
  lemma AsStringAfterAsInt(severityStr: string)
    requires |severityStr| > 0
    ensures ToUpperCase(severityStr[0]) in "FEWISD" ==> AsString(AsInt(severityStr)) == [ToUpperCase(severityStr[0])]
    ensures ToUpperCase(severityStr[0]) !in "FEWISD" ==> AsString(AsInt(severityStr)) == "E"
  {
  }

  /** Only the first character matters, and its case does not. */
  lemma AsIntReadsFirstLetterOnly(s: string, t: string)
    requires |s| > 0 && |t| > 0
    requires ToUpperCase(s[0]) == ToUpperCase(t[0])
    ensures AsInt(s) == AsInt(t)
  {
  }

  /** Every level decodes from its lower-case letter as well as its upper-case one. */
  lemma AsIntCaseInsensitive()
    ensures AsInt("f") == FATAL && AsInt("e") == ERROR && AsInt("w") == WARNING
    ensures AsInt("i") == INFORMATIONAL && AsInt("s") == SUCCESS && AsInt("d") == DEBUG
    ensures AsInt("fatal") == FATAL && AsInt("Info") == INFORMATIONAL && AsInt("x") == ERROR
  {
  }

  /** FATAL, ERROR and WARNING are the failures; the other three levels are successes. */
  lemma FailureLevels(severity: int)
    requires IsLevel(severity)
    ensures IsFailure(severity) <==> severity in {FATAL, ERROR, WARNING}
    ensures IsSuccess(severity) <==> severity in {INFORMATIONAL, SUCCESS, DEBUG}
  {
  }

  /** A severity is a failure exactly when it is at or above WARNING. */
  lemma FailureIsAtOrAboveWarning(severity: int)
    ensures IsFailure(severity) <==> AtOrAbove(severity, WARNING)
  {
  }

  /** AtOrAbove is a total preorder, and the example in its documentation holds. */
  lemma AtOrAboveIsTotalOrder(a: int, b: int, c: int)
    ensures AtOrAbove(a, a)
    ensures AtOrAbove(a, b) || AtOrAbove(b, a)
    ensures AtOrAbove(a, b) && AtOrAbove(b, c) ==> AtOrAbove(a, c)
    ensures AtOrAbove(a, b) && AtOrAbove(b, a) ==> a == b
    ensures !AtOrAbove(INFORMATIONAL, WARNING) && AtOrAbove(INFORMATIONAL, DEBUG)
  {
  }
}
